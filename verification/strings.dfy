/** String operations of the Rust standard library (`split`, `replace`, `trim`, ...)
    over `string`, which is `seq<char>`. */
module Strings {

  /** Number of characters of `s` satisfying `p`. */
  function CountWhere(s: string, p: char -> bool): nat
  {
    if |s| == 0 then 0 else (if p(s[0]) then 1 else 0) + CountWhere(s[1..], p)
  }

  /** The characters of `s` that do not satisfy `p`, in order. */
  function RemoveWhere(s: string, p: char -> bool): (r: string)
    ensures forall i :: 0 <= i < |r| ==> !p(r[i])
    ensures |r| + CountWhere(s, p) == |s|
    ensures CountWhere(s, p) == 0 ==> r == s
  {
    if |s| == 0 then ""
    else if p(s[0]) then RemoveWhere(s[1..], p)
    else [s[0]] + RemoveWhere(s[1..], p)
  }

  /** Concatenation of a sequence of strings. */
  function Concat(ss: seq<string>): string
  {
    if |ss| == 0 then "" else ss[0] + Concat(ss[1..])
  }

  lemma ConcatAppend(a: seq<string>, b: seq<string>)
    ensures Concat(a + b) == Concat(a) + Concat(b)
  {
    if |a| > 0 {
      assert (a + b)[1..] == a[1..] + b;
      assert (a + b)[0] == a[0];
      ConcatAppend(a[1..], b);
      assert Concat(a + b) == a[0] + (Concat(a[1..]) + Concat(b));
    } else {
      assert a + b == b;
    }
  }

  /** `pieces.join(sep)` */
  function Join(pieces: seq<string>, sep: string): string
  {
    if |pieces| == 0 then ""
    else if |pieces| == 1 then pieces[0]
    else pieces[0] + sep + Join(pieces[1..], sep)
  }

  /** No character of any piece satisfies `p`. */
  predicate NoneSatisfy(pieces: seq<string>, p: char -> bool)
  {
    forall i, j :: 0 <= i < |pieces| && 0 <= j < |pieces[i]| ==> !p(pieces[i][j])
  }

  /** `s.split(p)` for a character predicate: the maximal runs between separators,
      empty runs included (so `""` gives `[""]`). */
  function SplitWhere(s: string, p: char -> bool): (pieces: seq<string>)
    ensures |pieces| == 1 + CountWhere(s, p)
    ensures NoneSatisfy(pieces, p)
    ensures Concat(pieces) == RemoveWhere(s, p)
  {
    if |s| == 0 then [""]
    else
      var rest := SplitWhere(s[1..], p);
      if p(s[0]) then [""] + rest
      else
        assert rest == [rest[0]] + rest[1..];
        [[s[0]] + rest[0]] + rest[1..]
  }

  /** Splitting a join over a separator character gives the pieces back,
      when no piece holds a separator. */
  lemma {:induction false} SplitWhereJoin(pieces: seq<string>, d: char, p: char -> bool)
    requires |pieces| >= 1
    requires p(d)
    requires NoneSatisfy(pieces, p)
    ensures SplitWhere(Join(pieces, [d]), p) == pieces
  {
    if |pieces| == 1 {
      SplitWhereNoSeparator(pieces[0], p);
    } else {
      var tail := Join(pieces[1..], [d]);
      SplitWhereJoin(pieces[1..], d, p);
      SplitWherePrefix(pieces[0], [d] + tail, p);
      assert ([d] + tail)[1..] == tail;
      assert pieces[0] + [d] + tail == pieces[0] + ([d] + tail);
    }
  }

  lemma {:induction false} SplitWhereNoSeparator(s: string, p: char -> bool)
    requires forall i :: 0 <= i < |s| ==> !p(s[i])
    ensures SplitWhere(s, p) == [s]
  {
    if |s| > 0 {
      SplitWhereNoSeparator(s[1..], p);
      assert [s[0]] + s[1..] == s;
    }
  }

  /** A separator-free prefix glues onto the first piece of what follows. */
  lemma {:induction false} SplitWherePrefix(a: string, b: string, p: char -> bool)
    requires forall i :: 0 <= i < |a| ==> !p(a[i])
    requires |b| > 0 && p(b[0])
    ensures SplitWhere(a + b, p) == [a] + SplitWhere(b[1..], p)
  {
    if |a| == 0 {
      assert a + b == b;
    } else {
      SplitWherePrefix(a[1..], b, p);
      assert a + b == [a[0]] + (a[1..] + b);
      SplitWhereCons(a[0], a[1..] + b, p);
      assert [a[0]] + a[1..] == a;
    }
  }

  /** A leading non-separator joins the first piece of the rest. */
  lemma SplitWhereCons(c: char, t: string, p: char -> bool)
    requires !p(c)
    ensures SplitWhere([c] + t, p) == [[c] + SplitWhere(t, p)[0]] + SplitWhere(t, p)[1..]
  {
    assert ([c] + t)[1..] == t;
  }

  /** `s` has `pat` at position `i`. */
  predicate OccursAt(s: string, pat: string, i: nat)
  {
    i + |pat| <= |s| && s[i..i + |pat|] == pat
  }

  /** `s.contains(pat)` */
  predicate ContainsStr(s: string, pat: string)
  {
    exists i: nat | i <= |s| :: OccursAt(s, pat, i)
  }

  /** `s.split(sep)` for a non-empty string separator: left-to-right,
      non-overlapping occurrences, empty pieces included. */
  function SplitStr(s: string, sep: string): (pieces: seq<string>)
    requires |sep| > 0
    ensures |pieces| >= 1
    decreases |s|
  {
    if |s| < |sep| then [s]
    else if s[..|sep|] == sep then [""] + SplitStr(s[|sep|..], sep)
    else
      var rest := SplitStr(s[1..], sep);
      [[s[0]] + rest[0]] + rest[1..]
  }

  /** Joining the pieces of a split with the same separator restores the input. */
  lemma {:induction false} JoinSplitStr(s: string, sep: string)
    requires |sep| > 0
    ensures Join(SplitStr(s, sep), sep) == s
    decreases |s|
  {
    if |s| < |sep| {
    } else if s[..|sep|] == sep {
      var rest := SplitStr(s[|sep|..], sep);
      JoinSplitStr(s[|sep|..], sep);
      assert ([""] + rest)[1..] == rest;
      assert s == s[..|sep|] + s[|sep|..];
    } else {
      var rest := SplitStr(s[1..], sep);
      JoinSplitStr(s[1..], sep);
      JoinGlueFirst([s[0]], rest, sep);
      assert s == [s[0]] + s[1..];
    }
  }

  /** Prepending to the first piece prepends to the join. */
  lemma JoinGlueFirst(x: string, pieces: seq<string>, sep: string)
    requires |pieces| >= 1
    ensures Join([x + pieces[0]] + pieces[1..], sep) == x + Join(pieces, sep)
  {
    var r := [x + pieces[0]] + pieces[1..];
    assert r[1..] == pieces[1..];
    if |pieces| > 1 {
      assert Join(r, sep) == (x + pieces[0]) + sep + Join(pieces[1..], sep);
    }
  }

  /** A string with no occurrence of the separator is a single piece. */
  lemma {:induction false} SplitStrNoOccurrence(s: string, sep: string)
    requires |sep| > 0
    requires !ContainsStr(s, sep)
    ensures SplitStr(s, sep) == [s]
    decreases |s|
  {
    if |s| >= |sep| {
      assert !OccursAt(s, sep, 0);
      assert s[0..|sep|] == s[..|sep|];
      forall i: nat | OccursAt(s[1..], sep, i)
        ensures false
      {
        assert s[1..][i..i + |sep|] == s[i + 1..i + 1 + |sep|];
        assert OccursAt(s, sep, i + 1);
      }
      SplitStrNoOccurrence(s[1..], sep);
      assert [s[0]] + s[1..] == s;
    }
  }

  /** `s.replace(pat, rep)` for a non-empty pattern: every left-to-right,
      non-overlapping occurrence of `pat` becomes `rep`. */
  function ReplaceStr(s: string, pat: string, rep: string): string
    requires |pat| > 0
  {
    Join(SplitStr(s, pat), rep)
  }

  /** Replacing a pattern that does not occur changes nothing; replacing a pattern
      by itself changes nothing either. */
  lemma ReplaceStrIdentity(s: string, pat: string, rep: string)
    requires |pat| > 0
    requires !ContainsStr(s, pat) || rep == pat
    ensures ReplaceStr(s, pat, rep) == s
  {
    if !ContainsStr(s, pat) {
      SplitStrNoOccurrence(s, pat);
    } else {
      JoinSplitStr(s, pat);
    }
  }

  /** A leading occurrence of the pattern becomes the replacement. */
  lemma ReplaceStrPat(pat: string, u: string, rep: string)
    requires |pat| > 0
    ensures ReplaceStr(pat + u, pat, rep) == rep + ReplaceStr(u, pat, rep)
  {
    var s := pat + u;
    assert s[..|pat|] == pat && s[|pat|..] == u;
    var rest := SplitStr(u, pat);
    assert SplitStr(s, pat) == [""] + rest;
    assert ([""] + rest)[1..] == rest;
  }

  /** A text that does not start with the pattern keeps its first character. */
  lemma ReplaceStrCons(t: string, pat: string, rep: string)
    requires |pat| > 0 && |t| > 0
    requires !(|t| >= |pat| && t[..|pat|] == pat)
    ensures ReplaceStr(t, pat, rep) == [t[0]] + ReplaceStr(t[1..], pat, rep)
  {
    JoinGlueFirst([t[0]], SplitStr(t[1..], pat), rep);
  }

  /** `s.replace(c, rep)` for a single character pattern. */
  function ReplaceChar(s: string, c: char, rep: string): (r: string)
    ensures c !in rep ==> c !in r
    ensures c !in s ==> r == s
    ensures forall d :: d in r ==> d in s || d in rep
  {
    if |s| == 0 then ""
    else (if s[0] == c then rep else [s[0]]) + ReplaceChar(s[1..], c, rep)
  }

  /** Replacement distributes over concatenation. */
  lemma {:induction false} ReplaceCharAppend(s: string, t: string, c: char, rep: string)
    ensures ReplaceChar(s + t, c, rep) == ReplaceChar(s, c, rep) + ReplaceChar(t, c, rep)
  {
    if |s| > 0 {
      assert (s + t)[1..] == s[1..] + t;
      ReplaceCharAppend(s[1..], t, c, rep);
    } else {
      assert s + t == t;
    }
  }

  /** A string without the separator's first character holds no occurrence of it. */
  lemma NoLeadNoOccurrence(s: string, sep: string)
    requires |sep| > 0 && sep[0] !in s
    ensures !ContainsStr(s, sep)
    ensures SplitStr(s, sep) == [s]
  {
    forall i: nat | i <= |s|
      ensures !OccursAt(s, sep, i)
    {
      if i + |sep| <= |s| {
        assert s[i..i + |sep|][0] == s[i];
      }
    }
    SplitStrNoOccurrence(s, sep);
  }

  /** A prefix without the separator's first character, followed by the separator,
      is the first piece of the split. */
  lemma {:induction false} SplitStrFirst(a: string, sep: string, b: string)
    requires |sep| > 0 && sep[0] !in a
    ensures SplitStr(a + sep + b, sep) == [a] + SplitStr(b, sep)
    decreases |a|
  {
    var s := a + sep + b;
    if |a| == 0 {
      assert s == sep + b;
      assert s[..|sep|] == sep && s[|sep|..] == b;
    } else {
      assert s[0] == a[0] && a[0] != sep[0];
      assert s[..|sep|] != sep by {
        assert s[..|sep|][0] == s[0];
      }
      assert s[1..] == a[1..] + sep + b;
      SplitStrFirst(a[1..], sep, b);
      assert [a[0]] + a[1..] == a;
    }
  }

  /** `s.trim()`: removes leading and trailing characters satisfying `ws`. */
  function Trim(s: string, ws: char -> bool): (r: string)
    ensures |r| > 0 ==> !ws(r[0]) && !ws(r[|r| - 1])
    ensures |r| <= |s|
    ensures (|s| == 0 || (!ws(s[0]) && !ws(s[|s| - 1]))) ==> r == s
    ensures exists i: nat :: TrimmedAt(s, ws, i, r)
    ensures |r| == 0 <==> forall k :: 0 <= k < |s| ==> ws(s[k])
  {
    var t := TrimStart(s, ws);
    var r := TrimEnd(t, ws);
    TrimFacts(s, ws, t, r);
    r
  }

  /** Trimming the start and then the end leaves a middle part with nothing trimmable at
      either end and only trimmable characters around it. */
  lemma TrimFacts(s: string, ws: char -> bool, t: string, r: string)
    requires |t| <= |s| && t == s[|s| - |t|..] && forall k :: 0 <= k < |s| - |t| ==> ws(s[k])
    requires |r| > 0 ==> !ws(r[0])
    requires |r| <= |t| && r == t[..|r|] && forall k :: |r| <= k < |t| ==> ws(t[k])
    ensures TrimmedAt(s, ws, |s| - |t|, r)
    ensures |r| == 0 <==> forall k :: 0 <= k < |s| ==> ws(s[k])
  {
    var i := |s| - |t|;
    forall k | i <= k < |s|
      ensures s[k] == t[k - i]
    {
    }
    assert r == s[i..i + |r|];
    if |r| > 0 {
      assert r[0] == s[i];
    }
  }

  /** `r` is `s[i..i + |r|]`, and everything of `s` before and after it satisfies `ws`. */
  predicate TrimmedAt(s: string, ws: char -> bool, i: nat, r: string)
  {
    && i + |r| <= |s| && r == s[i..i + |r|]
    && (forall k :: 0 <= k < i ==> ws(s[k]))
    && (forall k :: i + |r| <= k < |s| ==> ws(s[k]))
  }

  function TrimStart(s: string, ws: char -> bool): (r: string)
    ensures |r| > 0 ==> !ws(r[0])
    ensures |r| <= |s| && r == s[|s| - |r|..]
    ensures forall k :: 0 <= k < |s| - |r| ==> ws(s[k])
  {
    if |s| > 0 && ws(s[0]) then TrimStart(s[1..], ws) else s
  }

  function TrimEnd(s: string, ws: char -> bool): (r: string)
    ensures |r| > 0 ==> !ws(r[|r| - 1])
    ensures |r| <= |s| && r == s[..|r|]
    ensures |s| > 0 && !ws(s[|s| - 1]) ==> r == s
    ensures forall k :: |r| <= k < |s| ==> ws(s[k])
  {
    if |s| > 0 && ws(s[|s| - 1]) then TrimEnd(s[..|s| - 1], ws) else s
  }

  /** The longest suffix of `s` whose characters all satisfy `p`. */
  function TrailingRun(s: string, p: char -> bool): (t: string)
    ensures |t| <= |s| && t == s[|s| - |t|..]
    ensures forall i :: 0 <= i < |t| ==> p(t[i])
    ensures |t| < |s| ==> !p(s[|s| - |t| - 1])
  {
    if |s| > 0 && p(s[|s| - 1]) then
      var t := TrailingRun(s[..|s| - 1], p);
      t + [s[|s| - 1]]
    else ""
  }

  /** `s` without its longest suffix of characters satisfying `p`
      (the `rev().skip_while(p).rev()` idiom). */
  function DropTrailing(s: string, p: char -> bool): (m: string)
    ensures m + TrailingRun(s, p) == s
    ensures |m| > 0 ==> !p(m[|m| - 1])
  {
    s[..|s| - |TrailingRun(s, p)|]
  }
  /** The index of the first `c` in `s`, or `|s|` when there is none
      (what `find`, `take_while(|x| x != c)` and `skip_while(|x| x != c)` rely on). */
  function FindChar(s: string, c: char): (i: nat)
    ensures i <= |s| && c !in s[..i]
    ensures i < |s| ==> s[i] == c
    ensures i == |s| <==> c !in s
  {
    if |s| == 0 then 0
    else if s[0] == c then 0
    else
      var k := FindChar(s[1..], c);
      assert s[..k + 1] == [s[0]] + s[1..][..k];
      k + 1
  }

  /** Appending a run of `p`-characters to a string that does not end in one is undone by
      `DropTrailing`. */
  lemma {:induction false} DropTrailingAppend(m: string, t: string, p: char -> bool)
    requires forall i :: 0 <= i < |t| ==> p(t[i])
    requires |m| > 0 ==> !p(m[|m| - 1])
    ensures TrailingRun(m + t, p) == t
    ensures DropTrailing(m + t, p) == m
    decreases |t|
  {
    var s := m + t;
    if |t| > 0 {
      var t0 := t[..|t| - 1];
      assert s[..|s| - 1] == m + t0;
      assert s[|s| - 1] == t[|t| - 1];
      DropTrailingAppend(m, t0, p);
      assert TrailingRun(s, p) == TrailingRun(m + t0, p) + [s[|s| - 1]];
      assert t0 + [t[|t| - 1]] == t;
    } else {
      assert s == m;
      assert TrailingRun(s, p) == "";
    }
    assert s[..|s| - |t|] == m;
  }

  /** Searching past a prefix that lacks `c` continues in the rest. */
  lemma {:induction false} FindCharAppend(a: string, t: string, c: char)
    requires c !in a
    ensures FindChar(a + t, c) == |a| + FindChar(t, c)
  {
    if |a| > 0 {
      assert (a + t)[0] == a[0];
      assert (a + t)[1..] == a[1..] + t;
      FindCharAppend(a[1..], t, c);
    } else {
      assert a + t == t;
    }
  }

  /** A string whose first character fails `p` keeps at least that character when its
      trailing `p`-run is dropped. */
  lemma {:induction false} TrailingRunStops(s: string, p: char -> bool)
    requires |s| > 0 && !p(s[0])
    ensures |TrailingRun(s, p)| < |s|
    decreases |s|
  {
    if |s| > 1 && p(s[|s| - 1]) {
      var init := s[..|s| - 1];
      assert init[0] == s[0];
      TrailingRunStops(init, p);
    }
  }

  /** Replacing a character is splitting at it and joining with the replacement. */
  lemma {:induction false} ReplaceCharAsJoin(s: string, c: char, rep: string, p: char -> bool)
    requires forall x :: p(x) <==> x == c
    ensures ReplaceChar(s, c, rep) == Join(SplitWhere(s, p), rep)
  {
    if |s| > 0 {
      ReplaceCharAsJoin(s[1..], c, rep, p);
      var rest := SplitWhere(s[1..], p);
      if s[0] == c {
        assert SplitWhere(s, p) == [""] + rest;
        JoinAfterEmpty(rest, rep);
      } else {
        assert SplitWhere(s, p) == [[s[0]] + rest[0]] + rest[1..];
        JoinGlueFirst([s[0]], rest, rep);
      }
    }
  }

  /** An empty first piece leaves just the separator in front of the rest. */
  lemma JoinAfterEmpty(rest: seq<string>, sep: string)
    requires |rest| >= 1
    ensures Join([""] + rest, sep) == sep + Join(rest, sep)
  {
    assert ([""] + rest)[1..] == rest;
  }

  /** Splitting at a character and joining with the same character gives the input. */
  lemma {:induction false} JoinSplitWhere(s: string, c: char, p: char -> bool)
    requires forall x :: p(x) <==> x == c
    ensures Join(SplitWhere(s, p), [c]) == s
  {
    ReplaceCharAsJoin(s, c, [c], p);
    ReplaceCharSelf(s, c);
  }

  lemma {:induction false} ReplaceCharSelf(s: string, c: char)
    ensures ReplaceChar(s, c, [c]) == s
  {
    if |s| > 0 {
      ReplaceCharSelf(s[1..], c);
      assert [s[0]] + s[1..] == s;
    }
  }

  /** Replacing a character that is not the separator works piece by piece. */
  lemma {:induction false} ReplaceCharJoin(ps: seq<string>, sep: string, c: char, rep: string)
    requires c !in sep
    ensures ReplaceChar(Join(ps, sep), c, rep) ==
      Join(seq(|ps|, i requires 0 <= i < |ps| => ReplaceChar(ps[i], c, rep)), sep)
  {
    var qs := seq(|ps|, i requires 0 <= i < |ps| => ReplaceChar(ps[i], c, rep));
    if |ps| > 1 {
      ReplaceCharJoin(ps[1..], sep, c, rep);
      ReplaceCharAppend(ps[0] + sep, Join(ps[1..], sep), c, rep);
      ReplaceCharAppend(ps[0], sep, c, rep);
      assert qs[1..] == seq(|ps[1..]|, i requires 0 <= i < |ps[1..]| => ReplaceChar(ps[1..][i], c, rep));
    }
  }

  /** Removing what `p` drops distributes over concatenation. */
  lemma {:induction false} RemoveWhereAppend(a: string, b: string, p: char -> bool)
    ensures RemoveWhere(a + b, p) == RemoveWhere(a, p) + RemoveWhere(b, p)
  {
    if |a| > 0 {
      assert (a + b)[1..] == a[1..] + b;
      RemoveWhereAppend(a[1..], b, p);
    } else {
      assert a + b == b;
    }
  }


  /** A separator that occurs nowhere before `a`'s end is first found right after `a`. */
  lemma {:induction false} SplitStrBefore(a: string, sep: string, b: string)
    requires |sep| > 0
    requires forall j: nat :: j < |a| ==> !OccursAt(a + sep + b, sep, j)
    ensures SplitStr(a + sep + b, sep) == [a] + SplitStr(b, sep)
    decreases |a|
  {
    var s := a + sep + b;
    if |a| == 0 {
      assert s == sep + b;
      assert s[..|sep|] == sep && s[|sep|..] == b;
    } else {
      assert !OccursAt(s, sep, 0);
      assert s[..|sep|] == s[0..|sep|];
      assert s[1..] == a[1..] + sep + b;
      forall j: nat | j < |a[1..]|
        ensures !OccursAt(a[1..] + sep + b, sep, j)
      {
        assert !OccursAt(s, sep, j + 1);
        assert s[1..][j..j + |sep|] == s[j + 1..j + 1 + |sep|];
      }
      SplitStrBefore(a[1..], sep, b);
      assert [a[0]] + a[1..] == a;
    }
  }

  /** A separator whose second character differs from its first cannot start inside a
      text lacking that second character, even when the separator itself follows. */
  lemma NoOccurrenceBefore(a: string, sep: string, b: string)
    requires |sep| >= 2 && sep[1] != sep[0] && sep[1] !in a
    ensures forall j: nat :: j < |a| ==> !OccursAt(a + sep + b, sep, j)
  {
    var s := a + sep + b;
    forall j: nat | j < |a|
      ensures !OccursAt(s, sep, j)
    {
      if j + |sep| <= |s| {
        assert s[j..j + |sep|][1] == s[j + 1];
        assert s[j + 1] != sep[1] by {
          if j + 1 < |a| {
            assert s[j + 1] == a[j + 1];
          } else {
            assert s[j + 1] == sep[0];
          }
        }
      }
    }
  }

  /** Splitting a join gives the pieces back, when the separator's second character
      occurs in no piece and differs from its first. */
  lemma {:induction false} SplitStrJoin(ps: seq<string>, sep: string)
    requires |ps| >= 1 && |sep| >= 2 && sep[1] != sep[0]
    requires forall i :: 0 <= i < |ps| ==> sep[1] !in ps[i]
    ensures SplitStr(Join(ps, sep), sep) == ps
  {
    if |ps| == 1 {
      forall i: nat | i <= |ps[0]|
        ensures !OccursAt(ps[0], sep, i)
      {
        if i + |sep| <= |ps[0]| {
          assert ps[0][i..i + |sep|][1] == ps[0][i + 1];
          assert ps[0][i + 1] in ps[0];
        }
      }
      SplitStrNoOccurrence(ps[0], sep);
    } else {
      SplitStrJoin(ps[1..], sep);
      NoOccurrenceBefore(ps[0], sep, Join(ps[1..], sep));
      SplitStrBefore(ps[0], sep, Join(ps[1..], sep));
      assert [ps[0]] + ps[1..] == ps;
    }
  }

  /** `a` holds no occurrence of `sep` and does not end with its first character. */
  predicate CleanPiece(a: string, sep: string)
    requires |sep| > 0
  {
    !ContainsStr(a, sep) && (|a| == 0 || a[|a| - 1] != sep[0])
  }

  /** A separator made of one character twice cannot start inside a clean piece, even
      when the separator itself follows. */
  lemma CleanPieceBefore(a: string, sep: string, b: string)
    requires |sep| == 2 && sep[0] == sep[1]
    requires CleanPiece(a, sep)
    ensures forall j: nat :: j < |a| ==> !OccursAt(a + sep + b, sep, j)
  {
    var s := a + sep + b;
    forall j: nat | j < |a|
      ensures !OccursAt(s, sep, j)
    {
      if j + 1 < |a| {
        assert !OccursAt(a, sep, j);
        assert s[j..j + 2] == a[j..j + 2];
      } else {
        assert s[j..j + 2][0] == a[j] && a[j] != sep[0];
      }
    }
  }

  /** Splitting a join on a separator made of one character twice gives the pieces
      back, when every piece is clean. */
  lemma {:induction false} SplitStrJoinDoubled(ps: seq<string>, sep: string)
    requires |ps| >= 1 && |sep| == 2 && sep[0] == sep[1]
    requires forall i :: 0 <= i < |ps| ==> CleanPiece(ps[i], sep)
    ensures SplitStr(Join(ps, sep), sep) == ps
  {
    if |ps| == 1 {
      SplitStrNoOccurrence(ps[0], sep);
    } else {
      SplitStrJoinDoubled(ps[1..], sep);
      CleanPieceBefore(ps[0], sep, Join(ps[1..], sep));
      SplitStrBefore(ps[0], sep, Join(ps[1..], sep));
      assert [ps[0]] + ps[1..] == ps;
    }
  }
}
