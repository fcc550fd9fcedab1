/** The text helpers the page generator applies to the checked data: splitting a
    compound's spelling at `//`, dropping guillemets, and merging the two halves of a
    splittable compound that a sentence uses unsplit. */
module Render {
  import opened Wrappers
  import opened Strings
  import opened Vocab
  import opened Resolve

  // ---------------------------------------------------------------------------------
  // Splitting at `//`
  // ---------------------------------------------------------------------------------

  /** The position of the first occurrence of `pat` in `s`, or `|s|` when there is none. */
  function FindStr(s: string, pat: string): (i: nat)
    requires |pat| > 0
    ensures i <= |s|
    ensures i < |s| ==> OccursAt(s, pat, i)
    ensures forall j: nat :: j < i ==> !OccursAt(s, pat, j)
    decreases |s|
  {
    if |s| < |pat| then |s|
    else if s[..|pat|] == pat then 0
    else
      var k := FindStr(s[1..], pat);
      forall j: nat | 0 < j <= k
        ensures OccursAt(s, pat, j) <==> OccursAt(s[1..], pat, j - 1)
      {
        if j + |pat| <= |s| {
          SliceOfTail(s, j, |pat|);
        }
      }
      assert !OccursAt(s, pat, 0);
      1 + k
  }

  lemma SliceOfTail(s: string, j: nat, n: nat)
    requires 0 < j && j + n <= |s|
    ensures s[1..][j - 1..j - 1 + n] == s[j..j + n]
  {
  }

  /** `split_at_slashslash`: the text before and after the first `//`; a text without
      one is a caller error (the source unwraps). */
  function SplitAtSlashSlash(s: string): (r: (string, string))
    requires ContainsStr(s, "//")
    ensures r.0 + "//" + r.1 == s
    ensures !ContainsStr(r.0 + "/", "//")
  {
    var i := FindStr(s, "//");
    assert i < |s| by {
      var j: nat :| j <= |s| && OccursAt(s, "//", j);
    }
    assert s == s[..i] + "//" + s[i + 2..];
    var a := s[..i];
    assert forall j: nat :: j <= |a + "/"| && OccursAt(a + "/", "//", j) ==> OccursAt(s, "//", j) by {
      forall j: nat | j <= |a + "/"| && OccursAt(a + "/", "//", j)
        ensures OccursAt(s, "//", j)
      {
        assert (a + "/")[j..j + 2] == s[j..j + 2];
      }
    }
    (s[..i], s[i + 2..])
  }

  /** Round trip: a text joined at `//` splits back into its halves, when the first half
      holds no `//` and does not end with `/`. */
  lemma SplitAtSlashSlashJoin(a: string, b: string)
    requires !ContainsStr(a + "/", "//")
    ensures ContainsStr(a + "//" + b, "//")
    ensures SplitAtSlashSlash(a + "//" + b) == (a, b)
  {
    var s := a + "//" + b;
    assert OccursAt(s, "//", |a|) by {
      assert s[|a|..|a| + 2] == "//";
    }
    var r := SplitAtSlashSlash(s);
    var i := FindStr(s, "//");
    assert i == |a| by {
      if i < |a| {
        assert (a + "/")[i..i + 2] == s[i..i + 2];
        assert OccursAt(a + "/", "//", i);
      }
    }
  }

  /** The worked example: the spaces around `//` stay with the halves. */
  lemma SplitAtSlashSlashExample()
    ensures ContainsStr("行 // 道", "//")
    ensures SplitAtSlashSlash("行 // 道") == ("行 ", " 道")
  {
    var a := "行 ";
    assert !ContainsStr(a + "/", "//") by {
      forall j: nat | j <= |a + "/"|
        ensures !OccursAt(a + "/", "//", j)
      {
        if j + 2 <= |a + "/"| {
          assert (a + "/")[j] != '/';
        }
      }
    }
    SplitAtSlashSlashJoin(a, " 道");
    assert a + "//" + " 道" == "行 // 道";
  }

  // ---------------------------------------------------------------------------------
  // Guillemets
  // ---------------------------------------------------------------------------------

  predicate IsGuillemet(c: char)
  {
    c == '«' || c == '»'
  }

  /** `remove_guillemets`: every `«` and `»` dropped, everything else kept in order. */
  function RemoveGuillemets(a: string): (r: string)
    ensures '«' !in r && '»' !in r
    ensures |r| == |a| - CountWhere(a, IsGuillemet)
  {
    var r := RemoveWhere(a, IsGuillemet);
    assert forall i :: 0 <= i < |r| ==> !IsGuillemet(r[i]);
    r
  }

  /** Removing guillemets works piece by piece, is the identity on a text without them,
      and so removing twice is removing once. */
  lemma {:induction false} RemoveGuillemetsAppend(a: string, b: string)
    ensures RemoveGuillemets(a + b) == RemoveGuillemets(a) + RemoveGuillemets(b)
  {
    if |a| > 0 {
      assert (a + b)[1..] == a[1..] + b;
      RemoveGuillemetsAppend(a[1..], b);
    } else {
      assert a + b == b;
    }
  }

  lemma RemoveGuillemetsIdempotent(a: string)
    ensures RemoveGuillemets(RemoveGuillemets(a)) == RemoveGuillemets(a)
  {
    var r := RemoveGuillemets(a);
    assert CountWhere(r, IsGuillemet) == 0 by {
      NoneCounted(r, IsGuillemet);
    }
  }

  /** A text none of whose characters satisfies `p` counts none. */
  lemma {:induction false} NoneCounted(s: string, p: char -> bool)
    requires forall i :: 0 <= i < |s| ==> !p(s[i])
    ensures CountWhere(s, p) == 0
  {
    if |s| > 0 {
      NoneCounted(s[1..], p);
    }
  }

  /** A quoted word loses exactly its quotes. */
  lemma RemoveGuillemetsQuoted(w: string)
    requires '«' !in w && '»' !in w
    ensures RemoveGuillemets("«" + w + "»") == w
  {
    RemoveGuillemetsAppend("«" + w, "»");
    RemoveGuillemetsAppend("«", w);
    NoneCounted(w, IsGuillemet);
    assert "«"[1..] == "";
    assert "»"[1..] == "";
  }

  // ---------------------------------------------------------------------------------
  // Merging unsplit compounds
  // ---------------------------------------------------------------------------------

  predicate IsFormer(d: DecompositionItem)
  {
    d.info == Some(FormerHalfHash)
  }

  predicate IsLatter(d: DecompositionItem)
  {
    d.info == Some(LatterHalfExclamation)
  }

  /** The two halves of a splittable compound stand next to each other at `i`. */
  predicate PairAt(xs: seq<DecompositionItem>, i: int)
    requires 0 <= i < |xs| - 1
  {
    IsFormer(xs[i]) && IsLatter(xs[i + 1])
  }

  /** How many places hold a former half directly followed by a latter half. */
  function PairsIn(xs: seq<DecompositionItem>): nat
    decreases |xs|
  {
    if |xs| < 2 then 0
    else (if PairAt(xs, 0) then 1 else 0) + PairsIn(xs[1..])
  }

  /** The former half shown for the whole compound. */
  function Whole(d: DecompositionItem): DecompositionItem
  {
    d.(info := None)
  }

  /** The merge as a walk from the front: a former half followed by its latter half is
      shown once as the whole; a former half with nothing after it is a panic (`None`),
      the source indexing past the end. */
  function Merged(xs: seq<DecompositionItem>): (r: Option<seq<DecompositionItem>>)
    ensures r.None? ==> |xs| > 0 && IsFormer(xs[|xs| - 1])
    decreases |xs|
  {
    if |xs| == 0 then Some([])
    else if IsFormer(xs[0]) && |xs| == 1 then None
    else if IsFormer(xs[0]) && IsLatter(xs[1]) then Prepend([Whole(xs[0])], Merged(xs[2..]))
    else Prepend([xs[0]], Merged(xs[1..]))
  }

  function Prepend(ys: seq<DecompositionItem>, o: Option<seq<DecompositionItem>>): Option<seq<DecompositionItem>>
  {
    match o
    case None => None
    case Some(zs) => Some(ys + zs)
  }

  /** `sentence_decomposition_to_analysis_merging_unsplitted_compounds`, before each item is
      rendered: the loop with its skip flag. */
  method MergeUnsplit(xs: seq<DecompositionItem>) returns (r: Option<seq<DecompositionItem>>)
    ensures r == Merged(xs)
  {
    var ans: seq<DecompositionItem> := [];
    var skip := false;
    var i := 0;
    assert xs[0..] == xs;
    assert Merged(xs) == Prepend(ans, Merged(xs[0..])) by {
      if Merged(xs).Some? {
        assert ans + Merged(xs).value == Merged(xs).value;
      }
    }
    while i < |xs|
      invariant 0 <= i <= |xs|
      invariant skip ==> 0 < i < |xs| && IsLatter(xs[i]) && Merged(xs) == Prepend(ans, Merged(xs[i + 1..]))
      invariant !skip ==> Merged(xs) == Prepend(ans, Merged(xs[i..]))
    {
      if IsFormer(xs[i]) && i + 1 == |xs| {
        return None;
      }
      if IsFormer(xs[i]) && IsLatter(xs[i + 1]) {
        assert xs[i..][2..] == xs[i + 2..];
        PrependTwice(ans, [Whole(xs[i])], Merged(xs[i + 2..]));
        ans := ans + [Whole(xs[i])];
        skip := true;
      } else if skip {
        skip := false;
      } else {
        assert xs[i..][1..] == xs[i + 1..];
        PrependTwice(ans, [xs[i]], Merged(xs[i + 1..]));
        ans := ans + [xs[i]];
      }
      i := i + 1;
    }
    assert xs[i..] == [];
    assert ans + [] == ans;
    return Some(ans);
  }

  lemma PrependTwice(a: seq<DecompositionItem>, b: seq<DecompositionItem>, o: Option<seq<DecompositionItem>>)
    ensures Prepend(a, Prepend(b, o)) == Prepend(a + b, o)
  {
    if o.Some? {
      assert a + (b + o.value) == a + b + o.value;
    }
  }

  /** The merge panics exactly when the last item is a former half. */
  lemma {:induction false} MergedPanics(xs: seq<DecompositionItem>)
    ensures Merged(xs).None? <==> |xs| > 0 && IsFormer(xs[|xs| - 1])
    decreases |xs|
  {
    if |xs| >= 2 {
      if IsFormer(xs[0]) && IsLatter(xs[1]) {
        MergedPanics(xs[2..]);
        if |xs| == 2 {
          assert !IsFormer(xs[1]);
        }
      } else {
        MergedPanics(xs[1..]);
      }
    }
  }

  /** Without any former half the merge shows every item as it is. */
  lemma {:induction false} MergedIdentity(xs: seq<DecompositionItem>)
    requires forall i :: 0 <= i < |xs| ==> !IsFormer(xs[i])
    ensures Merged(xs) == Some(xs)
    decreases |xs|
  {
    if |xs| > 0 {
      MergedIdentity(xs[1..]);
      assert [xs[0]] + xs[1..] == xs;
    }
  }

  /** After the merge no former half is directly followed by a latter half, and the
      output is shorter than the input by exactly one item per pair (so it is at most
      as long as the input and at least half as long). */
  lemma {:induction false} MergedNoPairLeft(xs: seq<DecompositionItem>)
    requires Merged(xs).Some?
    ensures var ys := Merged(xs).value;
      forall k :: 0 <= k < |ys| - 1 ==> !PairAt(ys, k)
    ensures |Merged(xs).value| == |xs| - PairsIn(xs)
    ensures |xs| <= 2 * |Merged(xs).value| && |Merged(xs).value| <= |xs|
    ensures |xs| > 0 ==> |Merged(xs).value| > 0 && (Merged(xs).value[0] == xs[0] || Merged(xs).value[0] == Whole(xs[0]))
    decreases |xs|
  {
    if |xs| > 0 {
      var ys := Merged(xs).value;
      if |xs| >= 2 && IsFormer(xs[0]) && IsLatter(xs[1]) {
        var rest := xs[2..];
        MergedNoPairLeft(rest);
        assert xs[1..][1..] == rest;
        assert PairsIn(xs) == 1 + PairsIn(rest);
        assert ys == [Whole(xs[0])] + Merged(rest).value;
        assert !IsFormer(ys[0]);
        forall k | 1 <= k < |ys| - 1
          ensures !PairAt(ys, k)
        {
          assert !PairAt(Merged(rest).value, k - 1);
        }
      } else {
        var rest := xs[1..];
        MergedNoPairLeft(rest);
        assert ys == [xs[0]] + Merged(rest).value;
        if |ys| > 1 && IsFormer(xs[0]) {
          assert !IsLatter(xs[1]);
          assert ys[1] == xs[1] || ys[1] == Whole(xs[1]);
        }
        forall k | 1 <= k < |ys| - 1
          ensures !PairAt(ys, k)
        {
          assert !PairAt(Merged(rest).value, k - 1);
        }
      }
    }
  }
}
