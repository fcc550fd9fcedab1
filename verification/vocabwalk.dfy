/** The gloss aligner of `DataBundle`: for every dictionary entry, the romanized tokens
    are walked in order against the glyph transcription. */
module VocabWalk {
  import opened Wrappers
  import opened Chars
  import opened Strings
  import opened Rerrliratixka
  import opened Sounds
  import opened Vocab

  /** Why an entry does not align (an `Err` in the source). */
  datatype WalkFailure =
    | NoXizi                                        // a `xizi` token without `xizi` or ` xizi` in the glyphs
    | NoContraction(glyphs: string, expected: Syllable)
    | NoPronunciation(c: char, expected: Syllable)

  /** Where the source panics. */
  datatype WalkPanic =
    | UnmatchedSyllable          // a syllable token after the glyphs ran out
    | UnmatchedGuillemet         // a `«` that is never closed
    | UnmatchedBrace             // a `{` token never followed by a token ending in `}`
    | UnexpectedBraceChar(c: char) // something other than spaces before the glyph-side `{`
    | UnexpectedEnd              // a glyph-side `{` that is never closed

  datatype WalkVerdict = Pass | Failed(failure: WalkFailure) | Panicked(panic: WalkPanic)

  /** Compares the front of `h` with `pat` one character at a time, consuming every
      compared character and stopping after the first mismatch (the chains of
      `next() == Some(..) &&`), and returns what is left. Only the log line depends on
      whether the whole pattern matched. */
  function ExpectChars(h: string, pat: string): (r: string)
    ensures |r| <= |h| && r == h[|h| - |r|..]
    ensures |pat| <= |h| && h[..|pat|] == pat ==> r == h[|pat|..]
    decreases |pat|
  {
    if |pat| == 0 || |h| == 0 then h
    else if h[0] == pat[0] then
      assert |pat| <= |h| && h[..|pat|] == pat ==> h[1..][..|pat| - 1] == pat[1..];
      ExpectChars(h[1..], pat[1..])
    else h[1..]
  }

  /** `match_xizi`: the `xizi` of a gloss is written `xizi` or ` xizi` in the glyphs;
      any other next character, or none, is an error. */
  function MatchXizi(h: string): (r: Option<string>)
    ensures r.None? <==> |h| == 0 || (h[0] != 'x' && h[0] != ' ')
    ensures r.Some? ==> |r.value| < |h| && r.value == h[|h| - |r.value|..]
  {
    if |h| == 0 then None
    else if h[0] == 'x' then Some(ExpectChars(h[1..], "izi"))
    else if h[0] == ' ' then Some(ExpectChars(h[1..], "xizi"))
    else None
  }

  /** The first character of `h` that is not whitespace and the text after it; `None`
      when only whitespace is left. */
  function NextGlyph(h: string): (r: Option<(char, string)>)
    ensures r.None? <==> forall i :: 0 <= i < |h| ==> IsWhitespace(h[i])
    ensures r.Some? ==> |r.value.1| < |h| && r.value.1 == h[|h| - |r.value.1|..]
    ensures r.Some? ==> !IsWhitespace(r.value.0) && h[|h| - |r.value.1| - 1] == r.value.0
    decreases |h|
  {
    if |h| == 0 then None
    else if IsWhitespace(h[0]) then
      assert forall i :: 1 <= i < |h| ==> h[i] == h[1..][i - 1];
      NextGlyph(h[1..])
    else Some((h[0], h[1..]))
  }

  /** The outcome of skipping an aside on the glyph side. */
  datatype AsideSkip = Resume(rest: string) | BadChar(c: char) | NoClose

  /** The glyph side of a `{…}` aside: spaces up to a `{`, then everything through the
      next `}`. Running out of glyphs before the `{` ends the aside quietly. */
  function SkipAside(h: string): AsideSkip
    decreases |h|
  {
    if |h| == 0 then Resume("")
    else if h[0] == ' ' then SkipAside(h[1..])
    else if h[0] == '{' then
      var t := h[1..];
      var k := FindChar(t, '}');
      if k == |t| then NoClose else Resume(t[k + 1..])
    else BadChar(h[0])
  }

  predicate EndsWithBrace(s: string)
  {
    |s| > 0 && s[|s| - 1] == '}'
  }

  /** The romanization side of an aside: the first token at or after `i` that ends with
      `}`, or `|tokens|` when there is none. */
  function AsideEnd(tokens: seq<string>, i: nat): (j: nat)
    requires i <= |tokens|
    ensures i <= j <= |tokens|
    ensures j < |tokens| ==> EndsWithBrace(tokens[j])
    ensures forall k :: i <= k < j ==> !EndsWithBrace(tokens[k])
    decreases |tokens| - i
  {
    if i == |tokens| then i
    else if EndsWithBrace(tokens[i]) then i
    else AsideEnd(tokens, i + 1)
  }

  /** The walk over one entry: romanized tokens `tokens` against glyphs `h`. A syllable
      token consumes the next non-whitespace glyph or `«…»` span; `xizi`, `//` and `S`
      consume their own spelling when it is there; an aside is skipped on both sides;
      any other non-empty token is passed over, and an empty token ends the walk.
      Glyphs left over at the end are not checked. */
  function Walk(tokens: seq<string>, h: string, chars: SoundTable, contractions: SoundTable): (v: WalkVerdict)
    ensures |tokens| == 0 ==> v == Pass
    ensures v.Failed? && v.failure.NoPronunciation? ==>
      !Pronounces(chars, [v.failure.c], v.failure.expected) && ReadByToken(tokens, v.failure.expected) &&
      !IsWhitespace(v.failure.c) && v.failure.c != '«'
    ensures v.Failed? && v.failure.NoContraction? ==>
      !Pronounces(contractions, v.failure.glyphs, v.failure.expected) && ReadByToken(tokens, v.failure.expected) &&
      '»' !in v.failure.glyphs
    ensures v == Failed(NoXizi) ==> "xizi" in tokens
    decreases |tokens|
  {
    if |tokens| == 0 then Pass
    else
      var s := tokens[0];
      match (if s == "xizi" then MatchXizi(h) else Some(h))
      case None => Failed(NoXizi)
      case Some(h1) =>
        match ParseSyllable(s)
        case Some(x) =>
          (match NextGlyph(h1)
           case None => Panicked(UnmatchedSyllable)
           case Some((c, h2)) =>
             if c == '«' then
               var k := FindChar(h2, '»');
               if k == |h2| then Panicked(UnmatchedGuillemet)
               else if Pronounces(contractions, h2[..k], x) then
                 TokensBehind(tokens, 1);
                 Walk(tokens[1..], h2[k + 1..], chars, contractions)
               else
                 assert tokens[0] == s;
                 Failed(NoContraction(h2[..k], x))
             else if Pronounces(chars, [c], x) then
               TokensBehind(tokens, 1);
               Walk(tokens[1..], h2, chars, contractions)
             else
               assert tokens[0] == s;
               Failed(NoPronunciation(c, x)))
        case None =>
          TokensBehind(tokens, 1);
          if s == "//" then Walk(tokens[1..], ExpectChars(h1, " // "), chars, contractions)
          else if s == "S" then Walk(tokens[1..], ExpectChars(h1, "S "), chars, contractions)
          else if |s| == 0 then Pass
          else if s[0] == '{' then
            var j := AsideEnd(tokens, 0);
            if j == |tokens| then Panicked(UnmatchedBrace)
            else
              match SkipAside(h1)
              case BadChar(c) => Panicked(UnexpectedBraceChar(c))
              case NoClose => Panicked(UnexpectedEnd)
              case Resume(h2) =>
                TokensBehind(tokens, j + 1);
                Walk(tokens[j + 1..], h2, chars, contractions)
          else Walk(tokens[1..], h1, chars, contractions)
  }

  /** Some token reads as the syllable `x`. */
  predicate ReadByToken(tokens: seq<string>, x: Syllable)
  {
    exists i :: 0 <= i < |tokens| && ParseSyllable(tokens[i]) == Some(x)
  }

  /** What the tokens after `k` read or hold, the whole token list reads or holds. */
  lemma TokensBehind(tokens: seq<string>, k: nat)
    requires k <= |tokens|
    ensures forall x :: ReadByToken(tokens[k..], x) ==> ReadByToken(tokens, x)
    ensures "xizi" in tokens[k..] ==> "xizi" in tokens
  {
    forall x | ReadByToken(tokens[k..], x)
      ensures ReadByToken(tokens, x)
    {
      var i :| 0 <= i < |tokens[k..]| && ParseSyllable(tokens[k..][i]) == Some(x);
      assert tokens[k + i] == tokens[k..][i];
    }
  }

  /** One entry: its romanization split at every whitespace character (empty pieces
      kept) against its glyphs. */
  function CheckEntry(item: Item, chars: SoundTable, contractions: SoundTable): (v: WalkVerdict)
    ensures item.pekzepLatin == "" ==> v == Pass
    ensures v.Failed? && v.failure.NoPronunciation? ==>
      !Pronounces(chars, [v.failure.c], v.failure.expected)
      && ReadByToken(SplitWhere(item.pekzepLatin, IsWhitespace), v.failure.expected)
    ensures v == Failed(NoXizi) ==> "xizi" in SplitWhere(item.pekzepLatin, IsWhitespace)
  {
    MarkupIsNotASyllable();
    Walk(SplitWhere(item.pekzepLatin, IsWhitespace), item.pekzepHanzi, chars, contractions)
  }

  /** Entry `i` is the first entry that does not pass, and its verdict is `v`. */
  predicate FirstNotPassing(items: seq<Item>, chars: SoundTable, contractions: SoundTable, i: int, v: WalkVerdict)
  {
    && 0 <= i < |items|
    && CheckEntry(items[i], chars, contractions) == v
    && forall j :: 0 <= j < i ==> CheckEntry(items[j], chars, contractions) == Pass
  }

  /** `check_vocab_pronunciation` over the entries in iteration order, stopping at the
      first entry that does not pass. Whether it passes does not depend on the order. */
  function CheckVocabPronunciation(items: seq<Item>, chars: SoundTable, contractions: SoundTable): (v: WalkVerdict)
    ensures v == Pass <==> forall i :: 0 <= i < |items| ==> CheckEntry(items[i], chars, contractions) == Pass
    ensures v != Pass ==> exists i :: FirstNotPassing(items, chars, contractions, i, v)
    decreases |items|
  {
    if |items| == 0 then Pass
    else
      var v := CheckEntry(items[0], chars, contractions);
      var rest := CheckVocabPronunciation(items[1..], chars, contractions);
      assert forall i :: 1 <= i < |items| ==> items[i] == items[1..][i - 1];
      if v != Pass then
        assert FirstNotPassing(items, chars, contractions, 0, v);
        v
      else
        assert rest != Pass ==> exists i :: FirstNotPassing(items, chars, contractions, i, rest) by {
          if rest != Pass {
            var k :| FirstNotPassing(items[1..], chars, contractions, k, rest);
            assert FirstNotPassing(items, chars, contractions, k + 1, rest);
          }
        }
        rest
  }

  // ---------------------------------------------------------------------------------
  // Properties of the walk
  // ---------------------------------------------------------------------------------

  /** Every token is a syllable. */
  predicate AllSyllables(tokens: seq<string>)
  {
    forall i :: 0 <= i < |tokens| ==> ParseSyllable(tokens[i]).Some?
  }

  /** Glyphs written one per syllable: no whitespace and no contraction span. */
  predicate PlainGlyphs(h: string)
  {
    forall i :: 0 <= i < |h| ==> !IsWhitespace(h[i]) && h[i] != '«'
  }

  /** The i-th glyph reads as the i-th syllable, for every syllable token. */
  predicate PairsRead(tokens: seq<string>, h: string, chars: SoundTable)
    requires AllSyllables(tokens)
  {
    |tokens| <= |h| && forall i :: 0 <= i < |tokens| ==> Pronounces(chars, [h[i]], ParseSyllable(tokens[i]).value)
  }

  /** With syllable tokens only and plain glyphs, the walk pairs the tokens with the
      glyphs one to one: it passes exactly when every token's glyph reads as that token,
      whatever glyphs are left over after the last token. */
  lemma {:induction false} WalkPlain(tokens: seq<string>, h: string, chars: SoundTable, contractions: SoundTable)
    requires AllSyllables(tokens) && PlainGlyphs(h)
    ensures Walk(tokens, h, chars, contractions) == Pass <==> PairsRead(tokens, h, chars)
    decreases |tokens|
  {
    if |tokens| > 0 {
      XiziIsNotASyllable();
      if |h| == 0 {
        assert NextGlyph(h).None?;
      } else {
        assert !IsWhitespace(h[0]);
        assert NextGlyph(h) == Some((h[0], h[1..]));
        var rest := tokens[1..];
        assert AllSyllables(rest) by {
          forall i | 0 <= i < |rest|
            ensures ParseSyllable(rest[i]).Some?
          {
            assert rest[i] == tokens[i + 1];
          }
        }
        assert PlainGlyphs(h[1..]) by {
          forall i | 0 <= i < |h| - 1
            ensures !IsWhitespace(h[1..][i]) && h[1..][i] != '«'
          {
            assert h[1..][i] == h[i + 1];
          }
        }
        WalkPlain(rest, h[1..], chars, contractions);
        PairsReadCons(tokens, h, chars);
      }
    }
  }

  lemma PairsReadCons(tokens: seq<string>, h: string, chars: SoundTable)
    requires AllSyllables(tokens) && |tokens| > 0 && |h| > 0
    requires AllSyllables(tokens[1..])
    ensures PairsRead(tokens, h, chars) <==>
      Pronounces(chars, [h[0]], ParseSyllable(tokens[0]).value) && PairsRead(tokens[1..], h[1..], chars)
  {
    if Pronounces(chars, [h[0]], ParseSyllable(tokens[0]).value) && PairsRead(tokens[1..], h[1..], chars) {
      forall i | 0 <= i < |tokens|
        ensures Pronounces(chars, [h[i]], ParseSyllable(tokens[i]).value)
      {
        if i > 0 {
          assert tokens[1..][i - 1] == tokens[i] && h[1..][i - 1] == h[i];
        }
      }
    }
    if PairsRead(tokens, h, chars) {
      forall i | 0 <= i < |tokens| - 1
        ensures Pronounces(chars, [h[1..][i]], ParseSyllable(tokens[1..][i]).value)
      {
        assert tokens[1..][i] == tokens[i + 1] && h[1..][i] == h[i + 1];
      }
    }
  }

  /** Text made of whitespace only. */
  predicate AllWhitespace(ws: string)
  {
    forall i :: 0 <= i < |ws| ==> IsWhitespace(ws[i])
  }

  /** Whitespace before the next glyph is skipped. */
  lemma {:induction false} NextGlyphAfter(ws: string, c: char, h: string)
    requires AllWhitespace(ws) && !IsWhitespace(c)
    ensures NextGlyph(ws + [c] + h) == Some((c, h))
    decreases |ws|
  {
    var a := ws + [c] + h;
    if |ws| == 0 {
      assert a == [c] + h && a[1..] == h;
    } else {
      var b := ws[1..] + [c] + h;
      assert a[0] == ws[0] && a[1..] == b;
      assert AllWhitespace(ws[1..]);
      NextGlyphAfter(ws[1..], c, h);
    }
  }

  /** A syllable token against a plain glyph, after any whitespace: the walk goes on
      behind the glyph when the glyph reads as the syllable, and fails naming both
      otherwise. */
  lemma WalkGlyph(s: string, x: Syllable, rest: seq<string>, ws: string, c: char, h: string,
                  chars: SoundTable, contractions: SoundTable)
    requires ParseSyllable(s) == Some(x)
    requires AllWhitespace(ws) && !IsWhitespace(c) && c != '«'
    ensures Walk([s] + rest, ws + [c] + h, chars, contractions) ==
      if Pronounces(chars, [c], x) then Walk(rest, h, chars, contractions) else Failed(NoPronunciation(c, x))
  {
    XiziIsNotASyllable();
    NextGlyphAfter(ws, c, h);
    assert ([s] + rest)[0] == s && ([s] + rest)[1..] == rest;
  }

  /** A syllable token against a contraction `«inner»`, after any whitespace: the walk
      goes on behind the closing `»` when the contraction table lists `inner` with the
      syllable, and fails naming both otherwise. */
  lemma WalkContraction(s: string, x: Syllable, rest: seq<string>, ws: string, inner: string, h: string,
                        chars: SoundTable, contractions: SoundTable)
    requires ParseSyllable(s) == Some(x)
    requires AllWhitespace(ws) && '»' !in inner
    ensures Walk([s] + rest, ws + "«" + inner + "»" + h, chars, contractions) ==
      if Pronounces(contractions, inner, x) then Walk(rest, h, chars, contractions)
      else Failed(NoContraction(inner, x))
  {
    var h1 := ws + "«" + inner + "»" + h;
    var h2 := inner + "»" + h;
    ContractionSplit(ws, inner, h);
    NextGlyphAfter(ws, '«', h2);
    assert ([s] + rest)[1..] == rest;
    WalkContractionStep([s] + rest, x, h1, h2, |inner|, chars, contractions);
  }

  /** Where the glyph side of a contraction is cut. */
  lemma ContractionSplit(ws: string, inner: string, h: string)
    requires '»' !in inner
    ensures var h2 := inner + "»" + h;
      && ws + "«" + inner + "»" + h == ws + ['«'] + h2
      && |inner| < |h2| && FindChar(h2, '»') == |inner|
      && h2[..|inner|] == inner && h2[|inner| + 1..] == h
  {
    var h2 := inner + "»" + h;
    assert h2[|inner|] == '»' && h2[..|inner|] == inner && h2[|inner| + 1..] == h;
  }

  /** The contraction step of the walk, for any glyph text whose next glyph is `«`. */
  lemma WalkContractionStep(tokens: seq<string>, x: Syllable, h1: string, h2: string, k: nat,
                            chars: SoundTable, contractions: SoundTable)
    requires |tokens| > 0 && ParseSyllable(tokens[0]) == Some(x)
    requires NextGlyph(h1) == Some(('«', h2))
    requires k < |h2| && FindChar(h2, '»') == k
    ensures Walk(tokens, h1, chars, contractions) ==
      if Pronounces(contractions, h2[..k], x) then Walk(tokens[1..], h2[k + 1..], chars, contractions)
      else Failed(NoContraction(h2[..k], x))
  {
    XiziIsNotASyllable();
  }

  /** A `xizi` token consumes `xizi` or ` xizi` on the glyph side. */
  lemma WalkXizi(rest: seq<string>, h: string, chars: SoundTable, contractions: SoundTable)
    ensures Walk(["xizi"] + rest, "xizi" + h, chars, contractions) == Walk(rest, h, chars, contractions)
    ensures Walk(["xizi"] + rest, " xizi" + h, chars, contractions) == Walk(rest, h, chars, contractions)
  {
    var tokens := ["xizi"] + rest;
    assert tokens[1..] == rest;
    MatchXiziWritten(h);
    WalkXiziStep(tokens, "xizi" + h, h, chars, contractions);
    WalkXiziStep(tokens, " xizi" + h, h, chars, contractions);
  }

  lemma MatchXiziWritten(h: string)
    ensures MatchXizi("xizi" + h) == Some(h)
    ensures MatchXizi(" xizi" + h) == Some(h)
  {
    var a := "xizi" + h;
    assert a[1..][..3] == "izi" && a[1..][3..] == h;
    var b := " xizi" + h;
    assert b[1..][..4] == "xizi" && b[1..][4..] == h;
  }

  /** The `xizi` step of the walk, for any glyph text the marker is matched in. */
  lemma WalkXiziStep(tokens: seq<string>, h1: string, h2: string, chars: SoundTable, contractions: SoundTable)
    requires |tokens| > 0 && tokens[0] == "xizi"
    requires MatchXizi(h1) == Some(h2)
    ensures Walk(tokens, h1, chars, contractions) == Walk(tokens[1..], h2, chars, contractions)
  {
    XiziIsNotASyllable();
  }

  /** Neither markup token reads as a syllable: their first characters are not onsets. */
  lemma MarkupIsNotASyllable()
    ensures ParseSyllable("//") == None && ParseSyllable("S") == None && ParseSyllable("") == None
  {
    assert OnsetOf('/').None? && OnsetOf('S').None?;
  }

  /** The compound separator `//` consumes ` // `, the token `S` consumes `S `, and an
      empty token (two whitespace characters in a row) ends the walk. */
  lemma WalkSeparators(rest: seq<string>, h: string, chars: SoundTable, contractions: SoundTable)
    ensures Walk(["//"] + rest, " // " + h, chars, contractions) == Walk(rest, h, chars, contractions)
    ensures Walk(["S"] + rest, "S " + h, chars, contractions) == Walk(rest, h, chars, contractions)
    ensures Walk([""] + rest, h, chars, contractions) == Pass
  {
    MarkupIsNotASyllable();
    assert (["//"] + rest)[1..] == rest;
    var c := " // " + h;
    assert c[..4] == " // " && c[4..] == h;
    assert ExpectChars(c, " // ") == h;
    assert (["S"] + rest)[1..] == rest;
    var d := "S " + h;
    assert d[..2] == "S " && d[2..] == h;
    assert ExpectChars(d, "S ") == h;
  }

  /** An aside written on both sides is skipped on both sides: a romanized token
      `{…}` against glyphs `{…}` (after any spaces) leaves the walk where it was. */
  lemma WalkAside(t: string, rest: seq<string>, spaces: nat, inner: string, h: string, chars: SoundTable, contractions: SoundTable)
    requires |t| > 0 && t[0] == '{' && EndsWithBrace(t)
    requires '}' !in inner
    ensures Walk([t] + rest, Spaces(spaces) + "{" + inner + "}" + h, chars, contractions) == Walk(rest, h, chars, contractions)
  {
    var tokens := [t] + rest;
    assert tokens[1..] == rest;
    assert OnsetOf('{').None?;
    SkipSpacesAside(spaces, inner, h);
    WalkAsideStep(tokens, Spaces(spaces) + "{" + inner + "}" + h, h, chars, contractions);
  }

  /** The aside step of the walk, for any glyph text whose aside is skipped to `h2`. */
  lemma WalkAsideStep(tokens: seq<string>, h1: string, h2: string, chars: SoundTable, contractions: SoundTable)
    requires |tokens| > 0 && |tokens[0]| > 0 && tokens[0][0] == '{' && EndsWithBrace(tokens[0])
    requires ParseSyllable(tokens[0]) == None
    requires SkipAside(h1) == Resume(h2)
    ensures Walk(tokens, h1, chars, contractions) == Walk(tokens[1..], h2, chars, contractions)
  {
    assert tokens[0] != "xizi" && tokens[0] != "//" && tokens[0] != "S";
    assert AsideEnd(tokens, 0) == 0;
  }

  /** `n` spaces. */
  function Spaces(n: nat): string
  {
    if n == 0 then "" else " " + Spaces(n - 1)
  }

  lemma {:induction false} SkipSpacesAside(n: nat, inner: string, h: string)
    requires '}' !in inner
    ensures SkipAside(Spaces(n) + "{" + inner + "}" + h) == Resume(h)
  {
    var a := Spaces(n) + "{" + inner + "}" + h;
    if n == 0 {
      assert a == "{" + inner + "}" + h;
      var t := a[1..];
      assert t == inner + "}" + h;
      assert t[|inner|] == '}' && t[..|inner|] == inner;
      assert FindChar(t, '}') == |inner|;
      assert t[|inner| + 1..] == h;
    } else {
      SkipSpacesAside(n - 1, inner, h);
      assert a[0] == ' ' && a[1..] == Spaces(n - 1) + "{" + inner + "}" + h;
    }
  }
}
