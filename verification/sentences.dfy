/** The sentence aligner and the glyph counter of `DataBundle`: both walk the glyph
    transcription of a sentence the same way, the aligner with a cursor into the
    sentence's syllables, the counter with a tally of glyphs. */
module Sentences {
  import opened Wrappers
  import opened Chars
  import opened Strings
  import opened Collections
  import opened Phrase
  import opened Sounds
  import Vocab

  /** One unit of a glyph transcription as both walks see it. */
  datatype Segment =
    | Skipped(c: char)           // whitespace, ASCII punctuation or `！？「」。`
    | Contracted(glyphs: string) // a `«…»` span, without its guillemets
    | XiziWord                   // the letters `xizi`
    | Glyph(c: char)             // any other character

  /** Where a scan stops: at the end of the text, inside a `«` span that is never closed
      (holding everything after the `«`), or at an `x` that is not followed by `izi`. */
  datatype ScanEnd = Complete | Unclosed(partial: string) | BrokenXizi

  datatype Scan = Scan(segments: seq<Segment>, end: ScanEnd)

  function Prepend(s: Segment, r: Scan): Scan
  {
    Scan([s] + r.segments, r.end)
  }

  /** The character loop shared by `check_sentence_pronunciation` and `char_count`. */
  function ScanText(h: string): (r: Scan)
    ensures forall i :: 0 <= i < |r.segments| ==> WellFormed(r.segments[i])
    ensures r.end.Unclosed? ==> '»' !in r.end.partial && |r.end.partial| < |h|
    ensures |h| == 0 ==> r == Scan([], Complete)
    decreases |h|
  {
    if |h| == 0 then Scan([], Complete)
    else if IsSkipped(h[0]) then Prepend(Skipped(h[0]), ScanText(h[1..]))
    else if h[0] == '«' then
      var t := h[1..];
      var k := FindChar(t, '»');
      if k == |t| then Scan([], Unclosed(t))
      else Prepend(Contracted(t[..k]), ScanText(t[k + 1..]))
    else if h[0] == 'x' then
      if |h| >= 4 && h[1..4] == "izi" then Prepend(XiziWord, ScanText(h[4..]))
      else Scan([], BrokenXizi)
    else Prepend(Glyph(h[0]), ScanText(h[1..]))
  }

  /** The text a segment stands for. */
  function SegmentText(s: Segment): string
  {
    match s
    case Skipped(c) => [c]
    case Contracted(g) => "«" + g + "»"
    case XiziWord => "xizi"
    case Glyph(c) => [c]
  }

  function Render(segs: seq<Segment>): string
  {
    if |segs| == 0 then "" else SegmentText(segs[0]) + Render(segs[1..])
  }

  /** A segment the scanner can produce. */
  predicate WellFormed(s: Segment)
  {
    match s
    case Skipped(c) => IsSkipped(c)
    case Contracted(g) => '»' !in g
    case XiziWord => true
    case Glyph(c) => !IsSkipped(c) && c != '«' && c != 'x'
  }

  /** The scan of `h` splits it without losing or adding anything: a complete scan
      renders back to the text, and an interrupted one renders to the text before the
      `«` or `x` it stopped at. */
  predicate Faithful(h: string)
  {
    FaithfulTo(h, ScanText(h))
  }

  /** `sc` splits `h` as `Faithful` describes. */
  predicate FaithfulTo(h: string, sc: Scan)
  {
    var r := Render(sc.segments);
    && (forall i :: 0 <= i < |sc.segments| ==> WellFormed(sc.segments[i]))
    && (sc.end == Complete ==> r == h)
    && (sc.end.Unclosed? ==> r + "«" + sc.end.partial == h && '»' !in sc.end.partial)
    && (sc.end == BrokenXizi ==> |r| < |h| && h[..|r|] == r && h[|r|] == 'x')
  }

  lemma {:induction false} ScanRender(h: string)
    ensures Faithful(h)
    decreases |h|, 1
  {
    if |h| == 0 {
      assert ScanText(h) == Scan([], Complete);
    } else if IsSkipped(h[0]) {
      ScanSkipped(h);
      ScanRender(h[1..]);
      FaithfulPrepend(h, Skipped(h[0]), h[1..], ScanText(h[1..]));
    } else if h[0] == '«' {
      FaithfulGuillemet(h);
    } else if h[0] == 'x' {
      FaithfulX(h);
    } else {
      ScanGlyph(h);
      ScanRender(h[1..]);
      FaithfulPrepend(h, Glyph(h[0]), h[1..], ScanText(h[1..]));
    }
  }

  lemma {:induction false} FaithfulGuillemet(h: string)
    requires |h| > 0 && h[0] == '«'
    ensures Faithful(h)
    decreases |h|, 0
  {
    ScanGuillemet(h);
    var t := h[1..];
    var k := FindChar(t, '»');
    if k < |t| {
      var rest := t[k + 1..];
      ScanRender(rest);
      GuillemetSplit(h, k);
      FaithfulPrepend(h, Contracted(t[..k]), rest, ScanText(rest));
    } else {
      FaithfulUnclosed(h);
    }
  }

  lemma GuillemetSplit(h: string, k: nat)
    requires |h| > 0 && h[0] == '«' && k < |h| - 1 && h[k + 1] == '»'
    ensures h == SegmentText(Contracted(h[1..][..k])) + h[1..][k + 1..]
  {
    var t := h[1..];
    assert h == [h[0]] + t;
    assert t == t[..k] + [t[k]] + t[k + 1..];
  }

  lemma FaithfulUnclosed(h: string)
    requires |h| > 0 && h[0] == '«' && ScanText(h) == Scan([], Unclosed(h[1..])) && '»' !in h[1..]
    ensures Faithful(h)
  {
    assert Render([]) + "«" + h[1..] == h;
  }

  lemma {:induction false} FaithfulX(h: string)
    requires |h| > 0 && h[0] == 'x'
    ensures Faithful(h)
    decreases |h|, 0
  {
    ScanX(h);
    if |h| >= 4 && h[1..4] == "izi" {
      assert h == "xizi" + h[4..];
      ScanRender(h[4..]);
      FaithfulPrepend(h, XiziWord, h[4..], ScanText(h[4..]));
    } else {
      assert Render([]) == "";
    }
  }

  lemma ScanSkipped(h: string)
    requires |h| > 0 && IsSkipped(h[0])
    ensures ScanText(h) == Prepend(Skipped(h[0]), ScanText(h[1..]))
  {
  }

  lemma ScanGuillemet(h: string)
    requires |h| > 0 && h[0] == '«'
    ensures FindChar(h[1..], '»') == |h| - 1 ==> ScanText(h) == Scan([], Unclosed(h[1..]))
    ensures FindChar(h[1..], '»') < |h| - 1 ==>
      ScanText(h) == Prepend(Contracted(h[1..][..FindChar(h[1..], '»')]), ScanText(h[1..][FindChar(h[1..], '»') + 1..]))
  {
    assert !IsSkipped(h[0]);
  }

  lemma ScanX(h: string)
    requires |h| > 0 && h[0] == 'x'
    ensures |h| >= 4 && h[1..4] == "izi" ==> ScanText(h) == Prepend(XiziWord, ScanText(h[4..]))
    ensures !(|h| >= 4 && h[1..4] == "izi") ==> ScanText(h) == Scan([], BrokenXizi)
  {
    assert !IsSkipped(h[0]);
  }

  lemma ScanGlyph(h: string)
    requires |h| > 0 && !IsSkipped(h[0]) && h[0] != '«' && h[0] != 'x'
    ensures ScanText(h) == Prepend(Glyph(h[0]), ScanText(h[1..]))
  {
  }

  /** One scanner step keeps the scan faithful. */
  lemma FaithfulPrepend(h: string, s: Segment, rest: string, sr: Scan)
    requires h == SegmentText(s) + rest
    requires WellFormed(s) && FaithfulTo(rest, sr)
    ensures FaithfulTo(h, Prepend(s, sr))
  {
    var sc := Prepend(s, sr);
    var r0 := Render(sr.segments);
    assert sc.segments[1..] == sr.segments;
    assert Render(sc.segments) == SegmentText(s) + r0;
    var r := Render(sc.segments);
    if sc.end == BrokenXizi {
      assert h[..|r|] == SegmentText(s) + rest[..|r0|];
    }
  }

  /** The other direction: rendering well-formed segments and scanning the result gives
      the same segments back, and the scan runs to the end. */
  lemma {:induction false} RenderScan(segs: seq<Segment>)
    requires forall i :: 0 <= i < |segs| ==> WellFormed(segs[i])
    ensures ScanText(Render(segs)) == Scan(segs, Complete)
    decreases |segs|
  {
    if |segs| > 0 {
      RenderScan(segs[1..]);
      ScanOfSegment(segs[0], Render(segs[1..]));
      assert [segs[0]] + segs[1..] == segs;
    }
  }

  /** The scanner reads a well-formed segment back from its text. */
  lemma ScanOfSegment(s: Segment, rest: string)
    requires WellFormed(s)
    ensures ScanText(SegmentText(s) + rest) == Prepend(s, ScanText(rest))
  {
    var h := SegmentText(s) + rest;
    match s
    case Skipped(c) => {
      assert h[0] == c && h[1..] == rest;
      ScanSkipped(h);
    }
    case Glyph(c) => {
      assert h[0] == c && h[1..] == rest;
      ScanGlyph(h);
    }
    case XiziWord => {
      assert h[0] == 'x' && h[1..4] == "izi" && h[4..] == rest;
      ScanX(h);
    }
    case Contracted(g) => {
      var t := h[1..];
      assert t == g + "»" + rest;
      assert t[..|g|] == g && t[|g|] == '»';
      assert t[|g| + 1..] == rest;
      FindCharAt(t, '»', |g|);
      ScanGuillemet(h);
    }
  }

  /** `FindChar` finds the first occurrence. */
  lemma FindCharAt(s: string, c: char, k: nat)
    requires k < |s| && s[k] == c && c !in s[..k]
    ensures FindChar(s, c) == k
  {
  }

  // ---------------------------------------------------------------------------------
  // Sentence alignment
  // ---------------------------------------------------------------------------------

  /** Why a sentence does not align with its syllables. */
  datatype Mismatch =
    | EndOfKey                                         // the syllables ran out first
    | NoContraction(glyphs: string, expected: ExtSyllable)
    | XiziMismatch                                     // `xizi` written, another syllable in the key
    | XiziExpected                                     // an `x` not followed by `izi`
    | NoPronunciation(c: char, expected: ExtSyllable)
    | KeyLeftOver(next: ExtSyllable)                   // the text ran out first

  /** The result of aligning one sentence; `Panicked` is the `Unmatched guillemet` panic. */
  datatype Verdict = Aligned | Failed(mismatch: Mismatch) | Panicked

  /** `table` lists `glyphs` with the syllable `e` (an `ExtSyllable`, so `Xizi` never matches). */
  predicate Reads(table: SoundTable, glyphs: string, e: ExtSyllable)
  {
    e.Syl? && Pronounces(table, glyphs, e.syllable)
  }

  /** Walks the segments with a cursor into `keys`, returning the syllables not consumed. */
  function AlignSegments(segs: seq<Segment>, keys: seq<ExtSyllable>, chars: SoundTable, contractions: SoundTable): (r: Result<seq<ExtSyllable>, Mismatch>)
    ensures r.Ok? ==> |r.value| <= |keys|
    ensures r.Err? ==> !r.error.XiziExpected? && !r.error.KeyLeftOver?
    ensures r.Err? && r.error.NoPronunciation? ==> !Reads(chars, [r.error.c], r.error.expected)
    ensures r.Err? && r.error.NoContraction? ==> !Reads(contractions, r.error.glyphs, r.error.expected)
    ensures r.Err? && r.error.EndOfKey? ==> |Slots(segs)| > |keys|
    decreases |segs|
  {
    if |segs| == 0 then Ok(keys)
    else
      match segs[0]
      case Skipped(_) => AlignSegments(segs[1..], keys, chars, contractions)
      case Contracted(g) =>
        if |keys| == 0 then Err(EndOfKey)
        else if Reads(contractions, g, keys[0]) then AlignSegments(segs[1..], keys[1..], chars, contractions)
        else Err(NoContraction(g, keys[0]))
      case XiziWord =>
        if |keys| > 0 && keys[0] == Xizi then AlignSegments(segs[1..], keys[1..], chars, contractions)
        else Err(XiziMismatch)
      case Glyph(c) =>
        if |keys| == 0 then Err(EndOfKey)
        else if Reads(chars, [c], keys[0]) then AlignSegments(segs[1..], keys[1..], chars, contractions)
        else Err(NoPronunciation(c, keys[0]))
  }

  /** The sentence aligner for one row: transcription `h` against the syllables `keys`. */
  function CheckRow(h: string, keys: seq<ExtSyllable>, chars: SoundTable, contractions: SoundTable): (v: Verdict)
    ensures v == Panicked ==> ScanText(h).end.Unclosed?
    ensures v == Failed(XiziExpected) ==> ScanText(h).end == BrokenXizi
    ensures v.Failed? && v.mismatch.KeyLeftOver? ==>
      ScanText(h).end == Complete && |Slots(ScanText(h).segments)| < |keys|
      && v.mismatch.next == keys[|Slots(ScanText(h).segments)|]
  {
    var sc := ScanText(h);
    AlignSegmentsIff(sc.segments, keys, chars, contractions);
    match AlignSegments(sc.segments, keys, chars, contractions)
    case Err(m) => Failed(m)
    case Ok(rest) =>
      match sc.end
      case Unclosed(_) => Panicked
      case BrokenXizi => Failed(XiziExpected)
      case Complete => if |rest| == 0 then Aligned else Failed(KeyLeftOver(rest[0]))
  }

  /** The segments that consume a syllable: all but the skipped characters. */
  function Slots(segs: seq<Segment>): (r: seq<Segment>)
    ensures |r| <= |segs|
  {
    if |segs| == 0 then []
    else if segs[0].Skipped? then Slots(segs[1..])
    else [segs[0]] + Slots(segs[1..])
  }

  /** What a slot must pair with. */
  predicate SlotMatches(s: Segment, e: ExtSyllable, chars: SoundTable, contractions: SoundTable)
  {
    match s
    case Skipped(_) => false
    case Contracted(g) => Reads(contractions, g, e)
    case XiziWord => e == Xizi
    case Glyph(c) => Reads(chars, [c], e)
  }

  /** The i-th slot pairs with the i-th syllable, for every slot. */
  predicate SlotsMatch(slots: seq<Segment>, keys: seq<ExtSyllable>, chars: SoundTable, contractions: SoundTable)
  {
    |slots| <= |keys| && forall i :: 0 <= i < |slots| ==> SlotMatches(slots[i], keys[i], chars, contractions)
  }

  /** The walk succeeds exactly when every slot pairs with the syllable at its position,
      and it then leaves exactly the syllables after the last slot. */
  lemma {:induction false} AlignSegmentsIff(segs: seq<Segment>, keys: seq<ExtSyllable>, chars: SoundTable, contractions: SoundTable)
    ensures AlignSegments(segs, keys, chars, contractions).Ok? <==> SlotsMatch(Slots(segs), keys, chars, contractions)
    ensures AlignSegments(segs, keys, chars, contractions).Ok? ==>
      AlignSegments(segs, keys, chars, contractions).value == keys[|Slots(segs)|..]
    decreases |segs|
  {
    if |segs| > 0 {
      var rest := segs[1..];
      if segs[0].Skipped? {
        AlignSegmentsIff(rest, keys, chars, contractions);
      } else if |keys| > 0 {
        AlignSegmentsIff(rest, keys[1..], chars, contractions);
        assert Slots(segs) == [segs[0]] + Slots(rest);
        assert keys == [keys[0]] + keys[1..];
        SlotsMatchCons(segs[0], Slots(rest), keys[0], keys[1..], chars, contractions);
        if AlignSegments(segs, keys, chars, contractions).Ok? {
          assert keys[1..][|Slots(rest)|..] == keys[|Slots(segs)|..];
        }
      }
    }
  }

  /** Matching slots against syllables, one pair at a time. */
  lemma SlotsMatchCons(s: Segment, slots: seq<Segment>, k: ExtSyllable, keys: seq<ExtSyllable>, chars: SoundTable, contractions: SoundTable)
    ensures SlotsMatch([s] + slots, [k] + keys, chars, contractions) <==>
      SlotMatches(s, k, chars, contractions) && SlotsMatch(slots, keys, chars, contractions)
  {
    var ss := [s] + slots;
    var ks := [k] + keys;
    assert |ss| == |slots| + 1 && |ks| == |keys| + 1;
    if SlotsMatch(ss, ks, chars, contractions) {
      assert SlotMatches(ss[0], ks[0], chars, contractions);
      forall i | 0 <= i < |slots|
        ensures SlotMatches(slots[i], keys[i], chars, contractions)
      {
        assert ss[i + 1] == slots[i] && ks[i + 1] == keys[i];
      }
    }
    if SlotMatches(s, k, chars, contractions) && SlotsMatch(slots, keys, chars, contractions) {
      forall i | 0 <= i < |ss|
        ensures SlotMatches(ss[i], ks[i], chars, contractions)
      {
        if i > 0 {
          assert ss[i] == slots[i - 1] && ks[i] == keys[i - 1];
        }
      }
    }
  }

  /** A sentence aligns exactly when its transcription scans to the end, has as many
      slots as syllables, and every slot pairs with the syllable at its position; the
      panic happens only at an unclosed `«`. */
  lemma CheckRowIff(h: string, keys: seq<ExtSyllable>, chars: SoundTable, contractions: SoundTable)
    ensures CheckRow(h, keys, chars, contractions) == Aligned <==>
      ScanText(h).end == Complete && |Slots(ScanText(h).segments)| == |keys|
      && SlotsMatch(Slots(ScanText(h).segments), keys, chars, contractions)
    ensures CheckRow(h, keys, chars, contractions) == Panicked ==> ScanText(h).end.Unclosed?
  {
    AlignSegmentsIff(ScanText(h).segments, keys, chars, contractions);
  }

  /** One sentence of the corpus as the checker sees it. `decomposition` is the parsed
      `decomposed` column, absent when that column is empty. */
  datatype SentenceRow = SentenceRow(syllables: seq<ExtSyllable>, hanzi: string, decomposition: Option<seq<Vocab.KeyGloss>>)

  /** Row `i` is the first row whose verdict is not `Aligned`, and its verdict is `v`. */
  predicate FirstMisaligned(rows: seq<SentenceRow>, chars: SoundTable, contractions: SoundTable, i: int, v: Verdict)
  {
    && 0 <= i < |rows|
    && CheckRow(rows[i].hanzi, rows[i].syllables, chars, contractions) == v
    && forall j :: 0 <= j < i ==> CheckRow(rows[j].hanzi, rows[j].syllables, chars, contractions) == Aligned
  }

  /** `check_sentence_pronunciation`: the rows in corpus order, stopping at the first row
      that does not align. */
  function CheckSentences(rows: seq<SentenceRow>, chars: SoundTable, contractions: SoundTable): (v: Verdict)
    ensures v == Aligned <==> forall i :: 0 <= i < |rows| ==>
      CheckRow(rows[i].hanzi, rows[i].syllables, chars, contractions) == Aligned
    ensures v != Aligned ==> exists i :: FirstMisaligned(rows, chars, contractions, i, v)
    decreases |rows|
  {
    if |rows| == 0 then Aligned
    else
      var v := CheckRow(rows[0].hanzi, rows[0].syllables, chars, contractions);
      var rest := CheckSentences(rows[1..], chars, contractions);
      assert forall i :: 1 <= i < |rows| ==> rows[i] == rows[1..][i - 1];
      if v != Aligned then
        assert FirstMisaligned(rows, chars, contractions, 0, v);
        v
      else
        assert rest != Aligned ==> exists i :: FirstMisaligned(rows, chars, contractions, i, rest) by {
          if rest != Aligned {
            var k :| FirstMisaligned(rows[1..], chars, contractions, k, rest);
            assert FirstMisaligned(rows, chars, contractions, k + 1, rest);
          }
        }
        rest
  }

  // ---------------------------------------------------------------------------------
  // Glyph counting
  // ---------------------------------------------------------------------------------

  /** Why `char_count` fails; `UnmatchedGuillemet` is a panic in the source. */
  datatype CountFailure = NotLinzklar(c: char) | NoXizi | UnmatchedGuillemet

  /** `Linzklar::from_char` over a run of characters: the run itself, or the first
      character it rejects. */
  /** `s[i]` is the first character of `s` that `isLinzklar` rejects. */
  predicate FirstRejected(s: string, isLinzklar: char -> bool, i: int)
  {
    0 <= i < |s| && !isLinzklar(s[i]) && forall j :: 0 <= j < i ==> isLinzklar(s[j])
  }

  function Admit(s: string, isLinzklar: char -> bool): (r: Result<string, char>)
    ensures r.Ok? <==> forall i :: 0 <= i < |s| ==> isLinzklar(s[i])
    ensures r.Ok? ==> r.value == s
    ensures r.Err? ==> exists i :: FirstRejected(s, isLinzklar, i) && s[i] == r.error
  {
    if |s| == 0 then Ok(s)
    else if !isLinzklar(s[0]) then
      assert FirstRejected(s, isLinzklar, 0);
      Err(s[0])
    else
      var rest := Admit(s[1..], isLinzklar);
      assert forall i :: 1 <= i < |s| ==> s[i] == s[1..][i - 1];
      match rest
      case Ok(_) => assert [s[0]] + s[1..] == s; Ok(s)
      case Err(c) =>
        assert exists i :: FirstRejected(s, isLinzklar, i) && s[i] == c by {
          var k :| FirstRejected(s[1..], isLinzklar, k) && s[1..][k] == c;
          assert FirstRejected(s, isLinzklar, k + 1);
        }
        Err(c)
  }

  /** The glyphs a segment contributes to the count. */
  function SegmentGlyphs(s: Segment): string
  {
    match s
    case Skipped(_) => ""
    case Contracted(g) => g
    case XiziWord => ""
    case Glyph(c) => [c]
  }

  /** The counted glyphs of a run of segments, in order, or the first rejected character. */
  function CountedGlyphs(segs: seq<Segment>, isLinzklar: char -> bool): (r: Result<string, char>)
    decreases |segs|
  {
    if |segs| == 0 then Ok("")
    else Then(Admit(SegmentGlyphs(segs[0]), isLinzklar), CountedGlyphs(segs[1..], isLinzklar))
  }

  /** The counted glyphs of two consecutive parts: the first part's failure is reported
      first, and otherwise the second part's glyphs follow the first part's. */
  function Then<E>(x: Result<string, E>, y: Result<string, E>): Result<string, E>
  {
    match x
    case Err(e) => Err(e)
    case Ok(g) =>
      match y
      case Err(e) => Err(e)
      case Ok(h) => Ok(g + h)
  }

  /** The glyphs `char_count` counts in one transcription. Characters inside an unclosed
      `«` are still checked before the panic. */
  function RowGlyphs(h: string, isLinzklar: char -> bool): (r: Result<string, CountFailure>)
    ensures r.Ok? ==> ScanText(h).end == Complete
    ensures r.Ok? ==> forall i :: 0 <= i < |r.value| ==> isLinzklar(r.value[i])
    ensures r == Err(UnmatchedGuillemet) ==> ScanText(h).end.Unclosed?
    ensures r == Err(NoXizi) ==> ScanText(h).end == BrokenXizi
  {
    var sc := ScanText(h);
    CountedGlyphsAdmitted(sc.segments, isLinzklar);
    match CountedGlyphs(sc.segments, isLinzklar)
    case Err(c) => Err(NotLinzklar(c))
    case Ok(gs) =>
      match sc.end
      case Complete => Ok(gs)
      case BrokenXizi => Err(NoXizi)
      case Unclosed(p) =>
        match Admit(p, isLinzklar)
        case Err(c) => Err(NotLinzklar(c))
        case Ok(_) => Err(UnmatchedGuillemet)
  }

  /** Row `i` is the first row whose glyphs cannot be counted. */
  predicate FirstFailingRow(rows: seq<SentenceRow>, isLinzklar: char -> bool, i: int)
  {
    && 0 <= i < |rows| && RowGlyphs(rows[i].hanzi, isLinzklar).Err?
    && forall j :: 0 <= j < i ==> RowGlyphs(rows[j].hanzi, isLinzklar).Ok?
  }

  /** The counted glyphs of each row, in corpus order, with "" for a row that fails. */
  function RowGlyphStrings(rows: seq<SentenceRow>, isLinzklar: char -> bool): (gs: seq<string>)
    ensures |gs| == |rows|
    ensures forall i :: 0 <= i < |rows| && RowGlyphs(rows[i].hanzi, isLinzklar).Ok? ==>
      gs[i] == RowGlyphs(rows[i].hanzi, isLinzklar).value
    decreases |rows|
  {
    if |rows| == 0 then []
    else
      var g := match RowGlyphs(rows[0].hanzi, isLinzklar) case Ok(g) => g case Err(_) => "";
      assert forall i :: 1 <= i < |rows| ==> rows[i] == rows[1..][i - 1];
      [g] + RowGlyphStrings(rows[1..], isLinzklar)
  }

  /** The counted glyphs of every row, in corpus order, stopping at the first failure. */
  function AllGlyphs(rows: seq<SentenceRow>, isLinzklar: char -> bool): (r: Result<string, CountFailure>)
    ensures r.Ok? <==> forall i :: 0 <= i < |rows| ==> RowGlyphs(rows[i].hanzi, isLinzklar).Ok?
    ensures r.Ok? ==> r.value == Concat(RowGlyphStrings(rows, isLinzklar))
    ensures r.Err? ==> exists i :: FirstFailingRow(rows, isLinzklar, i) && r.error == RowGlyphs(rows[i].hanzi, isLinzklar).error
    decreases |rows|
  {
    if |rows| == 0 then Ok("")
    else
      var rest := AllGlyphs(rows[1..], isLinzklar);
      assert forall i :: 1 <= i < |rows| ==> rows[i] == rows[1..][i - 1];
      assert RowGlyphStrings(rows, isLinzklar)[1..] == RowGlyphStrings(rows[1..], isLinzklar);
      assert RowGlyphs(rows[0].hanzi, isLinzklar).Err? ==> FirstFailingRow(rows, isLinzklar, 0);
      assert RowGlyphs(rows[0].hanzi, isLinzklar).Ok? && rest.Err? ==>
        exists i :: FirstFailingRow(rows, isLinzklar, i) && rest.error == RowGlyphs(rows[i].hanzi, isLinzklar).error
      by {
        if RowGlyphs(rows[0].hanzi, isLinzklar).Ok? && rest.Err? {
          var k :| FirstFailingRow(rows[1..], isLinzklar, k) && rest.error == RowGlyphs(rows[1..][k].hanzi, isLinzklar).error;
          assert FirstFailingRow(rows, isLinzklar, k + 1);
        }
      }
      Then(RowGlyphs(rows[0].hanzi, isLinzklar), rest)
  }

  /** Every counted glyph is accepted by `Linzklar::from_char`. */
  lemma {:induction false} CountedGlyphsAdmitted(segs: seq<Segment>, isLinzklar: char -> bool)
    ensures CountedGlyphs(segs, isLinzklar).Ok? ==>
      forall i :: 0 <= i < |CountedGlyphs(segs, isLinzklar).value| ==> isLinzklar(CountedGlyphs(segs, isLinzklar).value[i])
    decreases |segs|
  {
    if |segs| > 0 {
      CountedGlyphsAdmitted(segs[1..], isLinzklar);
    }
  }

  lemma {:induction false} AllGlyphsAdmitted(rows: seq<SentenceRow>, isLinzklar: char -> bool)
    ensures AllGlyphs(rows, isLinzklar).Ok? ==>
      forall i :: 0 <= i < |AllGlyphs(rows, isLinzklar).value| ==> isLinzklar(AllGlyphs(rows, isLinzklar).value[i])
    decreases |rows|
  {
    if |rows| > 0 {
      AllGlyphsAdmitted(rows[1..], isLinzklar);
      CountedGlyphsAdmitted(ScanText(rows[0].hanzi).segments, isLinzklar);
    }
  }

  /** `char_count`: how often each glyph occurs across the corpus. */
  function CharCount(rows: seq<SentenceRow>, isLinzklar: char -> bool): (r: Result<map<char, nat>, CountFailure>)
    ensures r.Ok? <==> forall i :: 0 <= i < |rows| ==> RowGlyphs(rows[i].hanzi, isLinzklar).Ok?
    ensures r.Ok? ==> forall c :: c in r.value ==> isLinzklar(c)
    ensures r.Ok? ==> forall c :: c in r.value <==> c in AllGlyphs(rows, isLinzklar).value
    ensures r.Ok? ==> forall c :: c in r.value ==> r.value[c] == multiset(AllGlyphs(rows, isLinzklar).value)[c]
    ensures r.Ok? ==> SumOver(FirstUse(AllGlyphs(rows, isLinzklar).value), r.value) == |AllGlyphs(rows, isLinzklar).value|
    ensures r.Err? ==> exists i :: FirstFailingRow(rows, isLinzklar, i) && r.error == RowGlyphs(rows[i].hanzi, isLinzklar).error
  {
    AllGlyphsAdmitted(rows, isLinzklar);
    match AllGlyphs(rows, isLinzklar)
    case Err(e) => Err(e)
    case Ok(gs) =>
      TallyTotal(gs);
      Ok(Tally(gs))
  }

  /** In a transcription without `«` and `x`, the counted glyphs are the text minus its
      skipped characters (provided every other character is a glyph). */
  lemma {:induction false} PlainGlyphs(h: string, isLinzklar: char -> bool)
    requires forall i :: 0 <= i < |h| ==> h[i] != '«' && h[i] != 'x'
    requires forall i :: 0 <= i < |h| && !IsSkipped(h[i]) ==> isLinzklar(h[i])
    ensures ScanText(h).end == Complete
    ensures CountedGlyphs(ScanText(h).segments, isLinzklar) == Ok(RemoveWhere(h, IsSkipped))
    ensures RowGlyphs(h, isLinzklar) == Ok(RemoveWhere(h, IsSkipped))
    decreases |h|
  {
    if |h| > 0 {
      assert forall i :: 1 <= i < |h| ==> h[1..][i - 1] == h[i];
      PlainGlyphs(h[1..], isLinzklar);
      var segs := ScanText(h).segments;
      var tail := RemoveWhere(h[1..], IsSkipped);
      if IsSkipped(h[0]) {
        ScanSkipped(h);
        assert segs[1..] == ScanText(h[1..]).segments;
        assert Admit(SegmentGlyphs(segs[0]), isLinzklar) == Ok("");
        assert CountedGlyphs(segs, isLinzklar) == Ok("" + tail);
        assert "" + tail == tail;
      } else {
        ScanGlyph(h);
        assert segs[1..] == ScanText(h[1..]).segments;
        assert Admit(SegmentGlyphs(segs[0]), isLinzklar) == Ok([h[0]]);
        assert CountedGlyphs(segs, isLinzklar) == Ok([h[0]] + tail);
      }
    }
  }

  /** Each glyph inside a `«…»` span is counted. */
  lemma ContractionGlyphsCounted(g: string, isLinzklar: char -> bool)
    requires '»' !in g
    requires forall i :: 0 <= i < |g| ==> isLinzklar(g[i])
    ensures RowGlyphs("«" + g + "»", isLinzklar) == Ok(g)
  {
    var segs := [Contracted(g)];
    var h := "«" + g + "»";
    assert Render(segs) == h + Render([]);
    assert h + "" == h;
    RenderScan(segs);
    assert ScanText(h) == Scan(segs, Complete);
    assert segs[1..] == [];
    assert CountedGlyphs(segs[1..], isLinzklar) == Ok("");
    assert Admit(g, isLinzklar) == Ok(g);
    assert g + "" == g;
  }

  /** A transcription scanned to its end may be followed by anything: the whole scans as
      the first part's segments followed by the scan of the rest. */
  lemma ScanAppend(a: string, b: string)
    requires ScanText(a).end == Complete
    ensures ScanText(a + b) == Scan(ScanText(a).segments + ScanText(b).segments, ScanText(b).end)
  {
    ScanRender(a);
    ScanAfterSegments(ScanText(a).segments, b);
  }

  lemma {:induction false} ScanAfterSegments(segs: seq<Segment>, b: string)
    requires forall i :: 0 <= i < |segs| ==> WellFormed(segs[i])
    ensures ScanText(Render(segs) + b) == Scan(segs + ScanText(b).segments, ScanText(b).end)
    decreases |segs|
  {
    if |segs| == 0 {
      assert Render(segs) + b == b;
      assert segs + ScanText(b).segments == ScanText(b).segments;
    } else {
      var rest := Render(segs[1..]) + b;
      ScanAfterSegments(segs[1..], b);
      assert Render(segs) + b == SegmentText(segs[0]) + rest;
      ScanOfSegment(segs[0], rest);
      PrependAfter(segs, ScanText(rest), ScanText(b));
    }
  }

  lemma PrependAfter(segs: seq<Segment>, sr: Scan, sb: Scan)
    requires |segs| > 0 && sr == Scan(segs[1..] + sb.segments, sb.end)
    ensures Prepend(segs[0], sr) == Scan(segs + sb.segments, sb.end)
  {
    assert [segs[0]] + (segs[1..] + sb.segments) == segs + sb.segments;
  }

  lemma ThenAssociative<E>(x: Result<string, E>, y: Result<string, E>, z: Result<string, E>)
    ensures Then(x, Then(y, z)) == Then(Then(x, y), z)
  {
    if x.Ok? && y.Ok? && z.Ok? {
      assert x.value + (y.value + z.value) == (x.value + y.value) + z.value;
    }
  }

  /** Counting a run of segments counts its parts one after the other. */
  lemma {:induction false} CountedGlyphsAppend(s1: seq<Segment>, s2: seq<Segment>, isLinzklar: char -> bool)
    ensures CountedGlyphs(s1 + s2, isLinzklar) == Then(CountedGlyphs(s1, isLinzklar), CountedGlyphs(s2, isLinzklar))
    decreases |s1|
  {
    var y := CountedGlyphs(s2, isLinzklar);
    if |s1| == 0 {
      assert s1 + s2 == s2;
      if y.Ok? {
        assert "" + y.value == y.value;
      }
    } else {
      assert (s1 + s2)[0] == s1[0];
      assert (s1 + s2)[1..] == s1[1..] + s2;
      CountedGlyphsAppend(s1[1..], s2, isLinzklar);
      ThenAssociative(Admit(SegmentGlyphs(s1[0]), isLinzklar), CountedGlyphs(s1[1..], isLinzklar), y);
    }
  }

  /** After a part that scans to its end, the counted glyphs of the whole are those of the
      part followed by those of the rest, and the part's failure comes first. */
  lemma RowGlyphsAppend(a: string, b: string, isLinzklar: char -> bool)
    requires ScanText(a).end == Complete
    ensures RowGlyphs(a + b, isLinzklar) == Then(RowGlyphs(a, isLinzklar), RowGlyphs(b, isLinzklar))
  {
    ScanAppend(a, b);
    CountedGlyphsAppend(ScanText(a).segments, ScanText(b).segments, isLinzklar);
  }

  /** The letters `xizi` add nothing to the count. */
  lemma XiziCountsNothing(h: string, isLinzklar: char -> bool)
    ensures RowGlyphs("xizi" + h, isLinzklar) == RowGlyphs(h, isLinzklar)
  {
    ScanOfSegment(XiziWord, h);
    var segs := ScanText("xizi" + h).segments;
    assert segs[1..] == ScanText(h).segments;
    var y := CountedGlyphs(ScanText(h).segments, isLinzklar);
    if y.Ok? {
      assert "" + y.value == y.value;
    }
  }

  /** A skipped character adds nothing to the count. */
  lemma SkippedCountsNothing(c: char, h: string, isLinzklar: char -> bool)
    requires IsSkipped(c)
    ensures RowGlyphs([c] + h, isLinzklar) == RowGlyphs(h, isLinzklar)
  {
    ScanOfSegment(Skipped(c), h);
    var segs := ScanText([c] + h).segments;
    assert segs[1..] == ScanText(h).segments;
    var y := CountedGlyphs(ScanText(h).segments, isLinzklar);
    if y.Ok? {
      assert "" + y.value == y.value;
    }
  }

  /** Any other single character is counted once, or is the rejected character. */
  lemma GlyphCounted(c: char, h: string, isLinzklar: char -> bool)
    requires !IsSkipped(c) && c != '«' && c != 'x'
    ensures isLinzklar(c) ==> RowGlyphs([c] + h, isLinzklar) == Then(Ok([c]), RowGlyphs(h, isLinzklar))
    ensures !isLinzklar(c) ==> RowGlyphs([c] + h, isLinzklar) == Err(NotLinzklar(c))
  {
    ScanOfSegment(Glyph(c), h);
    var segs := ScanText([c] + h).segments;
    assert segs[1..] == ScanText(h).segments;
    assert Admit([c], isLinzklar) == (if isLinzklar(c) then Ok([c]) else Err(c));
  }
}
