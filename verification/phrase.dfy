/** The phrase table: extended syllables (a syllable or the word `xizi`), the tokenizer that
    turns a romanized phrase into syllables, the recording columns, and the loader with its
    review filter and duplicate-phrase detection. */
module Phrase {
  import opened Wrappers
  import opened Chars
  import opened Strings
  import opened Collections
  import opened Rerrliratixka

  /** A syllable of the phrase table: a real syllable or the word `xizi`. */
  datatype ExtSyllable = Syl(syllable: Syllable) | Xizi

  /** `Display for ExtSyllable` */
  function ExtDisplay(e: ExtSyllable): string
  {
    match e
    case Syl(x) => Spell(x)
    case Xizi => "xizi"
  }

  /** `ExtSyllable::to_rerrliratixka` */
  function ExtToRerrliratixka(e: ExtSyllable): (r: string)
    ensures DigitFree(r)
    ensures e.Syl? && e.syllable.tone == No ==> r == ExtDisplay(e)
  {
    match e
    case Syl(x) => ToRerrliratixka(x)
    case Xizi => "xizi"
  }

  function Displays(xs: seq<ExtSyllable>): seq<string>
  {
    seq(|xs|, i requires 0 <= i < |xs| => ExtDisplay(xs[i]))
  }

  /** `syllables_to_str_underscore` */
  function SyllablesToStrUnderscore(xs: seq<ExtSyllable>): (r: string)
    ensures Tokens(r) == Displays(xs)
  {
    TokensOfJoin(xs, '_');
    assert ['_'] == "_";
    Join(Displays(xs), "_")
  }

  /** `syllables_to_rerrliratixka_no_space` */
  function SyllablesToRerrliratixkaNoSpace(xs: seq<ExtSyllable>): (r: string)
    ensures DigitFree(r)
  {
    if |xs| == 0 then ""
    else
      DigitFreeConcat(ExtToRerrliratixka(xs[0]), SyllablesToRerrliratixkaNoSpace(xs[1..]));
      ExtToRerrliratixka(xs[0]) + SyllablesToRerrliratixkaNoSpace(xs[1..])
  }

  /** The alternate spelling of a phrase is the concatenation of the spellings of its parts. */
  lemma {:induction false} NoSpaceAppend(xs: seq<ExtSyllable>, ys: seq<ExtSyllable>)
    ensures SyllablesToRerrliratixkaNoSpace(xs + ys) ==
      SyllablesToRerrliratixkaNoSpace(xs) + SyllablesToRerrliratixkaNoSpace(ys)
  {
    if |xs| == 0 {
      assert xs + ys == ys;
    } else {
      assert (xs + ys)[1..] == xs[1..] + ys;
      NoSpaceAppend(xs[1..], ys);
    }
  }

  // ---------------------------------------------------------------------------
  // Tokenizing a romanized phrase

  /** The token separators of `encode_to_pekzep_syllables`. */
  predicate IsTokenSeparator(c: char)
  {
    IsAsciiPunctuation(c) || IsWhitespace(c)
  }

  /** The non-empty pieces, in order. */
  function NonEmptyPieces(pieces: seq<string>): (r: seq<string>)
    ensures forall i :: 0 <= i < |r| ==> |r[i]| > 0
    ensures forall s :: s in r <==> s in pieces && |s| > 0
    ensures Concat(r) == Concat(pieces)
    ensures (forall i :: 0 <= i < |pieces| ==> |pieces[i]| > 0) ==> r == pieces
  {
    if |pieces| == 0 then []
    else
      var rest := NonEmptyPieces(pieces[1..]);
      assert forall s :: s in pieces <==> s == pieces[0] || s in pieces[1..];
      assert pieces == [pieces[0]] + pieces[1..];
      if |pieces[0]| == 0 then rest else [pieces[0]] + rest
  }

  /** The tokens of a romanized phrase: the non-empty runs between separators. */
  function Tokens(s: string): (r: seq<string>)
    ensures forall i :: 0 <= i < |r| ==> |r[i]| > 0
    ensures NoneSatisfy(r, IsTokenSeparator)
    ensures Concat(r) == RemoveWhere(s, IsTokenSeparator)
  {
    var pieces := SplitWhere(s, IsTokenSeparator);
    var r := NonEmptyPieces(pieces);
    assert forall i :: 0 <= i < |r| ==> r[i] in pieces;
    r
  }

  /** One token: a syllable, the word `xizi`, or an error naming the token. */
  function ClassifyToken(k: string): (r: Result<ExtSyllable, string>)
    ensures r.Ok? <==> ParseSyllable(k).Some? || k == "xizi"
    ensures r.Ok? ==> ExtDisplay(r.value) == k
    ensures r.Err? ==> r.error == "Failed to parse a pekzep syllable " + k
  {
    match ParseSyllable(k)
    case Some(x) => Ok(Syl(x))
    case None => if k == "xizi" then Ok(Xizi) else Err("Failed to parse a pekzep syllable " + k)
  }

  /** `encode_to_pekzep_syllables`: every token classified; all the bad tokens are reported. */
  function Encode(s: string): (r: Result<seq<ExtSyllable>, seq<string>>)
    ensures r.Ok? ==> |r.value| == |Tokens(s)|
    ensures r.Ok? ==> forall i :: 0 <= i < |r.value| ==> ExtDisplay(r.value[i]) == Tokens(s)[i]
    ensures r.Ok? <==> forall i :: 0 <= i < |Tokens(s)| ==> ClassifyToken(Tokens(s)[i]).Ok?
    ensures r.Err? ==> forall i :: 0 <= i < |Tokens(s)| && ClassifyToken(Tokens(s)[i]).Err? ==>
      "Failed to parse a pekzep syllable " + Tokens(s)[i] in r.error
    ensures r.Err? ==> forall k :: 0 <= k < |r.error| ==> NamesBadToken(Tokens(s), r.error[k])
    ensures r.Err? ==> r.error == BadTokenMessages(Tokens(s))
  {
    ClassifyAll(Tokens(s))
  }

  /** Every token of `t` classified, the bad ones all reported. */
  function ClassifyAll(t: seq<string>): (r: Result<seq<ExtSyllable>, seq<string>>)
    ensures r.Ok? ==> |r.value| == |t|
    ensures r.Ok? ==> forall i :: 0 <= i < |r.value| ==> ExtDisplay(r.value[i]) == t[i]
    ensures r.Ok? <==> forall i :: 0 <= i < |t| ==> ClassifyToken(t[i]).Ok?
    ensures r.Err? ==> forall i :: 0 <= i < |t| && ClassifyToken(t[i]).Err? ==>
      "Failed to parse a pekzep syllable " + t[i] in r.error
    ensures r.Err? ==> forall k :: 0 <= k < |r.error| ==> NamesBadToken(t, r.error[k])
    ensures r.Err? ==> r.error == BadTokenMessages(t)
  {
    var cs := seq(|t|, i requires 0 <= i < |t| => ClassifyToken(t[i]));
    var r := CollectAnyErrors(cs);
    if r.Err? then
      BadTokensReported(t, cs, r.error);
      ClassificationErrorsInOrder(t, cs);
      r
    else r
  }

  /** The message of every token of `t` that is neither a syllable nor `xizi`, in order
      and with repeats kept. */
  function BadTokenMessages(t: seq<string>): seq<string>
  {
    if |t| == 0 then []
    else
      (if ClassifyToken(t[0]).Err? then ["Failed to parse a pekzep syllable " + t[0]] else [])
      + BadTokenMessages(t[1..])
  }

  /** Collecting the errors of the classifications lists the bad tokens' messages in order. */
  lemma {:induction false} ClassificationErrorsInOrder(toks: seq<string>, cs: seq<Result<ExtSyllable, string>>)
    requires |cs| == |toks| && forall i :: 0 <= i < |toks| ==> cs[i] == ClassifyToken(toks[i])
    ensures ErrorsOf(cs) == BadTokenMessages(toks)
    decreases |toks|
  {
    if |toks| > 0 {
      assert forall i :: 1 <= i < |cs| ==> cs[1..][i - 1] == cs[i] && toks[1..][i - 1] == toks[i];
      ClassificationErrorsInOrder(toks[1..], cs[1..]);
    }
  }

  /** `e` is the message of some token of `toks` that is neither a syllable nor `xizi`. */
  predicate NamesBadToken(toks: seq<string>, e: string)
  {
    exists i :: 0 <= i < |toks| && ClassifyToken(toks[i]).Err? && e == "Failed to parse a pekzep syllable " + toks[i]
  }

  /** The errors collected from classifying the tokens are exactly the messages of the
      tokens that do not classify. */
  lemma BadTokensReported(toks: seq<string>, cs: seq<Result<ExtSyllable, string>>, es: seq<string>)
    requires |cs| == |toks| && forall i :: 0 <= i < |toks| ==> cs[i] == ClassifyToken(toks[i])
    requires forall i :: 0 <= i < |cs| && cs[i].Err? ==> cs[i].error in es
    requires forall k :: 0 <= k < |es| ==> exists i :: 0 <= i < |cs| && cs[i] == Err(es[k])
    ensures forall i :: 0 <= i < |toks| && ClassifyToken(toks[i]).Err? ==>
      "Failed to parse a pekzep syllable " + toks[i] in es
    ensures forall k :: 0 <= k < |es| ==> NamesBadToken(toks, es[k])
  {
    forall k | 0 <= k < |es|
      ensures NamesBadToken(toks, es[k])
    {
      var i :| 0 <= i < |cs| && cs[i] == Err(es[k]);
      assert ClassifyToken(toks[i]).Err? && es[k] == "Failed to parse a pekzep syllable " + toks[i];
    }
  }

  /** Only lower-case ASCII letters and ASCII digits. */
  predicate LowerOrDigit(s: string)
  {
    forall i :: 0 <= i < |s| ==> ('a' <= s[i] <= 'z') || ('0' <= s[i] <= '9')
  }

  lemma LowerOrDigitConcat(a: string, b: string)
    requires LowerOrDigit(a) && LowerOrDigit(b)
    ensures LowerOrDigit(a + b)
  {
  }

  lemma PiecesLowerOrDigit(x: Syllable)
    ensures LowerOrDigit(OnsetStr(x.onset)) && LowerOrDigit(VowelStr(x.vowel))
    ensures LowerOrDigit(CodaStr(x.coda)) && LowerOrDigit(ToneDigit(x.tone))
  {
  }

  lemma LowerOrDigitNoSeparator(s: string)
    requires LowerOrDigit(s)
    ensures forall i :: 0 <= i < |s| ==> !IsTokenSeparator(s[i])
  {
  }

  /** A spelled syllable is a non-empty run of lower-case letters and digits. */
  lemma SpellLowerOrDigit(x: Syllable)
    ensures |Spell(x)| > 0 && LowerOrDigit(Spell(x))
  {
    PiecesLowerOrDigit(x);
    LowerOrDigitConcat(OnsetStr(x.onset), VowelStr(x.vowel));
    LowerOrDigitConcat(OnsetStr(x.onset) + VowelStr(x.vowel), CodaStr(x.coda));
    LowerOrDigitConcat(OnsetStr(x.onset) + VowelStr(x.vowel) + CodaStr(x.coda), ToneDigit(x.tone));
    VowelStrShape(x.vowel);
  }

  /** A displayed syllable is a non-empty token without separators that classifies back to itself. */
  lemma DisplayIsToken(e: ExtSyllable)
    ensures |ExtDisplay(e)| > 0
    ensures forall i :: 0 <= i < |ExtDisplay(e)| ==> !IsTokenSeparator(ExtDisplay(e)[i])
    ensures ClassifyToken(ExtDisplay(e)) == Ok(e)
  {
    match e
    case Syl(x) =>
      SpellLowerOrDigit(x);
      LowerOrDigitNoSeparator(Spell(x));
      ParseSyllableIff(Spell(x), x);
    case Xizi =>
      assert LowerOrDigit("xizi");
      LowerOrDigitNoSeparator("xizi");
      XiziIsNotASyllable();
  }

  /** Round trip: a phrase written with any separator character between its syllables
      encodes back to the same syllables. */
  lemma EncodeJoin(xs: seq<ExtSyllable>, d: char)
    requires IsTokenSeparator(d)
    ensures Encode(Join(Displays(xs), [d])) == Ok(xs)
  {
    TokensOfJoin(xs, d);
    EncodeOfDisplays(Join(Displays(xs), [d]), xs);
  }

  /** The tokens of a separator-joined phrase are its syllables' spellings. */
  lemma TokensOfJoin(xs: seq<ExtSyllable>, d: char)
    requires IsTokenSeparator(d)
    ensures Tokens(Join(Displays(xs), [d])) == Displays(xs)
  {
    var pieces := Displays(xs);
    var s := Join(pieces, [d]);
    forall i | 0 <= i < |xs|
      ensures |pieces[i]| > 0
      ensures forall j :: 0 <= j < |pieces[i]| ==> !IsTokenSeparator(pieces[i][j])
    {
      DisplayIsToken(xs[i]);
    }
    if |xs| == 0 {
      assert Tokens(s) == [];
    } else {
      SplitWhereJoin(pieces, d, IsTokenSeparator);
    }
  }

  /** A string whose tokens spell a phrase encodes to that phrase. */
  lemma EncodeOfDisplays(s: string, xs: seq<ExtSyllable>)
    requires Tokens(s) == Displays(xs)
    ensures Encode(s) == Ok(xs)
  {
    var pieces := Displays(xs);
    forall i | 0 <= i < |xs|
      ensures ClassifyToken(pieces[i]) == Ok(xs[i])
    {
      DisplayIsToken(xs[i]);
    }
    var r := Encode(s);
    assert r.Ok?;
    assert r.value == xs;
  }

  /** Round trip: the underscore-joined name of a phrase encodes back to the phrase. */
  lemma EncodeUnderscore(xs: seq<ExtSyllable>)
    ensures Encode(SyllablesToStrUnderscore(xs)) == Ok(xs)
  {
    EncodeJoin(xs, '_');
  }

  // ---------------------------------------------------------------------------
  // Recording columns

  datatype FilePathType = Wav | WavR | Oga

  /** The column spelling of a file type. */
  function FileTypeName(t: FilePathType): string
  {
    match t
    case Wav => "wav"
    case WavR => "wav_r"
    case Oga => "oga"
  }

  /** One trimmed entry of the file-type column; anything else aborts the loader. */
  function FileTypeOf(name: string): (r: Option<FilePathType>)
    ensures r.Some? ==> FileTypeName(r.value) == name
    ensures forall t :: name == FileTypeName(t) ==> r == Some(t)
  {
    if name == "wav_r" then Some(WavR)
    else if name == "wav" then Some(Wav)
    else if name == "oga" then Some(Oga)
    else None
  }

  /** One comma-separated entry of the file-type column, trimmed. */
  function EntryType(piece: string): Option<FilePathType>
  {
    FileTypeOf(Trim(piece, IsWhitespace))
  }

  /** Parsing the entries that were split on commas; `None` marks the abort. */
  function EntryTypes(pieces: seq<string>): (r: Option<seq<FilePathType>>)
    ensures r.Some? <==> forall i :: 0 <= i < |pieces| ==> EntryType(pieces[i]).Some?
    ensures r.Some? ==> |r.value| == |pieces|
    ensures r.Some? ==> forall i :: 0 <= i < |pieces| ==> EntryType(pieces[i]) == Some(r.value[i])
  {
    if |pieces| == 0 then Some([])
    else
      var rest := EntryTypes(pieces[1..]);
      EntryTypesStep(pieces, rest, EntryType);
      match EntryType(pieces[0])
      case None => None
      case Some(t) => if rest.None? then None else Some([t] + rest.value)
  }

  /** What the entries after the first contribute to `EntryTypes`, for any reading `f`
      of one entry. */
  lemma EntryTypesStep(pieces: seq<string>, rest: Option<seq<FilePathType>>, f: string -> Option<FilePathType>)
    requires |pieces| > 0
    requires rest.Some? <==> forall i :: 0 <= i < |pieces| - 1 ==> f(pieces[1..][i]).Some?
    requires rest.Some? ==> |rest.value| == |pieces| - 1
    requires rest.Some? ==> forall i :: 0 <= i < |pieces| - 1 ==> f(pieces[1..][i]) == Some(rest.value[i])
    ensures rest.Some? && f(pieces[0]).Some? <==> forall i :: 0 <= i < |pieces| ==> f(pieces[i]).Some?
    ensures rest.Some? && f(pieces[0]).Some? ==>
      forall i :: 0 <= i < |pieces| ==> f(pieces[i]) == Some(([f(pieces[0]).value] + rest.value)[i])
  {
    var tail := pieces[1..];
    if forall i :: 0 <= i < |pieces| ==> f(pieces[i]).Some? {
      forall i | 0 <= i < |tail|
        ensures f(tail[i]).Some?
      {
        assert tail[i] == pieces[i + 1];
      }
    }
    if rest.Some? {
      forall i | 1 <= i < |pieces|
        ensures f(pieces[i]) == Some(rest.value[i - 1])
      {
        assert pieces[i] == tail[i - 1];
      }
    }
  }

  predicate IsComma(c: char)
  {
    c == ','
  }

  /** The file-type column: empty means no recording, otherwise comma-separated names,
      each read by `EntryType`; a piece that names no file type aborts. */
  function FileTypes(field: string): (r: Option<set<FilePathType>>)
    ensures field == "" ==> r == Some({})
    ensures field != "" ==> (r.Some? <==> EntryTypes(SplitWhere(field, IsComma)).Some?)
    ensures field != "" && r.Some? ==> r.value == set t | t in EntryTypes(SplitWhere(field, IsComma)).value
    ensures field != "" && r.Some? ==> r.value != {}
  {
    if field == "" then Some({})
    else
      var pieces := SplitWhere(field, IsComma);
      assert |pieces| > 0;
      match EntryTypes(pieces)
      case None => None
      case Some(ts) =>
        assert |ts| == |pieces|;
        var st := set t | t in ts;
        assert ts[0] in st;
        Some(st)
  }

  function FileTypeNames(ts: seq<FilePathType>): seq<string>
  {
    seq(|ts|, i requires 0 <= i < |ts| => FileTypeName(ts[i]))
  }

  /** A file-type name holds no comma and reads back as its file type. */
  lemma NameEntry(t: FilePathType)
    ensures forall j :: 0 <= j < |FileTypeName(t)| ==> !IsComma(FileTypeName(t)[j])
    ensures EntryType(FileTypeName(t)) == Some(t)
  {
    var n := FileTypeName(t);
    assert !IsWhitespace(n[0]) && !IsWhitespace(n[|n| - 1]) by {
      match t
      case Wav =>
      case WavR =>
      case Oga =>
    }
  }

  /** Every name of a list of file types reads back as its file type. */
  lemma EntryTypesOfNames(ts: seq<FilePathType>)
    ensures EntryTypes(FileTypeNames(ts)) == Some(ts)
  {
    var names := FileTypeNames(ts);
    forall i | 0 <= i < |ts|
      ensures EntryType(names[i]) == Some(ts[i])
    {
      NameEntry(ts[i]);
    }
    var r := EntryTypes(names);
    assert r.Some?;
    assert r.value == ts;
  }

  /** The names of a list of file types hold no comma. */
  lemma NamesHaveNoComma(ts: seq<FilePathType>)
    ensures NoneSatisfy(FileTypeNames(ts), IsComma)
  {
    var names := FileTypeNames(ts);
    forall i, j | 0 <= i < |names| && 0 <= j < |names[i]|
      ensures !IsComma(names[i][j])
    {
      NameEntry(ts[i]);
    }
  }

  /** Round trip: a non-empty list of file types written with commas reads back as its set. */
  lemma FileTypesJoin(ts: seq<FilePathType>)
    requires |ts| > 0
    ensures FileTypes(Join(FileTypeNames(ts), ",")) == Some(set t | t in ts)
  {
    var names := FileTypeNames(ts);
    NamesHaveNoComma(ts);
    SplitWhereJoin(names, ',', IsComma);
    assert [','] == ",";
    var field := Join(names, ",");
    assert field != "" by {
      NameEntry(ts[0]);
      JoinNonEmpty(names, ",");
    }
    EntryTypesOfNames(ts);
  }

  lemma JoinNonEmpty(pieces: seq<string>, sep: string)
    requires |pieces| > 0 && |pieces[0]| > 0
    ensures |Join(pieces, sep)| > 0
  {
  }

  datatype Author = JektoVatimeliju | FaliraLyjotafis | Other(name: string)

  /** `Display for Author` */
  function AuthorDisplay(a: Author): string
  {
    match a
    case JektoVatimeliju => "jekto.vatimeliju"
    case FaliraLyjotafis => "falira.lyjotafis"
    case Other(n) => n
  }

  /** The recording-author column: the two known readers, nobody, or someone else. */
  function ParseAuthor(field: string): (r: Option<Author>)
    ensures r.None? <==> field == ""
    ensures r.Some? ==> AuthorDisplay(r.value) == field
  {
    if field == "jekto.vatimeliju" then Some(JektoVatimeliju)
    else if field == "falira.lyjotafis" then Some(FaliraLyjotafis)
    else if field == "" then None
    else Some(Other(field))
  }

  /** An author reads back from its display, unless it is an `Other` that spells the empty
      name or a known reader's name. */
  lemma AuthorRoundTrip(a: Author)
    requires a.Other? ==> a.name !in {"", "jekto.vatimeliju", "falira.lyjotafis"}
    ensures ParseAuthor(AuthorDisplay(a)) == Some(a)
  {
  }

  // ---------------------------------------------------------------------------
  // Loading the phrase table

  /** One line of the phrase file, split on tabs. */
  datatype PhraseRecord = PhraseRecord(
    english: string,
    pekzepLatin: string,
    pekzepHanzi: string,
    chinesePinyin: string,
    chineseHanzi: string,
    decomposed: string,
    filetype: string,
    recordingAuthor: string)

  datatype PhraseItem = PhraseItem(
    english: string,
    pekzepLatin: string,
    pekzepHanzi: string,
    chinesePinyin: string,
    chineseHanzi: string,
    decomposed: string,
    filetype: set<FilePathType>,
    recordingAuthor: Option<Author>)

  /** The row built from a record, or `None` where an unknown file type aborts the program. */
  function ToItem(rec: PhraseRecord): (r: Option<PhraseItem>)
    ensures r.Some? <==> FileTypes(rec.filetype).Some?
    ensures r.Some? ==> r.value.pekzepLatin == rec.pekzepLatin && r.value.pekzepHanzi == rec.pekzepHanzi
    ensures r.Some? ==> r.value.english == rec.english && r.value.decomposed == rec.decomposed
    ensures r.Some? ==> r.value.chinesePinyin == rec.chinesePinyin && r.value.chineseHanzi == rec.chineseHanzi
    ensures r.Some? ==> Some(r.value.filetype) == FileTypes(rec.filetype)
    ensures r.Some? ==> r.value.recordingAuthor == ParseAuthor(rec.recordingAuthor)
    ensures r.Some? && r.value.recordingAuthor.Some? ==>
      AuthorDisplay(r.value.recordingAuthor.value) == rec.recordingAuthor
  {
    match FileTypes(rec.filetype)
    case None => None
    case Some(ts) =>
      Some(PhraseItem(rec.english, rec.pekzepLatin, rec.pekzepHanzi, rec.chinesePinyin,
                      rec.chineseHanzi, rec.decomposed, ts, ParseAuthor(rec.recordingAuthor)))
  }

  /** A row is peer-reviewed unless its Pekzep hanzi carry the `@` mark. */
  predicate Reviewed(rec: PhraseRecord)
  {
    '@' !in rec.pekzepHanzi
  }

  /** The phrases in insertion order, the rows, and the duplicate messages so far. */
  datatype Table = Table(order: seq<seq<ExtSyllable>>, rows: map<seq<ExtSyllable>, PhraseItem>, duplicates: seq<string>)

  datatype Failure = InvalidFileType | EncodeFailed(errors: seq<string>)

  datatype LoadOutcome =
    | Loaded(order: seq<seq<ExtSyllable>>, rows: map<seq<ExtSyllable>, PhraseItem>)
    | Aborted(failure: Failure)
    | DuplicatePhrases(messages: seq<string>)

  function DuplicateMessage(syls: seq<ExtSyllable>): string
  {
    "duplicate phrase detected: " + SyllablesToStrUnderscore(syls)
  }

  /** `LinkedHashMap::insert`: a new phrase goes to the end, a known one keeps its place,
      takes the new row and is reported. */
  function Insert(t: Table, syls: seq<ExtSyllable>, item: PhraseItem): Table
  {
    if syls in t.rows then Table(t.order, t.rows[syls := item], t.duplicates + [DuplicateMessage(syls)])
    else Table(t.order + [syls], t.rows[syls := item], t.duplicates)
  }

  /** What one record does to the table. */
  datatype RowAction = Abort(failure: Failure) | Skip | Add(phrase: seq<ExtSyllable>, item: PhraseItem)

  /** The per-record part of the loader's loop body: the row is built (an unknown file type
      aborts), unreviewed rows are skipped, the romanization is encoded (an error aborts), and
      a phrase with no syllables is not inserted. */
  function ActionOf(rec: PhraseRecord): (a: RowAction)
    ensures a == Abort(InvalidFileType) <==> FileTypes(rec.filetype).None?
    ensures (a.Abort? && a.failure.EncodeFailed?) <==>
      FileTypes(rec.filetype).Some? && Reviewed(rec) && Encode(rec.pekzepLatin).Err?
    ensures a.Skip? <==>
      FileTypes(rec.filetype).Some? && (!Reviewed(rec) || Encode(rec.pekzepLatin) == Ok([]))
    ensures a.Add? ==>
      && Reviewed(rec) && Encode(rec.pekzepLatin) == Ok(a.phrase) && |a.phrase| > 0
      && ToItem(rec) == Some(a.item)
  {
    match ToItem(rec)
    case None => Abort(InvalidFileType)
    case Some(item) =>
      if !Reviewed(rec) then Skip
      else match Encode(rec.pekzepLatin)
        case Err(es) => Abort(EncodeFailed(es))
        case Ok(syls) => if |syls| == 0 then Skip else Add(syls, item)
  }

  /** One iteration of the loader's loop, given what the record does. */
  function PhraseStep(t: Table, a: RowAction): Result<Table, Failure>
  {
    match a
    case Abort(f) => Err(f)
    case Skip => Ok(t)
    case Add(p, item) => Ok(Insert(t, p, item))
  }

  /** The loader's loop over the records' actions in file order. */
  function PhraseRows(actions: seq<RowAction>): (r: Result<Table, Failure>)
    ensures r.Ok? ==> forall p :: p in r.value.rows <==> p in r.value.order
    ensures r.Ok? ==> |r.value.order| + |r.value.duplicates| <= |actions|
  {
    if |actions| == 0 then Ok(Table([], map[], []))
    else match PhraseRows(actions[..|actions| - 1])
      case Err(f) => Err(f)
      case Ok(t) => PhraseStep(t, actions[|actions| - 1])
  }

  function Actions(records: seq<PhraseRecord>): seq<RowAction>
  {
    seq(|records|, i requires 0 <= i < |records| => ActionOf(records[i]))
  }

  /** `phrase::parse` after the file is split into records. */
  function LoadPhrases(records: seq<PhraseRecord>): (r: LoadOutcome)
    ensures r.Aborted? <==> !Clean(Actions(records))
    ensures r.Loaded? ==> forall p :: p in r.rows <==> p in r.order
    ensures r.DuplicatePhrases? ==> |r.messages| > 0
  {
    PhraseRowsAborts(Actions(records));
    match PhraseRows(Actions(records))
    case Err(f) => Aborted(f)
    case Ok(t) => if |t.duplicates| == 0 then Loaded(t.order, t.rows) else DuplicatePhrases(t.duplicates)
  }

  /** No record aborts the loader: every file-type column is valid and every reviewed
      romanization encodes. */
  predicate Clean(actions: seq<RowAction>)
  {
    forall i :: 0 <= i < |actions| ==> !actions[i].Abort?
  }

  /** Reference definition: the contributed phrases in file order, repetitions included. */
  function Phrases(actions: seq<RowAction>): (ps: seq<seq<ExtSyllable>>)
  {
    if |actions| == 0 then []
    else
      var a := actions[|actions| - 1];
      Phrases(actions[..|actions| - 1]) + (if a.Add? then [a.phrase] else [])
  }

  /** Reference definition: one message per phrase that repeats an earlier one, in order. */
  function Repeats(ps: seq<seq<ExtSyllable>>): seq<string>
  {
    if |ps| == 0 then []
    else
      var init := ps[..|ps| - 1];
      var p := ps[|ps| - 1];
      Repeats(init) + (if p in init then [DuplicateMessage(p)] else [])
  }

  /** The loader aborts exactly when some record's action aborts, and then with the first
      such failure. */
  lemma {:induction false} PhraseRowsAborts(actions: seq<RowAction>)
    ensures PhraseRows(actions).Ok? <==> Clean(actions)
    ensures PhraseRows(actions).Err? ==>
      exists i :: 0 <= i < |actions| && actions[i] == Abort(PhraseRows(actions).error) && Clean(actions[..i])
  {
    if |actions| > 0 {
      var n := |actions| - 1;
      var init := actions[..n];
      PhraseRowsAborts(init);
      assert forall i :: 0 <= i < n ==> init[i] == actions[i];
      if PhraseRows(init).Err? {
        var i :| 0 <= i < n && init[i] == Abort(PhraseRows(init).error) && Clean(init[..i]);
        assert init[..i] == actions[..i];
      } else {
        assert init == actions[..n];
      }
    }
  }

  /** On clean input the table is the first-use order of the contributed phrases, its rows
      are keyed by exactly those phrases, and every repetition is reported. */
  lemma {:induction false} PhraseRowsContents(actions: seq<RowAction>)
    requires Clean(actions)
    ensures PhraseRows(actions).Ok?
    ensures PhraseRows(actions).value.order == FirstUse(Phrases(actions))
    ensures forall p :: p in PhraseRows(actions).value.rows <==> p in Phrases(actions)
    ensures PhraseRows(actions).value.duplicates == Repeats(Phrases(actions))
  {
    PhraseRowsAborts(actions);
    if |actions| > 0 {
      var n := |actions| - 1;
      var init := actions[..n];
      assert forall i :: 0 <= i < n ==> init[i] == actions[i];
      PhraseRowsContents(init);
      var ps := Phrases(init);
      var a := actions[n];
      var t := PhraseRows(init).value;
      if a.Add? {
        assert Phrases(actions) == ps + [a.phrase];
        InsertTracksPhrases(t, ps, a.phrase, a.item);
      } else {
        assert Phrases(actions) == ps;
      }
    }
  }

  /** Inserting a phrase into a table that tracks `ps` gives a table that tracks `ps`
      followed by that phrase. */
  lemma InsertTracksPhrases(t: Table, ps: seq<seq<ExtSyllable>>, p: seq<ExtSyllable>, item: PhraseItem)
    requires t.order == FirstUse(ps)
    requires forall q :: q in t.rows <==> q in ps
    requires t.duplicates == Repeats(ps)
    ensures Insert(t, p, item).order == FirstUse(ps + [p])
    ensures forall q :: q in Insert(t, p, item).rows <==> q in ps + [p]
    ensures Insert(t, p, item).duplicates == Repeats(ps + [p])
  {
    var qs := ps + [p];
    assert qs[..|qs| - 1] == ps && qs[|qs| - 1] == p;
    assert FirstUse(qs) == if p in FirstUse(ps) then FirstUse(ps) else FirstUse(ps) + [p];
    assert Repeats(qs) == Repeats(ps) + (if p in ps then [DuplicateMessage(p)] else []);
    assert forall q :: q in qs <==> q in ps || q == p;
  }

  /** Without repetitions, first-use order is the sequence itself. */
  lemma {:induction false} NoRepeatsFirstUse(ps: seq<seq<ExtSyllable>>)
    requires Repeats(ps) == []
    ensures FirstUse(ps) == ps
  {
    if |ps| > 0 {
      var init := ps[..|ps| - 1];
      assert Repeats(init) == [];
      NoRepeatsFirstUse(init);
      assert ps == init + [ps[|ps| - 1]];
    }
  }

  /** The phrase table loads exactly when no record aborts and no phrase repeats; then it
      lists each contributed phrase once, in file order. When phrases repeat, every
      repetition is reported. */
  lemma LoadPhrasesVerdict(records: seq<PhraseRecord>)
    ensures var acts := Actions(records);
      LoadPhrases(records).Loaded? <==> Clean(acts) && Repeats(Phrases(acts)) == []
    ensures var acts := Actions(records);
      LoadPhrases(records).Loaded? ==>
        && LoadPhrases(records).order == Phrases(acts)
        && forall p :: p in LoadPhrases(records).rows <==> p in Phrases(acts)
    ensures var acts := Actions(records);
      Clean(acts) && Repeats(Phrases(acts)) != [] ==>
        LoadPhrases(records) == DuplicatePhrases(Repeats(Phrases(acts)))
  {
    var acts := Actions(records);
    PhraseRowsAborts(acts);
    if Clean(acts) {
      PhraseRowsContents(acts);
      if Repeats(Phrases(acts)) == [] {
        NoRepeatsFirstUse(Phrases(acts));
      }
    }
  }

  /** Every contributed phrase has at least one syllable. */
  lemma {:induction false} PhrasesNonEmpty(records: seq<PhraseRecord>)
    ensures forall i :: 0 <= i < |Phrases(Actions(records))| ==> |Phrases(Actions(records))[i]| > 0
  {
    PhrasesOfAdds(Actions(records));
  }

  lemma {:induction false} PhrasesOfAdds(actions: seq<RowAction>)
    requires forall i :: 0 <= i < |actions| && actions[i].Add? ==> |actions[i].phrase| > 0
    ensures forall i :: 0 <= i < |Phrases(actions)| ==> |Phrases(actions)[i]| > 0
  {
    if |actions| > 0 {
      var n := |actions| - 1;
      assert forall i :: 0 <= i < n ==> actions[..n][i] == actions[i];
      PhrasesOfAdds(actions[..n]);
    }
  }

  /** An unreviewed row with a valid file-type column has no effect on the table. */
  lemma UnreviewedRowIgnored(records: seq<PhraseRecord>, rec: PhraseRecord)
    requires !Reviewed(rec) && FileTypes(rec.filetype).Some?
    ensures PhraseRows(Actions(records + [rec])) == PhraseRows(Actions(records))
  {
    var a := Actions(records + [rec]);
    assert a[|records|] == ActionOf(rec);
    assert ActionOf(rec) == Skip;
    assert a[..|records|] == Actions(records);
  }
}
