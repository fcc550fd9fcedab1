/** Gloss keys and the vocabulary table: splitting a key into its main part and its
    disambiguating postfix, the gloss form (`#`/`!` compound halves) and the canonical
    form (` // `), path-safe names, and the loader's duplicate-key detection. */
module Vocab {
  import opened Wrappers
  import opened Chars
  import opened Strings

  /** Which half of a splittable compound a gloss token denotes. */
  datatype SplittableCompoundInfo = FormerHalfHash | LatterHalfExclamation

  /** A dictionary entry: the columns after the key. */
  datatype Item = Item(
    pekzepLatin: string,
    pekzepHanzi: string,
    partsOfSpeech: string,
    partsOfSpeechSupplement: string,
    englishGloss: string)

  /** A key in gloss form, where `#` and `!` mark the halves of a splittable compound. */
  datatype KeyGloss = KeyGloss(main: string, postfix: string)

  /** A key in canonical form, where ` // ` separates the halves of a compound. */
  datatype InternalKey = InternalKey(main: string, postfix: string)

  datatype KeyError = EmptyKey | UnexpectedLeadingChar(input: string)

  /** The printable ASCII range `'!'..='~'`. */
  predicate IsAsciiGraphic(c: char)
  {
    '!' <= c <= '~'
  }

  /** The two CJK Unified Ideographs blocks (Extension A and the base block), `∅` and `«`. */
  predicate IsGlyphLead(c: char)
  {
    ('\U{3400}' <= c <= '\U{4DBF}') || ('\U{4E00}' <= c <= '\U{9FFF}') || c == '∅' || c == '«'
  }

  /** The main part up to the first `:`, and the rest from that `:` on (`splitn(2, ':')`). */
  function SplitAtColon(s: string): (r: (string, string))
    ensures r.0 + r.1 == s
    ensures ':' !in r.0
    ensures r.1 == "" || r.1[0] == ':'
  {
    if |s| == 0 then ("", "")
    else if s[0] == ':' then ("", s)
    else
      var rest := SplitAtColon(s[1..]);
      assert [s[0]] + s[1..] == s;
      ([s[0]] + rest.0, rest.1)
  }

  /** `split_into_main_and_postfix`. */
  function SplitIntoMainAndPostfix(input: string): (r: Result<(string, string), KeyError>)
    ensures r.Err? <==> |input| == 0 || !(IsAsciiGraphic(input[0]) || IsGlyphLead(input[0]))
    ensures |input| == 0 ==> r == Err(EmptyKey)
    ensures r.Ok? ==> r.value.0 + r.value.1 == input
    ensures r.Ok? && IsAsciiGraphic(input[0]) ==>
      ':' !in r.value.0 && (r.value.1 == "" || r.value.1[0] == ':')
    ensures r.Ok? && IsGlyphLead(input[0]) ==>
      && |r.value.0| > 0 && !IsAsciiAlphanumeric(r.value.0[|r.value.0| - 1])
      && forall i :: 0 <= i < |r.value.1| ==> IsAsciiAlphanumeric(r.value.1[i])
  {
    if |input| == 0 then Err(EmptyKey)
    else if IsAsciiGraphic(input[0]) then Ok(SplitAtColon(input))
    else if IsGlyphLead(input[0]) then
      GlyphMainNonEmpty(input);
      Ok((DropTrailing(input, IsAsciiAlphanumeric), TrailingRun(input, IsAsciiAlphanumeric)))
    else Err(UnexpectedLeadingChar(input))
  }

  /** A key led by a glyph keeps at least that glyph in its main part. */
  lemma GlyphMainNonEmpty(input: string)
    requires |input| > 0 && IsGlyphLead(input[0])
    ensures |DropTrailing(input, IsAsciiAlphanumeric)| > 0
  {
    assert !IsAsciiAlphanumeric(input[0]);
    TrailingRunStops(input, IsAsciiAlphanumeric);
  }

  /** `InternalKeyGloss::new` */
  function NewKeyGloss(input: string): (r: Result<KeyGloss, KeyError>)
    ensures r.Ok? ==> GlossDisplay(r.value) == input
  {
    match SplitIntoMainAndPostfix(input)
    case Err(e) => Err(e)
    case Ok(p) => Ok(KeyGloss(p.0, p.1))
  }

  /** `InternalKey::new` */
  function NewInternalKey(input: string): (r: Result<InternalKey, KeyError>)
    ensures r.Ok? ==> KeyDisplay(r.value) == input
  {
    match SplitIntoMainAndPostfix(input)
    case Err(e) => Err(e)
    case Ok(p) => Ok(InternalKey(p.0, p.1))
  }

  /** `Display for InternalKeyGloss` */
  function GlossDisplay(k: KeyGloss): string
  {
    k.main + k.postfix
  }

  /** `Display for InternalKey` */
  function KeyDisplay(k: InternalKey): string
  {
    k.main + k.postfix
  }

  /** Two parseable key strings give the same key exactly when they are the same string. */
  lemma NewInternalKeyInjective(a: string, b: string)
    requires NewInternalKey(a).Ok? && NewInternalKey(b).Ok?
    ensures NewInternalKey(a) == NewInternalKey(b) <==> a == b
  {
  }

  /** The ASCII branch cuts at the first colon and keeps the colon with the postfix. */
  lemma {:induction false} SplitAtColonUnique(a: string, b: string)
    requires ':' !in a
    requires b == "" || b[0] == ':'
    ensures SplitAtColon(a + b) == (a, b)
  {
    if |a| == 0 {
      assert a + b == b;
    } else {
      assert (a + b)[1..] == a[1..] + b;
      SplitAtColonUnique(a[1..], b);
      assert [a[0]] + a[1..] == a;
    }
  }

  /** The glyph branch takes the trailing run of ASCII letters and digits as the postfix. */
  lemma GlyphSplit(c: char, w: string)
    requires IsGlyphLead(c)
    requires forall i :: 0 <= i < |w| ==> IsAsciiAlphanumeric(w[i])
    ensures SplitIntoMainAndPostfix([c] + w) == Ok(([c], w))
  {
    assert !IsAsciiGraphic(c) && !IsAsciiAlphanumeric(c);
    DropTrailingAppend([c], w, IsAsciiAlphanumeric);
  }

  /** The worked examples of the key splitter. */
  lemma SplitExamples()
    ensures SplitIntoMainAndPostfix("xizi:375") == Ok(("xizi", ":375"))
    ensures SplitIntoMainAndPostfix("xizi375") == Ok(("xizi375", ""))
    ensures SplitIntoMainAndPostfix("於dur") == Ok(("於", "dur"))
    ensures SplitIntoMainAndPostfix("於") == Ok(("於", ""))
  {
    SplitAtColonUnique("xizi", ":375");
    assert "xizi" + ":375" == "xizi:375";
    SplitAtColonUnique("xizi375", "");
    assert "xizi375" + "" == "xizi375";
    GlyphSplit('於', "dur");
    assert ['於'] + "dur" == "於dur";
    GlyphSplit('於', "");
    assert ['於'] + "" == "於";
  }

  /** `to_internal_key`: every `!` and `#` of the main part becomes ` // `; the postfix is kept. */
  function ToInternalKey(k: KeyGloss): (r: InternalKey)
    ensures '!' !in r.main && '#' !in r.main
    ensures r.postfix == k.postfix
    ensures '!' !in k.main && '#' !in k.main ==> r.main == k.main
    ensures r.main == Join(SplitWhere(k.main, IsCompoundMarker), " // ")
  {
    MarkersAsJoin(k.main, " // ");
    InternalKey(ReplaceChar(ReplaceChar(k.main, '!', " // "), '#', " // "), k.postfix)
  }

  /** The two compound markers. */
  predicate IsCompoundMarker(c: char)
  {
    c == '!' || c == '#'
  }

  /** Replacing `!` and then `#` by a text without `#` replaces every marker: the text
      is cut at each marker and the pieces are joined with the replacement. */
  lemma {:induction false} MarkersAsJoin(s: string, rep: string)
    requires '#' !in rep
    ensures ReplaceChar(ReplaceChar(s, '!', rep), '#', rep) == Join(SplitWhere(s, IsCompoundMarker), rep)
  {
    if |s| > 0 {
      MarkersAsJoin(s[1..], rep);
      var h := if s[0] == '!' then rep else [s[0]];
      assert ReplaceChar(s, '!', rep) == h + ReplaceChar(s[1..], '!', rep);
      ReplaceCharAppend(h, ReplaceChar(s[1..], '!', rep), '#', rep);
      var rest := SplitWhere(s[1..], IsCompoundMarker);
      if IsCompoundMarker(s[0]) {
        assert ReplaceChar(h, '#', rep) == rep by {
          if s[0] == '#' {
            assert h == "#" && h[1..] == "";
          }
        }
        assert SplitWhere(s, IsCompoundMarker) == [""] + rest;
        JoinAfterEmpty(rest, rep);
      } else {
        assert ReplaceChar(h, '#', rep) == [s[0]] by {
          assert h[1..] == "";
        }
        assert SplitWhere(s, IsCompoundMarker) == [[s[0]] + rest[0]] + rest[1..];
        JoinGlueFirst([s[0]], rest, rep);
      }
    }
  }

  /** `to_splittable_compound_info`: `!` is looked for first. */
  function ToSplittableCompoundInfo(k: KeyGloss): (r: Option<SplittableCompoundInfo>)
    ensures r == Some(LatterHalfExclamation) <==> '!' in GlossDisplay(k)
    ensures r == Some(FormerHalfHash) <==> '!' !in GlossDisplay(k) && '#' in GlossDisplay(k)
    ensures r == None <==> '!' !in GlossDisplay(k) && '#' !in GlossDisplay(k)
  {
    if '!' in GlossDisplay(k) then Some(LatterHalfExclamation)
    else if '#' in GlossDisplay(k) then Some(FormerHalfHash)
    else None
  }

  /** Neither compound marker occurs in `s`. */
  predicate Unmarked(s: string)
  {
    '!' !in s && '#' !in s
  }

  /** A single compound marker between two unmarked parts becomes ` // `. */
  lemma MarkerBecomesSlashes(a: string, m: char, b: string)
    requires Unmarked(a) && Unmarked(b) && m in "!#"
    ensures ToInternalKey(KeyGloss(a + [m] + b, "")).main == a + " // " + b
  {
    var r1 := ReplaceChar([m], '!', " // ");
    ReplaceCharAppend(a + [m], b, '!', " // ");
    ReplaceCharAppend(a, [m], '!', " // ");
    var mid := ReplaceChar(a + [m] + b, '!', " // ");
    assert mid == a + r1 + b;
    ReplaceCharAppend(a + r1, b, '#', " // ");
    ReplaceCharAppend(a, r1, '#', " // ");
    assert ReplaceChar(r1, '#', " // ") == " // " by {
      if m == '#' {
        assert r1 == "#";
      } else {
        assert r1 == " // ";
      }
    }
  }

  /** The two halves of a splittable compound, written `a#b` and `a!b`, name the same
      canonical entry `a // b` and differ only in their tag. */
  lemma CompoundHalvesShareKey(a: string, b: string)
    requires Unmarked(a) && Unmarked(b)
    ensures ToInternalKey(KeyGloss(a + "#" + b, "")) == InternalKey(a + " // " + b, "")
    ensures ToInternalKey(KeyGloss(a + "!" + b, "")) == InternalKey(a + " // " + b, "")
    ensures ToSplittableCompoundInfo(KeyGloss(a + "#" + b, "")) == Some(FormerHalfHash)
    ensures ToSplittableCompoundInfo(KeyGloss(a + "!" + b, "")) == Some(LatterHalfExclamation)
  {
    MarkerBecomesSlashes(a, '#', b);
    MarkerBecomesSlashes(a, '!', b);
    var h := a + "#" + b;
    assert h[|a|] == '#';
    assert GlossDisplay(KeyGloss(h, "")) == h;
    assert '!' !in h by {
      assert forall i :: 0 <= i < |h| ==> h[i] == (if i < |a| then a[i] else if i == |a| then '#' else b[i - |a| - 1]);
    }
    var x := a + "!" + b;
    assert x[|a|] == '!';
    assert GlossDisplay(KeyGloss(x, "")) == x;
  }

  /** `to_path_safe_string`: ` // ` becomes `_slashslash_`, then `:` becomes `_colon_`. */
  function ToPathSafeString(k: InternalKey): (r: string)
    ensures ':' !in r
    ensures !ContainsStr(KeyDisplay(k), " // ") && ':' !in KeyDisplay(k) ==> r == KeyDisplay(k)
  {
    var s := ReplaceStr(KeyDisplay(k), " // ", "_slashslash_");
    assert !ContainsStr(KeyDisplay(k), " // ") ==> s == KeyDisplay(k) by {
      if !ContainsStr(KeyDisplay(k), " // ") {
        ReplaceStrIdentity(KeyDisplay(k), " // ", "_slashslash_");
      }
    }
    ReplaceChar(s, ':', "_colon_")
  }

  predicate IsColon(c: char)
  {
    c == ':'
  }

  /** Each piece cut at its colons and joined again with `_colon_`. */
  function ColonsSpelled(ps: seq<string>): (ws: seq<string>)
    ensures |ws| == |ps|
  {
    seq(|ps|, i requires 0 <= i < |ps| => Join(SplitWhere(ps[i], IsColon), "_colon_"))
  }

  /** The path-safe name spelled out: for a key whose ` // `-separated pieces hold no `/`,
      each separator becomes `_slashslash_` and each colon of a piece becomes `_colon_`. */
  lemma PathSafeSpelledOut(k: InternalKey, ps: seq<string>)
    requires |ps| >= 1 && forall i :: 0 <= i < |ps| ==> '/' !in ps[i]
    requires KeyDisplay(k) == Join(ps, " // ")
    ensures ToPathSafeString(k) == Join(ColonsSpelled(ps), "_slashslash_")
  {
    var s := KeyDisplay(k);
    var t := Join(ps, "_slashslash_");
    var u := Join(ColonsSpelled(ps), "_slashslash_");
    assert ReplaceStr(s, " // ", "_slashslash_") == t by {
      SlashesSpelledOut(s, ps);
    }
    ColonsAfterSlashes(ps);
    PathSafeInTwoSteps(k, t, u);
  }

  /** The colon step of `PathSafeSpelledOut`, once the separators are spelled out. */
  lemma ColonsAfterSlashes(ps: seq<string>)
    ensures ReplaceChar(Join(ps, "_slashslash_"), ':', "_colon_") == Join(ColonsSpelled(ps), "_slashslash_")
  {
    ColonsSpelledOut(ps, "_slashslash_");
  }

  /** The two replacements of `ToPathSafeString`, one after the other. */
  lemma PathSafeInTwoSteps(k: InternalKey, t: string, u: string)
    requires ReplaceStr(KeyDisplay(k), " // ", "_slashslash_") == t
    requires ReplaceChar(t, ':', "_colon_") == u
    ensures ToPathSafeString(k) == u
  {
  }

  /** Each ` // ` between `/`-free pieces becomes `_slashslash_`. */
  lemma SlashesSpelledOut(s: string, ps: seq<string>)
    requires |ps| >= 1 && forall i :: 0 <= i < |ps| ==> '/' !in ps[i]
    requires s == Join(ps, " // ")
    ensures ReplaceStr(s, " // ", "_slashslash_") == Join(ps, "_slashslash_")
  {
    var sep := " // ";
    assert |sep| >= 2 && sep[1] == '/' && sep[0] != sep[1];
    SplitStrJoin(ps, sep);
  }

  /** Replacing the colons of pieces joined by a colon-free separator replaces them
      piece by piece. */
  lemma ColonsSpelledOut(ps: seq<string>, sep: string)
    requires ':' !in sep
    ensures ReplaceChar(Join(ps, sep), ':', "_colon_") == Join(ColonsSpelled(ps), sep)
  {
    ReplaceCharJoin(ps, sep, ':', "_colon_");
    var qs := seq(|ps|, i requires 0 <= i < |ps| => ReplaceChar(ps[i], ':', "_colon_"));
    var ws := ColonsSpelled(ps);
    forall i | 0 <= i < |ps|
      ensures qs[i] == ws[i]
    {
      ReplaceCharAsJoin(ps[i], ':', "_colon_", IsColon);
    }
    assert qs == ws;
  }

  /** A key without compound separator or colon is already path-safe. */
  lemma PathSafePlainExample()
    ensures ToPathSafeString(InternalKey("xizi375", "")) == "xizi375"
  {
    NoLeadNoOccurrence("xizi375", " // ");
    assert "xizi375" + "" == "xizi375";
  }

  /** The compound separator is spelled out. */
  lemma PathSafeCompoundExample()
    ensures ToPathSafeString(InternalKey("享 // 銭", "")) == "享_slashslash_銭"
  {
    var s := ReplaceStr("享 // 銭", " // ", "_slashslash_");
    assert "享 // 銭" + "" == "享 // 銭";
    assert s == "享_slashslash_銭" by {
      SplitStrFirst("享", " // ", "銭");
      assert "享" + " // " + "銭" == "享 // 銭";
      NoLeadNoOccurrence("銭", " // ");
    }
    assert ':' !in s;
  }

  // ---------------------------------------------------------------------------
  // Loading the vocabulary table

  /** One line of the vocabulary file, already split into its columns. */
  datatype Record = Record(key: string, item: Item)

  datatype LoadError = BadKey(error: KeyError) | DuplicateKeys(keys: seq<string>)

  /** The table built so far and the keys reported as duplicates so far. */
  datatype LoadState = LoadState(table: map<InternalKey, Item>, duplicates: seq<string>)

  /** One step of the loader's loop: an empty key is skipped, an unparseable key aborts,
      and inserting a key already present overwrites it and records a duplicate. */
  function LoadStep(st: LoadState, r: Record): Result<LoadState, KeyError>
  {
    if r.key == "" then Ok(st)
    else match NewInternalKey(r.key)
      case Err(e) => Err(e)
      case Ok(k) =>
        Ok(LoadState(st.table[k := r.item],
                     st.duplicates + (if k in st.table then [r.key] else [])))
  }

  /** The loader's loop over the records in file order. */
  function LoadRows(records: seq<Record>): (r: Result<LoadState, KeyError>)
    ensures r.Ok? ==> |r.value.duplicates| <= |records|
    ensures r.Ok? ==> forall i :: 0 <= i < |r.value.duplicates| ==> r.value.duplicates[i] != ""
  {
    if |records| == 0 then Ok(LoadState(map[], []))
    else match LoadRows(records[..|records| - 1])
      case Err(e) => Err(e)
      case Ok(st) => LoadStep(st, records[|records| - 1])
  }

  /** `vocab::parse` after the file is split into records: either the table, or the first
      unparseable key, or every repeated key at once. */
  function LoadVocab(records: seq<Record>): (r: Result<map<InternalKey, Item>, LoadError>)
    ensures r.Err? && r.error.BadKey? <==> !KeysParse(records)
    ensures r.Err? && r.error.BadKey? ==>
      exists i :: FirstBadKey(records, i) && r.error.error == NewInternalKey(records[i].key).error
    ensures r.Err? && r.error.DuplicateKeys? ==> |r.error.keys| > 0
  {
    LoadRowsAborts(records);
    match LoadRows(records)
    case Err(e) => Err(BadKey(e))
    case Ok(st) => if |st.duplicates| == 0 then Ok(st.table) else Err(DuplicateKeys(st.duplicates))
  }

  /** Record `i` has a non-empty key that no later record repeats. */
  predicate LastOccurrence(records: seq<Record>, i: int)
  {
    && 0 <= i < |records| && records[i].key != ""
    && forall j :: i < j < |records| ==> records[j].key != records[i].key
  }

  /** Every non-empty key of the records parses. */
  predicate KeysParse(records: seq<Record>)
  {
    forall i :: 0 <= i < |records| && records[i].key != "" ==> NewInternalKey(records[i].key).Ok?
  }

  /** Reference definition: the non-empty keys that repeat an earlier key, in file order. */
  function RepeatedKeys(records: seq<Record>): seq<string>
  {
    if |records| == 0 then []
    else
      var init := records[..|records| - 1];
      var k := records[|records| - 1].key;
      RepeatedKeys(init) + (if k != "" && exists j :: 0 <= j < |init| && init[j].key == k then [k] else [])
  }

  /** Record `i` holds the first non-empty key that does not parse. */
  predicate FirstBadKey(records: seq<Record>, i: int)
  {
    && 0 <= i < |records| && records[i].key != "" && NewInternalKey(records[i].key).Err?
    && forall j :: 0 <= j < i && records[j].key != "" ==> NewInternalKey(records[j].key).Ok?
  }

  /** The loader aborts exactly when some non-empty key does not parse, and then with the
      error of the first such key. */
  lemma {:induction false} LoadRowsAborts(records: seq<Record>)
    ensures LoadRows(records).Err? <==> !KeysParse(records)
    ensures LoadRows(records).Err? ==>
      exists i :: FirstBadKey(records, i) && LoadRows(records).error == NewInternalKey(records[i].key).error
  {
    if |records| > 0 {
      var init := records[..|records| - 1];
      var last := records[|records| - 1];
      LoadRowsAborts(init);
      assert records == init + [last];
      KeysParseStep(init, last);
      FirstBadKeyStep(init, last, LoadRows(init), LoadRows(records));
    }
  }

  lemma KeysParseStep(init: seq<Record>, last: Record)
    ensures KeysParse(init + [last]) <==> KeysParse(init) && (last.key != "" ==> NewInternalKey(last.key).Ok?)
  {
    var records := init + [last];
    assert forall i :: 0 <= i < |init| ==> records[i] == init[i];
    assert records[|init|] == last;
  }

  /** One more record keeps the first bad key of the earlier ones, or is the first bad key. */
  lemma FirstBadKeyStep(init: seq<Record>, last: Record, before: Result<LoadState, KeyError>, after: Result<LoadState, KeyError>)
    requires before.Err? <==> !KeysParse(init)
    requires before.Err? ==> exists i :: FirstBadKey(init, i) && before.error == NewInternalKey(init[i].key).error
    requires after == (match before case Err(e) => Err(e) case Ok(st) => LoadStep(st, last))
    ensures after.Err? ==>
      exists i :: FirstBadKey(init + [last], i) && after.error == NewInternalKey((init + [last])[i].key).error
  {
    var records := init + [last];
    if before.Err? {
      var i :| FirstBadKey(init, i) && before.error == NewInternalKey(init[i].key).error;
      assert records[i] == init[i];
      assert FirstBadKey(records, i);
    } else if after.Err? {
      assert FirstBadKey(records, |init|);
    }
  }

  /** Some record has a non-empty key that parses to `k`. */
  predicate HasKey(records: seq<Record>, k: InternalKey)
  {
    exists i :: 0 <= i < |records| && records[i].key != "" && NewInternalKey(records[i].key) == Ok(k)
  }

  /** When every key parses, the table's keys are exactly the parsed non-empty keys. */
  lemma {:induction false} LoadRowsKeys(records: seq<Record>)
    requires KeysParse(records)
    ensures LoadRows(records).Ok?
    ensures forall k :: k in LoadRows(records).value.table <==> HasKey(records, k)
  {
    LoadRowsAborts(records);
    if |records| > 0 {
      var n := |records| - 1;
      var init := records[..n];
      assert KeysParse(init);
      LoadRowsKeys(init);
      var last := records[n];
      assert records == init + [last];
      LoadStepKeys(LoadRows(init).value, last);
      HasKeySnoc(init, last);
    }
  }

  /** One loader step adds the record's parsed key, if any, to the table's keys. */
  lemma LoadStepKeys(st: LoadState, r: Record)
    requires r.key != "" ==> NewInternalKey(r.key).Ok?
    ensures LoadStep(st, r).Ok?
    ensures forall k :: k in LoadStep(st, r).value.table <==>
      k in st.table || (r.key != "" && NewInternalKey(r.key) == Ok(k))
  {
  }

  /** The keys carried by records with one more record appended. */
  lemma HasKeySnoc(init: seq<Record>, last: Record)
    ensures forall k :: HasKey(init + [last], k) <==>
      HasKey(init, k) || (last.key != "" && NewInternalKey(last.key) == Ok(k))
  {
    var records := init + [last];
    forall k
      ensures HasKey(records, k) <==> HasKey(init, k) || (last.key != "" && NewInternalKey(last.key) == Ok(k))
    {
      if HasKey(init, k) {
        var i :| 0 <= i < |init| && init[i].key != "" && NewInternalKey(init[i].key) == Ok(k);
        assert records[i] == init[i];
      }
      if last.key != "" && NewInternalKey(last.key) == Ok(k) {
        assert records[|init|] == last;
      }
      if HasKey(records, k) {
        var i :| 0 <= i < |records| && records[i].key != "" && NewInternalKey(records[i].key) == Ok(k);
        if i < |init| {
          assert init[i] == records[i];
        }
      }
    }
  }

  /** A parsed key is already in the table exactly when an earlier record carries the same string. */
  lemma SeenBefore(init: seq<Record>, key: string)
    requires KeysParse(init) && key != "" && NewInternalKey(key).Ok?
    ensures LoadRows(init).Ok?
    ensures NewInternalKey(key).value in LoadRows(init).value.table <==>
      exists j :: 0 <= j < |init| && init[j].key == key
  {
    LoadRowsKeys(init);
    var k := NewInternalKey(key).value;
    if HasKey(init, k) {
      var j :| 0 <= j < |init| && init[j].key != "" && NewInternalKey(init[j].key) == Ok(k);
      NewInternalKeyInjective(init[j].key, key);
    }
    if exists j :: 0 <= j < |init| && init[j].key == key {
      var j :| 0 <= j < |init| && init[j].key == key;
      assert HasKey(init, k);
    }
  }

  /** When every key parses, the duplicate list is exactly the repeated keys in file order. */
  lemma {:induction false} LoadRowsDuplicates(records: seq<Record>)
    requires KeysParse(records)
    ensures LoadRows(records).Ok?
    ensures LoadRows(records).value.duplicates == RepeatedKeys(records)
  {
    LoadRowsAborts(records);
    if |records| > 0 {
      var n := |records| - 1;
      var init := records[..n];
      assert KeysParse(init);
      LoadRowsDuplicates(init);
      if records[n].key != "" {
        SeenBefore(init, records[n].key);
      }
    }
  }

  /** When every key parses, each key maps to the item of the last record carrying it. */
  lemma {:induction false} LoadRowsLastWins(records: seq<Record>)
    requires KeysParse(records)
    ensures LoadRows(records).Ok?
    ensures forall i :: LastOccurrence(records, i) ==>
      NewInternalKey(records[i].key).value in LoadRows(records).value.table &&
      LoadRows(records).value.table[NewInternalKey(records[i].key).value] == records[i].item
  {
    LoadRowsAborts(records);
    if |records| > 0 {
      var n := |records| - 1;
      var init := records[..n];
      var r := records[n];
      assert KeysParse(init);
      LoadRowsLastWins(init);
      LastWinsStep(records, LoadRows(init).value);
    }
  }

  /** The step of `LoadRowsLastWins`, over the table loaded from all records but the last. */
  lemma LastWinsStep(records: seq<Record>, st: LoadState)
    requires |records| > 0 && KeysParse(records)
    requires forall i :: LastOccurrence(records[..|records| - 1], i) ==>
      NewInternalKey(records[i].key).value in st.table && st.table[NewInternalKey(records[i].key).value] == records[i].item
    ensures LoadStep(st, records[|records| - 1]).Ok?
    ensures forall i :: LastOccurrence(records, i) ==>
      NewInternalKey(records[i].key).value in LoadStep(st, records[|records| - 1]).value.table &&
      LoadStep(st, records[|records| - 1]).value.table[NewInternalKey(records[i].key).value] == records[i].item
  {
    var n := |records| - 1;
    var init := records[..n];
    var r := records[n];
    var st' := LoadStep(st, r).value;
    forall i | LastOccurrence(records, i)
      ensures NewInternalKey(records[i].key).value in st'.table
      ensures st'.table[NewInternalKey(records[i].key).value] == records[i].item
    {
      if i < n {
        assert init[i] == records[i];
        assert LastOccurrence(init, i);
        if r.key != "" {
          NewInternalKeyInjective(r.key, records[i].key);
        }
      }
    }
  }

  /** The vocabulary loads exactly when every non-empty key parses and no non-empty key
      repeats; when keys repeat, every repetition is reported, in file order; a loaded
      table holds exactly the non-empty keys, each with its record's item. */
  lemma LoadVocabVerdict(records: seq<Record>)
    ensures LoadVocab(records).Ok? <==> KeysParse(records) && RepeatedKeys(records) == []
    ensures KeysParse(records) && RepeatedKeys(records) != [] ==>
      LoadVocab(records) == Err(DuplicateKeys(RepeatedKeys(records)))
    ensures LoadVocab(records).Ok? ==>
      && (forall k :: k in LoadVocab(records).value <==> HasKey(records, k))
      && (forall i :: LastOccurrence(records, i) ==>
            LoadVocab(records).value[NewInternalKey(records[i].key).value] == records[i].item)
  {
    LoadRowsAborts(records);
    if KeysParse(records) {
      LoadRowsDuplicates(records);
      LoadRowsKeys(records);
      LoadRowsLastWins(records);
    }
  }
}
