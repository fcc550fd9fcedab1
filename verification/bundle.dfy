/** The data bundle: every sentence and dictionary entry checked, every decomposition
    resolved, and the dictionary entries gathered in first-use order with usage counts. */
module Bundle {
  import opened Wrappers
  import opened Strings
  import opened Collections
  import opened Sounds
  import opened Phrase
  import opened Vocab
  import opened Resolve
  import opened Sentences
  import opened VocabWalk

  // ---------------------------------------------------------------------------------
  // The first-use catalog
  // ---------------------------------------------------------------------------------

  /** The keys of a sequence of keyed entries, in order. */
  function KeysOf<K, V>(ps: seq<(K, V)>): (ks: seq<K>)
    ensures |ks| == |ps| && forall i :: 0 <= i < |ps| ==> ks[i] == ps[i].0
  {
    seq(|ps|, i requires 0 <= i < |ps| => ps[i].0)
  }

  /** The catalog (a `LinkedHashMap` filled with `if !contains_key { insert }`) and the
      counters (`*entry(key).or_insert(0) += 1`) after visiting the entries in order. */
  function Aggregate<K(==,!new), V>(ps: seq<(K, V)>): (r: (seq<(K, V)>, map<K, nat>))
    ensures |r.0| <= |ps|
    ensures forall c :: c in r.0 ==> c in ps
    ensures forall k :: k in r.1 <==> k in KeysOf(ps)
  {
    if |ps| == 0 then ([], map[])
    else
      var acc := Aggregate(ps[..|ps| - 1]);
      var p := ps[|ps| - 1];
      (if p.0 in KeysOf(acc.0) then acc.0 else acc.0 + [p], Bump(acc.1, p.0))
  }

  /** Entry `i` is the first with its key. */
  ghost predicate FirstOccurrence<K, V>(ps: seq<(K, V)>, i: int)
  {
    0 <= i < |ps| && ps[i].0 !in KeysOf(ps[..i])
  }

  /** What the catalog holds: entries of the input only, among them every entry that is
      first with its key (with the distinct keys of `AggregateCounts`, each catalog entry is
      therefore the first one seen with its key). */
  ghost predicate HoldsFirstOccurrences<K, V>(ps: seq<(K, V)>, catalog: seq<(K, V)>)
  {
    && (forall c :: c in catalog ==> c in ps)
    && (forall i :: FirstOccurrence(ps, i) ==> ps[i] in catalog)
  }

  /** The catalog lists the keys in first-use order. */
  lemma {:induction false} AggregateKeys<K(!new), V>(ps: seq<(K, V)>)
    ensures KeysOf(Aggregate(ps).0) == FirstUse(KeysOf(ps))
  {
    if |ps| > 0 {
      var n := |ps| - 1;
      AggregateKeys(ps[..n]);
      var ks := KeysOf(ps);
      assert ks[..n] == KeysOf(ps[..n]);
      assert ks[n] == ps[n].0;
      KeysStep(ps, Aggregate(ps[..n]).0, FirstUse(KeysOf(ps[..n])));
    }
  }

  /** The step of `AggregateKeys`, over plain sequences standing for the catalog so far. */
  lemma KeysStep<K, V>(ps: seq<(K, V)>, acc: seq<(K, V)>, d: seq<K>)
    requires |ps| > 0
    requires KeysOf(acc) == d
    ensures var p := ps[|ps| - 1];
      KeysOf(if p.0 in KeysOf(acc) then acc else acc + [p]) == (if p.0 in d then d else d + [p.0])
  {
    var p := ps[|ps| - 1];
    if p.0 !in KeysOf(acc) {
      assert KeysOf(acc + [p]) == KeysOf(acc) + [p.0];
    }
  }

  /** The counters hold the number of occurrences of each key. */
  lemma {:induction false} AggregateTally<K(!new), V>(ps: seq<(K, V)>)
    ensures Aggregate(ps).1 == Tally(KeysOf(ps))
  {
    if |ps| > 0 {
      var n := |ps| - 1;
      AggregateTally(ps[..n]);
      var ks := KeysOf(ps);
      assert ks[..n] == KeysOf(ps[..n]);
      assert ks[n] == ps[n].0;
    }
  }

  /** Each catalog entry is an entry of the input, and every entry that is first with its
      key is in the catalog. */
  lemma {:induction false} AggregateHolds<K(!new), V>(ps: seq<(K, V)>)
    ensures HoldsFirstOccurrences(ps, Aggregate(ps).0)
  {
    if |ps| > 0 {
      var init := ps[..|ps| - 1];
      AggregateHolds(init);
      AggregateKeys(init);
      AggregateStepHolds(ps);
    }
  }

  /** The step of `AggregateHolds`. */
  lemma AggregateStepHolds<K(!new), V>(ps: seq<(K, V)>)
    requires |ps| > 0
    requires HoldsFirstOccurrences(ps[..|ps| - 1], Aggregate(ps[..|ps| - 1]).0)
    requires KeysOf(Aggregate(ps[..|ps| - 1]).0) == FirstUse(KeysOf(ps[..|ps| - 1]))
    ensures HoldsFirstOccurrences(ps, Aggregate(ps).0)
  {
    var n := |ps| - 1;
    var init := ps[..n];
    var acc := Aggregate(init).0;
    assert forall k :: k in KeysOf(acc) <==> k in KeysOf(init);
    assert ps[..n] == init;
    CatalogStepSound(ps, acc, Aggregate(ps).0);
    CatalogStepComplete(ps, acc, Aggregate(ps).0);
  }

  /** Occurrence `i` of a prefix is a first occurrence exactly when it is one in the whole. */
  lemma FirstOccurrenceInPrefix<K, V>(ps: seq<(K, V)>, n: nat, i: int)
    requires 0 <= i < n <= |ps|
    ensures FirstOccurrence(ps, i) <==> FirstOccurrence(ps[..n], i)
    ensures ps[..n][i] == ps[i]
  {
    assert ps[..i] == ps[..n][..i];
  }

  /** Every entry of the extended catalog is an entry of the input. */
  lemma CatalogStepSound<K, V>(ps: seq<(K, V)>, acc: seq<(K, V)>, cat: seq<(K, V)>)
    requires |ps| > 0
    requires HoldsFirstOccurrences(ps[..|ps| - 1], acc)
    requires cat == if ps[|ps| - 1].0 in KeysOf(acc) then acc else acc + [ps[|ps| - 1]]
    ensures forall c :: c in cat ==> c in ps
  {
    var n := |ps| - 1;
    assert ps == ps[..n] + [ps[n]];
  }

  /** Every first occurrence is in the extended catalog. */
  lemma CatalogStepComplete<K, V>(ps: seq<(K, V)>, acc: seq<(K, V)>, cat: seq<(K, V)>)
    requires |ps| > 0
    requires HoldsFirstOccurrences(ps[..|ps| - 1], acc)
    requires forall k :: k in KeysOf(acc) <==> k in KeysOf(ps[..|ps| - 1])
    requires cat == if ps[|ps| - 1].0 in KeysOf(acc) then acc else acc + [ps[|ps| - 1]]
    ensures forall i :: FirstOccurrence(ps, i) ==> ps[i] in cat
  {
    var n := |ps| - 1;
    forall i | FirstOccurrence(ps, i)
      ensures ps[i] in cat
    {
      if i < n {
        FirstOccurrenceInPrefix(ps, n, i);
        assert ps[i] in acc;
      } else {
        assert ps[n].0 !in KeysOf(ps[..n]);
      }
    }
  }

  /** The catalog has no repeated key and the same keys as the counters; every counter is
      at least one, and the counters add up to the number of entries visited. */
  lemma AggregateCounts<K(!new), V>(ps: seq<(K, V)>)
    ensures Distinct(KeysOf(Aggregate(ps).0))
    ensures forall k :: k in Aggregate(ps).1 <==> k in KeysOf(Aggregate(ps).0)
    ensures forall k :: k in Aggregate(ps).1 ==> Aggregate(ps).1[k] >= 1
    ensures SumOver(KeysOf(Aggregate(ps).0), Aggregate(ps).1) == |ps|
  {
    AggregateKeys(ps);
    AggregateTally(ps);
    TallyTotal(KeysOf(ps));
  }

  // ---------------------------------------------------------------------------------
  // The current bundle
  // ---------------------------------------------------------------------------------

  /** One resolved sentence: its syllables, its morphemes and the row itself. */
  datatype Rows3Item = Rows3Item(syllables: seq<ExtSyllable>, decomposition: seq<seq<DecompositionItem>>, row: SentenceRow)

  datatype DataBundle = DataBundle(
    rows3: seq<Rows3Item>,
    vocabOrdered: seq<(InternalKey, Item)>,
    vocabCount: map<InternalKey, nat>,
    charCount: map<char, nat>)

  /** Why building the bundle stops. */
  datatype BundleError =
    | SentenceMisaligned(mismatch: Mismatch)
    | SentencePanicked
    | VocabMisaligned(walkFailure: WalkFailure)
    | VocabPanicked(panic: WalkPanic)
    | Unresolved(error: ResolveError)
    | Uncounted(countFailure: CountFailure)

  /** Every row's decomposition, if any, was built by the key codec. */
  predicate DecompositionsWellFormed(rows: seq<SentenceRow>)
  {
    forall i :: 0 <= i < |rows| && rows[i].decomposition.Some? ==> WellFormedDecomposition(rows[i].decomposition.value)
  }

  /** The inner sequences one after another (`iter().flatten()`). */
  function Flatten<T>(ds: seq<seq<T>>): seq<T>
  {
    if |ds| == 0 then [] else Flatten(ds[..|ds| - 1]) + ds[|ds| - 1]
  }

  /** The keyed entries the aggregation visits for one resolved row. */
  function Visits(item: Rows3Item): seq<(InternalKey, Item)>
  {
    var ms := Flatten(item.decomposition);
    seq(|ms|, i requires 0 <= i < |ms| => (ms[i].key, ms[i].voc))
  }

  function AllVisits(rows3: seq<Rows3Item>): seq<(InternalKey, Item)>
  {
    if |rows3| == 0 then [] else AllVisits(rows3[..|rows3| - 1]) + Visits(rows3[|rows3| - 1])
  }

  /** The resolution of each row, in order. */
  function Resolutions(vocab: map<InternalKey, Item>, rows: seq<SentenceRow>): (rs: seq<Result<seq<seq<DecompositionItem>>, ResolveError>>)
    requires DecompositionsWellFormed(rows)
    ensures |rs| == |rows|
  {
    seq(|rows|, i requires 0 <= i < |rows| && DecompositionsWellFormed(rows) => VerifyDecomposed(vocab, rows[i].decomposition, rows[i].hanzi))
  }

  /** The resolution of every row, stopping at the first row that does not resolve. */
  function ResolveRows(vocab: map<InternalKey, Item>, rows: seq<SentenceRow>): (r: Result<seq<Rows3Item>, ResolveError>)
    requires DecompositionsWellFormed(rows)
    ensures r.Ok? <==> forall i :: 0 <= i < |rows| ==> Resolutions(vocab, rows)[i].Ok?
    ensures r.Ok? ==> |r.value| == |rows|
    ensures r.Ok? ==> forall i :: 0 <= i < |rows| ==>
      r.value[i] == Rows3Item(rows[i].syllables, Resolutions(vocab, rows)[i].value, rows[i])
    ensures r.Err? ==> exists i :: FirstErrAt(Resolutions(vocab, rows), i, r.error)
  {
    var rs := Resolutions(vocab, rows);
    match CollectFirstError(rs)
    case Err(e) => Err(e)
    case Ok(ds) => Ok(seq(|rows|, i requires 0 <= i < |rows| => Rows3Item(rows[i].syllables, ds[i], rows[i])))
  }

  /** The dictionary entries in the order a hash-map iteration visits them: the order is
      not fixed, so it is a parameter naming every key once. */
  ghost predicate IsIterationOrder(vocab: map<InternalKey, Item>, order: seq<InternalKey>)
  {
    Distinct(order) && forall k :: k in order <==> k in vocab
  }

  function Entries(vocab: map<InternalKey, Item>, order: seq<InternalKey>): seq<Item>
    requires IsIterationOrder(vocab, order)
  {
    seq(|order|, i requires 0 <= i < |order| => vocab[order[i]])
  }

  /** `DataBundle::new` once the tables are loaded: check the sentences, then the
      dictionary entries, then resolve every decomposition while filling the catalog and
      the counters, then count the glyphs. */
  function NewBundle(rows: seq<SentenceRow>, chars: SoundTable, contractions: SoundTable,
                     vocab: map<InternalKey, Item>, order: seq<InternalKey>, isLinzklar: char -> bool): (r: Result<DataBundle, BundleError>)
    requires IsIterationOrder(vocab, order)
    requires DecompositionsWellFormed(rows)
    ensures CheckSentences(rows, chars, contractions) != Aligned ==>
      r.Err? && (r.error.SentenceMisaligned? || r.error.SentencePanicked?)
    ensures (CheckSentences(rows, chars, contractions) == Aligned
             && CheckVocabPronunciation(Entries(vocab, order), chars, contractions) != Pass) ==>
      r.Err? && (r.error.VocabMisaligned? || r.error.VocabPanicked?)
    ensures r.Ok? ==> |r.value.rows3| == |rows|
  {
    Assemble(CheckSentences(rows, chars, contractions),
             CheckVocabPronunciation(Entries(vocab, order), chars, contractions),
             ResolveRows(vocab, rows),
             CharCount(rows, isLinzklar))
  }

  /** The steps' outcomes combined: the first failing step decides the error; when all
      pass, the catalog and counters are filled from the resolved rows. */
  function Assemble(sentences: Verdict, entries: WalkVerdict, resolved: Result<seq<Rows3Item>, ResolveError>,
                    counted: Result<map<char, nat>, CountFailure>): (r: Result<DataBundle, BundleError>)
    ensures r.Ok? <==> sentences == Aligned && entries == Pass && resolved.Ok? && counted.Ok?
    ensures r.Ok? ==> r.value.rows3 == resolved.value && r.value.charCount == counted.value
    ensures r.Ok? ==> (r.value.vocabOrdered, r.value.vocabCount) == Aggregate(AllVisits(resolved.value))
    ensures sentences != Aligned ==> r.Err? && (r.error.SentenceMisaligned? || r.error.SentencePanicked?)
    ensures sentences == Aligned && entries != Pass ==> r.Err? && (r.error.VocabMisaligned? || r.error.VocabPanicked?)
    ensures sentences == Aligned && entries == Pass && resolved.Err? ==> r == Err(Unresolved(resolved.error))
  {
    match sentences
    case Failed(m) => Err(SentenceMisaligned(m))
    case Panicked => Err(SentencePanicked)
    case Aligned =>
      match entries
      case Failed(f) => Err(VocabMisaligned(f))
      case Panicked(p) => Err(VocabPanicked(p))
      case Pass =>
        match resolved
        case Err(e) => Err(Unresolved(e))
        case Ok(rows3) =>
          var agg := Aggregate(AllVisits(rows3));
          match counted
          case Err(f) => Err(Uncounted(f))
          case Ok(counts) => Ok(DataBundle(rows3, agg.0, agg.1, counts))
  }

  /** A bundle is built exactly when every sentence aligns, every dictionary entry passes,
      every decomposition resolves and every glyph is counted; it then has one resolved row
      per sentence and the glyph counts. */
  lemma NewBundleSucceeds(rows: seq<SentenceRow>, chars: SoundTable, contractions: SoundTable,
                          vocab: map<InternalKey, Item>, order: seq<InternalKey>, isLinzklar: char -> bool)
    requires IsIterationOrder(vocab, order)
    requires DecompositionsWellFormed(rows)
    ensures var r := NewBundle(rows, chars, contractions, vocab, order, isLinzklar);
      r.Ok? <==>
        && (forall i :: 0 <= i < |rows| ==> CheckRow(rows[i].hanzi, rows[i].syllables, chars, contractions) == Aligned)
        && (forall k :: k in vocab ==> CheckEntry(vocab[k], chars, contractions) == Pass)
        && (forall i :: 0 <= i < |rows| ==> VerifyDecomposed(vocab, rows[i].decomposition, rows[i].hanzi).Ok?)
        && CharCount(rows, isLinzklar).Ok?
    ensures var r := NewBundle(rows, chars, contractions, vocab, order, isLinzklar);
      r.Ok? ==> |r.value.rows3| == |rows| && r.value.charCount == CharCount(rows, isLinzklar).value
  {
    EntriesAllPass(vocab, order, chars, contractions);
    var rs := Resolutions(vocab, rows);
    assert forall i :: 0 <= i < |rows| ==> rs[i] == VerifyDecomposed(vocab, rows[i].decomposition, rows[i].hanzi);
  }

  /** Checking the entries in iteration order passes exactly when every entry passes. */
  lemma EntriesAllPass(vocab: map<InternalKey, Item>, order: seq<InternalKey>, chars: SoundTable, contractions: SoundTable)
    requires IsIterationOrder(vocab, order)
    ensures var items := Entries(vocab, order);
      (forall i :: 0 <= i < |items| ==> CheckEntry(items[i], chars, contractions) == Pass)
        <==> (forall k :: k in vocab ==> CheckEntry(vocab[k], chars, contractions) == Pass)
  {
    var items := Entries(vocab, order);
    forall k | k in vocab
      ensures exists i :: 0 <= i < |items| && items[i] == vocab[k]
    {
      var i :| 0 <= i < |order| && order[i] == k;
      assert items[i] == vocab[k];
    }
  }

  /** A bundle's catalog lists every morpheme key once, in first-use order, with the first
      entry seen for it; its counters count every morpheme and add up to their number. */
  lemma NewBundleCatalog(rows: seq<SentenceRow>, chars: SoundTable, contractions: SoundTable,
                         vocab: map<InternalKey, Item>, order: seq<InternalKey>, isLinzklar: char -> bool)
    requires IsIterationOrder(vocab, order)
    requires DecompositionsWellFormed(rows)
    requires NewBundle(rows, chars, contractions, vocab, order, isLinzklar).Ok?
    ensures var b := NewBundle(rows, chars, contractions, vocab, order, isLinzklar).value;
      && KeysOf(b.vocabOrdered) == FirstUse(KeysOf(AllVisits(b.rows3)))
      && HoldsFirstOccurrences(AllVisits(b.rows3), b.vocabOrdered)
      && b.vocabCount == Tally(KeysOf(AllVisits(b.rows3)))
      && SumOver(KeysOf(b.vocabOrdered), b.vocabCount) == |AllVisits(b.rows3)|
  {
    var b := NewBundle(rows, chars, contractions, vocab, order, isLinzklar).value;
    CatalogFacts(AllVisits(b.rows3), b.vocabOrdered, b.vocabCount);
  }

  /** The catalog facts for a given visit sequence, stated once for both bundles. */
  lemma CatalogFacts<K(!new), V>(ps: seq<(K, V)>, catalog: seq<(K, V)>, counts: map<K, nat>)
    requires Aggregate(ps) == (catalog, counts)
    ensures KeysOf(catalog) == FirstUse(KeysOf(ps))
    ensures HoldsFirstOccurrences(ps, catalog)
    ensures counts == Tally(KeysOf(ps))
    ensures SumOver(KeysOf(catalog), counts) == |ps|
  {
    AggregateKeys(ps);
    AggregateTally(ps);
    AggregateHolds(ps);
    AggregateCounts(ps);
  }

  /** Every key in the catalog names a dictionary entry, and the catalog holds that entry. */
  lemma {:induction false} VisitsInVocab(vocab: map<InternalKey, Item>, rows: seq<SentenceRow>)
    requires DecompositionsWellFormed(rows)
    requires ResolveRows(vocab, rows).Ok?
    ensures forall i :: 0 <= i < |AllVisits(ResolveRows(vocab, rows).value)| ==>
      var p := AllVisits(ResolveRows(vocab, rows).value)[i];
      p.0 in vocab && vocab[p.0] == p.1
  {
    var rows3 := ResolveRows(vocab, rows).value;
    forall j | 0 <= j < |rows3|
      ensures forall i :: 0 <= i < |Visits(rows3[j])| ==> Visits(rows3[j])[i].0 in vocab && vocab[Visits(rows3[j])[i].0] == Visits(rows3[j])[i].1
    {
      ResolvedVisits(vocab, rows[j]);
    }
    AllVisitsFrom(vocab, rows3);
  }

  /** Every morpheme of `ms` carries the dictionary entry of its key. */
  predicate FromVocab(vocab: map<InternalKey, Item>, ms: seq<DecompositionItem>)
  {
    forall i :: 0 <= i < |ms| ==> ms[i].key in vocab && vocab[ms[i].key] == ms[i].voc
  }

  /** The morphemes of one resolved row come from the dictionary. */
  lemma ResolvedVisits(vocab: map<InternalKey, Item>, row: SentenceRow)
    requires row.decomposition.Some? ==> WellFormedDecomposition(row.decomposition.value)
    requires VerifyDecomposed(vocab, row.decomposition, row.hanzi).Ok?
    ensures var v := Visits(Rows3Item(row.syllables, VerifyDecomposed(vocab, row.decomposition, row.hanzi).value, row));
      forall i :: 0 <= i < |v| ==> v[i].0 in vocab && vocab[v[i].0] == v[i].1
  {
    var d := VerifyDecomposed(vocab, row.decomposition, row.hanzi).value;
    forall j | 0 <= j < |d|
      ensures FromVocab(vocab, d[j])
    {
    }
    VisitsFromVocab(vocab, Rows3Item(row.syllables, d, row));
  }

  /** The visits of a row whose morphemes all come from the dictionary. */
  lemma VisitsFromVocab(vocab: map<InternalKey, Item>, item: Rows3Item)
    requires forall j :: 0 <= j < |item.decomposition| ==> FromVocab(vocab, item.decomposition[j])
    ensures var v := Visits(item);
      forall i :: 0 <= i < |v| ==> v[i].0 in vocab && vocab[v[i].0] == v[i].1
  {
    FlattenFromVocab(vocab, item.decomposition);
  }

  /** Flattening keeps every morpheme's dictionary entry. */
  lemma {:induction false} FlattenFromVocab(vocab: map<InternalKey, Item>, ds: seq<seq<DecompositionItem>>)
    requires forall j :: 0 <= j < |ds| ==> FromVocab(vocab, ds[j])
    ensures FromVocab(vocab, Flatten(ds))
  {
    if |ds| > 0 {
      var n := |ds| - 1;
      assert forall j :: 0 <= j < n ==> ds[..n][j] == ds[j];
      FlattenFromVocab(vocab, ds[..n]);
      FromVocabAppend(vocab, Flatten(ds[..n]), ds[n]);
    }
  }

  /** Morphemes from the dictionary stay so when concatenated. */
  lemma FromVocabAppend(vocab: map<InternalKey, Item>, a: seq<DecompositionItem>, b: seq<DecompositionItem>)
    requires FromVocab(vocab, a) && FromVocab(vocab, b)
    ensures FromVocab(vocab, a + b)
  {
    forall i | 0 <= i < |a + b|
      ensures (a + b)[i].key in vocab && vocab[(a + b)[i].key] == (a + b)[i].voc
    {
      if i < |a| {
        assert (a + b)[i] == a[i];
      } else {
        assert (a + b)[i] == b[i - |a|];
      }
    }
  }

  /** A property of every visit of every row holds of every visit overall. */
  lemma {:induction false} AllVisitsFrom(vocab: map<InternalKey, Item>, rows3: seq<Rows3Item>)
    requires forall j :: 0 <= j < |rows3| ==>
      forall i :: 0 <= i < |Visits(rows3[j])| ==> Visits(rows3[j])[i].0 in vocab && vocab[Visits(rows3[j])[i].0] == Visits(rows3[j])[i].1
    ensures forall i :: 0 <= i < |AllVisits(rows3)| ==> AllVisits(rows3)[i].0 in vocab && vocab[AllVisits(rows3)[i].0] == AllVisits(rows3)[i].1
  {
    if |rows3| > 0 {
      var n := |rows3| - 1;
      assert forall j :: 0 <= j < n ==> rows3[..n][j] == rows3[j];
      AllVisitsFrom(vocab, rows3[..n]);
    }
  }

  // ---------------------------------------------------------------------------------
  // The older bundle
  // ---------------------------------------------------------------------------------

  /** One row of the older corpus: the syllables, the `.`-separated decomposition and
      the transcription. */
  datatype OldRow = OldRow(syllables: seq<ExtSyllable>, decomposed: string, hanzi: string)

  datatype OldFailure = OldPanicked | OldErrors(messages: seq<string>)

  function OldResolutions(vocab: map<string, Item>, rows: seq<OldRow>): (rs: seq<Result<seq<(string, Item)>, DecomposeError>>)
    ensures |rs| == |rows|
  {
    seq(|rows|, i requires 0 <= i < |rows| => ParseDecomposed(vocab, rows[i].decomposed, rows[i].hanzi))
  }

  /** Each row's messages joined into one line per row. */
  function OldRowResult(r: Result<seq<(string, Item)>, DecomposeError>): (j: Result<seq<(string, Item)>, string>)
    requires r.Ok? || r.error.Messages?
    ensures j.Ok? <==> r.Ok?
    ensures r.Ok? ==> j.value == r.value
  {
    match r
    case Ok(v) => Ok(v)
    case Err(e) => Err(Join(e.messages, "\n"))
  }

  /** The older `DataBundle::new` after its pronunciation checks: any row with an empty
      token panics; otherwise every row's errors are collected, and on success the catalog
      lists the morphemes in first-use order. */
  function OldBundle(vocab: map<string, Item>, rows: seq<OldRow>): (r: Result<(seq<seq<(string, Item)>>, seq<(string, Item)>), OldFailure>)
    ensures r == Err(OldPanicked) <==> exists i :: 0 <= i < |rows| && OldResolutions(vocab, rows)[i] == Err(EmptyToken)
    ensures r.Ok? <==> forall i :: 0 <= i < |rows| ==> OldResolutions(vocab, rows)[i].Ok?
    ensures r.Ok? ==> |r.value.0| == |rows|
    ensures r.Ok? ==> forall i :: 0 <= i < |rows| ==> OldResolutions(vocab, rows)[i] == Ok(r.value.0[i])
    ensures r.Ok? ==> r.value.1 == Aggregate(Flatten(r.value.0)).0
    ensures r.Err? && r != Err(OldPanicked) ==> |r.error.messages| > 0
  {
    match OldCollect(OldResolutions(vocab, rows))
    case Err(f) => Err(f)
    case Ok(ds) => Ok((ds, Aggregate(Flatten(ds)).0))
  }

  /** The rows' results gathered: a panic if any row panicked, otherwise every row's
      joined messages, or every row's morphemes. */
  function OldCollect(rs: seq<Result<seq<(string, Item)>, DecomposeError>>): (r: Result<seq<seq<(string, Item)>>, OldFailure>)
    ensures r == Err(OldPanicked) <==> exists i :: 0 <= i < |rs| && rs[i] == Err(EmptyToken)
    ensures r.Ok? <==> forall i :: 0 <= i < |rs| ==> rs[i].Ok?
    ensures r.Ok? ==> |r.value| == |rs| && forall i :: 0 <= i < |rs| ==> rs[i] == Ok(r.value[i])
    ensures r.Err? && r != Err(OldPanicked) ==> |r.error.messages| > 0
  {
    if exists i :: 0 <= i < |rs| && rs[i] == Err(EmptyToken) then Err(OldPanicked)
    else
      var joined := seq(|rs|, i requires 0 <= i < |rs| => OldRowResult(rs[i]));
      assert forall i :: 0 <= i < |rs| ==> joined[i] == OldRowResult(rs[i]);
      match CollectAnyErrors(joined)
      case Err(es) => Err(OldErrors(es))
      case Ok(ds) => Ok(ds)
  }

  /** The older catalog also lists each key once, in first-use order, with the entry
      first seen for it. */
  lemma OldBundleCatalog(vocab: map<string, Item>, rows: seq<OldRow>)
    requires OldBundle(vocab, rows).Ok?
    ensures var r := OldBundle(vocab, rows).value;
      && KeysOf(r.1) == FirstUse(KeysOf(Flatten(r.0)))
      && HoldsFirstOccurrences(Flatten(r.0), r.1)
  {
    var r := OldBundle(vocab, rows).value;
    CatalogFacts(Flatten(r.0), r.1, Aggregate(Flatten(r.0)).1);
  }
}
