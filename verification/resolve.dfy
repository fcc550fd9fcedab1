/** The decomposition resolver: checks that a sentence's morpheme decomposition spells
    its glyph transcription, and looks every morpheme up in the dictionary. */
module Resolve {
  import opened Wrappers
  import opened Chars
  import opened Strings
  import opened Collections
  import opened Vocab

  /** The glyphs one decomposition token stands for. `∅` stands for nothing; a former
      half `a#b` for `a`; a latter half `a!b` for `b`; a romanized token drops its
      trailing digits and any other token its trailing ASCII letters and digits
      (the disambiguating postfix). */
  function Reconstruct(a: string): (r: string)
    requires |a| > 0
    ensures |r| <= |a|
    ensures a[0] == '∅' ==> r == ""
    ensures a[0] != '∅' && '#' in a ==> r == a[..|r|] && |r| < |a| && a[|r|] == '#' && '#' !in r
    ensures a[0] != '∅' && '#' !in a && '!' in a ==>
      r == a[|a| - |r|..] && |r| < |a| && a[|a| - |r| - 1] == '!' && '!' !in a[..|a| - |r| - 1]
    ensures a[0] != '∅' && Unmarked(a) ==> r == a[..|r|]
    ensures a[0] != '∅' && Unmarked(a) && IsAsciiAlphabetic(a[0]) ==>
      forall i :: |r| <= i < |a| ==> IsNumeric(a[i])
    ensures a[0] != '∅' && Unmarked(a) && !IsAsciiAlphabetic(a[0]) ==>
      forall i :: |r| <= i < |a| ==> IsAsciiAlphanumeric(a[i])
    ensures a[0] != '∅' && Unmarked(a) && IsAsciiAlphabetic(a[0]) ==> |r| > 0 && !IsNumeric(r[|r| - 1])
    ensures a[0] != '∅' && Unmarked(a) && !IsAsciiAlphabetic(a[0]) && |r| > 0 ==> !IsAsciiAlphanumeric(r[|r| - 1])
  {
    if a[0] == '∅' then ""
    else if '#' in a then a[..FindChar(a, '#')]
    else if '!' in a then a[FindChar(a, '!') + 1..]
    else if IsAsciiAlphabetic(a[0]) then DropTrailing(a, IsNumeric)
    else DropTrailing(a, IsAsciiAlphanumeric)
  }

  /** The halves of a splittable compound stand for the two parts of the compound. */
  lemma ReconstructCompound(a: string, b: string)
    requires |a| > 0 && a[0] != '∅' && Unmarked(a) && Unmarked(b)
    ensures Reconstruct(a + "#" + b) == a
    ensures Reconstruct(a + "!" + b) == b
  {
    var f := a + "#" + b;
    assert f == a + ("#" + b) && f[..|a|] == a;
    FindCharAppend(a, "#" + b, '#');
    var l := a + "!" + b;
    assert l == a + ("!" + b) && l[..|a|] == a;
    assert '#' !in l by {
      assert forall i :: 0 <= i < |l| ==> l[i] == (if i < |a| then a[i] else if i == |a| then '!' else b[i - |a| - 1]);
    }
    FindCharAppend(a, "!" + b, '!');
    assert l[|a| + 1..] == b;
  }

  /** For an unmarked key led by a glyph, the reconstruction is exactly the main part the
      key codec splits off: the postfix is what gets dropped. */
  lemma ReconstructGlyphKey(s: string)
    requires NewKeyGloss(s).Ok? && Unmarked(s)
    requires s[0] != '∅' && !IsAsciiGraphic(s[0])
    ensures Reconstruct(s) == NewKeyGloss(s).value.main
  {
    var g := NewKeyGloss(s).value;
    assert s == g.main + g.postfix;
    assert !IsAsciiAlphabetic(s[0]);
    DropTrailingAppend(g.main, g.postfix, IsAsciiAlphanumeric);
  }

  /** A romanized key written with a numeric postfix, like `xizi375`, reconstructs to its
      letters. */
  lemma ReconstructLatinKey(w: string, digits: string)
    requires |w| > 0 && IsAsciiAlphabetic(w[0]) && !IsNumeric(w[|w| - 1]) && Unmarked(w)
    requires forall i :: 0 <= i < |digits| ==> IsNumeric(digits[i])
    ensures Reconstruct(w + digits) == w
  {
    var s := w + digits;
    assert s[0] == w[0];
    assert '#' !in s && '!' !in s by {
      assert forall i :: 0 <= i < |s| ==> s[i] == (if i < |w| then w[i] else digits[i - |w|]);
    }
    DropTrailingAppend(w, digits, IsNumeric);
  }

  /** The transcription as the decomposition must spell it: without `！？。「」`. */
  function Expectation(hanzi: string): (r: string)
    ensures forall i :: 0 <= i < |r| ==> !IsSentencePunctuation(r[i])
    ensures |r| + CountWhere(hanzi, IsSentencePunctuation) == |hanzi|
    ensures CountWhere(hanzi, IsSentencePunctuation) == 0 ==> r == hanzi
  {
    RemoveWhere(hanzi, IsSentencePunctuation)
  }

  /** The expectation of a transcription is built piece by piece. */
  lemma ExpectationAppend(a: string, b: string)
    ensures Expectation(a + b) == Expectation(a) + Expectation(b)
  {
    RemoveWhereAppend(a, b, IsSentencePunctuation);
  }

  /** The concatenated reconstructions of the tokens, in order. */
  function Rejoin(tokens: seq<string>): (r: string)
    requires NoEmptyToken(tokens)
    ensures (forall i :: 0 <= i < |tokens| ==> tokens[i][0] == '∅') ==> r == ""
    ensures |tokens| == 1 ==> r == Reconstruct(tokens[0])
  {
    if |tokens| == 0 then ""
    else
      assert forall i :: 0 <= i < |tokens| - 1 ==> tokens[1..][i] == tokens[i + 1];
      Reconstruct(tokens[0]) + Rejoin(tokens[1..])
  }

  /** The reconstruction of a decomposition is built token by token. */
  lemma {:induction false} RejoinAppend(a: seq<string>, b: seq<string>)
    requires NoEmptyToken(a) && NoEmptyToken(b)
    ensures NoEmptyToken(a + b)
    ensures Rejoin(a + b) == Rejoin(a) + Rejoin(b)
  {
    if |a| == 0 {
      assert a + b == b;
    } else {
      var c := a + b;
      assert c[0] == a[0] && c[1..] == a[1..] + b;
      assert NoEmptyToken(a[1..]);
      RejoinAppend(a[1..], b);
      assert Rejoin(c) == Reconstruct(a[0]) + Rejoin(a[1..] + b);
    }
  }

  /** The dictionary key a token is looked up under: every `!` and `#` becomes ` // `. */
  function LookupKey(a: string): (r: string)
    ensures '!' !in r && '#' !in r
    ensures Unmarked(a) ==> r == a
    ensures r == Join(SplitWhere(a, IsCompoundMarker), " // ")
  {
    MarkersAsJoin(a, " // ");
    ReplaceChar(ReplaceChar(a, '!', " // "), '#', " // ")
  }

  /** The older lookup key agrees with the canonical key of the current key codec whenever
      the postfix carries no compound marker. */
  lemma LookupKeyAgrees(s: string)
    requires NewKeyGloss(s).Ok? && Unmarked(NewKeyGloss(s).value.postfix)
    ensures LookupKey(s) == KeyDisplay(ToInternalKey(NewKeyGloss(s).value))
  {
    var g := NewKeyGloss(s).value;
    assert s == g.main + g.postfix;
    ReplaceCharAppend(g.main, g.postfix, '!', " // ");
    var m1 := ReplaceChar(g.main, '!', " // ");
    assert ReplaceChar(s, '!', " // ") == m1 + g.postfix;
    ReplaceCharAppend(m1, g.postfix, '#', " // ");
  }

  predicate IsDot(c: char)
  {
    c == '.'
  }

  /** The decomposition column split at every `.`. */
  function DecompositionTokens(decomposed: string): (r: seq<string>)
    ensures |r| > 0
  {
    SplitWhere(decomposed, IsDot)
  }

  /** The message for a token whose key is missing from the dictionary. */
  function MissingKeyMessage(key: string, decomposed: string): string
  {
    "Cannot find key " + key + " in the vocab list, found while analyzing " + decomposed
  }

  /** The lookup of one token: the key with its entry, or the missing-key message. */
  function Lookup(vocab: map<string, Item>, a: string, decomposed: string): (r: Result<(string, Item), string>)
    ensures r.Ok? <==> LookupKey(a) in vocab
    ensures r.Ok? ==> r.value == (LookupKey(a), vocab[LookupKey(a)])
  {
    var key := LookupKey(a);
    if key in vocab then Ok((key, vocab[key])) else Err(MissingKeyMessage(key, decomposed))
  }

  function Lookups(vocab: map<string, Item>, tokens: seq<string>, decomposed: string): seq<Result<(string, Item), string>>
  {
    seq(|tokens|, i requires 0 <= i < |tokens| => Lookup(vocab, tokens[i], decomposed))
  }

  /** Every token looked up: all the entries, or every missing-key message. */
  function LookupAll(vocab: map<string, Item>, tokens: seq<string>, decomposed: string): (r: Result<seq<(string, Item)>, seq<string>>)
    ensures r.Ok? <==> forall i :: 0 <= i < |tokens| ==> LookupKey(tokens[i]) in vocab
    ensures r.Ok? ==> |r.value| == |tokens|
    ensures r.Ok? ==> forall i :: 0 <= i < |r.value| ==> r.value[i].0 == LookupKey(tokens[i]) && r.value[i].1 == vocab[r.value[i].0]
    ensures r.Err? ==>
      forall i :: 0 <= i < |tokens| && LookupKey(tokens[i]) !in vocab ==> MissingKeyMessage(LookupKey(tokens[i]), decomposed) in r.error
  {
    var ls := Lookups(vocab, tokens, decomposed);
    assert forall i :: 0 <= i < |tokens| ==> ls[i] == Lookup(vocab, tokens[i], decomposed);
    CollectAnyErrors(ls)
  }

  /** How the older resolver gives up: an empty token makes it panic (the `unwrap` on
      its first character); otherwise it reports messages. */
  datatype DecomposeError = EmptyToken | Messages(messages: seq<string>)

  predicate NoEmptyToken(tokens: seq<string>)
  {
    forall i :: 0 <= i < |tokens| ==> |tokens[i]| > 0
  }

  /** `parse_decomposed` of the older checker: an empty decomposition resolves to nothing;
      an empty token (from `..` or a trailing `.`) panics; otherwise the reconstruction
      must spell the transcription (one mismatch message if not), and then every token
      must be in the dictionary, every missing key being reported. */
  function ParseDecomposed(vocab: map<string, Item>, decomposed: string, hanzi: string): (r: Result<seq<(string, Item)>, DecomposeError>)
    ensures decomposed == "" ==> r == Ok([])
    ensures var tokens := DecompositionTokens(decomposed);
      decomposed != "" ==> (r == Err(EmptyToken) <==> !NoEmptyToken(tokens))
    ensures var tokens := DecompositionTokens(decomposed);
      decomposed != "" && NoEmptyToken(tokens) ==>
        (r.Ok? <==> Rejoin(tokens) == Expectation(hanzi) && forall i :: 0 <= i < |tokens| ==> LookupKey(tokens[i]) in vocab)
    ensures var tokens := DecompositionTokens(decomposed);
      decomposed != "" && r.Ok? ==>
        (|r.value| == |tokens| &&
         forall i :: 0 <= i < |r.value| ==> r.value[i].0 == LookupKey(tokens[i]) && r.value[i].1 == vocab[r.value[i].0])
    ensures var tokens := DecompositionTokens(decomposed);
      decomposed != "" && NoEmptyToken(tokens) && Rejoin(tokens) != Expectation(hanzi) ==>
        (r.Err? && r.error.Messages? && |r.error.messages| == 1)
    ensures var tokens := DecompositionTokens(decomposed);
      decomposed != "" && NoEmptyToken(tokens) && Rejoin(tokens) == Expectation(hanzi) && r.Err? ==>
        (r.error.Messages? &&
         forall i :: 0 <= i < |tokens| && LookupKey(tokens[i]) !in vocab ==> MissingKeyMessage(LookupKey(tokens[i]), decomposed) in r.error.messages)
  {
    if decomposed == "" then Ok([])
    else
      var tokens := DecompositionTokens(decomposed);
      if !NoEmptyToken(tokens) then Err(EmptyToken)
      else
        var rejoined := Rejoin(tokens);
        var expectation := Expectation(hanzi);
        if rejoined != expectation then
          Err(Messages(["mismatch: the original row gives " + expectation + " but the decomposition is " + rejoined]))
        else
          match LookupAll(vocab, tokens, decomposed)
          case Ok(v) => Ok(v)
          case Err(es) => Err(Messages(es))
  }

  // ---------------------------------------------------------------------------------
  // The current resolver
  // ---------------------------------------------------------------------------------

  /** One resolved morpheme. */
  datatype DecompositionItem = DecompositionItem(key: InternalKey, voc: Item, info: Option<SplittableCompoundInfo>)

  datatype ResolveError = Mismatch(expectation: string, rejoined: string) | MissingKey(key: InternalKey)

  /** A parsed decomposition holds key glosses built by `NewKeyGloss`. `InternalKeyGloss`
      keeps its fields private (src/read/vocab.rs:59-62), so every gloss the program holds
      comes from `InternalKeyGloss::new`; the parser of the `decomposed` column is not part
      of this model, and this predicate records what it guarantees. */
  predicate WellFormedDecomposition(glosses: seq<KeyGloss>)
  {
    forall i :: 0 <= i < |glosses| ==> NewKeyGloss(GlossDisplay(glosses[i])) == Ok(glosses[i])
  }

  /** The decomposition written out as tokens. */
  function GlossTokens(glosses: seq<KeyGloss>): (r: seq<string>)
    requires WellFormedDecomposition(glosses)
    ensures |r| == |glosses| && NoEmptyToken(r)
    ensures forall i :: 0 <= i < |r| ==> r[i] == GlossDisplay(glosses[i])
  {
    seq(|glosses|, i requires 0 <= i < |glosses| => GlossDisplay(glosses[i]))
  }

  /** `i` is the first gloss whose key the dictionary lacks. */
  predicate FirstMissing(vocab: map<InternalKey, Item>, glosses: seq<KeyGloss>, i: int)
  {
    0 <= i < |glosses| && ToInternalKey(glosses[i]) !in vocab &&
    forall j :: 0 <= j < i ==> ToInternalKey(glosses[j]) in vocab
  }

  /** The morphemes of the decomposition in order, or the first key that is missing. */
  function ResolveGlosses(vocab: map<InternalKey, Item>, glosses: seq<KeyGloss>): (r: Result<seq<DecompositionItem>, ResolveError>)
    ensures r.Ok? <==> forall i :: 0 <= i < |glosses| ==> ToInternalKey(glosses[i]) in vocab
    ensures r.Ok? ==> |r.value| == |glosses|
    ensures r.Ok? ==> forall i :: 0 <= i < |glosses| ==>
      r.value[i] == DecompositionItem(ToInternalKey(glosses[i]), vocab[ToInternalKey(glosses[i])], ToSplittableCompoundInfo(glosses[i]))
    ensures r.Err? ==> r.error.MissingKey? && r.error.key !in vocab
    ensures r.Err? ==> exists i :: FirstMissing(vocab, glosses, i) && r.error == MissingKey(ToInternalKey(glosses[i]))
    decreases |glosses|
  {
    if |glosses| == 0 then Ok([])
    else
      var key := ToInternalKey(glosses[0]);
      assert forall i :: 1 <= i < |glosses| ==> glosses[i] == glosses[1..][i - 1];
      if key !in vocab then
        assert FirstMissing(vocab, glosses, 0);
        Err(MissingKey(key))
      else
        match ResolveGlosses(vocab, glosses[1..])
        case Err(e) =>
          FirstMissingShift(vocab, glosses);
          Err(e)
        case Ok(items) => Ok([DecompositionItem(key, vocab[key], ToSplittableCompoundInfo(glosses[0]))] + items)
  }

  /** Behind a resolving first gloss, the first missing key of the rest is the first
      missing key of the whole. */
  lemma FirstMissingShift(vocab: map<InternalKey, Item>, glosses: seq<KeyGloss>)
    requires |glosses| > 0 && ToInternalKey(glosses[0]) in vocab
    ensures forall i :: FirstMissing(vocab, glosses[1..], i) ==> FirstMissing(vocab, glosses, i + 1)
  {
    forall i | FirstMissing(vocab, glosses[1..], i)
      ensures FirstMissing(vocab, glosses, i + 1)
    {
      assert forall j :: 1 <= j < i + 1 ==> glosses[j] == glosses[1..][j - 1];
    }
  }

  /** `verify_decomposed`: no decomposition resolves to nothing; otherwise the
      reconstruction must spell the transcription, and then every gloss must resolve,
      giving one inner sequence of morphemes. */
  function VerifyDecomposed(vocab: map<InternalKey, Item>, decomposition: Option<seq<KeyGloss>>, hanzi: string): (r: Result<seq<seq<DecompositionItem>>, ResolveError>)
    requires decomposition.Some? ==> WellFormedDecomposition(decomposition.value)
    ensures decomposition.None? ==> r == Ok([])
    ensures decomposition.Some? ==>
      (r.Ok? <==> Rejoin(GlossTokens(decomposition.value)) == Expectation(hanzi) &&
                  forall i :: 0 <= i < |decomposition.value| ==> ToInternalKey(decomposition.value[i]) in vocab)
    ensures decomposition.Some? && r.Ok? ==> |r.value| == 1 && |r.value[0]| == |decomposition.value|
    ensures decomposition.Some? && r.Ok? ==> forall i :: 0 <= i < |decomposition.value| ==>
      r.value[0][i] == DecompositionItem(ToInternalKey(decomposition.value[i]), vocab[ToInternalKey(decomposition.value[i])],
                                         ToSplittableCompoundInfo(decomposition.value[i]))
    ensures decomposition.Some? && Rejoin(GlossTokens(decomposition.value)) != Expectation(hanzi) ==>
      r == Err(Mismatch(Expectation(hanzi), Rejoin(GlossTokens(decomposition.value))))
    ensures decomposition.Some? && Rejoin(GlossTokens(decomposition.value)) == Expectation(hanzi) && r.Err? ==>
      exists i :: FirstMissing(vocab, decomposition.value, i) && r.error == MissingKey(ToInternalKey(decomposition.value[i]))
  {
    match decomposition
    case None => Ok([])
    case Some(glosses) =>
      var rejoined := Rejoin(GlossTokens(glosses));
      var expectation := Expectation(hanzi);
      if rejoined != expectation then Err(Mismatch(expectation, rejoined))
      else
        match ResolveGlosses(vocab, glosses)
        case Err(e) => Err(e)
        case Ok(items) => Ok([items])
  }
}
