/** The glyph-to-syllable tables: the per-character pronunciation table with its variant
    (non-recommended glyph) table, and the contraction table of multi-glyph sequences. */
module Sounds {
  import opened Wrappers
  import opened Collections
  import opened Rerrliratixka

  /** A table of glyph strings and their syllables, in file order. */
  type SoundTable = seq<(string, Syllable)>

  /** Some entry of `table` pairs exactly `glyphs` with `x` (the `iter().find` lookups of
      the aligners). */
  predicate Pronounces(table: SoundTable, glyphs: string, x: Syllable)
  {
    exists i :: 0 <= i < |table| && table[i].0 == glyphs && table[i].1 == x
  }

  /** One line of the character-pronunciation file. */
  datatype PronunciationRecord = PronunciationRecord(character: string, sound: string, variantOf: string)

  /** One line of the contraction file. */
  datatype ContractionRecord = ContractionRecord(characters: string, sound: string)

  /** `convert`: the glyphs paired with their parsed sound, or an error naming the sound. */
  function ConvertSound(glyphs: string, sound: string): (r: Result<(string, Syllable), string>)
    ensures r.Ok? <==> ParseSyllable(sound).Some?
    ensures r.Ok? ==> r.value.0 == glyphs && Spell(r.value.1) == sound
    ensures r.Err? ==> r.error == "Invalid sound " + sound
  {
    match ParseSyllable(sound)
    case None => Err("Invalid sound " + sound)
    case Some(x) => Ok((glyphs, x))
  }

  /** Every sound of `sounds` converted with its glyphs; all the invalid sounds reported. */
  function ConvertAll(glyphs: seq<string>, sounds: seq<string>): (r: Result<SoundTable, seq<string>>)
    requires |glyphs| == |sounds|
    ensures r.Ok? <==> forall i :: 0 <= i < |sounds| ==> ParseSyllable(sounds[i]).Some?
    ensures r.Ok? ==> |r.value| == |sounds|
    ensures r.Ok? ==> forall i :: 0 <= i < |sounds| ==> r.value[i].0 == glyphs[i] && Spell(r.value[i].1) == sounds[i]
    ensures r.Err? ==> forall i :: 0 <= i < |sounds| && ParseSyllable(sounds[i]).None? ==>
      "Invalid sound " + sounds[i] in r.error
    ensures r.Err? ==> forall k :: 0 <= k < |r.error| ==> NamesInvalidSound(sounds, r.error[k])
    ensures r.Err? ==> r.error == InvalidSoundMessages(sounds)
  {
    var convs := Conversions(glyphs, sounds);
    var r := CollectAnyErrors(convs);
    if r.Err? then
      InvalidSoundsReported(sounds, convs, r.error);
      ConversionErrorsInOrder(sounds, convs);
      r
    else r
  }

  /** The message of every sound of `sounds` that does not parse, in file order and with
      repeats kept. */
  function InvalidSoundMessages(sounds: seq<string>): seq<string>
  {
    if |sounds| == 0 then []
    else
      (if ParseSyllable(sounds[0]).None? then ["Invalid sound " + sounds[0]] else [])
      + InvalidSoundMessages(sounds[1..])
  }

  /** Collecting the errors of the conversions lists the invalid sounds' messages in order. */
  lemma {:induction false} ConversionErrorsInOrder(sounds: seq<string>, convs: seq<Result<(string, Syllable), string>>)
    requires |convs| == |sounds|
    requires forall i :: 0 <= i < |convs| ==> (convs[i].Err? <==> ParseSyllable(sounds[i]).None?)
    requires forall i :: 0 <= i < |convs| && convs[i].Err? ==> convs[i].error == "Invalid sound " + sounds[i]
    ensures ErrorsOf(convs) == InvalidSoundMessages(sounds)
    decreases |sounds|
  {
    if |sounds| > 0 {
      assert forall i :: 1 <= i < |convs| ==> convs[1..][i - 1] == convs[i] && sounds[1..][i - 1] == sounds[i];
      ConversionErrorsInOrder(sounds[1..], convs[1..]);
    }
  }

  /** Each sound converted with its glyphs, in order. */
  function Conversions(glyphs: seq<string>, sounds: seq<string>): (convs: seq<Result<(string, Syllable), string>>)
    requires |glyphs| == |sounds|
    ensures |convs| == |sounds|
    ensures forall i :: 0 <= i < |convs| ==> (convs[i].Err? <==> ParseSyllable(sounds[i]).None?)
    ensures forall i :: 0 <= i < |convs| && convs[i].Ok? ==>
      convs[i].value.0 == glyphs[i] && Spell(convs[i].value.1) == sounds[i]
    ensures forall i :: 0 <= i < |convs| && convs[i].Err? ==> convs[i].error == "Invalid sound " + sounds[i]
  {
    var convs := seq(|sounds|, i requires 0 <= i < |sounds| => ConvertSound(glyphs[i], sounds[i]));
    assert forall i :: 0 <= i < |sounds| ==> convs[i] == ConvertSound(glyphs[i], sounds[i]);
    convs
  }

  /** The variant table: each character with a non-empty `variant_of` column maps to it;
      a later line for the same character overrides an earlier one. */
  function VariantTable(records: seq<PronunciationRecord>): (m: map<string, string>)
    ensures forall c :: c in m <==>
      exists i :: 0 <= i < |records| && records[i].character == c && records[i].variantOf != ""
  {
    if |records| == 0 then map[]
    else
      var n := |records| - 1;
      var init := records[..n];
      var r := records[n];
      var m := VariantTable(init);
      assert forall i :: 0 <= i < n ==> init[i] == records[i];
      if r.variantOf == "" then m else m[r.character := r.variantOf]
  }

  /** The last line for a character that has a variant determines it. */
  lemma {:induction false} VariantTableLastWins(records: seq<PronunciationRecord>, i: nat)
    requires i < |records| && records[i].variantOf != ""
    requires forall j :: i < j < |records| && records[j].character == records[i].character ==>
      records[j].variantOf == ""
    ensures VariantTable(records)[records[i].character] == records[i].variantOf
  {
    var n := |records| - 1;
    if i < n {
      var init := records[..n];
      assert init[i] == records[i];
      VariantTableLastWins(init, i);
    }
  }

  /** `char_pronunciation::parse` after the file is split into records: the table, or
      every invalid sound at once; the variant table is built only when the sounds parse. */
  function LoadCharPronunciation(records: seq<PronunciationRecord>): (r: Result<(SoundTable, map<string, string>), seq<string>>)
    ensures r.Ok? <==> forall i :: 0 <= i < |records| ==> ParseSyllable(records[i].sound).Some?
    ensures r.Ok? ==> |r.value.0| == |records|
    ensures r.Ok? ==> forall i :: 0 <= i < |records| ==>
      r.value.0[i].0 == records[i].character && Spell(r.value.0[i].1) == records[i].sound
    ensures r.Err? ==> forall i :: 0 <= i < |records| && ParseSyllable(records[i].sound).None? ==>
      "Invalid sound " + records[i].sound in r.error
    ensures r.Err? ==> forall k :: 0 <= k < |r.error| ==> NamesInvalidSound(PronunciationColumns(records).1, r.error[k])
    ensures r.Err? ==> r.error == InvalidSoundMessages(PronunciationColumns(records).1)
  {
    var (glyphs, sounds) := PronunciationColumns(records);
    match ConvertAll(glyphs, sounds)
    case Err(es) => Err(es)
    case Ok(table) => Ok((table, VariantTable(records)))
  }

  /** The character and sound columns of the pronunciation file. */
  function PronunciationColumns(records: seq<PronunciationRecord>): (c: (seq<string>, seq<string>))
    ensures |c.0| == |records| && |c.1| == |records|
    ensures forall i :: 0 <= i < |records| ==> c.0[i] == records[i].character && c.1[i] == records[i].sound
  {
    (seq(|records|, i requires 0 <= i < |records| => records[i].character),
     seq(|records|, i requires 0 <= i < |records| => records[i].sound))
  }

  /** `e` is the message of some sound of `sounds` that does not parse. */
  predicate NamesInvalidSound(sounds: seq<string>, e: string)
  {
    exists i :: 0 <= i < |sounds| && ParseSyllable(sounds[i]).None? && e == "Invalid sound " + sounds[i]
  }

  /** The errors collected from converting the sounds are exactly the messages of the
      sounds that do not parse. */
  lemma InvalidSoundsReported(sounds: seq<string>, convs: seq<Result<(string, Syllable), string>>, es: seq<string>)
    requires |convs| == |sounds|
    requires forall i :: 0 <= i < |convs| ==> (convs[i].Err? <==> ParseSyllable(sounds[i]).None?)
    requires forall i :: 0 <= i < |convs| && convs[i].Err? ==> convs[i].error == "Invalid sound " + sounds[i]
    requires forall i :: 0 <= i < |convs| && convs[i].Err? ==> convs[i].error in es
    requires forall k :: 0 <= k < |es| ==> exists i :: 0 <= i < |convs| && convs[i] == Err(es[k])
    ensures forall i :: 0 <= i < |sounds| && ParseSyllable(sounds[i]).None? ==> "Invalid sound " + sounds[i] in es
    ensures forall k :: 0 <= k < |es| ==> NamesInvalidSound(sounds, es[k])
  {
    forall k | 0 <= k < |es|
      ensures NamesInvalidSound(sounds, es[k])
    {
      var i :| 0 <= i < |convs| && convs[i] == Err(es[k]);
      assert ParseSyllable(sounds[i]).None? && es[k] == "Invalid sound " + sounds[i];
    }
  }

  /** `contraction::parse` after the file is split into records. */
  function LoadContraction(records: seq<ContractionRecord>): (r: Result<SoundTable, seq<string>>)
    ensures r.Ok? <==> forall i :: 0 <= i < |records| ==> ParseSyllable(records[i].sound).Some?
    ensures r.Ok? ==> |r.value| == |records|
    ensures r.Ok? ==> forall i :: 0 <= i < |records| ==>
      r.value[i].0 == records[i].characters && Spell(r.value[i].1) == records[i].sound
    ensures r.Err? ==> forall i :: 0 <= i < |records| && ParseSyllable(records[i].sound).None? ==>
      "Invalid sound " + records[i].sound in r.error
    ensures r.Err? ==> forall k :: 0 <= k < |r.error| ==> NamesInvalidSound(ContractionColumns(records).1, r.error[k])
    ensures r.Err? ==> r.error == InvalidSoundMessages(ContractionColumns(records).1)
  {
    var (glyphs, sounds) := ContractionColumns(records);
    ConvertAll(glyphs, sounds)
  }

  /** The glyph-run and sound columns of the contraction file. */
  function ContractionColumns(records: seq<ContractionRecord>): (c: (seq<string>, seq<string>))
    ensures |c.0| == |records| && |c.1| == |records|
    ensures forall i :: 0 <= i < |records| ==> c.0[i] == records[i].characters && c.1[i] == records[i].sound
  {
    (seq(|records|, i requires 0 <= i < |records| => records[i].characters),
     seq(|records|, i requires 0 <= i < |records| => records[i].sound))
  }

  /** A table written out with canonical spellings. */
  function SpelledContractions(table: SoundTable): seq<ContractionRecord>
  {
    seq(|table|, i requires 0 <= i < |table| => ContractionRecord(table[i].0, Spell(table[i].1)))
  }

  function SpelledPronunciations(table: SoundTable, variants: seq<string>): seq<PronunciationRecord>
    requires |variants| == |table|
  {
    seq(|table|, i requires 0 <= i < |table| => PronunciationRecord(table[i].0, Spell(table[i].1), variants[i]))
  }

  /** Round trip: writing a table out with canonical spellings and loading it again gives
      the same table. */
  lemma LoadContractionSpelled(table: SoundTable)
    ensures LoadContraction(SpelledContractions(table)) == Ok(table)
  {
    var records := SpelledContractions(table);
    forall i | 0 <= i < |table|
      ensures ParseSyllable(records[i].sound) == Some(table[i].1)
    {
      ParseSyllableIff(records[i].sound, table[i].1);
    }
    var r := LoadContraction(records);
    assert r.Ok?;
    forall i | 0 <= i < |table|
      ensures r.value[i] == table[i]
    {
      ParseSyllableIff(records[i].sound, r.value[i].1);
    }
    assert r.value == table;
  }

  /** Round trip for the pronunciation table; the variant column does not affect it. */
  lemma LoadCharPronunciationSpelled(table: SoundTable, variants: seq<string>)
    requires |variants| == |table|
    ensures LoadCharPronunciation(SpelledPronunciations(table, variants)).Ok?
    ensures LoadCharPronunciation(SpelledPronunciations(table, variants)).value.0 == table
  {
    var records := SpelledPronunciations(table, variants);
    forall i | 0 <= i < |table|
      ensures ParseSyllable(records[i].sound) == Some(table[i].1)
    {
      ParseSyllableIff(records[i].sound, table[i].1);
    }
    var r := LoadCharPronunciation(records);
    assert r.Ok?;
    forall i | 0 <= i < |table|
      ensures r.value.0[i] == table[i]
    {
      ParseSyllableIff(records[i].sound, r.value.0[i].1);
    }
    assert r.value.0 == table;
  }
}
