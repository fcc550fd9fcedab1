# Spoonfed Pekzep consistency checker, modelled in Dafny

Spoonfed Pekzep is a phrasebook for the constructed language Pekzep. Before it renders
any HTML, its build runs a consistency checker over hand-maintained tables:

- the phrase list, holding each sentence in Latin syllables and in linzklar glyphs;
- the vocabulary, keyed by internal keys such as `享 // 銭`, `於dur` or `xizi:375`;
- the pronunciation tables of single glyphs and of `«…»` contractions;
- the IDS dismantling table of the glyphs.

This project models that checker as pure Dafny functions over already-split records,
and proves what each stage guarantees.

It models these parts:

- the Pekzep syllable codec: the strict ASCII spelling with tone digits, and the
  rerrliratixka orthography, which marks tone with `r`;
- the tokenizer that turns a Latin line into syllables;
- the phrase loader, with its review filter, file-type and author fields, and
  duplicate detection;
- the vocabulary key codec and the vocabulary loader;
- the two pronunciation loaders;
- the checkers:
  - the sentence aligner, which walks glyphs against syllables;
  - the glyph counter;
  - the vocabulary pronunciation walker, including `xizi`, `//`, `S` and `{…}` asides;
  - the decomposition resolvers, old and new;
- the aggregation that builds the data bundle: the first-use vocabulary catalogue and
  the use counts;
- the IDS parser;
- the text normalizers;
- three rendering helpers: `//` splitting, guillemet removal and the merging of
  unsplit compounds.

Modules follow the program's structure:

- `Rerrliratixka`: syllables.
- `Phrase`, `Vocab` and `Sounds`: the readers.
- `Dismantling`: the IDS table.
- `Sentences` and `VocabWalk`: the pronunciation checks.
- `Resolve` and `Bundle`: decomposition and aggregation.
- `Normalizer`: the normalizers.
- `Render`: the helpers of the library root.
- `Wrappers`, `Chars`, `Strings` and `Collections`: the standard-library behaviour the
  code relies on, such as `split`, `replace`, `trim`, `collect` into a `Result` and
  `collect_any_errors`.

Integers are unbounded. No counter in the core can overflow on realistic tables.

Where the program panics (an `unwrap`, an `expect` or an out-of-range index), the model
does one of two things:

- it returns a distinguished result (`Panicked`, `OldPanicked`, `None`);
- it states the panic-free domain as a precondition, and says so below.

## Model

| member | source | states |
|---|---|---|
| Rerrliratixka.Parse | src/rerrliratixka/mod.rs:170-242 | A first letter that is neither an onset consonant nor a vowel letter is rejected. An accepted syllable has the tone named by the final character. Its spelling is exactly the input. |
| Rerrliratixka.VowelOfExact | src/rerrliratixka/mod.rs:212-234 | The vowel table reads a letter string as vowel x exactly when the string is x's spelling, so no vowel has two spellings and no spelling two vowels |
| Rerrliratixka.Spell | src/rerrliratixka/mod.rs:172-176 | The spelling of a syllable is non-empty and its last character names the syllable's tone, as the parser reads it |
| Rerrliratixka.ParseSpell | src/rerrliratixka/mod.rs:170-242 | Every syllable's spelling lies in the parser's panic-free domain and parses back to that same syllable (the spelling round trip) |
| Rerrliratixka.ParseSyllableIff | src/read/phrase.rs:110 | The total syllable reader used by the loaders yields syllable x from string s if and only if s is x's spelling |
| Rerrliratixka.ToneRule | src/rerrliratixka/mod.rs:172-176 | Final `1` means first tone, final `2` means second tone. Any other final character means no tone, and the whole string is then the body. |
| Rerrliratixka.OnsetRule | src/rerrliratixka/mod.rs:178-195 | A leading vowel letter gives the zero onset, and the vowel starts with that letter. Any other letter outside `pbmcsxztdnlkgh` rejects the string. |
| Rerrliratixka.CodaRule | src/rerrliratixka/mod.rs:201-210 | The coda is read from the last letter of the body. It is the zero coda exactly when that letter is not one of `p t k m n`. |
| Rerrliratixka.XiziIsNotASyllable | src/rerrliratixka/mod.rs:212-234 | `xizi` lies in the parser's domain yet is rejected, because `izi` names no vowel; this is why every reader has a separate `xizi` case |
| Rerrliratixka.UndefinedInputs | src/rerrliratixka/mod.rs:171-201 | The empty string, and strings such as `p` or `k1` whose body would be empty, are outside the domain where the parser's indexing is defined |
| Rerrliratixka.ToRerrliratixka | src/rerrliratixka/mod.rs:156-168 | The output holds no digit and contains an `r` exactly when the syllable carries a tone. A toneless syllable is written as its spelling. A second-tone syllable is its toneless writing with `r` inserted right after the onset. A first-tone syllable is its onset, the first-tone spelling of its nucleus and its coda. |
| Rerrliratixka.ParseExample | src/rerrliratixka/mod.rs:122-145 | `kia1` parses as onset k, vowel ia, no coda, first tone, and is written `kiar` in rerrliratixka |
| Rerrliratixka.ReadToRerrliratixka | src/rerrliratixka/mod.rs:156-168 | The alternate spelling reads back as the syllable it was written from |
| Rerrliratixka.RerrliratixkaInjective | src/rerrliratixka/mod.rs:156-168 | Two syllables share an alternate spelling exactly when they are the same syllable |
| Phrase.ExtToRerrliratixka | src/read/phrase.rs:27-34 | The writing of a syllable or of `xizi` holds no digit. A toneless syllable is written as it is displayed. |
| Phrase.NoSpaceAppend | src/read/phrase.rs:36-42 | The unspaced rerrliratixka of a concatenation of syllable lists is the concatenation of their writings |
| Phrase.Tokens | src/read/phrase.rs:105-109 | Tokens are non-empty and hold no whitespace or ASCII punctuation. Concatenated, they are the line with those separators removed. |
| Phrase.NonEmptyPieces | src/read/phrase.rs:106-108 | Exactly the non-empty pieces are kept, and their concatenation is unchanged. A list with no empty piece is kept whole. |
| Phrase.ClassifyToken | src/read/phrase.rs:110-121 | A token is accepted exactly when it is a syllable spelling or `xizi`, and an accepted token displays back as itself. Otherwise the error reads `Failed to parse a pekzep syllable` followed by the token. |
| Phrase.Encode | src/read/phrase.rs:103-125 | A line encodes exactly when every token is accepted. The result then has one syllable per token, in order, each displaying as its token. Otherwise the messages are exactly those of the rejected tokens, one per rejected token, in line order with repeats kept. |
| Phrase.DisplayIsToken | src/read/phrase.rs:18-25 | Every syllable's display is a non-empty, separator-free token that classifies back to the same syllable |
| Phrase.EncodeJoin | src/read/phrase.rs:103-125 | Displaying syllables, joining them with any separator character and encoding the line gives the syllables back |
| Phrase.EncodeOfDisplays | src/read/phrase.rs:103-125 | Any line whose tokens are the displays of a syllable list encodes to that list |
| Phrase.EncodeUnderscore | src/read/phrase.rs:44-50 | The underscore-joined form used in duplicate messages encodes back to the same syllables |
| Phrase.SyllablesToStrUnderscore | src/read/phrase.rs:44-50 | The tokens of the underscore-joined text are exactly the syllables' displays, in order |
| Phrase.FileTypeOf | src/read/phrase.rs:150-155 | A trimmed name maps to a file type exactly when it is that type's name (`wav`, `wav_r`, `oga`) |
| Phrase.FileTypes | src/read/phrase.rs:145-157 | An empty field gives the empty set of file types. A non-empty field reads exactly when every comma-separated piece names a file type. It then gives the set of the types those pieces name, which is non-empty. |
| Phrase.EntryTypes | src/read/phrase.rs:148-156 | All comma-separated entries are read exactly when each entry names a type, and then entry i gives type i |
| Phrase.FileTypesJoin | src/read/phrase.rs:145-157 | Any non-empty list of type names joined with commas reads back as the set of those types |
| Phrase.ParseAuthor | src/read/phrase.rs:158-166 | The author is absent exactly when the field is empty. A present author displays back as the field. |
| Phrase.AuthorRoundTrip | src/read/phrase.rs:93-100 | Displaying an author and reading the field gives the author back (for `Other` names that are non-empty and not one of the two known names) |
| Phrase.ToItem | src/read/phrase.rs:139-168 | A record becomes an item exactly when its file-type field is valid (the code panics otherwise). The item keeps every text field of the record, holds the file types read from the field, and holds the author read from the author field, which displays back as that field. |
| Phrase.ActionOf | src/read/phrase.rs:139-183 | An invalid file type aborts. An unreviewed row (glyphs containing `@`) or a row with no syllables is skipped. A failed encoding aborts. Otherwise the row is added under its non-empty syllable list, with its item. |
| Phrase.PhraseRowsAborts | src/read/phrase.rs:133-176 | The loader loop fails exactly when some row aborts, and it reports the first aborting row |
| Phrase.PhraseRows | src/read/phrase.rs:133-183 | Without aborts, the table's keys are exactly its ordered phrases, and the phrases and duplicate messages together number at most the rows |
| Phrase.PhraseRowsContents | src/read/phrase.rs:177-183 | Without aborts, the table's order is the first-use order of the added phrases and its keys are exactly those phrases. The duplicate messages list every repeated phrase in file order. |
| Phrase.LoadPhrases | src/read/phrase.rs:127-191 | Loading aborts exactly when some row aborts. A loaded table's keys are exactly its ordered phrases. A duplicate failure carries at least one message. |
| Phrase.LoadPhrasesVerdict | src/read/phrase.rs:127-191 | The file loads exactly when no row aborts and no phrase repeats, and the table then lists the phrases in file order. With repeats, the error lists all of them. |
| Phrase.PhrasesNonEmpty | src/read/phrase.rs:177 | No phrase stored in the table is empty |
| Phrase.UnreviewedRowIgnored | src/read/phrase.rs:170-174 | Appending an unreviewed row with a valid file type changes nothing the loader produces |
| Vocab.SplitAtColon | src/read/vocab.rs:240-245 | Main and postfix concatenate to the input. The main holds no colon. The postfix is empty or starts with the colon. |
| Vocab.SplitAtColonUnique | src/read/vocab.rs:240-245 | Any split with those three properties is the one produced |
| Vocab.SplitIntoMainAndPostfix | src/read/vocab.rs:232-278 | An empty input or a bad first character is an error, and an empty input gives `EmptyKey`. Otherwise the two halves concatenate to the input. After an ASCII lead it is the colon split; after a glyph lead the main is non-empty, does not end alphanumerically, and the postfix is all ASCII alphanumerics. |
| Vocab.GlyphSplit | src/read/vocab.rs:248-264 | A glyph followed by an ASCII alphanumeric word splits into the glyph and the word |
| Vocab.SplitExamples | src/read/vocab.rs:124-204 | `xizi:375`, `xizi375`, `於dur` and `於` split as the unit tests expect |
| Vocab.NewKeyGloss | src/read/vocab.rs:77-80 | A parsed gloss key displays back as its input |
| Vocab.NewInternalKey | src/read/vocab.rs:289-292 | A parsed internal key displays back as its input |
| Vocab.NewInternalKeyInjective | src/read/vocab.rs:289-292 | Two parsable strings give the same key if and only if they are the same string |
| Vocab.ToInternalKey | src/read/vocab.rs:83-88 | The postfix is kept. The main is the original main with every `!` and every `#` written as ` // `, so none is left, and a main without markers is unchanged. |
| Vocab.MarkerBecomesSlashes | src/read/vocab.rs:86 | A single compound marker between two unmarked halves becomes ` // ` |
| Vocab.MarkersAsJoin | src/read/vocab.rs:86 | Replacing every `!` and then every `#` by a text is joining the pieces between markers with that text |
| Vocab.ToSplittableCompoundInfo | src/read/vocab.rs:91-99 | Any `!` gives latter half. `#` without `!` gives former half. Neither gives none. |
| Vocab.CompoundHalvesShareKey | src/read/vocab.rs:58-99 | `a#b` and `a!b` resolve to the same internal key `a // b`, while their compound information tells the former half from the latter |
| Vocab.ToPathSafeString | src/read/vocab.rs:283-287 | The result holds no colon. A key whose display contains neither ` // ` nor `:` is unchanged. |
| Vocab.PathSafeSpelledOut | src/read/vocab.rs:283-287 | For a key displayed as slash-free pieces joined by ` // `, the path-safe string joins the same pieces with `_slashslash_`, each piece with its colons written as `_colon_` |
| Vocab.PathSafePlainExample | src/read/vocab.rs:209-212 | `xizi375` is already path safe |
| Vocab.PathSafeCompoundExample | src/read/vocab.rs:214-217 | `享 // 銭` becomes `享_slashslash_銭` |
| Vocab.LoadRowsAborts | src/read/vocab.rs:316-336 | The loader aborts exactly when some non-empty key fails to parse, and then with the error of the first such key |
| Vocab.LoadRows | src/read/vocab.rs:316-336 | Without aborts, there is at most one duplicate message per record, and no message names an empty key |
| Vocab.LoadRowsKeys | src/read/vocab.rs:320-331 | When every key parses, the table's keys are exactly the parsed non-empty keys of the file |
| Vocab.SeenBefore | src/read/vocab.rs:320-332 | Inserting a key finds it present exactly when an earlier record carries the same key string |
| Vocab.LoadRowsDuplicates | src/read/vocab.rs:320-335 | The duplicate messages name exactly the non-empty keys that repeat an earlier key, in file order |
| Vocab.LoadRowsLastWins | src/read/vocab.rs:321-331 | For each key, the table holds the item of the key's last record |
| Vocab.LoadVocabVerdict | src/read/vocab.rs:311-342 | The file loads exactly when every key parses and none repeats. The table then has exactly the file's keys, each with its last item. With repeats, the error lists all of them. |
| Vocab.LoadVocab | src/read/vocab.rs:311-342 | Loading fails with a bad key exactly when some non-empty key does not parse, and the error is that of the first non-empty key that fails (`FirstBadKey`). A duplicate failure names at least one key. |
| Sounds.ConvertSound | src/read/char_pronunciation.rs:27-32 | A record converts exactly when its sound is a syllable spelling, keeping the glyphs and a syllable that spells the sound. Otherwise the error reads `Invalid sound` followed by the sound. |
| Sounds.LoadCharPronunciation | src/read/char_pronunciation.rs:42-46 | The table loads exactly when every sound parses, with one row per record in order: the same glyph and a syllable spelling the sound. Otherwise the errors are the `Invalid sound` messages of the invalid sounds, one per invalid record, in file order with repeats kept. |
| Sounds.VariantTable | src/read/char_pronunciation.rs:48-57 | The variant table's keys are exactly the glyphs of records with a non-empty variant field |
| Sounds.VariantTableLastWins | src/read/char_pronunciation.rs:48-57 | A glyph maps to the variant of its last record that has one |
| Sounds.LoadCharPronunciationSpelled | src/read/char_pronunciation.rs:26-59 | A sound table written out as records loads back to itself |
| Sounds.LoadContraction | src/read/contraction.rs:15-37 | The table loads exactly when every sound parses, with one row per record in order: the same glyphs and a syllable spelling the sound. Otherwise the errors are the `Invalid sound` messages of the invalid sounds, one per invalid record, in file order with repeats kept. |
| Sounds.LoadContractionSpelled | src/read/contraction.rs:15-37 | A contraction table written out as records loads back to itself |
| Sentences.ScanRender | src/verify.rs:34-107 | Every transcription is split without loss into well-formed segments. A complete scan renders back to the text. A scan cut short renders to the text before the unclosed `«` or the broken `x`. |
| Sentences.RenderScan | src/verify.rs:34-107 | Rendering well-formed segments and scanning the text gives the same segments back, completely scanned |
| Sentences.ScanText | src/verify.rs:34-84 | Every segment is well formed. An unclosed `«` leaves a `»`-free partial span shorter than the text. The empty text scans completely to no segments. |
| Sentences.AlignSegmentsIff | src/verify.rs:51-105 | Walking segments against syllables succeeds exactly when each syllable-bearing segment matches the next syllable (contraction, `xizi` or glyph table), and the unused syllables are returned |
| Sentences.AlignSegments | src/verify.rs:51-105 | At most the given syllables are left over, and the walk itself never fails with a `xizi` mismatch or a left-over syllable. A glyph or contraction failure names a glyph or span that its table does not pair with the expected syllable. Running out of syllables means there are more syllable-bearing segments than syllables. |
| Sentences.CheckRowIff | src/verify.rs:31-115 | A row aligns exactly when its scan is complete, it has as many syllable-bearing segments as syllables, and each matches its syllable. The check panics only on an unclosed `«`. |
| Sentences.CheckRow | src/verify.rs:31-114 | The row panics only on an unclosed `«`. A `xizi`-expected failure comes only from a broken `x`. A left-over syllable means the text scanned completely with fewer syllable-bearing segments than syllables, and the failure names the first unused syllable. |
| Sentences.CheckSentences | src/verify.rs:24-117 | All rows pass exactly when each row aligns, and otherwise the verdict is that of the first failing row |
| Sentences.Admit | src/verify.rs:129-140 | A contracted span is counted exactly when every glyph in it is a linzklar, and the error names its first non-linzklar character |
| Sentences.AllGlyphsAdmitted | src/verify.rs:124-155 | Every glyph the counter collects is a linzklar |
| Sentences.RowGlyphs | src/verify.rs:125-154 | A counted row was scanned completely and every glyph collected from it is a linzklar. An unmatched-guillemet failure comes only from an unclosed `«`, and a `xizi` failure only from a broken `x`. What a row counts, piece by piece, is stated by `RowGlyphsAppend` with `SkippedCountsNothing`, `XiziCountsNothing`, `GlyphCounted` and `ContractionGlyphsCounted`. |
| Sentences.AllGlyphs | src/verify.rs:124-157 | Collecting succeeds exactly when every row's glyphs are collected. The result is then the rows' counted glyphs concatenated in corpus order; otherwise it is the failure of the first failing row. |
| Sentences.CharCount | src/verify.rs:119-157 | Counting fails exactly when some row fails, and then with the first failing row's error. The map's keys are exactly the counted glyphs of all rows, all linzklar. Each count is the glyph's multiplicity, and the counts add up to the number of glyphs. |
| Sentences.PlainGlyphs | src/verify.rs:126-153 | A text of linzklar and skipped characters, with no `«` or `x`, counts exactly its non-skipped characters |
| Sentences.ContractionGlyphsCounted | src/verify.rs:129-140 | `«g»` counts every glyph of g |
| Sentences.ScanAppend | src/verify.rs:126-154 | A part that scans to its end may be followed by anything: the whole scans as the part's segments followed by the scan of the rest |
| Sentences.CountedGlyphsAppend | src/verify.rs:126-154 | Counting a run of segments counts its parts one after the other, the earlier failure first |
| Sentences.RowGlyphsAppend | src/verify.rs:126-154 | After a part that scans to its end, a row's counted glyphs are the part's followed by the rest's, and the part's failure is reported first |
| Sentences.XiziCountsNothing | src/verify.rs:141-148 | The letters `xizi` add nothing to the count |
| Sentences.SkippedCountsNothing | src/verify.rs:127-128 | Whitespace, ASCII punctuation and `！？「」。` add nothing to the count |
| Sentences.GlyphCounted | src/verify.rs:149-153 | Any other character is counted once if it is a linzklar, and is otherwise the rejected character |
| VocabWalk.ExpectChars | src/verify.rs:252-263 | The walk consumes the expected characters when they are there, and what remains is always a suffix of the text |
| VocabWalk.MatchXizi | src/verify.rs:159-188 | Matching fails exactly when the text is empty or starts with neither `x` nor a space. Otherwise a shorter suffix remains, even after a partial mismatch. |
| VocabWalk.MatchXiziWritten | src/verify.rs:159-188 | `xizi` and ` xizi` are consumed exactly |
| VocabWalk.NextGlyph | src/verify.rs:210-216 | Nothing is found exactly when only whitespace remains. Otherwise the result is the first non-whitespace character and the text after it. |
| VocabWalk.AsideEnd | src/verify.rs:268-274 | The aside ends at the first token from the given one that ends with `}`, or at the end of the tokens |
| VocabWalk.CheckVocabPronunciation | src/verify.rs:190-300 | All entries pass exactly when each passes. Otherwise the verdict is that of the first failing entry in iteration order. |
| VocabWalk.WalkPlain | src/verify.rs:209-251 | For syllable tokens against a plain glyph text, an entry passes exactly when each syllable is a listed pronunciation of the glyph at its position |
| VocabWalk.WalkXizi | src/verify.rs:205-207 | A `xizi` token consumes `xizi` or ` xizi` and the walk continues with the rest |
| VocabWalk.MarkupIsNotASyllable | src/verify.rs:209 | `//`, `S` and the empty token are not syllables, so the walk reaches their branches |
| VocabWalk.WalkSeparators | src/verify.rs:252-295 | `//` consumes ` // `, `S` consumes `S `, and an empty token ends the entry successfully |
| VocabWalk.WalkAside | src/verify.rs:265-293 | A `{…}` token is skipped on both sides: any spaces, the braced span in the glyphs, then the walk continues |
| VocabWalk.Walk | src/verify.rs:204-298 | No tokens pass. A missing pronunciation names a glyph, neither whitespace nor `«`, that the table does not pair with a syllable the tokens read. A missing contraction names a `»`-free span that the contraction table does not pair with a syllable the tokens read. A `xizi` failure happens only when `xizi` is among the tokens. |
| VocabWalk.WalkGlyph | src/verify.rs:209-251 | A syllable token skips whitespace and reads one glyph. The walk goes on when the table pairs the glyph with the syllable, and otherwise fails naming both. |
| VocabWalk.WalkContraction | src/verify.rs:209-240 | After any whitespace, a syllable token reads a whole `«…»` span. The walk goes on when the contraction table pairs the span with the syllable, and otherwise fails naming both. |
| VocabWalk.CheckEntry | src/verify.rs:198-298 | An empty Latin field passes. A missing pronunciation names a glyph that the table does not pair with a syllable read by the whitespace-split Latin field. A `xizi` failure happens only when that field holds the token `xizi`. |
| Resolve.ReconstructCompound | src/verify/mod.rs:228-235 | `a#b` contributes its former half `a` and `a!b` its latter half `b` |
| Resolve.ReconstructGlyphKey | src/verify/mod.rs:247-253 | An unmarked glyph key contributes exactly the main that the key parser finds |
| Resolve.ReconstructLatinKey | src/verify/mod.rs:238-246 | A Latin key contributes its word without the trailing digits |
| Resolve.Reconstruct | src/verify/mod.rs:223-255 | `∅` contributes nothing. With a `#`, the token contributes its part before the first `#`. Otherwise, with a `!`, it contributes its part after the first `!`. An unmarked token keeps a prefix of itself. After a Latin first letter it drops all its trailing digits, so what is kept is non-empty and does not end in a digit. Otherwise it drops all its trailing ASCII alphanumerics, so a non-empty result does not end in one. The contribution is never longer than the token. |
| Resolve.Rejoin | src/verify/mod.rs:220-256 | Tokens that are all `∅` rejoin to nothing, and a single token rejoins to its own contribution |
| Resolve.RejoinAppend | src/verify/mod.rs:220-256 | Rejoining two token lists one after the other is rejoining each and concatenating |
| Resolve.Expectation | src/verify/mod.rs:257-264 | No `！？。「」` is left, the length drops by their number, and a text without them is unchanged |
| Resolve.ExpectationAppend | src/verify/mod.rs:257-264 | Removing the punctuation distributes over concatenation |
| Resolve.LookupKey | src/verify/mod.rs:275 | The lookup key is the token with every `!` and every `#` written as ` // `, so it holds no marker, and an unmarked token is its own key |
| Resolve.LookupKeyAgrees | src/verify/mod.rs:275 | The old textual lookup key is the display of the internal key the newer code computes |
| Resolve.Lookup | src/verify/mod.rs:274-281 | A token resolves exactly when its lookup key is in the vocabulary, giving that key and its item |
| Resolve.LookupAll | src/verify/mod.rs:271-283 | Looking up all tokens succeeds exactly when every token's lookup key is in the vocabulary, with one key and its item per token, in order. Otherwise every missing key gets its message. |
| Resolve.ParseDecomposed | src/verify/mod.rs:213-285 | An empty decomposition gives no morphemes, and an empty token panics. A mismatch with the punctuation-free glyphs gives one message. Otherwise every missing key gets a message; with none missing, each token gives its key and item, in order. |
| Resolve.ResolveGlosses | src/verify.rs:503-520 | Resolution succeeds exactly when every gloss's internal key is in the vocabulary, giving key, item and compound information per gloss. Otherwise it reports the key of the first gloss whose key is missing, every earlier gloss having resolved. |
| Resolve.VerifyDecomposed | src/verify.rs:477-522 | No decomposition gives no morphemes. Otherwise it succeeds exactly when the rejoined glosses equal the glyphs without `！？。「」` and every key is known. The result is a single list with one item per gloss. A mismatch error carries both texts. When the texts match but a key is missing, the error names the first gloss's missing key. |
| Bundle.AggregateKeys | src/verify.rs:433-435 | The catalogue's keys are the visited keys in first-use order |
| Bundle.AggregateHolds | src/verify.rs:433-435 | Each catalogue entry holds the item seen at its key's first visit |
| Bundle.AggregateTally | src/verify.rs:437-438 | The use counts are the occurrence counts of the visited keys |
| Bundle.AggregateCounts | src/verify.rs:420-439 | The catalogue has no repeated key and the same keys as the counts. Every count is at least one, and the counts add up to the number of visits. |
| Bundle.Aggregate | src/verify.rs:420-439 | The catalogue is no longer than the visits and holds only visited pairs, and the counted keys are exactly the visited keys |
| Bundle.ResolveRows | src/verify.rs:423-448 | The rows resolve exactly when each row does, each keeping its syllables and row. Otherwise the first failing row's error is reported. |
| Bundle.Assemble | src/verify.rs:384-464 | The stages are checked in program order (sentences, vocabulary pronunciation, decompositions, glyph count), and the first failure decides. On success the bundle holds the resolved rows, the aggregated catalogue and counts, and the glyph count. |
| Bundle.NewBundleSucceeds | src/verify.rs:384-464 | The bundle is built exactly when every sentence aligns, every vocabulary entry passes, every decomposition resolves and the glyph count succeeds |
| Bundle.NewBundle | src/verify.rs:384-464 | A sentence that does not align fails the build with a sentence error. With the sentences aligned, a vocabulary entry that does not pass fails it with a vocabulary error. A built bundle has one resolved row per phrase row. |
| Bundle.EntriesAllPass | src/verify.rs:198 | Whether all entries pass does not depend on the order the vocabulary map is iterated |
| Bundle.NewBundleCatalog | src/verify.rs:420-448 | The built bundle's catalogue is in first-use order with first-visit items, and its counts tally every visit |
| Bundle.VisitsInVocab | src/verify.rs:425-439 | Every visited morpheme is a vocabulary key with its vocabulary item |
| Bundle.OldBundle | src/verify/mod.rs:175-195 | The older bundle panics exactly when some row has an empty token. It is built exactly when every row resolves, with one decomposition per row and the catalogue aggregated over all of them. |
| Bundle.OldCollect | src/verify/mod.rs:177-195 | Collecting the rows panics exactly when some row has an empty token. Otherwise it succeeds exactly when every row resolves, with the decompositions aligned to the rows, and a failure carries at least one message. |
| Bundle.OldBundleCatalog | src/verify/mod.rs:183-187 | The older catalogue is in first-use order with first-visit items |
| Collections.FirstUse | src/verify.rs:433-435 | The first-use order has no repeats, the same elements, and is no longer than the input |
| Collections.FirstUsePrefix | src/verify.rs:433-435 | The first-use order of a prefix is a prefix of the whole's first-use order |
| Collections.Tally | src/verify.rs:437-438 | Each count equals the element's multiplicity, and the counted keys are exactly the elements |
| Collections.TallyTotal | src/verify.rs:437-438 | The counts add up to the number of elements |
| Collections.CollectAnyErrors | src/read/phrase.rs:104-124 | Success exactly when every entry succeeds, with values aligned to entries. Otherwise the errors are those of the failing entries, one per failing entry, in entry order. |
| Collections.ErrorsOfAppend | src/read/phrase.rs:104-124 | The errors gathered from two runs of results one after the other are the first run's errors followed by the second's |
| Collections.ErrorsOfMembers | src/read/phrase.rs:104-124 | A gathered error list is non-empty as soon as one entry fails, and it holds exactly the errors that the failing entries carry |
| Sounds.ConversionErrorsInOrder | src/read/char_pronunciation.rs:42-44 | Gathering the errors of the per-record conversions gives the messages of the invalid sounds, in file order |
| Phrase.ClassificationErrorsInOrder | src/read/phrase.rs:104-124 | Gathering the errors of the per-token classifications gives the messages of the rejected tokens, in line order |
| Phrase.InsertTracksPhrases | src/read/phrase.rs:177-183 | Inserting a phrase into a table that matches the phrases so far gives a table that matches them followed by that phrase. This covers the first-use order, the key set and the duplicate messages. |
| Collections.CollectFirstError | src/verify.rs:448 | Success exactly when every entry succeeds, with values aligned to entries. Otherwise the first error is returned. |
| Collections.CollectErrorsAgree | src/verify.rs:448 | Both collections succeed on the same inputs with the same values, and the first gathered error is the fail-fast one |
| Strings.RemoveWhere | src/verify.rs:488 | No matching character is left. The length drops by the number of matching characters. A string without any is unchanged. |
| Strings.SplitWhere | src/read/phrase.rs:105 | There is one more piece than separators. No piece holds a separator. The pieces concatenate to the input without separators. |
| Strings.SplitWhereJoin | src/normalizer.rs:28 | Splitting a join at its separator character gives the pieces back |
| Strings.JoinSplitStr | src/normalizer.rs:34-37 | Joining the pieces of a string split at a separator, with the same separator, gives the string back |
| Strings.SplitStrNoOccurrence | src/normalizer.rs:34 | A string without the separator is a single piece |
| Strings.ReplaceStrIdentity | src/normalizer.rs:52-55 | Replacing an absent pattern, or a pattern by itself, changes nothing |
| Strings.ReplaceChar | src/normalizer.rs:27-28 | No replaced character survives unless the replacement holds it. A string without it is unchanged, and nothing new appears except replacement text. |
| Strings.ReplaceCharAppend | src/normalizer.rs:27-28 | Replacement distributes over concatenation |
| Strings.Trim | src/read/phrase.rs:150 | The result is a slice of the input with only whitespace cut off before and after it, and it neither starts nor ends with whitespace, so the trim is maximal. It is empty exactly when the input is all whitespace, and it is the input when the input has no such edges. |
| Strings.DropTrailing | src/read/vocab.rs:250-262 | The kept part followed by the trailing run is the input, and the kept part does not end with a run character |
| Strings.DropTrailingAppend | src/read/vocab.rs:250-262 | A part not ending in the run class, followed by a run, splits back into exactly those two |
| Strings.FindChar | src/verify.rs:41-48 | The first position holding the character, or the length when it is absent |
| Dismantling.ParseWith | src/read/linzklar_dismantling.rs:36-103 | A parse succeeds only with a single tree left on the stack. Any other final stack size n gives the error naming n. |
| Dismantling.Step | src/read/linzklar_dismantling.rs:39-93 | A step fails exactly when the stack holds fewer trees than the character's operator takes, or when the character is neither an operator nor a linzklar, which a not-linzklar error then names. A successful step removes as many trees as the operator takes and pushes one. |
| Dismantling.StackHeight | src/read/linzklar_dismantling.rs:37-94 | After a successful read the stack height plus the operands taken by all the characters is the length of the input |
| Dismantling.Parse | src/read/linzklar_dismantling.rs:36-103 | A parsed input is one character longer than the operands its characters take, and every leaf of the tree is a linzklar |
| Dismantling.ParseAsWritten | src/read/linzklar_dismantling.rs:36-103 | The same for the parser as written, whose trees never hold a rotation |
| Dismantling.ParseToIds | src/read/linzklar_dismantling.rs:36-103 | Writing a tree of linzklar leaves in prefix IDS order and parsing it gives the tree back |
| Dismantling.ToIdsParse | src/read/linzklar_dismantling.rs:36-103 | A parsed tree written back is the input with every operator replaced by its canonical character |
| Dismantling.ParseDistinguishes | src/read/linzklar_dismantling.rs:36-103 | Two inputs parse to the same tree only when they agree up to the choice of binary or trinary operator character |
| Dismantling.RotationLostAsWritten | src/read/linzklar_dismantling.rs:48-55 | As written, `↺X` and `💥X` both parse to an explosion, while the corrected parser gives `↺X` a rotation |
| Dismantling.StackLeavesAdmitted | src/read/linzklar_dismantling.rs:90-92 | Every leaf the parser creates is a linzklar |
| Dismantling.StackRotationFree | src/read/linzklar_dismantling.rs:48-55 | With `↺` building an explosion, no tree on the stack ever holds a rotation |
| Dismantling.OneLinzklar | src/read/linzklar_dismantling.rs:158 | The head field is accepted exactly when it is a single linzklar |
| Dismantling.Convert | src/read/linzklar_dismantling.rs:157-167 | `FALSE` gives the glyph itself as a leaf, and any other field the parsed tree. With a valid head, a record converts exactly when its field is `FALSE` or parses. |
| Dismantling.LoadDismantlingTable | src/read/linzklar_dismantling.rs:156-178 | The table loads exactly when every record converts, and entry i is then record i's conversion: its head glyph with a leaf for `FALSE` and the parsed tree otherwise. Otherwise the first failing record's error is returned. |
| Dismantling.LoadRecords | src/read/linzklar_dismantling.rs:156-178 | A table written out as records loads back to itself |
| Dismantling.LeafNotFalse | src/read/linzklar_dismantling.rs:159 | No tree is written as `FALSE`, so the sentinel cannot be mistaken for a dismantling |
| Normalizer.CapitalizeFirstChar | src/normalizer.rs:7-12 | The empty string stays empty. Otherwise the upper case of the first character is followed by the rest of the text unchanged. |
| Normalizer.CapitalizeIdempotent | src/normalizer.rs:7-12 | With a one-character idempotent upper case, only the first character changes and capitalizing twice equals capitalizing once |
| Normalizer.CapitalizeAppend | src/normalizer.rs:7-12 | Capitalizing a non-empty text followed by more text changes only the first text |
| Normalizer.CapitalizeFixed | src/normalizer.rs:7-12 | A text whose first character is its own upper case is unchanged |
| Normalizer.NormalizeChinesePunctuation | src/normalizer.rs:41-44 | No ASCII comma, question mark or exclamation mark is left |
| Normalizer.PunctuationPointwise | src/normalizer.rs:41-44 | The length is kept, and each character is mapped to its full-width form independently |
| Normalizer.PunctuationIdempotent | src/normalizer.rs:41-44 | Normalizing twice equals normalizing once |
| Normalizer.NormalizeABDialogue | src/normalizer.rs:47-60 | A non-dialogue is unchanged. A dialogue loses its opening `A` and comes out wrapped in corner brackets, its body being the single pass that turns each speaker letter, with one space before it if there is one, into a turn break. |
| Normalizer.DialogueBodyTurns | src/normalizer.rs:51-55 | The four replacements made one after another equal that single left-to-right pass |
| Normalizer.DialogueKeepsWords | src/normalizer.rs:47-60 | Apart from speaker letters, spaces and brackets, a dialogue's text after the opening `A` survives in order. No `A` or `B` is left. |
| Normalizer.DialogueBodyKeeps | src/normalizer.rs:52-55 | The four replacements keep every non-mark character in order and leave no `B` |
| Normalizer.TrsAndTdsRows | src/normalizer.rs:23-30 | The row conversion is the concatenation of one table row per line, each line's tabs becoming cell breaks |
| Normalizer.TrsAndTds | src/normalizer.rs:23-30 | The result opens and closes a table row, and a single line without tabs becomes exactly one row holding it |
| Normalizer.TabsReplaced | src/normalizer.rs:27-28 | Replacing tabs keeps the lines joined by line breaks, and no line break is inside a line |
| Normalizer.SingleTable | src/normalizer.rs:15-20 | One table holding one row per line |
| Normalizer.MultipleTablesSingle | src/normalizer.rs:33-38 | A text without a blank line becomes a single table |
| Normalizer.MultipleTables | src/normalizer.rs:33-38 | The result opens and closes like a table, whatever the text, even an empty one |
| Normalizer.MultipleTablesBlocks | src/normalizer.rs:33-38 | Blocks joined with blank lines, none holding a blank line or ending in a line break, become their tables in the same order, joined by `<br>` |
| Render.FindStr | src/lib.rs:46 | The position of the first occurrence of the pattern, or the length when there is none |
| Render.SplitAtSlashSlash | src/lib.rs:45-48 | The halves surround the first `//`: they rejoin to the input, and the first half contains no `//` |
| Render.SplitAtSlashSlashJoin | src/lib.rs:45-48 | Joining a `//`-free head and any tail with `//` and splitting gives them back |
| Render.SplitAtSlashSlashExample | src/lib.rs:33-38 | `行 // 道` splits into `行 ` and ` 道` |
| Render.RemoveGuillemets | src/lib.rs:317-319 | No guillemet is left, and the length drops by the number of guillemets |
| Render.RemoveGuillemetsAppend | src/lib.rs:317-319 | Removal distributes over concatenation |
| Render.RemoveGuillemetsIdempotent | src/lib.rs:317-319 | Removing twice equals removing once |
| Render.RemoveGuillemetsQuoted | src/lib.rs:317-319 | `«w»` becomes `w` |
| Render.MergeUnsplit | src/lib.rs:286-314 | The loop computes the recursive reference definition of the merge |
| Render.Merged | src/lib.rs:286-314 | The merge fails (the source indexes past the end) only when the last item is a former half |
| Render.MergedPanics | src/lib.rs:289-293 | The merge panics exactly when the last item is a former half |
| Render.MergedIdentity | src/lib.rs:286-314 | Without former halves nothing is merged |
| Render.MergedNoPairLeft | src/lib.rs:286-314 | After merging, no former half is directly followed by a latter half. The result is shorter than the input by exactly the number of pairs merged, and at least half as long. Its first item is the input's first item, kept or merged. |

## Left out

- File reading, CSV/TSV deserialisation and line splitting: the loaders take
  already-split records as parameters.
- Logging (`info!`, `warn!`, `eprintln!`): the model produces no output. Error
  messages are modelled as texts or error constructors only where a contract needs
  them.
- HTML generation, including the `to_tab_separated…` renderers of
  `src/lib.rs:52-111`: the merge returns the merged items rather than their rendered
  lines.
- The style warnings of `src/verify.rs:302-380` (non-recommended glyphs, `check_a`,
  `check_kan1`, `check_co1`, spaces before punctuation) and the pinyin check: they only
  log.
- The unused-key warning of `src/verify.rs:450-454`: it only logs.
- Loader chaining in `DataBundle::new`: the parsed tables are parameters of
  `Bundle.NewBundle`, and loader failures are proved separately for each loader.
- Rerrliratixka.ParseSyllable: the external `pekzep_syllable` crate is not part of this
  model. It is modelled as the in-repository parser, taken to answer `None` where that
  parser would panic (for example on `""`).
- Rerrliratixka.Parse: its precondition `ParseDefined` excludes exactly the inputs on
  which the source indexes out of range and panics.
- Render.SplitAtSlashSlash: it requires a `//`, because the source unwraps and panics
  without one.
- Chars.IsNumeric: it covers ASCII digits only. Unicode `is_numeric` also accepts other
  scripts' digits, which no Latin key contains.
- Capitalization takes `char::to_uppercase` as a parameter `toUpper`, because Unicode
  case tables are not modelled.
- Linzklar recognition (`Linzklar::from_char`) is a parameter `isLinzklar`: the glyph
  list is not part of this model.
- The iteration order of the vocabulary `HashMap` in `check_vocab_pronunciation` is a
  parameter `order`. Bundle.EntriesAllPass shows that the overall verdict does not
  depend on it.
- `to_plaintext` of the decomposition type is not part of this model. The rejoining
  follows the reconstruction of `src/verify/mod.rs:220-256`.
- IDS binary and trinary operators are collapsed to one `Unit` operator each, as the
  source does. The model does not distinguish `⿰` from `⿱`.
- Dismantling.Convert: it uses the corrected parser (see Findings).
- Resolve.WellFormedDecomposition: the parser of the `decomposed` column is not part of
  this model (`src/read/phrase.rs:60` keeps the column as text). `Resolve.VerifyDecomposed`
  and `Bundle.NewBundle` require every gloss to be built by `NewKeyGloss`, which the
  private fields of `InternalKeyGloss` (`src/read/vocab.rs:59-62`) guarantee.
- Dismantling.OneLinzklar: `Linzklar::from_str` is not part of this model. It is taken
  to accept exactly the strings of one character that `Linzklar::from_char` (the
  parameter `isLinzklar`) accepts.
- The variant table is a map in which the last record wins, as `HashMap` collection
  does. Its use in the style warnings is left out.
- The duplicate-insert behaviour of `LinkedHashMap` (moving a re-inserted key to the
  back) is not observable here, because a duplicate makes the phrase loader fail.
- `src/read/mod.rs`, `src/main.rs`, `src/generate/*`, `src/recurse.rs` and
  `docs/char_count.js` are not part of this model.

## Findings

The IDS parser as written gives the rotation operator `↺` the same node as the explosion
operator `💥`, which loses the distinction the operator type provides for. This is a
wrong value, not a panic. The model keeps the parser as written (`Dismantling.ParseAsWritten`)
and uses the corrected parser (`Dismantling.Parse`) everywhere else.

| source | as written | input that shows it | evidently intended | confidence | as-written member | corrected member |
|---|---|---|---|---|---|---|
| src/read/linzklar_dismantling.rs:48-55 | The `↺` (rotation) branch pushes `CustomUnaryOperator::Explosion`, a copy of the `💥` branch above it | `↺X` for any linzklar X parses to the same tree as `💥X` | `↺` builds a rotation node, so the two operators give different trees | high, not executed | Dismantling.RotationLostAsWritten | Dismantling.ParseToIds |
