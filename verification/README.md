# xd-tts in Dafny

xd-tts is a text-to-speech system written in Rust. The system works in stages:

1. A text normaliser turns a transcript (plain text or SSML) into a list of
   chunks: text, punctuation, breaks and ready-made pronunciations.
2. Each chunk is rewritten into *units*:
   - ARPABET phones, looked up word by word in the CMU pronouncing
     dictionary;
   - or single characters, spaces and punctuation marks.
3. The units are looked up in the tacotron2 vocabulary.
4. The indices are cut into chunks of at most 100, at punctuation and
   spaces where possible.
5. Each chunk is padded and run through an autoregressive decoder. The
   decoder emits mel frames until its gate fires.

A training side reuses the same pieces:
- corpus analytics: phone, diphone, out-of-vocabulary and sentence-length
  counts;
- rewriting of the LJ Speech transcripts into `{P H O N E S}` form;
- validation of the dataset.

A Python helper maps IPA symbols to ARPABET tokens.

This project models that core as pure Dafny functions over algebraic
datatypes and proves what each stage promises.

| module (file) | what it models |
|---|---|
| `Phonemes` (`phonemes.dfy`) | `Unit`, `Punctuation`, `PhoneticUnit`, `ArpaPhone`, `AuxiliarySymbol`; their printers and parsers; the IPA to ARPABET mapping; `split_score`; `best_match_for_unit` |
| `ChunkSplitter` (`splits.dfy`) | `find_splits`: candidate scoring, the refinement passes and the greedy merge |
| `TextNormaliser` (`text_normaliser.dfy`) | `NormalisedText` and its chunks; `words_to_pronunciation`, `convert_to_units`, `to_string`, `append`, `drain_all`; `valid_char`; SSML break durations |
| `CmuDict` (`cmu_dict.dfy`) | the pronouncing dictionary: reading lines, `merge`, `len`/`is_empty`, lookup, `into_simple_dictionary` |
| `Tacotron2` (`tacotron2.dfy`) | the id list; the decoder state and mask; the decode loop over an abstract network; chunk padding; `infer`'s chunking and concatenation |
| `XdTts` (`xd_tts.dfy`) | `generate_audio`: batches between breaks, silences, and the empty-batch guard |
| `Analytics` (`analytics.dfy`) | `AnalyticsGenerator`'s counters and report |
| `LjSpeech` (`lj_speech.dfy`) | field selection in `load`, transcript formatting in `convert_to_pronunciation`, `validate` |
| `SpeedySpeech` (`speedyspeech.dfy`) | the speedyspeech id list and how units resolve against it |
| `DataCleaning` (`data_cleaning.dfy`) | the Python `convert` helper and its word join |
| `Strings`, `Seqs`, `Outcomes` | trimming, splitting, byte lengths, sorting, `Option`/`Result` and panic values |

Panics are modelled as values:
- a Rust `panic!`, `unwrap` on `None` or failed `assert!` becomes
  `Err(Panic(..))`, or `Panicked` for the parsers;
- a returned `anyhow` error becomes `Err(Failure(..))`.

The ONNX networks, the text normaliser's regex/number/SSML front end and the
dictionary's word normaliser are function-valued parameters.

## Model

| member | source | states |
|---|---|---|
| `Phonemes.PauseClassification` | src/phonemes.rs:67-81 | A sentence end is exactly a full stop, question mark or exclamation mark. A pause is exactly those three plus the comma and the semicolon. |
| `Phonemes.SplitScore` | src/phonemes.rs:660-668 | The score is at most 3. It is 3 exactly for padding and sentence ends, 2 exactly for comma and semicolon, and 1 exactly for a space. It is 0 for phones, characters, `<UNK>`, the dash, brackets, colon and apostrophe. |
| `Phonemes.PunctuationFromStr` | src/phonemes.rs:486-507 | A parsed punctuation mark prints back as the trimmed input. |
| `Phonemes.PunctuationSymbolRoundTrip` | src/phonemes.rs:215-230 | Each mark prints as one visible, non-capital character, which reads back as that mark. |
| `Phonemes.PunctuationRoundTrip` | src/phonemes.rs:215-230 | Every punctuation mark, padded with any whitespace, parses back to itself. |
| `Phonemes.ArpaPhoneRoundTrip` | src/phonemes.rs:547-597 | Printing then parsing gives back every one of the ARPABET phones. |
| `Phonemes.ArpaPhoneParseSound` | src/phonemes.rs:547-597 | Whatever the phone parser accepts prints back to exactly the text it read. The parser accepts nothing but the printer's spellings. |
| `Phonemes.PhoneticUnitChars` | src/phonemes.rs:243-252 | A printed phonetic unit is non-empty ASCII without whitespace and starts with a capital letter. |
| `Phonemes.AuxShape` | src/phonemes.rs:427-445 | An auxiliary symbol prints as one or two characters between '!' and ':'. |
| `Phonemes.PhoneShape` | src/phonemes.rs:344-386 | A phone is spelled with one or two capital letters. |
| `Phonemes.AuxRoundTrip` | src/phonemes.rs:427-445 | Printing then parsing gives back every auxiliary symbol. |
| `Phonemes.AuxParseSound` | src/phonemes.rs:599-621 | A parsed auxiliary symbol prints back to its input. The only exceptions are the aliases "." and "?". |
| `Phonemes.JunctureAliases` | src/phonemes.rs:615-616 | "." and "?" parse as the falling and rising juncture symbols, though nothing prints them. |
| `Phonemes.PhoneticUnitFromStr` | src/phonemes.rs:509-545 | The corrected phone-and-marker parser never panics. Wherever the parser as written gives a result, the two agree. |
| `Phonemes.PhoneticUnitParseSound` | src/phonemes.rs:509-545 | A phonetic unit the parser accepts is a phone followed by an optional marker, read from exactly the input text. |
| `Phonemes.AsciiPhoneParseNeverPanics` | src/phonemes.rs:509-545 | On ASCII input the parser as written never panics. |
| `Phonemes.PhoneticUnitRoundTrip` | src/phonemes.rs:243-252 | Every phonetic unit, printed with its marker, parses back to itself with both parsers. |
| `Phonemes.PhoneticUnitRejectsLength` | src/phonemes.rs:513-516 | The empty string and strings of more than four bytes are rejected, not parsed. |
| `Phonemes.UnitFromStr` | src/phonemes.rs:447-484 | Parsing a unit never panics. A space is parsed exactly from non-empty blank input. A parsed character, mark, `<PAD>` or `<UNK>` is the trimmed input. |
| `Phonemes.UnitRoundTrip` | src/phonemes.rs:202-213 | Every unit other than a `Character` survives printing and parsing. |
| `Phonemes.UnitRoundTripPunct` | src/phonemes.rs:447-484 | Every mark's symbol parses as a unit to that mark. |
| `Phonemes.UnitRoundTripPhone` | src/phonemes.rs:447-484 | Every printed phonetic unit parses as a unit to that phone, not to a character. |
| `Phonemes.UnitRoundTripMarkers` | src/phonemes.rs:456-459 | `<UNK>` and `<PAD>` read back as the unknown and padding units. |
| `Phonemes.PhoneBeatsCharacter` | src/phonemes.rs:462-478 | "B", a one-character phone, parses as the phone and not as a character. This holds for both unit parsers. |
| `Phonemes.CharacterRoundTrip` | src/phonemes.rs:470-478 | Any other visible character that is neither a mark nor a phone comes back as a `Character`. |
| `Phonemes.SingleCharPhoneParse` | src/phonemes.rs:529-533 | The phone parser as written panics on every single non-ASCII character. It rejects single ASCII characters that are no phone. |
| `Phonemes.NonAsciiCharacterPanics` | src/phonemes.rs:470-478 | `Unit::from_str` as written panics on any single visible non-ASCII character. |
| `Phonemes.NonAsciiCharacterParsed` | src/phonemes.rs:470-478 | The corrected unit parser reads any visible non-ASCII character as a `Character`. |
| `Phonemes.AcuteEPanics` | src/phonemes.rs:531 | On "é" the parser as written panics; the corrected one gives `Character('é')`. |
| `Phonemes.UnitParsersAgreeOnAscii` | src/phonemes.rs:447-545 | On ASCII input the corrected unit parser and the parser as written agree exactly. |
| `Phonemes.IpaToUnitCovers` | src/phonemes.rs:87-136 | The IPA table covers every ARPABET phone: each is the unit of some IPA symbol, carrying whatever stress the caller passes. |
| `Phonemes.GetUnitCases` | src/phonemes.rs:143-155 | A blank grapheme gives a space. An unmapped one gives `<UNK>`. A mapped one gives its phone with the pending stress. |
| `Phonemes.IpaFoldConcat` | src/phonemes.rs:161-198 | Scanning two runs of graphemes in turn is scanning their concatenation, so the loop can be reasoned about piecewise. |
| `Phonemes.IpaOutputBound` | src/phonemes.rs:142-200 | The scan never yields more units than it read graphemes. |
| `Phonemes.TrailingDigraphOpenerDropped` | src/phonemes.rs:161-199 | A final `t`, `a`, `d` or `o` that could open a two-grapheme symbol is silently lost, since nothing is flushed after the loop. |
| `Phonemes.IpaPlainGraphemes` | src/phonemes.rs:161-198 | Without stress marks or digraph openers, the scan maps each grapheme to one unit, in order. |
| `Phonemes.StepMarked` | src/phonemes.rs:167-168 | A primary stress mark met with nothing held becomes the pending stress, and nothing is output. |
| `Phonemes.StepHeld` | src/phonemes.rs:171-172 | With nothing held, a `t`, `a`, `d` or `o` is held back, and nothing is output. |
| `Phonemes.StepMapped` | src/phonemes.rs:173-176 | With nothing held, any other grapheme is mapped on its own with the pending stress. The stress is then cleared. |
| `Phonemes.StepJoined` | src/phonemes.rs:177-185 | A held grapheme that forms a symbol with the next one is emitted as one phone with the pending stress. Buffer and stress are then cleared. |
| `Phonemes.StepSplit` | src/phonemes.rs:186-195 | A held grapheme that forms no symbol with a following digraph opener is emitted alone. The opener is then held in its turn, and the pending stress is kept for it. |
| `Phonemes.IpaRemappingDigraphs` | src/phonemes.rs:757-768 | "æɝtʃtdtdʒk" gives AE ER CH T D T JH K, as the source's test expects. |
| `Phonemes.IpaRemappingStress` | src/phonemes.rs:769-779 | "ˈoʊnfˈɔɹθ" gives OW1 N F AO1 R TH, as the source's test expects. |
| `Phonemes.BestMatchIsReference` | src/phonemes.rs:624-657 | The lookup loop computes an independent first-match definition, for every unit and every list. |
| `Phonemes.BestMatchForPhone` | src/phonemes.rs:624-657 | A phone query fails exactly when no entry has its base phone; any result is in range. An unmarked query gets the first entry with that base phone. A marked query gets the first exact entry when there is one. |
| `ChunkSplitter.Above` | src/phonemes.rs:683-689 | Every candidate listed lies in the window and scores above the threshold. |
| `ChunkSplitter.AboveComplete` | src/phonemes.rs:683-689 | No position of the window that scores above the threshold is missed. |
| `ChunkSplitter.AboveIncreasing` | src/phonemes.rs:683-689 | Candidates are listed in strictly increasing order. |
| `ChunkSplitter.AboveIs` | src/phonemes.rs:683-689 | The candidate list is exactly the sorted list of qualifying positions. |
| `ChunkSplitter.Pass` | src/phonemes.rs:696-716 | A refinement pass only adds positions that score above its threshold. |
| `ChunkSplitter.PassReportsLongGap` | src/phonemes.rs:696-716 | A pass reports a long gap exactly when some gap between kept splits exceeds the maximum. |
| `ChunkSplitter.PassCollects` | src/phonemes.rs:700-712 | Within every too-long gap, the pass adds each qualifying position from `index+2` on. It never adds `index+1`. |
| `ChunkSplitter.PassShortGap` | src/phonemes.rs:697-699 | A gap within the maximum adds nothing. |
| `ChunkSplitter.PassLongGap` | src/phonemes.rs:700-712 | A too-long gap adds its qualifying positions and sets the long-gap flag. |
| `ChunkSplitter.RefineKeepsSplitPoints` | src/phonemes.rs:694-721 | Refinement keeps the list sorted, starting at 0, and made of scoring positions. It only ever adds entries. |
| `ChunkSplitter.RefineSaturates` | src/phonemes.rs:694-721 | After the threshold-0 pass no long gap holds a position that could still be added. |
| `ChunkSplitter.NoLongGapSaturated` | src/phonemes.rs:717-719 | A pass that finds no long gap leaves the list saturated, so stopping early is safe. |
| `ChunkSplitter.Dedup` | src/phonemes.rs:746 | `dedup` keeps exactly the same elements and the first one. It makes a non-decreasing list strictly increasing. |
| `ChunkSplitter.DedupStrict` | src/phonemes.rs:746 | `dedup` leaves a strictly increasing list unchanged. |
| `ChunkSplitter.MergeIsGreedy` | src/phonemes.rs:724-748 | The merge loop equals an independent greedy chunking that keeps the last candidate fitting in each chunk. |
| `ChunkSplitter.GreedyFits` | src/phonemes.rs:724-748 | If all candidate gaps fit, the merged splits rise strictly from 0 and every chunk, the last included, fits. |
| `ChunkSplitter.GreedySplitsSorted` | src/phonemes.rs:724-748 | The merged list is sorted and holds only 0 and refined candidates. |
| `ChunkSplitter.FindSplitsAtSplitPoints` | src/phonemes.rs:678-750 | `find_splits` returns a strictly increasing list. Each element is 0 or a position scoring above 0. |
| `ChunkSplitter.FindSplitsShort` | src/phonemes.rs:728-749 | Input no longer than the maximum, empty input included, is not split. |
| `ChunkSplitter.FindSplitsFit` | src/phonemes.rs:678-750 | When split points are dense enough, every chunk between consecutive splits, 0 and the length fits the maximum. |
| `ChunkSplitter.RefinedSplitPoints` | src/phonemes.rs:679-721 | The refined candidate list starts at 0, is sorted and holds only scoring positions. |
| `ChunkSplitter.IncreasingUnique` | src/phonemes.rs:746 | Two strictly increasing lists with the same elements are equal. |
| `ChunkSplitter.SplitUnitsFixture` | src/phonemes.rs:781-808 | Any 33 units scored like the test's text, cut at 10, split at exactly 7, 16 and 25. |
| `TextNormaliser.Append` | src/text_normaliser.rs:225-227 | `append` puts the other text's chunks after this one's, both in order. |
| `TextNormaliser.DrainAll` | src/text_normaliser.rs:193-195 | Draining yields every chunk in order and leaves the text empty. |
| `TextNormaliser.DrainRoundTrip` | src/text_normaliser.rs:193-227 | Appending the drained chunks to the emptied text restores it. The empty text is a unit of `append`. |
| `TextNormaliser.WordsUnits` | src/text_normaliser.rs:141-153 | A run of words panics exactly when some word is known with an empty pronunciation list. |
| `TextNormaliser.WordsUnitsDecode` | src/text_normaliser.rs:143-151 | Read back by spaces, the units are the first pronunciation of every known word, in order. Unknown words leave nothing. |
| `TextNormaliser.WordsChunks` | src/text_normaliser.rs:134-159 | Chunks are rewritten one for one. The rewrite fails exactly when one chunk's does. |
| `TextNormaliser.WordsToPronunciation` | src/text_normaliser.rs:134-159 | No text chunk remains and every other chunk stays in place. Each text chunk becomes its words' units. |
| `TextNormaliser.WordsChunkFails` | src/text_normaliser.rs:141-153 | One chunk's rewrite fails exactly when it is text holding a known word with no pronunciation. |
| `TextNormaliser.WordsToPronunciationFails` | src/text_normaliser.rs:143-145 | The rewrite panics exactly when a word of a text chunk has an empty pronunciation list. |
| `TextNormaliser.WordsToPronunciationIdempotent` | src/text_normaliser.rs:134-159 | Running the rewrite a second time changes nothing. |
| `TextNormaliser.WordsChunksAppend` | src/text_normaliser.rs:134-159 | The rewrite distributes over concatenation of chunk lists, the first failure winning. |
| `TextNormaliser.SpellOut` | src/text_normaliser.rs:171-183 | A text chunk becomes one unit per character, after ASCII lower-casing. |
| `TextNormaliser.CharUnitPrints` | src/text_normaliser.rs:174-181 | Whitespace becomes a space and punctuation becomes its mark. Anything else becomes a character that prints as its lower-case self. |
| `TextNormaliser.SpellOutRoundTrip` | src/text_normaliser.rs:171-183 | Rendering the spelled-out units gives back the lower-cased text. |
| `TextNormaliser.ConvertToUnits` | src/text_normaliser.rs:164-190 | No text or punctuation chunk remains. Breaks and pronunciations are unchanged. A mark becomes a one-unit pronunciation. Text becomes one unit per character. |
| `TextNormaliser.ConvertedText` | src/text_normaliser.rs:174-181 | Each converted character is a space exactly for whitespace and a mark exactly for punctuation. Otherwise it prints as its lower-case self. |
| `TextNormaliser.ConvertToUnitsIdempotent` | src/text_normaliser.rs:164-190 | Converting twice changes nothing more. |
| `TextNormaliser.ConvertToUnitsAppend` | src/text_normaliser.rs:164-227 | Conversion distributes over `append`. |
| `TextNormaliser.RenderFrom` | src/text_normaliser.rs:198-216 | Rendering fails exactly when a pronunciation chunk is present. Otherwise it only extends the output so far. |
| `TextNormaliser.ToStringUnchecked` | src/text_normaliser.rs:220-222 | Succeeds exactly when no pronunciation chunk is present, and then agrees with `to_string`. |
| `TextNormaliser.RenderLength` | src/text_normaliser.rs:198-216 | The output holds every text and mark, plus at most one separating space per text chunk. |
| `TextNormaliser.RenderIgnoresBreaks` | src/text_normaliser.rs:212 | Removing the breaks does not change the rendered text. |
| `TextNormaliser.RenderAppend` | src/text_normaliser.rs:198-216 | Rendering concatenated chunk lists continues from where the first list stopped. |
| `TextNormaliser.SeparatedAfterVisible` | src/text_normaliser.rs:203-205 | Before text, output ending in a visible character gets exactly one space. |
| `TextNormaliser.RenderText` | src/text_normaliser.rs:202-207 | A text chunk appends itself after the separating space rule. |
| `TextNormaliser.RenderPunct` | src/text_normaliser.rs:208 | A punctuation chunk appends its symbol. |
| `TextNormaliser.RenderTextThenPunct` | src/text_normaliser.rs:202-208 | A text and a mark add the separating space rule's output, the text and the mark's symbol. |
| `TextNormaliser.RenderTwoMarked` | src/text_normaliser.rs:198-216 | Two marked texts render as the first text, its mark, a space, the second text and its mark. |
| `TextNormaliser.QuestionFixture` | src/text_normaliser.rs:571-585 | The chunks the punctuation test expects, "IS THIS MY FIRST TALK", "?", " YOU TELL ME" and "!", render as "IS THIS MY FIRST TALK?  YOU TELL ME!", with two spaces after the question mark. |
| `TextNormaliser.CharactersFixture` | src/text_normaliser.rs:629-637 | The chunks "ONE ZERO" and "." render as "ONE ZERO.". |
| `TextNormaliser.ValidCharClassification` | src/text_normaliser.rs:541-543 | A character is invalid exactly when it is ASCII punctuation, '£' or '¬'. |
| `TextNormaliser.RejectedRange` | src/text_normaliser.rs:541-543 | Every character inside a run of consecutive rejected characters is rejected. |
| `TextNormaliser.PunctuationIsInvalid` | src/text_normaliser.rs:541-543 | Every punctuation mark's symbol is an invalid character. |
| `TextNormaliser.BreakChunk` | src/text_normaliser.rs:369-384 | A break gives no chunk exactly for strength `none` without a time. An explicit time wins. |
| `TextNormaliser.BreakDurations` | src/text_normaliser.rs:371-381 | Pauses grow strictly with strength, and a break with neither attribute lasts as long as a medium one. |
| `TextNormaliser.SplitUnitsShaped` | src/phonemes.rs:781-808 | Any 33 characters shaped like the test text spell out into units split at 7, 16 and 25. Units 7 and 16 are full stops and unit 25 is a space. |
| `TextNormaliser.SplitUnitsTest` | src/phonemes.rs:781-808 | "a b c d. e f g h. i j k l m n o p" cut at 10 splits on its two full stops and on a space 9 units after the second. |
| `CmuDict.IsEmptyIffNoWords` | src/cmu_dict.rs:48-55 | A dictionary is empty exactly when it knows no word. |
| `CmuDict.GetAfterRead` | src/cmu_dict.rs:60-109 | Looking a word up in a dictionary read from a file finds it exactly when some line of the file gives it an entry. The list it returns is every such entry, in file order. |
| `CmuDict.ParsePhones` | src/cmu_dict.rs:77-92 | The phones of a line parse one for one, or fail exactly when some token does not parse. |
| `CmuDict.ParseLine` | src/cmu_dict.rs:60-98 | Comment lines and lines without the two-space separator give nothing. An entry's word is the normalised first field. |
| `CmuDict.ParseLineCases` | src/cmu_dict.rs:66-92 | An entry's pronunciation is the parse of its phone tokens. A non-comment line with a separator is dropped exactly when some token fails. |
| `CmuDict.PrintedPhonesParse` | src/cmu_dict.rs:77-92 | The printed phones of any pronunciation parse back to it. |
| `CmuDict.ReadLineFor` | src/cmu_dict.rs:93-98 | Reading one line appends to a word's list exactly what the line gives for that word. A word is present afterwards exactly when it was, or the line gives it an entry. |
| `CmuDict.ParseLineRoundTrip` | src/cmu_dict.rs:60-98 | A printed entry line reads back as the normalised word and the same pronunciation. |
| `CmuDict.PhonesRoundTrip` | src/cmu_dict.rs:77-92 | The printed phone list of any pronunciation reads back as that pronunciation. |
| `CmuDict.ParsePhonesAsWritten` | src/cmu_dict.rs:77-92 | The read as written parses exactly when the corrected read does, with the same result. |
| `CmuDict.ParseLineAsWritten` | src/cmu_dict.rs:60-98 | Where the line parser as written does not panic, it agrees with the corrected one. |
| `CmuDict.ParsePhonesPanics` | src/cmu_dict.rs:77-92 | The read as written panics exactly when a phone token panics the phone parser before any earlier token fails. |
| `CmuDict.ReadLinesFor` | src/cmu_dict.rs:60-101 | Reading lines appends to each word's list exactly that word's entries, in file order. |
| `CmuDict.ReadLinesAsWrittenAgrees` | src/cmu_dict.rs:60-101 | The read as written fails exactly when some line panics. Otherwise it builds the corrected read's dictionary. |
| `CmuDict.FromLinesAsWrittenAgrees` | src/cmu_dict.rs:60-101 | `from_reader` as written errs exactly on files with a panicking line. Otherwise it equals the corrected read. |
| `CmuDict.NonAsciiPhoneLine` | src/cmu_dict.rs:77-92 | An entry whose phone is one non-ASCII character panics as written and is dropped by the corrected read. |
| `CmuDict.NonAsciiPhoneAbortsRead` | src/cmu_dict.rs:60-101 | One such line aborts the whole read as written. The corrected read gives an empty dictionary. |
| `CmuDict.FromLinesReference` | src/cmu_dict.rs:60-101 | A word is present exactly when some line gives it an entry. Its list is all of its entries in file order. |
| `CmuDict.FromLinesNoEmptyLists` | src/cmu_dict.rs:93-98 | A dictionary read from lines never holds an empty pronunciation list. |
| `CmuDict.DroppedLineIgnored` | src/cmu_dict.rs:66-92 | A line that gives no entry can be deleted without changing any word's list. |
| `CmuDict.CommentIgnored` | src/cmu_dict.rs:66 | Comment lines can be deleted without changing any word's list. |
| `CmuDict.ParsedForAppend` | src/cmu_dict.rs:60-101 | The entries of concatenated files are the first file's followed by the second's. |
| `CmuDict.MergeList` | src/cmu_dict.rs:38-43 | The existing list is kept as a prefix. The result holds exactly the pronunciations of either list. |
| `CmuDict.MergeListNoDuplicates` | src/cmu_dict.rs:38-43 | Merging never lists a pronunciation twice unless it already was. |
| `CmuDict.MergeListKnown` | src/cmu_dict.rs:38-43 | Merging only pronunciations already listed changes nothing. |
| `CmuDict.Merge` | src/cmu_dict.rs:36-45 | The merged key set is the union of both key sets. |
| `CmuDict.MergeEntries` | src/cmu_dict.rs:36-45 | Each merged list starts with this dictionary's list and holds exactly the pronunciations of both. |
| `CmuDict.MergeSelf` | src/cmu_dict.rs:36-45 | Merging a dictionary with a copy of itself changes nothing. |
| `CmuDict.MergeNoEmptyLists` | src/cmu_dict.rs:36-45 | Merging keeps every pronunciation list non-empty. |
| `CmuDict.LookupNeverPanics` | src/text_normaliser.rs:143-145 | With a dictionary without empty lists, `words_to_pronunciation`'s assertion never fails. |
| `CmuDict.MergeFixture` | src/cmu_dict.rs:137-160 | The test's merge gives three words; RUSTNATION has both pronunciations and the others one each. |
| `CmuDict.TwoWordLines` | src/cmu_dict.rs:137-148 | Two entry lines for two words give one entry each. |
| `CmuDict.RepeatedWordLines` | src/cmu_dict.rs:141-152 | Two lines for the same word give it two pronunciations in file order. |
| `CmuDict.FirstTestFile` | src/cmu_dict.rs:137-148 | The test's first file reads as RUSTNATION and RUST with one pronunciation each. |
| `CmuDict.SecondTestFile` | src/cmu_dict.rs:141-152 | The test's second file reads as RUSTNATION with two pronunciations in file order and UST with one. |
| `CmuDict.DictionaryTest` | src/cmu_dict.rs:137-160 | The whole merge test: lengths 2 and 2 before, 3 after, with RUSTNATION's two pronunciations in order. |
| `CmuDict.IntoSimple` | src/cmu_dict.rs:118-124 | Keeps exactly the words with a non-empty list, mapped to their first pronunciation. |
| `CmuDict.SimpleFromLines` | src/cmu_dict.rs:118-124 | After reading lines, the simple dictionary maps each word to its first entry in the file. |
| `Tacotron2.Variants` | src/tacotron2/mod.rs:92-99 | Each phone's run of spellings starts with the unmarked phone and names only that phone. |
| `Tacotron2.ParseSpellings` | src/tacotron2/mod.rs:120 | Every phone spelling of the list parses back to its phone. |
| `Tacotron2.GenerateIdListBuilds` | src/tacotron2/mod.rs:91-123 | Building the id list never panics, and it gives the list described here. |
| `Tacotron2.PrefixLayout` | src/tacotron2/mod.rs:101-119 | 64 entries: padding at 0, the ten marks in source order at 1-10, space at 11, then 'A'-'Z' and 'a'-'z'. None is a phone or `<UNK>`. |
| `Tacotron2.PrefixShape` | src/tacotron2/mod.rs:101-119 | The non-phone prefix is padding, the marks in order, space, then the characters. None of it is a phone or `<UNK>`. |
| `Tacotron2.EntriesCover` | src/tacotron2/mod.rs:92-99 | Every listed phone has an entry in the phone part. |
| `Tacotron2.IdListBuilt` | src/tacotron2/mod.rs:91-123 | The id list is the prefix followed by every phone's spellings. |
| `Tacotron2.UnkAbsent` | src/tacotron2/mod.rs:101-123 | Against any list with that prefix, `<UNK>` finds no entry. |
| `Tacotron2.FirstPhoneEntryBare` | src/tacotron2/mod.rs:92-99 | The first entry for a phone is its unmarked spelling. |
| `Tacotron2.UnkHasNoId` | src/tacotron2/mod.rs:91-123 | `<UNK>` gets no index. |
| `Tacotron2.CharacterIds` | src/tacotron2/mod.rs:115-119 | A character resolves exactly when it is an ASCII letter. |
| `Tacotron2.PhoneIds` | src/tacotron2/mod.rs:92-99 | Every phone resolves to an entry with its base phone. An unmarked query gets the unmarked entry. A listed exact entry is found as such. |
| `Tacotron2.Resolution` | src/tacotron2/mod.rs:429-432 | A unit resolves exactly when it is not `<UNK>` and, if it is a character, an ASCII letter. |
| `Tacotron2.Zeros` | src/tacotron2/mod.rs:208-230 | A zero-filled matrix of the requested shape. |
| `Tacotron2.NewDecoderState` | src/tacotron2/mod.rs:203-234 | Needs a two-dimensional shape and an unpadded length within it. The mask is 1 by the padded length and true exactly past the unpadded length. Every other field is zeros of the batch by 1024, 1024, 1024, 1024, length, length, 512, 80 dims. |
| `Tacotron2.MaskOpensInput` | src/tacotron2/mod.rs:220-221 | The mask leaves exactly the unpadded positions open. |
| `Tacotron2.DecodeTrace` | src/tacotron2/mod.rs:281-375 | A successful decode is a run of 1 to 1000 network steps. It stops after the first step whose gate fires, or at step 1000. The frames stack in step order. |
| `Tacotron2.DecodeFollowsRun` | src/tacotron2/mod.rs:281-375 | Conversely, such a run is what the decode loop produces. |
| `Tacotron2.UnrollCalls` | src/tacotron2/mod.rs:311-333 | Step k calls the network on the state the previous steps threaded through. |
| `Tacotron2.InputsThreaded` | src/tacotron2/mod.rs:337-367 | Memory, processed memory and mask stay fixed. Each `out_*` becomes the same-named input and the decoder output becomes the next decoder input. |
| `Tacotron2.Pad` | src/tacotron2/mod.rs:391-397 | Right-pads with index 0 to the requested size, keeping the prefix. |
| `Tacotron2.ChunkPadded` | src/tacotron2/mod.rs:391-397 | A chunk within 100 pads to exactly 100 entries: the ids, then zeros. |
| `Tacotron2.InferChunk` | src/tacotron2/mod.rs:387-390 | A chunk longer than 100 fails the source's assertion. |
| `Tacotron2.InferChunkRuns` | src/tacotron2/mod.rs:387-417 | A chunk of at most 100 goes to the encoder right-padded with index 0 to exactly 100. An encoder error is passed on. A result is the decoder run on a fresh state whose mask opens exactly the chunk's own positions, not the padding. |
| `Tacotron2.IndicesLength` | src/tacotron2/mod.rs:429-432 | Filtering keeps at most one index per unit, exactly one each when every unit resolves. |
| `Tacotron2.OffsetsShape` | src/tacotron2/mod.rs:425-440 | The offsets rise strictly, stay within the input and end at its length. |
| `Tacotron2.IncreasingCutsWithin` | src/tacotron2/mod.rs:448-460 | Strictly increasing offsets ending at the input length never cut past the remaining indices. |
| `Tacotron2.CutFlattens` | src/tacotron2/mod.rs:448-460 | The chunks concatenate back to the indices up to the last offset. |
| `Tacotron2.CutSizes` | src/tacotron2/mod.rs:448-460 | Offsets at most `max` apart give chunks of at most `max`. |
| `Tacotron2.LoopFollowsPlan` | src/tacotron2/mod.rs:448-460 | Within bounds, the chunk loop runs the chunks in order and concatenates their spectrograms. |
| `Tacotron2.LoopFailsPastEnd` | src/tacotron2/mod.rs:449 | An offset past the remaining indices makes `split_off` panic. |
| `Tacotron2.InferFollowsPlan` | src/tacotron2/mod.rs:424-462 | When every unit resolves, `infer` runs the cut chunks in order, and they concatenate back to all the indices. |
| `Tacotron2.InferChunksFit` | src/tacotron2/mod.rs:424-462 | With dense split points every chunk fits the model's 100 inputs. |
| `Tacotron2.InferFailsOnUnresolved` | src/tacotron2/mod.rs:425-449 | If any unit lacks an index, `infer` fails. |
| `Tacotron2.UnkInputPanics` | src/tacotron2/mod.rs:425-449 | A lone `<UNK>` makes `infer` panic in `split_off`. |
| `Tacotron2.UnresolvedShortInputPanics` | src/tacotron2/mod.rs:425-449 | A short input of which nothing resolves makes `infer` panic in `split_off`. |
| `Tacotron2.EmptyInputOneChunk` | src/tacotron2/mod.rs:437-451 | Empty input still decodes one chunk, of padding only. |
| `Tacotron2.OneChunk` | src/tacotron2/mod.rs:448-460 | A single offset at the input length decodes the whole input as one chunk. |
| `Tacotron2.EmptyOffsetsAt` | src/tacotron2/mod.rs:437-440 | Empty input gets the single offset 0. |
| `Tacotron2.KeptResolves` | src/tacotron2/mod.rs:429-432 | The corrected input keeps exactly the resolving units, giving the same indices. It is the identity when all resolve. |
| `Tacotron2.InferResolvedFollowsPlan` | src/tacotron2/mod.rs:424-462 | The corrected `infer` always cuts within the indices and runs the chunks in order. They concatenate back to all indices. |
| `Tacotron2.InferResolvedAgrees` | src/tacotron2/mod.rs:424-462 | Where every unit resolves, the corrected `infer` is the source's. |
| `XdTts.PlanFrom` | src/lib.rs:83-104 | Every model call carries a non-empty batch. |
| `XdTts.Groups` | src/lib.rs:83-104 | The input splits into one group more than it has breaks. |
| `XdTts.FlushCalls` | src/lib.rs:104-121 | The final flush makes one model call when its batch is non-empty, and writes no silence. |
| `XdTts.GroupsFlatten` | src/lib.rs:83-104 | The groups between breaks concatenate back to the batch so far followed by every chunk's units. |
| `XdTts.PlanReadBack` | src/lib.rs:83-104 | The model calls are the non-empty groups between breaks, in order. The silences are the break durations, in order. |
| `XdTts.NonEmptyFlatten` | src/lib.rs:119-121 | Dropping empty batches loses no unit. |
| `XdTts.PlanCoversInput` | src/lib.rs:83-104 | The batches concatenate to all the units and marks in input order. There are at most breaks + 1 calls and the silences are the breaks. |
| `XdTts.AdjacentBreaks` | src/lib.rs:87-95 | Two breaks in a row write two silences with no model call between. |
| `XdTts.GenerateAudio` | src/lib.rs:60-108 | A normaliser error is returned. Character input always plans. Phone input fails exactly when the dictionary rewrite panics. |
| `XdTts.Perform` | src/lib.rs:83-104 | Actions run in order until the first failing model call, which ends the run. |
| `XdTts.BreakTimesKept` | src/lib.rs:87-95 | Rewriting chunks that keeps every break in its place keeps the break durations. |
| `XdTts.GenerateAudioPlan` | src/lib.rs:60-108 | A planned run writes every break's silence in order and makes at most breaks + 1 model calls. Those calls carry all the spoken units in order. |
| `Analytics.Bump` | src/training/analytics.rs:80-88 | One more of the key, every other count unchanged. |
| `Analytics.BumpAll` | src/training/analytics.rs:80-88 | Each key's count grows by its number of occurrences. |
| `Analytics.NewGenerator` | src/training/analytics.rs:68-73 | A new generator holds the dictionary and has counted nothing. |
| `Analytics.PairsLength` | src/training/analytics.rs:83-86 | A pronunciation of n phones has n-1 adjacent pairs, in order. |
| `Analytics.PushPronunciationCounts` | src/training/analytics.rs:80-88 | One pronunciation adds each of its phones and each of its adjacent pairs, touching nothing else. |
| `Analytics.PushPronunciationsCounts` | src/training/analytics.rs:80-88 | Counting pronunciations adds every phone and adjacent pair they hold, and leaves dictionary, out-of-vocabulary and length counts alone. |
| `Analytics.PushWordKnown` | src/training/analytics.rs:78-88 | A known word counts every one of its pronunciations, not only the first. |
| `Analytics.PushWordUnknown` | src/training/analytics.rs:89-91 | An unknown word adds one to its normalised out-of-vocabulary count and changes nothing else. |
| `Analytics.AllPairsLength` | src/training/analytics.rs:80-88 | Over non-empty pronunciations, phone counts exceed pair counts by one per pronunciation. |
| `Analytics.LengthsFrom` | src/training/analytics.rs:98-125 | Recorded lengths are positive and sum to every unit and mark seen. There is one per sentence end, plus at most one trailing. |
| `Analytics.LengthsClosed` | src/training/analytics.rs:112-125 | Input ending in a sentence end records exactly one length per sentence end. |
| `Analytics.SpokenHasNoText` | src/training/analytics.rs:104-106 | After the dictionary rewrite no text chunk is left, so the source's unreachable arm is. |
| `Analytics.PushSentence` | src/training/analytics.rs:95-129 | A normaliser error is the unwrap panic. Otherwise the sentence fails exactly when the dictionary rewrite panics. |
| `Analytics.PushWordsKeepsLengths` | src/training/analytics.rs:126-128 | Counting words never touches the sentence lengths or the dictionary. |
| `Analytics.PushSentenceLengths` | src/training/analytics.rs:95-129 | With a well-formed dictionary the sentence is counted. Its lengths are added to the sentence-length counts. |
| `Analytics.PrintedUnitsDistinct` | src/training/analytics.rs:141-147 | Distinct phonetic units print differently, so keying by the printed phone loses nothing. |
| `Analytics.PrintedCountsKept` | src/training/analytics.rs:141-147 | Each unit's count is found under its printed phone. |
| `Analytics.PrintedCountsAll` | src/training/analytics.rs:141-147 | The report's phone counts are the counted ones, keyed by printed phone. |
| `Analytics.StatsOfListing` | src/training/analytics.rs:134-140 | One statistic per distinct diphone, carrying its count, none repeated and none missing. |
| `Analytics.ListDiphones` | src/training/analytics.rs:134-140 | The listing has one stat per key of the diphone map. Each stat names a key with its count, and no key is named twice. |
| `Analytics.GenerateReport` | src/training/analytics.rs:132-154 | The report copies the out-of-vocabulary and length counts. Its phone counts are keyed by exactly the printed forms of the counted phones, each with its count. It lists each counted diphone once with its count. |
| `LjSpeech.SelectEntry` | src/training/lj_speech.rs:60-69 | A record gives an entry exactly when it has at least two fields. |
| `LjSpeech.LoadSelects` | src/training/lj_speech.rs:44-72 | Loading keeps the selected records in order and never fails. |
| `LjSpeech.LoadLine` | src/training/lj_speech.rs:60-69 | The third field is the text when present, else the second. |
| `LjSpeech.IncompleteSkipped` | src/training/lj_speech.rs:69 | Records with fewer than two fields are skipped. |
| `LjSpeech.WriteUnits` | src/training/lj_speech.rs:98-130 | Formatting panics exactly on a unit other than phone, space or mark. |
| `LjSpeech.WriteUnitsPieces` | src/training/lj_speech.rs:98-130 | Formatting writes each unit's piece in order. |
| `LjSpeech.WriteWord` | src/training/lj_speech.rs:103-117 | A known word's phones are written as "{P1 P2 ... } ", the brace opened once and closed by the following space. |
| `LjSpeech.WriteChunksOk` | src/training/lj_speech.rs:96-140 | A chunk list writes out exactly when every chunk does. |
| `LjSpeech.SpokenChunkWritable` | src/training/lj_speech.rs:96-134 | After the dictionary rewrite, any chunk other than a break writes out, provided its pronunciation holds only phones, spaces and marks. |
| `LjSpeech.WritableChunk` | src/training/lj_speech.rs:126-134 | Marks and pronunciations of phones, spaces and marks write out. |
| `LjSpeech.ConvertEntry` | src/training/lj_speech.rs:92-145 | A converted entry keeps its id. |
| `LjSpeech.ConvertToPronunciation` | src/training/lj_speech.rs:91-146 | Entries are converted one for one. The conversion fails exactly when one entry does. |
| `LjSpeech.SpokenUnitsWritable` | src/text_normaliser.rs:143-151 | The dictionary rewrite only produces phones and spaces, which the formatter accepts. |
| `LjSpeech.ConvertEntrySucceeds` | src/training/lj_speech.rs:91-146 | Without empty pronunciation lists, breaks or unwritable units, conversion succeeds. |
| `LjSpeech.Validate` | src/training/lj_speech.rs:150-185 | Validation succeeds exactly when no entry is flagged. |
| `LjSpeech.FlaggedAt` | src/training/lj_speech.rs:155-182 | An entry is flagged exactly when it is blank, normalises to something blank or unprintable, or repeats an earlier id. |
| `LjSpeech.BlankFlagged` | src/training/lj_speech.rs:155-158 | A blank transcript is always reported. |
| `LjSpeech.FlaggedDuplicateOnlyAfterFirst` | src/training/lj_speech.rs:177-181 | A printable entry is flagged exactly when an earlier one has its id, so a first occurrence never is. |
| `SpeedySpeech.Variants` | src/speedyspeech/mod.rs:71-77 | Each phone's spellings start with the "0" variant for vowels other than UW, and with the bare phone otherwise. |
| `SpeedySpeech.GenerateIdListBuilds` | src/speedyspeech/mod.rs:68-90 | Every phone string parses, so building the list never panics. |
| `SpeedySpeech.Layout` | src/speedyspeech/mod.rs:68-90 | Padding and `<UNK>` come first, then the phones, then space, full stop, comma, question mark, exclamation mark and dash. Only the middle entries are phones. |
| `SpeedySpeech.IdListLayout` | src/speedyspeech/mod.rs:68-90 | The actual list has that layout. |
| `SpeedySpeech.InEntries` | src/speedyspeech/mod.rs:71-77 | A phonetic unit is listed exactly when its phone is and it is one of that phone's spellings. |
| `SpeedySpeech.FirstEntryIsHead` | src/speedyspeech/mod.rs:71-77 | The first entry for a phone is the first of its spellings. |
| `SpeedySpeech.PhoneResolution` | src/speedyspeech/mod.rs:71-79 | A phone resolves exactly when listed. A listed variant finds itself and an unlisted one the phone's first spelling. |
| `SpeedySpeech.EveryPhoneResolves` | src/speedyspeech/mod.rs:71-79 | Every phone resolves. An unmarked vowel other than UW resolves to its "0" entry, and unmarked UW or a consonant to itself. |
| `SpeedySpeech.OtherUnitResolution` | src/speedyspeech/mod.rs:68-90 | A non-phone unit resolves exactly when it is listed, to its own entry. |
| `SpeedySpeech.CharactersUnresolved` | src/speedyspeech/mod.rs:68-90 | Character units never resolve. |
| `SpeedySpeech.PunctuationResolution` | src/speedyspeech/mod.rs:80-87 | Only the full stop, comma, question mark, exclamation mark and dash resolve. |
| `DataCleaning.SplitStress` | scripts/data_cleaning.py:6-13 | A leading "'" or "ˈ" is stripped with suffix "1 ", a leading "ˌ" with "2 ", and otherwise the suffix is " ". |
| `DataCleaning.Convert` | scripts/data_cleaning.py:5-97 | An unknown symbol gives "<UNK> " and is added to the bad phones. Otherwise the bad phones are unchanged. |
| `DataCleaning.ScriptSingleAgrees` | scripts/data_cleaning.py:15-92 | For one-character symbols the script's table gives exactly the spelling of the phone `ipa_to_unit` gives, or nothing. |
| `DataCleaning.ScriptPairAgrees` | scripts/data_cleaning.py:15-92 | The same holds for two-character symbols. |
| `DataCleaning.ScriptTiedAgrees` | scripts/data_cleaning.py:15-92 | The same holds for symbols written with a tie bar. |
| `DataCleaning.ScriptTableAgrees` | scripts/data_cleaning.py:15-92 | The script's table accepts exactly the IPA symbols `ipa_to_unit` accepts, naming the same phone. |
| `DataCleaning.ScriptNames` | scripts/data_cleaning.py:15-92 | Every name in the script's table is an ARPABET phone's spelling. |
| `DataCleaning.ConvertSpellsLibraryUnit` | scripts/data_cleaning.py:5-97 | The script's token is the library's printed unit for the symbol, followed by one space. |
| `DataCleaning.ConvertEndsInOneSpace` | scripts/data_cleaning.py:93-97 | Every token ends in exactly one space. |
| `DataCleaning.ConvertReadsBack` | scripts/data_cleaning.py:93-97 | A known symbol's token, without its space, parses in the library as the phone with the script's stress. |
| `DataCleaning.ConvertWordContents` | scripts/data_cleaning.py:140-141 | A word's string is its tokens joined. The bad phones grow by exactly its unknown symbols. |
| `Strings.TrimEmptyIffBlank` | src/training/lj_speech.rs:155 | A string trims to nothing exactly when it is all whitespace. |
| `Strings.SplitOnJoin` | src/cmu_dict.rs:68-76 | Splitting on a separator and joining the pieces back gives the string. |
| `Strings.SplitAtByte` | src/phonemes.rs:537 | A byte split rejoins to the string, and its first part has the requested byte length. |
| `Strings.AsciiByteLen` | src/phonemes.rs:513-516 | An ASCII string has one byte per character. |
| `Strings.SplitOnJoinedWords` | src/cmu_dict.rs:68-76 | Joining fields free of a one-character separator and splitting again gives the fields back. |
| `Strings.AsciiSplitAtByte` | src/phonemes.rs:537 | On ASCII text, a byte split is a character split. |
| `Seqs.FirstIndex` | src/phonemes.rs:650-655 | The first index satisfying a predicate, or none exactly when no element does. |
| `Seqs.Insert` | src/phonemes.rs:722 | Insertion keeps a list sorted and adds exactly the one element. |
| `Seqs.SortSorted` | src/phonemes.rs:722 | Sorting an already sorted list changes nothing. |
| `Seqs.SortNats` | src/phonemes.rs:722 | Sorting gives a non-decreasing permutation of its input. |

## Left out

- Audio and I/O are left out: `write_silence`, WAV writing, spectrogram dumps, logging, `setup_logging`, vocoders and the Griffin-Lim setup. `XdTts.GenerateAudio` plans the model calls and silences instead of performing them. `XdTts.Perform` takes failure as a caller-supplied predicate.
- The ONNX networks and tensors are left out: `Tacotron2::load`, the encoder, decoder and postnet sessions, and `sigmoid` with the 0.6 gate threshold. They are folded into an `Engine` of functions. The decoder returns its frame, its next state and a boolean `gateFires`. Transposition and the postnet are part of the engine's output.
- Floating point is left out: mel frames are opaque `real` matrices that are only stacked and concatenated.
- The text normaliser front end is not modelled: `normalise`, `normalise_text`, `normalise_ssml`'s event loop, `process_number`, `dict_normalise` and `handle_say_as`, together with regex, deunicode, num2words and the SSML parser. Callers receive it as function parameters, so its own panics (for instance an `unwrap` in `process_number`) are not modelled.
- `CmuDictionary::get_pronunciations` normalises the word before the lookup. It is a parameter (`Normaliser`, `Lookup`); the exact-key lookup is modelled.
- Unicode grapheme segmentation in `ipa_string_to_units` is not modelled: the input is taken as a sequence of grapheme strings.
- Files are taken as lists of lines or records. The model has no `BufRead`, csv-crate quoting, `CmuDictionary::open` or `Dataset::write_csv`.
- `TextNormaliser.BreakChunk`: durations are in whole milliseconds. `Duration::from_secs_f32(0.2)` and `from_secs_f32(0.5)` are modelled as exactly 200 and 500 ms, and an SSML `time` is taken already converted to milliseconds.
- `Analytics.GenerateReport`: the report's diphone list is stated as one entry per distinct pair with its count. The order in which the source's `BTreeMap` iterates is not fixed.
- `ChunkSplitter.FindSplitsFit` and `Tacotron2.InferChunksFit` assume split points are dense: every window of `max - 1` positions holds a scoring unit. Without such a point `find_splits` cannot shorten a run, as the source admits.
- `TextNormaliser.SplitUnitsTest`: the test's units are taken as the character units of the whole text. The normaliser pass the test makes first is not modelled.
- The speedyspeech backends (ort, torch, tract, candle, burn) are unfinished wrappers and are not modelled. The speedyspeech module is disabled in the library.
- `src/training/cmu_dict.rs` and `src/infer/g2p.rs` are outside the crate's module tree and are not part of this model.
- The rest of `scripts/data_cleaning.py` (reading the logs and lexicon, writing files, gruut phonemisation) is file I/O around `convert` and is not modelled.
- The command-line binaries, the plotting and export scripts, `build.rs` and serde serialisation are not modelled.

## Findings

| source | as written | input that shows it | evidently intended | confidence | as-written member | corrected member |
|---|---|---|---|---|---|---|
| src/phonemes.rs:529-537 | `PhoneticUnit::from_str` takes `chars().nth(1).unwrap()` on any string of two to four bytes and slices at byte 2 or 3. A single two- or three-byte character has no second character, so it panics. `Unit::from_str` calls it before falling back to `Character`. | `Unit::from_str("é")` | Such input is not a phone and parses as `Character('é')` | not executed | `Phonemes.UnitFromStrAsWritten`, shown by `Phonemes.AcuteEPanics` and `Phonemes.NonAsciiCharacterPanics` | `Phonemes.UnitFromStr`, proved by `Phonemes.NonAsciiCharacterParsed` and `Phonemes.UnitParsersAgreeOnAscii` |
| src/cmu_dict.rs:77-92 | `from_reader` parses each phone token with `PhoneticUnit::from_str`, so the panic above aborts the whole read | a dictionary line `CAFE  é` | The line is dropped like any other line with an unparseable phone | not executed | `CmuDict.FromLinesAsWritten`, shown by `CmuDict.NonAsciiPhoneAbortsRead` | `CmuDict.FromLines`, proved by `CmuDict.FromLinesReference` and `CmuDict.FromLinesAsWrittenAgrees` |
| src/tacotron2/mod.rs:425-449 | `infer` takes split offsets from `units` but slices the filtered index list, which is shorter whenever a unit has no index. `split_off` then panics or the chunks shift. | `infer(&[Unit::Unk])`: offsets `[1]`, indices `[]` | Offsets are computed over the units that are kept | not executed | `Tacotron2.Infer`, shown by `Tacotron2.UnkInputPanics` and `Tacotron2.InferFailsOnUnresolved` | `Tacotron2.InferResolved`, proved by `Tacotron2.InferResolvedFollowsPlan` and `Tacotron2.InferResolvedAgrees` |
