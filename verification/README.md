# sbv2-api front end and voice bookkeeping, in Dafny

This project models the logic of the sbv2-api text-to-speech library that
sits around its two ONNX inference calls (the BERT feature extractor and the
VITS2 synthesizer). The inference calls themselves are not modelled. The
modelled logic is:

- **The Japanese grapheme-to-phoneme front end** (`JTalkProcess`). It has two
  copies, and each function that differs between them takes a `Dialect`:
  `Current` is sbv2_core/src/jtalk.rs and `Legacy` is the older
  sbv2_core/src/text.rs. The front end covers:
  - prosody marks from full-context labels (`g2p_prosody`);
  - the tone state machine (`g2phone_tone_wo_punct`, `fix_phone_tone`);
  - katakana to phonemes (`kata_to_phoneme_list`), long-vowel marks
    (`handle_long`), and the readings of the analyser's feature lines
    (`text_to_seq_kata`, `parse_to_string_and_pron`);
  - the tone/phoneme merge (`align_tones`), the spreading of phonemes over
    characters (`distribute_phone`), and the padded outputs of `g2p`.
- **The static tables**: the punctuation map `REPLACE_MAP`, the mora table,
  `SYMBOL_TO_ID`, the wave-dash rewrite of `normalize_text`, and the
  `i32` parsing behind `numeric_feature_by_regex`.
- **The feature bookkeeping of `parse_text`**:
  - `intersperse`, `cleaned_text_to_sequence` and the token framing of
    `tokenize`;
  - the doubling of `word2ph`, the repetition of BERT rows, and the transpose;
  - the sample order of `array_to_vec`.
- **The style table**: the shape check of `load_style` and the blend of
  `get_style_vector`, over the reals.
- **The `.sbv2` archive**: which members `parse_sbv2file` selects, and the
  layout the converter script writes.
- **The voice-model holder `TTSModelHolder`**: an ordered list of entries
  `{ident, resident, bytes, style}` plus an optional cap on resident sessions.
  The holder is an immutable value threaded through `load`, `load_sbv2file`,
  `load_aivmx`, `unload`, `find_model`, `find_and_load_model`,
  `get_style_vector` and `easy_synthesize`. Each operation returns a
  `Step(holder, result)`.

Errors, and panics (`unwrap`, `assert!`, out-of-range indexing, `usize`
underflow), are both values: `Err(e)` with the library's error variants, and
`Err(Panic(reason))` for a panic. The services the code calls but does not
define are function parameters:

- the analyser's labels and feature lines;
- the tokenizer and the BERT and VITS2 sessions;
- the Zstandard/tar, JSON and aivmx metadata decoders;
- the tables `PUNCTUATIONS`, `VOWELS`, `SYMBOLS`, `mora_list.json`, and
  `replace_punctuation`.

Files, one module each:

| file | module | models |
|---|---|---|
| wrappers.dfy | Wrappers | `Option`, `Result`, the error variants |
| seqs.dfy | Seqs | sequence helpers: `Split`, `Join`, `Replace`, `Flatten`, `Sum` |
| numeric.dfy | Numeric | `i32::from_str`, `numeric_feature_by_regex` |
| tables.dfy | Tables | map construction: the mora table, `SYMBOL_TO_ID` |
| norm.dfy | Norm | `normalize_text`, `REPLACE_MAP` |
| prosody.dfy | Prosody | `g2p_prosody` |
| tones.dfy | Tones | `fix_phone_tone`, `g2phone_tone_wo_punct` |
| kana.dfy | Kana | `kata_to_phoneme_list` |
| longmark.dfy | LongVowels | `handle_long` |
| align.dfy | Align | `align_tones`, `distribute_phone` |
| g2p.dfy | G2p | `parse_to_string_and_pron`, `text_to_seq_kata`, `g2p` |
| arrays.dfy | Arrays | `Array2` reshape and transpose |
| features.dfy | Features | `intersperse`, `cleaned_text_to_sequence`, `tokenize`, `parse_text`, `array_to_vec` |
| style.dfy | Style | `load_style`, `get_style_vector` |
| archive.dfy | Archive | `parse_sbv2file`, the converter's archive |
| holder.dfy | ModelHolder | `TTSModelHolder` |
| synth.dfy | Synthesis | `easy_synthesize`, `SynthesizeOptions::default` |

Code that is the same in both copies is defined once:

- `distribute_phone`, `align_tones` and `handle_long` (sbv2_core/src/text.rs:165-227) are the Align and LongVowels definitions.
- The older `tokenize` (sbv2_core/src/text.rs:425-437) is `Features.Tokenize`.
- The older `TTSModel::get_style_vector` (sbv2_core/src/tts.rs:98-100) is `Style.StyleVector` over the model's own table.
- The older `TTSModel::parse_text` (sbv2_core/src/tts.rs:40-95) is `Features.ParseText`, with the normalized input as the text that is tokenized and counted.

Points where the code does something its names or comments do not suggest; the model follows the code:

- **Eviction.** `find_and_load_model` (crates/sbv2_core/src/tts.rs:236-241)
  unloads the *first list entry* once the resident count reaches
  `max_loaded_models`, whether that entry is resident or not. A reloaded voice
  also moves to the end of the list. So the resident count can exceed the cap:
  with a cap of 1, loading A, B and C, reloading C, loading D and reloading D
  (six steps) leaves two resident voices (`ModelHolder.CapNotPreserved`).
- **`intersperse`** writes the items at even indices. Its comment, a Python
  snippet, describes odd ones. The model uses the even indices.
- **The final `sil` mark.** In jtalk.rs it is `$` for an interrogative phrase
  and `?` otherwise; text.rs has the reverse. Both are modelled.
- **Punctuation readings.** `G2p.G2pRun` takes a `PunctuationTest`.
  `WholeString` is the code's `g2p`: a reading converts as punctuation only if
  it is itself one entry of `PUNCTUATIONS`. `PerChar` is the corrected
  per-char test of the second row under "## Findings". The contracts of
  `G2pRun` hold under both.

## Model

| member | source | states |
|---|---|---|
| Numeric.ParseI32 | sbv2_core/src/text.rs:31 | a parsed label field is a 32-bit integer and the text starts with a digit or a sign |
| Numeric.DigitsRoundTrip | sbv2_core/src/text.rs:31 | the decimal rendering of a natural number reads back as that number |
| Numeric.ParseShowRoundTrip | sbv2_core/src/text.rs:31 | every `i32` written in decimal parses back to itself |
| Numeric.NegativeRoundTrip | sbv2_core/src/text.rs:31 | a negative `i32` written with `-` parses back to itself |
| Numeric.NumericFeature | sbv2_core/src/text.rs:29-35 | an absent pattern gives -50; a present capture gives the integer it parses to |
| Numeric.FeatureRoundTrip | sbv2_core/src/text.rs:29-35 | a feature written into a label is read back exactly, with no panic |
| Tables.BuildMapKeys | sbv2_core/src/mora.rs:28-34 | the map built by inserting the pairs has exactly the listed keys |
| Tables.BuildMapLastWins | sbv2_core/src/mora.rs:30-32 | a key maps to the value of its last pair: later insertions win |
| Tables.MoraPairs | sbv2_core/src/mora.rs:30-31 | each record becomes (mora, (consonant, vowel)) copied from its fields, in order |
| Tables.MoraTableKeys | sbv2_core/src/mora.rs:28-34 | the mora table's keys are the moras of `minimum` and `additional` together |
| Tables.MoraTableAdditionalWins | sbv2_core/src/mora.rs:30-32 | a mora listed in `additional` takes its last record there, whatever `minimum` says |
| Tables.MoraTableMinimumOnly | sbv2_core/src/mora.rs:30-32 | a mora listed only in `minimum` takes its last record there |
| Tables.IndexPairs | sbv2_core/src/nlp.rs:7-9 | the enumerate loop pairs each symbol with its index, in order |
| Tables.SymbolIdIsLastOccurrence | sbv2_core/src/nlp.rs:5-11 | a string has an id iff it is listed in `SYMBOLS`, and its id is the index of its last occurrence |
| Norm.ReplaceCharPointwise | sbv2_core/src/text.rs:414 | replacing a char by a char keeps the length and rewrites exactly that char's positions |
| Norm.NormalizeText | sbv2_core/src/text.rs:412-418 | char count is kept; `~`, `～` and `〜` become `ー` and every other char is kept |
| Norm.NormalizeIdempotent | sbv2_core/src/text.rs:412-418 | normalising twice equals normalising once, and no wave dash survives |
| Norm.ReplaceMapByGroup | sbv2_core/src/norm.rs:4-55 | no key is inserted twice, so the map is the union of the four groups of pairs, each pair intact |
| Norm.NoValueIsKey | sbv2_core/src/norm.rs:4-53 | every replacement is one of seven strings, none of which is a key |
| Norm.DashesBecomeHyphenMinus | sbv2_core/src/norm.rs:37-50 | all fourteen dash variants map to U+002D |
| Norm.EllipsesBecomeThreeDots | sbv2_core/src/norm.rs:14-16 | `…`, `···` and `・・・` map to `...` |
| Norm.QuotesAndBracketsBecomeApostrophe | sbv2_core/src/norm.rs:21-52 | the quote and bracket variants, `「` and `」` included, map to `'` |
| Norm.CommasAndPeriods | sbv2_core/src/norm.rs:6-20 | `：；，·・、` map to `,` and `。．`, newline and `$` map to `.` |
| Norm.MultiCharKeysShadowOneCharKeys | sbv2_core/src/norm.rs:15-18 | `···` and `・・・` are three copies of the keys `·` and `・`, yet map to something other than three of their images |
| Prosody.Phoneme | sbv2_core/src/jtalk.rs:339-343 | the centre phoneme is lowered only when it is a substring of `AIUEO`; the length is kept |
| Prosody.DevoicedVowelsLowered | sbv2_core/src/jtalk.rs:340-343 | `A I U E O` become `a i u e o`; `sil`, `pau`, `cl` and `N` are kept |
| Prosody.AccentMark | sbv2_core/src/jtalk.rs:373-379 | at most one mark, tried in order: `#` iff a3 = 1, next a2 = 1 and the phoneme is a substring of `aeiouAEIOUNcl`; else `]` iff a1 = 0, next a2 = a2 + 1 (`i32` wrap) and a2 ≠ f1; else `[` iff a2 = 1 and next a2 = 2; else nothing |
| Prosody.FinalMark | sbv2_core/src/jtalk.rs:348-355 | current: `$` iff the previous phrase is interrogative, otherwise `?`, and it fails when the previous phrase is missing; legacy: `$` iff e3 = 0, `?` iff e3 = 1, nothing otherwise |
| Prosody.LabelTokens | sbv2_core/src/jtalk.rs:339-379 | every failure is a panic; a `sil` gives `^` first, or last (and not first) exactly `FinalMark` of its label, else panics; `pau` gives `_`; any other phoneme fails iff a feature does not parse or no label follows, and otherwise is pushed followed by exactly the `AccentMark` of its own features and the next label's a2 |
| Prosody.LabelsFromAll | sbv2_core/src/jtalk.rs:337-383 | the loop's success condition is that every label from the start index on yields its tokens |
| Prosody.ProsodyFrom | sbv2_core/src/jtalk.rs:337-383 | the loop returns no error of its own: every failure is a panic |
| Prosody.ProsodyCons | sbv2_core/src/jtalk.rs:337-383 | a failing label stops the loop with its own panic |
| Prosody.ProsodyOk | sbv2_core/src/jtalk.rs:337-383 | the loop from a label on succeeds iff every label from there yields its tokens |
| Prosody.G2pProsody | sbv2_core/src/jtalk.rs:334-383 | succeeds iff every label yields its tokens; then its non-mark tokens are the lowered non-`sil`/`pau` phonemes in order, `^` is only first, `$`/`?` only last, and every accent mark follows a phoneme |
| Prosody.AccentMarksFollowPhonemes | sbv2_core/src/jtalk.rs:369-379 | `#`, `[` and `]` are pushed only right after a phoneme: never first and never after another mark |
| Prosody.ProsodyKeepsPhonemes | sbv2_core/src/jtalk.rs:334-383 | the non-mark tokens of a successful run are exactly the lowered phonemes of the non-`sil`/`pau` labels, in order |
| Prosody.CaretOnlyFirst | sbv2_core/src/jtalk.rs:344-347 | a `^` in the output is only ever its first token, from label 0 |
| Prosody.EndMarkOnlyLast | sbv2_core/src/jtalk.rs:348-355 | a `$` or `?` is only ever the last token of the output |
| Prosody.ProsodyEndsInPause | sbv2_core/src/jtalk.rs:370-371 | a successful run ends in a `sil` or `pau` label, because a phoneme label reads the next label |
| Prosody.SilInMiddlePanics | sbv2_core/src/jtalk.rs:344-345 | a `sil` neither first nor last fails the assertion |
| Tones.Relabel | sbv2_core/src/jtalk.rs:93-99 | the {-1, 0} rewrite keeps every phoneme and the length |
| Tones.FixPhoneTone | sbv2_core/src/jtalk.rs:81-106 | an accepted phrase keeps its phonemes and has tones 0 or 1 only |
| Tones.FixPhoneToneRule | sbv2_core/src/jtalk.rs:81-106 | {0} and {0,1} pass unchanged; {-1,0} maps -1 to 0 and 0 to 1 (legacy: 0 to 0); one non-zero tone panics; any other set is a `ValueError` |
| Tones.EmptyPhraseRejected | sbv2_core/src/jtalk.rs:103-104 | an empty phrase is "Invalid tone values 1" |
| Tones.G2PhoneToneWoPunct | sbv2_core/src/jtalk.rs:300-332 | a prosody failure is passed on; on success every tone is 0 or 1 and the phonemes are the non-mark prosody tokens (`cl` as `q`) up to the last phrase boundary |
| Tones.ScanMarksPlaced | sbv2_core/src/jtalk.rs:307-314 | a successful scan saw `^` only at index 0 and `$`/`?` only at the last index |
| Tones.Cut | sbv2_core/src/jtalk.rs:310-316 | the prefix up to the last phrase boundary: it ends in a boundary and none follows |
| Tones.ScanPhones | sbv2_core/src/jtalk.rs:307-329 | the output's phonemes are those emitted so far plus what the remaining boundaries flush |
| Tones.FlushedUpToCut | sbv2_core/src/jtalk.rs:310-327 | the boundaries flush exactly the open phrase and the voiced tokens up to the last boundary |
| Tones.ScanFromStart | sbv2_core/src/jtalk.rs:303-331 | a scan from the first token returns tones 0 or 1 and exactly the voiced tokens up to the last boundary; a phrase left open at the end is dropped |
| Tones.ScanWithinPhrase | sbv2_core/src/jtalk.rs:317-327 | inside a phrase each phoneme gets the count of `[` minus `]` before it |
| Kana.LongRun | sbv2_core/src/jtalk.rs:66 | the length of the run of `ー` that `LONG_PATTERN` takes after a word char |
| Kana.Chars | sbv2_core/src/jtalk.rs:228 | one one-char string per char, in order |
| Kana.KataToPhonemeListAsWritten | sbv2_core/src/jtalk.rs:226-235 | an exact punctuation string gives its chars; the error is a `ValueError`, raised iff the text is not a punctuation string and holds no U+30A0-U+30FF char |
| Kana.KataToPhonemeList | sbv2_core/src/jtalk.rs:226-265 | the same with the per-char punctuation test: a text of punctuation chars gives its chars |
| Kana.WholeStringPunctuationCheck | sbv2_core/src/jtalk.rs:227 | `...` is rejected as written but converts to three dots under the per-char test |
| Kana.PunctuationTestsAgreeOnOneChar | sbv2_core/src/jtalk.rs:227 | the two tests agree on every one-char text |
| Kana.ReplaceMorasAppend | sbv2_core/src/jtalk.rs:237-248 | the replacement loop over `a + b` is the loop over `a` followed by the loop over `b` |
| Kana.ReplaceMorasAbsent | sbv2_core/src/jtalk.rs:237-248 | keys that do not occur leave the text unchanged |
| Kana.LongExpandNoMark | sbv2_core/src/jtalk.rs:258-260 | without `ー` the long-mark expansion changes nothing |
| Kana.LongExpandAppend | sbv2_core/src/jtalk.rs:258-260 | the expansion can be cut at any point not followed by `ー` |
| Kana.LongMarksRepeat | sbv2_core/src/jtalk.rs:250-257 | a word char and m marks become the char followed by ` c` m times (3m in the legacy copy) |
| Kana.SplitTrimSpaced | sbv2_core/src/jtalk.rs:262 | trimming space-prefixed plain words and splitting at spaces gives the words back |
| Kana.SingleMora | sbv2_core/src/jtalk.rs:237-264 | a single mora key becomes its consonant and vowel, or just its vowel |
| Kana.MoraWithLongMarks | sbv2_core/src/jtalk.rs:237-264 | a mora followed by m marks gives its phonemes, then its vowel m times (3m in the legacy copy) |
| Kana.LongMarkPerChar | sbv2_core/src/jtalk.rs:253 | the current copy repeats the vowel once per `ー` |
| Kana.LongMarkPerByte | sbv2_core/src/text.rs:275-284 | the older copy repeats it once per UTF-8 byte of the run, three times per `ー` |
| LongVowels.FixFirst | sbv2_core/src/jtalk.rs:202-213 | a word-initial `ー` takes the previous word's last phoneme if it is a vowel; an empty previous word panics |
| LongVowels.FixMarks | sbv2_core/src/jtalk.rs:214-220 | succeeds iff every later `ー` has a non-empty left neighbour; then each becomes its neighbour's last char and nothing else changes |
| LongVowels.FillStep | sbv2_core/src/jtalk.rs:216-218 | filling one mark and running on from the next index is running from this index |
| LongVowels.FixWord | sbv2_core/src/jtalk.rs:198-221 | one word: its length and its non-mark elements are kept, and every mark is filled from its left |
| LongVowels.HandleFrom | sbv2_core/src/jtalk.rs:198-222 | the outer loop: every word is fixed with the already processed previous word |
| LongVowels.HandleLong | sbv2_core/src/jtalk.rs:197-224 | the word count is kept, and a first word starting with `ー` panics |
| LongVowels.HandleLongShape | sbv2_core/src/jtalk.rs:197-224 | every word keeps its length and its non-mark elements |
| LongVowels.HandleLongFills | sbv2_core/src/jtalk.rs:202-220 | each `ー` is filled: word-initial from a vowel ending the previous word, otherwise from its left neighbour's last char |
| LongVowels.HandleLongNoMark | sbv2_core/src/jtalk.rs:197-224 | lists without `ー` come back unchanged |
| LongVowels.HandleLongClearsMarks | sbv2_core/src/jtalk.rs:214-220 | when no vowel or element ends in `ー`, no `ー` remains |
| Align.AlignFrom | sbv2_core/src/jtalk.rs:176-192 | the loop's output phonemes are the input phonemes; any error is a `ValueError` |
| Align.AlignTones | sbv2_core/src/jtalk.rs:170-195 | on success the output phonemes equal `phone_with_punct` exactly |
| Align.Toneless | sbv2_core/src/jtalk.rs:177-178 | each phoneme with tone 0 |
| Align.AlignAfterEnd | sbv2_core/src/jtalk.rs:177-178 | once the tone list is used up, every phoneme gets tone 0 |
| Align.AlignConsumes | sbv2_core/src/jtalk.rs:179-181 | a run of matching phonemes consumes exactly its tone entries and takes their tones |
| Align.AlignMatch | sbv2_core/src/jtalk.rs:179-181 | a phoneme equal to the next tone entry takes its tone and consumes it |
| Align.AlignOwnPhones | sbv2_core/src/jtalk.rs:170-195 | aligning a tone list with its own phonemes gives it back |
| Align.AlignExtraPhones | sbv2_core/src/jtalk.rs:177-178 | phonemes beyond the tone list get tone 0 |
| Align.AlignUnconsumedTones | sbv2_core/src/jtalk.rs:194 | unconsumed tone entries are dropped silently |
| Align.AlignPunctuation | sbv2_core/src/jtalk.rs:182-190 | a mismatched punctuation gets tone 0 without consuming; any other mismatch is "Mismatched phoneme" |
| Align.AlignKeepsToneBits | sbv2_core/src/jtalk.rs:176-192 | tones that are 0 or 1 stay 0 or 1 |
| Align.FirstMinIndex | sbv2_core/src/jtalk.rs:160-164 | the first position of the smallest entry |
| Align.Distribute | sbv2_core/src/jtalk.rs:158-167 | one entry per word char |
| Align.DistributePhone | sbv2_core/src/jtalk.rs:157-168 | panics iff there are phonemes and no chars; otherwise one entry per char |
| Align.DistributeClosedForm | sbv2_core/src/jtalk.rs:157-168 | entry k is n_phone / n_word, plus 1 when k < n_phone % n_word |
| Align.DistributeSum | sbv2_core/src/jtalk.rs:157-168 | the entries add up to the number of phonemes |
| G2p.ParseToStringAndPron | sbv2_core/src/jtalk.rs:295-298 | succeeds iff the line has at least ten comma fields; otherwise the index panics |
| G2p.ParseFields | sbv2_core/src/jtalk.rs:295-298 | joining comma-free fields and parsing gives back fields 0 and 9 |
| G2p.Without | sbv2_core/src/jtalk.rs:273 | the result has no occurrence of the char, and a text without it is unchanged |
| G2p.ReplaceByEmptyIsWithout | sbv2_core/src/jtalk.rs:273 | replacing `’` by nothing removes every occurrence |
| G2p.Yomi | sbv2_core/src/jtalk.rs:273-288 | an empty reading, or `？` from a word other than `?`, panics; any other reading except `、` and `？` is kept |
| G2p.PauseReading | sbv2_core/src/jtalk.rs:276-284 | a `、` reading becomes `'` repeated to the word's UTF-8 byte length, or the word itself when all its chars are punctuation |
| G2p.TextToSeqKata | sbv2_core/src/jtalk.rs:267-293 | succeeds iff every line does; then one word and one reading per feature line, in order |
| G2p.PhonemeLists | sbv2_core/src/jtalk.rs:111-116 | succeeds iff every reading converts, and then holds each reading's phonemes; a failed conversion is an `unwrap` panic; under the code's whole-string test every reading is a punctuation entry or holds katakana |
| G2p.Words | sbv2_core/src/jtalk.rs:109-116 | the words are `text_to_seq_kata`'s, and the phoneme lists are its readings converted and passed through `handle_long`; every failure is a panic |
| G2p.Tokens | sbv2_core/src/jtalk.rs:126-134 | one token list per word, each the word's `Tokenized` form |
| G2p.Tokenized | sbv2_core/src/jtalk.rs:126-134 | a punctuation string is one unit, any other word one unit per char |
| G2p.Word2ph | sbv2_core/src/jtalk.rs:136-141 | panics iff some word has no unit but has phonemes |
| G2p.Word2phCounts | sbv2_core/src/jtalk.rs:136-141 | one entry per unit, and the entries add up to the number of phonemes |
| G2p.G2pRun | sbv2_core/src/jtalk.rs:108-155 | with the `WholeString` test (the code): a tone-list failure is returned first, a reading failure is a panic; an alignment failure (`ValueError`) is returned next; on success the phones are `_`, the words' phonemes, `_`, and the tones are 0, the tones `align_tones` gives those phonemes, 0; current `word2ph` is 1, `Word2ph` of the words' tokens and phonemes, 1; legacy `word2ph` is [1, 1, 1] |
| G2p.G2pTonesAreBits | sbv2_core/src/jtalk.rs:108-155 | every tone of `g2p` is 0 or 1 |
| G2p.G2pWord2phSum | sbv2_core/src/jtalk.rs:136-149 | in the current copy `word2ph` has one entry per char or punctuation word plus the two pads, and adds up to the number of phones |
| G2p.EllipsisReadings | sbv2_core/src/jtalk.rs:273-284 | a feature line with the word `…` and the reading `、` gives the word and the reading `...` |
| G2p.EllipsisWordPanics | sbv2_core/src/jtalk.rs:111-116 | with the code's whole-string test, `g2p` on that line panics whenever the tone list succeeds |
| G2p.EllipsisConvertsPerChar | sbv2_core/src/jtalk.rs:227 | with the per-char test the same reading converts to three `.` phonemes |
| Arrays.Transpose | sbv2_core/src/tts_util.rs:74 | entry (c, i) of the transpose is entry (i, c) of the input |
| Arrays.TransposeTwice | sbv2_core/src/tts_util.rs:74 | transposing twice gives the matrix back |
| Arrays.Reshape | sbv2_core/src/style.rs:13-16 | a flat sequence of rows × cols entries becomes a rows × cols matrix |
| Arrays.ReshapeEntry | sbv2_core/src/style.rs:13-16 | entry (i, j) is flat entry i·cols + j |
| Arrays.FlattenReshape | sbv2_core/src/style.rs:13-16 | reading a reshaped array row by row gives the flat data back |
| Arrays.ReshapeFlatten | sbv2_core/src/style.rs:13-16 | reshaping a matrix's rows, read in order, gives the matrix back |
| Features.FillEven | sbv2_core/src/utils.rs:11-15 | item k lands in slot 2k; every other slot keeps its value |
| Features.Intersperse | sbv2_core/src/utils.rs:10-16 | length 2n + 1; item k at index 2k; odd indices and index 2n hold the separator; empty input gives [sep] |
| Features.IntersperseEvens | crates/sbv2_core/src/utils.rs:5-11 | the even slots of the result are the items |
| Features.IntersperseCons | crates/sbv2_core/src/utils.rs:5-11 | an item followed by the separator, then the rest interspersed |
| Features.KnownPhones | crates/sbv2_core/src/nlp.rs:5-11 | every phone listed in `SYMBOLS` has an id, the index of its last occurrence |
| Features.CleanedTextToSequence | sbv2_core/src/nlp.rs:13-24 | phone ids name the phones (last occurrence); tones are input + 6; lang ids are all 1; lengths kept |
| Features.EncodeChars | sbv2_core/src/tokenizer.rs:12-17 | fails iff some char fails to encode; ids and masks are the per-char encodings joined in char order |
| Features.Tokenize | sbv2_core/src/tokenizer.rs:9-21 | ids are [1], the per-char ids, [2]; masks are [1], the per-char masks, [1] |
| Features.TokenizeLengths | sbv2_core/src/tokenizer.rs:12-20 | ids and masks have equal length when every per-char encoding does |
| Features.DoubleWord2ph | sbv2_core/src/tts_util.rs:29-32 | every entry doubled, index 0 one more; the sum becomes 2S + 1 |
| Features.DoubledNonNegative | sbv2_core/src/tts_util.rs:29-32 | doubling keeps exactly the non-negative counts |
| Features.ExpandRows | sbv2_core/src/tts_util.rs:49-73 | the expansion has as many rows as the repeat counts add up to, each one of the input rows |
| Features.ExpandRowsBlock | sbv2_core/src/tts_util.rs:49-73 | block i is reps[i] copies of row i, after the earlier blocks |
| Features.PhoneInputs | sbv2_core/src/tts_util.rs:24-28 | ids, tones and lang ids interspersed with 0: item k at slot 2k, zeros between and at the end |
| Features.BertFeature | sbv2_core/src/tts_util.rs:49-74 | the transposed feature has one column per repeat unit |
| Features.ParseText | sbv2_core/src/tts_util.rs:24-80 | succeeds iff the phones are known, tokenising and BERT succeed, `word2ph` has chars + 2 entries that are not negative and BERT has enough rows; a failure after tokenising is a panic |
| Features.ParseTextColumns | sbv2_core/src/tts_util.rs:49-74 | column Sum(w2[..i]) + j of the feature is BERT row i, for each j below the doubled count w2[i] |
| Features.LegacyParseTextOneChar | sbv2_core/src/tts.rs:56-61 | the older length assertion, with `word2ph` = [1, 1, 1], passes only for one-char text |
| Features.ArrayToSamples | sbv2_core/src/tts_util.rs:92-97 | succeeds iff every batch entry has a channel; the output holds channel 0 of each entry |
| Features.SampleOrder | sbv2_core/src/tts_util.rs:92-97 | with n samples per channel, sample k of entry i is output at i·n + k |
| Features.SampleCount | sbv2_core/src/tts_util.rs:92-97 | with n samples per channel the output has entries × n samples |
| Style.LoadStyle | sbv2_core/src/style.rs:11-17 | succeeds iff rows × cols equals the flattened length; the matrix has the declared shape and reads back as the flattened data |
| Style.LoadStyleRowMajor | sbv2_core/src/style.rs:13-16 | entry (i, j) is flat entry i·cols + j |
| Style.LoadStyleRectangular | sbv2_core/src/style.rs:13-16 | rows that have the declared shape load as themselves |
| Style.LoadStyleRagged | sbv2_core/src/style.rs:13-16 | ragged rows whose total matches pass the shape check |
| Style.StyleVector | sbv2_core/src/style.rs:19-28 | succeeds iff the style id is a row; the result has one entry per column, mean + (row − mean)·weight |
| Style.StyleVectorEnds | sbv2_core/src/style.rs:24-27 | weight 0 or style 0 gives the mean row; weight 1 gives the style's own row |
| Archive.Scan | sbv2_core/src/sbv2file.rs:19-29 | the only error of the entry loop is an I/O error |
| Archive.ParseSbv2File | sbv2_core/src/sbv2file.rs:15-37 | (style, model) when both are present; a missing style is reported first, then a missing model |
| Archive.Readable | sbv2_core/src/sbv2file.rs:20 | the entries before the first malformed one |
| Archive.LatestCons | sbv2_core/src/sbv2file.rs:24-28 | a first entry matters only when no later member has the path |
| Archive.ScanIsLatest | sbv2_core/src/sbv2file.rs:19-29 | the loop keeps the last member at each path before the first malformed entry; other paths are ignored |
| Archive.MalformedEndsScan | sbv2_core/src/sbv2file.rs:20 | a malformed entry hides everything after it |
| Archive.SwapDistinctPaths | sbv2_core/src/sbv2file.rs:17-29 | two members at different paths can be read in either order |
| Archive.ParseSbv2FileOrder | sbv2_core/src/sbv2file.rs:17-29 | the result does not depend on whether the model or the style table comes first |
| Archive.WriteThenParse | scripts/convert/convert_model.py:160-169 | reading the converter's archive gives back (style, model) |
| ModelHolder.Idents | crates/sbv2_core/src/tts.rs:74-76 | the idents in list order |
| ModelHolder.IndexOf | crates/sbv2_core/src/tts.rs:216-222 | the first entry with the ident, or none iff no entry has it |
| ModelHolder.ResidentCountAppend | crates/sbv2_core/src/tts.rs:159 | resident counts add over concatenation |
| ModelHolder.Find | crates/sbv2_core/src/tts.rs:216-222 | an entry with the ident from the list, or `ModelNotFoundError(ident)` iff there is none |
| ModelHolder.GetStyleVector | crates/sbv2_core/src/tts.rs:264-271 | an unknown ident is `ModelNotFoundError`; otherwise the blend over the voice's own table |
| ModelHolder.Unload | crates/sbv2_core/src/tts.rs:182-195 | true iff the ident is present; then exactly its first entry is removed, the others kept in order; otherwise nothing changes |
| ModelHolder.NewEntry | crates/sbv2_core/src/tts.rs:163-176 | fails iff a needed session or the style fails to decode; resident iff under the cap; bytes kept iff a cap is set |
| ModelHolder.Load | crates/sbv2_core/src/tts.rs:149-179 | a known ident is a no-op; a failure leaves the list unchanged; otherwise the new entry is appended |
| ModelHolder.LoadSbv2File | crates/sbv2_core/src/tts.rs:132-140 | a broken archive fails before anything is loaded; otherwise it loads (style, model) |
| ModelHolder.LoadAivmx | crates/sbv2_core/src/tts.rs:79-123 | the same no-op, residency and bytes rules; without style metadata nothing is pushed and the call still succeeds |
| ModelHolder.Evict | crates/sbv2_core/src/tts.rs:238-242 | at the cap the first list entry is removed, resident or not; an empty list at the cap panics |
| ModelHolder.Reinsert | crates/sbv2_core/src/tts.rs:243-256 | the voice is appended as resident with its bytes and style, and reported loaded |
| ModelHolder.FindAndLoad | crates/sbv2_core/src/tts.rs:223-258 | unknown: error; resident: no change; otherwise removed, evicted at the cap, and appended resident; the cap setting is kept |
| ModelHolder.LoadKeepsValid | crates/sbv2_core/src/tts.rs:149-179 | `load` keeps idents unique and every entry resident or holding its bytes |
| ModelHolder.LoadAivmxKeepsValid | crates/sbv2_core/src/tts.rs:79-123 | `load_aivmx` keeps the same invariants |
| ModelHolder.UnloadKeepsValid | crates/sbv2_core/src/tts.rs:182-195 | `unload` keeps the same invariants |
| ModelHolder.FindAndLoadValid | crates/sbv2_core/src/tts.rs:231-258 | in a valid holder the invariants are kept, and an error is the session's own error or the panic of a cap of 0 whose only voice is the target: the `unwrap` at 234 never fails and the error at 257 is never reached |
| ModelHolder.FindAndLoadResident | crates/sbv2_core/src/tts.rs:243-256 | after success the voice is found and resident |
| ModelHolder.ReinsertResident | crates/sbv2_core/src/tts.rs:243-253 | the re-inserted voice is found again as the resident last entry |
| ModelHolder.NoCapAllResident | crates/sbv2_core/src/tts.rs:157-162 | without a cap a loaded voice is resident and `find_and_load_model` changes nothing |
| ModelHolder.LoadRespectsCap | crates/sbv2_core/src/tts.rs:157-162 | `load` never takes the resident count past the cap |
| ModelHolder.LoadFresh | crates/sbv2_core/src/tts.rs:163-176 | loading a new ident whose decoding succeeds appends exactly that entry |
| ModelHolder.ReloadAtCap | crates/sbv2_core/src/tts.rs:236-248 | under a cap of 1, reloading deletes the first entry even when it is not resident |
| ModelHolder.CapNotPreserved | crates/sbv2_core/src/tts.rs:238-242 | load A, B, C, reload C, load D, reload D under a cap of 1 leaves two resident voices |
| Synthesis.ScheduleSpeaksNonEmpty | crates/sbv2_core/src/tts.rs:290-321 | exactly the non-empty segments are spoken, in order, each followed by a silence unless it is the last segment |
| Synthesis.TrailingNewlineSilence | crates/sbv2_core/src/tts.rs:318-320 | a text ending in `\n` leaves a trailing silence |
| Synthesis.NoSpeechNoPieces | crates/sbv2_core/src/tts.rs:293-296 | a text with no non-empty segment produces no audio pieces at all |
| Synthesis.Render | crates/sbv2_core/src/tts.rs:293-321 | one array per piece: 22050 zeros for a silence; for a segment, the session's output on its parsed text, and only with a resident voice |
| Synthesis.Concat | crates/sbv2_core/src/tts.rs:322-325 | the arrays joined end to end; no array at all is a shape error |
| Synthesis.SpeakAll | crates/sbv2_core/src/tts.rs:290-348 | the rendered arrays joined; one segment is the session's own output |
| Synthesis.EasySynthesize | crates/sbv2_core/src/tts.rs:280-349 | the holder is the one `find_and_load_model` leaves; its error is passed on; success needs the style vector; splitting a text with no segment is a shape error; with splitting the output is the split's schedule rendered and joined in order; without splitting the output is the session's |
| Synthesis.TwoLines | crates/sbv2_core/src/tts.rs:290-325 | two non-empty lines give the first line's audio, 22050 zero samples, then the second line's audio |
| Synthesis.DefaultWeightIsOwnRow | crates/sbv2_core/src/tts.rs:366-375 | the default options split sentences and blend with weight 1, giving the style's own row |

## Left out

- The ONNX sessions (BERT, VITS2) are function parameters returning abstract values. Their inputs beyond those listed, the speaker id, the SDP ratio, the length scale and the noise constants 0.677 and 0.8, are bound into the synthesis parameter.
- The jpreprocess analyser (`run_frontend`, `make_label`, `text_to_njd`, `num2word`) is not modelled. Its labels and feature lines are inputs, and a label is the record of its fields that `g2p_prosody` reads.
- The regular expressions are modelled by their effect. `\w` in `LONG_PATTERN` is approximated by ASCII letters, digits and `_`, kana, and CJK unified ideographs; the other Unicode word chars are not covered.
- Zstandard frame decoding (RFC 8878, section 3.1), tar parsing, serde JSON, base64 and npyz decoding are `Runtime` parameters. An `.sbv2` archive is the sequence of tar entries the reader yields.
- The WAV header that hound writes in `array_to_vec` is not modelled; only the sample order is.
- `f32` arithmetic in the style blend and the audio is modelled over the reals, without IEEE-754 rounding.
- The tables `PUNCTUATIONS`, `VOWELS` and `SYMBOLS`, the file mora_list.json, and the function `replace_punctuation` are defined outside the modelled files. They are parameters.
- The function that applies `REPLACE_MAP` is not modelled; only the table is.
- `usize`/`i32` overflow is not modelled, apart from the `a2 + 1` of `g2p_prosody` (`Prosody.SuccI32`) and the `i32` range of parsed label fields.
- crates/sbv2_core/src/style.rs is not part of this model. The crate's `load_style` is modelled as a `Runtime` decoder followed by the same shape check as sbv2_core/src/style.rs.
- Printing and logging (`println!` in `align_tones`) is not modelled.
- The HTTP server, the Python and WebAssembly bindings, the demo mains and the conversion scripts (apart from the archive layout) are not modelled.
- ModelHolder.FindAndLoadValid: requires a valid holder, meaning unique idents and every entry either resident or keeping its bytes. A new holder is empty, and `load`, `load_aivmx`, `unload` and `find_and_load_model` keep these invariants (ModelHolder.LoadKeepsValid and the lemmas after it). So the requirement covers every holder the library can build, but it is not checked inside the function.

## Findings

| source | as written | input that shows it | evidently intended | confidence | as-written member | corrected member |
|---|---|---|---|---|---|---|
| sbv2_core/src/text.rs:275-284 | the long-mark replacement repeats the vowel once per UTF-8 *byte* of the `ー` run | `カー` gives `k a a a a` | once per `ー`, as the current copy does (sbv2_core/src/jtalk.rs:253): `k a a` | not executed | Kana.LongMarkPerByte | Kana.LongMarkPerChar |
| sbv2_core/src/jtalk.rs:227 | `kata_to_phoneme_list` tests whether the *whole* text is a punctuation string | the word `…` read as `、` becomes the reading `...` (three punctuation chars, not itself in the list); it is an error, and `g2p` panics on its `unwrap` | every char is punctuation, as in the Python original quoted at sbv2_core/src/text.rs:231: `...` gives `. . .` | not executed | G2p.EllipsisWordPanics | G2p.EllipsisConvertsPerChar |
