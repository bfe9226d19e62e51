# SRT subtitle parsing and extraction, modelled in Dafny

This project models the core of a small Rust program that reads a Japanese
subtitle file in SubRip (`.srt`) format and prepares its text for
vocabulary analysis. It covers:

- the three line parsers of a subtitle block: the timestamp `HH:MM:SS,mmm`,
  the timing line `start --> end` and the block index;
- the conversion of one raw block into its index line, timing line and
  text lines (`RawSubtitleUnit::try_from`), and the parsed record shapes
  `SubtitleUnit` and `SubtitleSet`;
- the whole-file helpers of the entry point: cutting the file at blank
  lines, keeping each block's lines after the first two, and concatenating
  all of them;
- the small-kana to regular-kana substitution through a lookup table;
- the dedupe-and-sort step, which reduces a text to its distinct characters
  in ascending order.

All of this code is pure: it splits, trims, counts and parses strings and
builds fresh values. It is modelled with datatypes, functions and lemmas.

Files and modules:

| file | module | models |
|---|---|---|
| `wrappers.dfy` | `Wrappers` | `Option` and `Result` |
| `text.dfy` | `Text` | the Rust string operations the code relies on: `str::split` with a string pattern (leftmost, non-overlapping matches), `join`, counting a character, `str::trim` over Unicode `White_Space`, and `parse::<usize>` on digit strings |
| `timestamp.dfy` | `Timestamps` | `src/types/timestamp.rs` |
| `timing.dfy` | `Timings` | `src/types/timing.rs` |
| `srt_index.dfy` | `SrtIndices` | `src/types/srt_index.rs` |
| `subtitle_set_builder.dfy` | `SubtitleSetBuilder` | `src/dataprep/subtitle_set_builder.rs` |
| `extraction.dfy` | `Extraction` | the helpers in `src/main.rs` |
| `cleaning.dfy` | `Cleaning` | `src/dataprep/cleaning.rs` |

Modelling choices:

- Rust `usize` values read by `parse::<usize>()` are unbounded `nat`s.
  The storage widths `u8`, `u16` and `u32` are subset types
  (`x <= 255`, `x <= 65535`, `x <= 4294967295`). The parsers check these
  bounds before any narrowing cast, so the casts never truncate.
- Strings are sequences of Unicode scalar values (`char`), as Rust's
  `chars()` sees them. `str::split` is written out as a leftmost,
  non-overlapping search for the pattern.
- The derived `Ord` on `Timestamp` is written out as a lexicographic
  comparison of the four fields.
- Error enums are datatypes with the source's variant names. The
  `&'static str` errors of `try_from` are `Rejected(message)` with the
  source's exact messages.
- The kana table is a `map<SmallKana, RegularKana>` parameter. The keys and
  values are wrapped in single-field datatypes, as the source's newtypes
  are. `MiniKanaTable` writes out the table described in the doc comment at
  `src/main.rs:52-55`: the small forms of a, i, u, e, o, tsu, ya, yu, yo and
  wa, in hiragana and katakana. The JSON file itself is not part of this
  model.
- `helper_dedupe_and_sort` collects the characters into a `BTreeSet` and
  reads them back in order. It is modelled as an insertion, one character
  at a time and from the first, into a strictly ascending sequence.
  `println!` is left out, and the function returns the string.

Behaviour of the code worth knowing:

- The index parser's errors are `EmptyIndex`, `IndexContainsDisallowedChars`
  and `IndexExceedsMaxU32Size`.
- `MalformedTimestamp` carries no payload: every shape error of a timestamp
  is the same value.
- `RawSubtitleUnit::try_from` parses neither the index line nor the timing
  line. It rejects an all-whitespace block and a block holding `"\n\n"`,
  and it accepts a block of exactly two lines, with no text lines.
- The program has no code that removes parenthesised text or filters a
  blacklist. The small-kana conversion is a standalone function; `main`
  only calls it in a commented-out line.

## Model

| member | source | states |
|---|---|---|
| Timestamps.Less | src/types/timestamp.rs:9-15 | the derived `Ord`: hours first, then minutes, seconds and milliseconds; Trichotomy, LessTransitive and OrderIsChronological state its properties |
| Timestamps.LessEq | src/types/timestamp.rs:9-15 | `<=` of the derived `Ord`: less or equal as values |
| Timestamps.Trichotomy | src/types/timestamp.rs:9-15 | the derived ordering is total and strict: exactly one of `a < b`, `a == b`, `b < a` holds |
| Timestamps.LessTransitive | src/types/timestamp.rs:9-15 | the derived ordering is transitive |
| Timestamps.OrderIsChronological | src/types/timestamp.rs:9-15 | on timestamps within their semantic bounds, the lexicographic field order is the order of the instants in milliseconds, and equality is equality of instants |
| Timestamps.CheckBounds | src/types/timestamp.rs:83-113 | success exactly when hours ≤ 255, minutes ≤ 59, seconds ≤ 59 and ms ≤ 999, with the fields equal to the values. Otherwise the first failing check in the order hours, minutes, seconds, ms decides the error, and for each field the storage bound comes before the semantic bound |
| Timestamps.FieldsAreDigits | src/types/timestamp.rs:53-60 | in a text of permitted characters with one comma, the split gives two halves, every `:` piece of the first half is a digit string, and so is the second half when it has no `:`. So the `unwrap` of a parse never meets a non-digit |
| Timestamps.Parse | src/types/timestamp.rs:42-55 | `EmptyString` exactly for the empty text. A comma count other than 1 gives `MalformedTimestamp`. `NewlineCharDetected` exactly when there is one comma and a line break. `DisallowedCharacters` exactly when there is one comma, no line break and another character outside `0123456789:,`. A success lies within the semantic bounds |
| Timestamps.ParseColonCount | src/types/timestamp.rs:57-63 | with one comma and only digits and colons, any number of `:` other than two before the comma gives `MalformedTimestamp` |
| Timestamps.ParseShaped | src/types/timestamp.rs:65-104 | on `h:m:s,ms` built from digit fields, the first empty field in the order hours, minutes, seconds, milliseconds is reported, then a `:` after the comma, and otherwise the result is that of the bound checks on the four decimal values |
| Timestamps.ParseOkPieces | src/types/timestamp.rs:57-81 | a successful parse has seen permitted characters, one comma, three non-empty `:` pieces and a non-empty milliseconds part without `:` |
| Timestamps.ParseSound | src/types/timestamp.rs:42-114 | whatever is accepted has the shape `HH:MM:SS,mmm` of digit fields whose decimal values are the result's fields, and the result is within the semantic bounds |
| Timestamps.ParseExactly | src/types/timestamp.rs:42-114 | `Parse(s) == Ok(t)` exactly when `s` is four non-empty digit fields in the shape `HH:MM:SS,mmm` that spell `t`, and `t` is within the semantic bounds |
| Timestamps.FormatParse | src/types/timestamp.rs:42-114 | round trip: the zero-padded `HH:MM:SS,mmm` text of any timestamp with minutes ≤ 59, seconds ≤ 59 and ms ≤ 999 parses back to it |
| Timings.Malformed | src/types/timing.rs:26-30 | `TimingError::malformed` gives a `MalformedTiming` whose message contains both the given message and the original input |
| Timings.Parse | src/types/timing.rs:45-74 | `EmptyTiming` exactly for the empty text. No `-->` gives the "Missing timestamp separator" error, and two non-overlapping `-->` give the "Multiple timestamp separators" error, both echoing the input. A success has start ≤ end and both timestamps within their semantic bounds |
| Timings.SeparatorAt | src/types/timing.rs:50-61 | with exactly one `-->`, at index `i`, the split is the text before it and the text after it |
| Timings.ParseAt | src/types/timing.rs:61-73 | with exactly one `-->`, the start side's timestamp error (trimmed) comes first, then the end side's, each wrapped unchanged in `TimingError::Timestamp`. Then a start later than the end gives the "Start timestamp is later than end timestamp" error, and otherwise the timing of the two parses |
| Timings.ParseOk | src/types/timing.rs:61-73 | a successful parse has a single separator, and its start and end are the parses of the trimmed texts before and after it |
| Timings.ParseFormat | src/types/timing.rs:45-74 | round trip: the timing line of two in-range timestamps parses back to them unless the start is later than the end, in which case the order error echoing the line is returned |
| Timings.ParseExample | src/types/timing.rs:81-87 | `"00:18:25,437 --> 00:18:27,439"` parses to 00:18:25.437 → 00:18:27.439 |
| Timings.ParseReversedExample | src/types/timing.rs:69-71 | `"00:00:02,000 --> 00:00:01,000"` fails with the start-after-end error |
| SrtIndices.PermittedIsDigits | src/types/srt_index.rs:28-29 | the character whitelist `0123456789` is exactly "every character is a decimal digit" |
| SrtIndices.Parse | src/types/srt_index.rs:25-38 | `EmptyIndex` exactly for the empty text. `IndexContainsDisallowedChars` exactly for a non-empty text with a non-digit. `IndexExceedsMaxU32Size` exactly for an all-digit text of value > 2^32 − 1. A success holds the decimal value |
| SrtIndices.ParseExactly | src/types/srt_index.rs:25-38 | `Parse(s) == Ok(n)` exactly when `s` is `n`'s decimal rendering behind some number of leading zeros |
| SrtIndices.ParseTooLarge | src/types/srt_index.rs:32-35 | any value above 2^32 − 1, with any zero padding, is rejected as too large |
| SrtIndices.ParseExamples | src/types/srt_index.rs:25-38 | `"0"`, `"42"` and `"4294967295"` are accepted with their values. `"4294967296"` is too large and `"12a"` has a disallowed character |
| SubtitleSetBuilder.DropLeadingEmpty | src/dataprep/subtitle_set_builder.rs:63 | `remove_empty_first_element`: a first element that is the empty string is removed and nothing else changes; any other sequence, the empty one included, is returned as it is |
| SubtitleSetBuilder.Lines | src/dataprep/subtitle_set_builder.rs:62-63 | a block's lines are its `"\n"` pieces, each trimmed, in order, with the first piece left out exactly when it is all whitespace |
| SubtitleSetBuilder.TryFrom | src/dataprep/subtitle_set_builder.rs:55-70 | an accepted block's index line, timing line and text lines, in this order, are exactly the block's lines |
| SubtitleSetBuilder.TryFromOutcome | src/dataprep/subtitle_set_builder.rs:56-67 | "cannot be empty" exactly for an all-whitespace block. "cannot contain empty newline" exactly for a non-blank block holding `"\n\n"`. Too few lines exactly when neither applies and fewer than two lines remain after the leading blank one is dropped |
| SubtitleSetBuilder.LinesClean | src/dataprep/subtitle_set_builder.rs:62 | every line of a block is free of line breaks and of surrounding whitespace |
| SubtitleSetBuilder.TryFromClean | src/dataprep/subtitle_set_builder.rs:62-67 | every field of an accepted block is free of line breaks and of surrounding whitespace |
| SubtitleSetBuilder.TryFromRender | src/dataprep/subtitle_set_builder.rs:55-70 | round trip: a block of non-empty clean lines, joined by line breaks with or without a leading one, converts back to the same index, timing and text lines |
| SubtitleSetBuilder.TryFromExample | src/dataprep/subtitle_set_builder.rs:54-70 | the commented example, a leading empty line then `266`, a timing and two Japanese lines, converts to those four fields |
| SubtitleSetBuilder.TryFromDocExample | src/dataprep/subtitle_set_builder.rs:5-12 | the documented block `12` / timing / `Hello world!` / `Potential second line` converts to those fields |
| SubtitleSetBuilder.TryFromTwoLines | src/dataprep/subtitle_set_builder.rs:65-67 | a block of only an index and a timing line is accepted with no text lines |
| SubtitleSetBuilder.TryFromOneLine | src/dataprep/subtitle_set_builder.rs:65-67 | a block of a single line is not accepted: it has too few lines |
| Extraction.SplitIntoRawSubtitleUnits | src/main.rs:44-46 | `raw.split("\n\n")` yields at least one block, the whole text when it holds no blank line; SplitIntoRawSubtitleUnitsSpec gives the round trip |
| Extraction.SplitIntoRawSubtitleUnitsSpec | src/main.rs:44-46 | joining the blocks with `"\n\n"` gives the text back, so they are in input order, and no block holds `"\n\n"` |
| Extraction.GetSubtitlesFromUnit | src/main.rs:48-50 | `split('\n').skip(2)`: fewer pieces than the block has lines, none holding a line break |
| Extraction.GetSubtitlesFromUnitSpec | src/main.rs:48-50 | a block with `n` line breaks has `n - 1` text lines when `n ≥ 2` and none otherwise. No text line holds a line break. When there are text lines, the block is two lines followed by exactly these |
| Extraction.GetSubtitlesFromLines | src/main.rs:48-50 | conversely, two break-free lines followed by break-free lines `ls`, joined by line breaks, give `ls` |
| Extraction.GetSubtitlesFromRender | src/main.rs:48-50 | on a rendered well-formed block the text lines agree with the `try_from` conversion's text lines |
| Extraction.FlatMapSubtitles | src/main.rs:33-36 | the `flat_map` over the blocks: no collected line holds a line break |
| Extraction.SubtitleText | src/main.rs:32-37 | split into blocks, keep each block's text lines, join them with `""`; SubtitleTextChars and the SubtitleTextOfUnits lemmas state what the result is |
| Extraction.SubtitleTextChars | src/main.rs:32-37 | the concatenated subtitle text holds no line break and only characters of the file |
| Extraction.FlatMapRenders | src/main.rs:33-36 | the flattened text lines of rendered blocks are the blocks' text lines, block after block |
| Extraction.SubtitleTextOfUnits | src/main.rs:32-37 | for a file of well-formed blocks separated by blank lines, the subtitle text is the in-order concatenation, with no separator, of each block's text lines |
| Extraction.SubtitleTextOfUnitsBlankEnd | src/main.rs:32-37 | the same holds when the file ends in a blank line after its last block: the empty block that `split` yields after it adds no lines |
| Extraction.SubtitleTextOfUnitsNewlineEnd | src/main.rs:32-37 | the same holds when the file ends in one line break after its last block: the last block gains an empty text line, which adds nothing to the joined text |
| Extraction.MiniKanaCharacterToRegular | src/main.rs:108-127 | a key of the table becomes its regular kana, any other character is returned unchanged, so the result is the input or a value of the table |
| Extraction.ConvertMiniKanaToRegular | src/main.rs:89-106 | the conversion keeps the character count, and character `k` of the output is the mapping of character `k` of the input |
| Extraction.ConvertUnchanged | src/main.rs:100-105 | the conversion leaves a text unchanged exactly when each of its characters that is a key maps to itself. In particular a text with no key is unchanged |
| Extraction.ConvertIdempotent | src/main.rs:100-105 | with a table whose values are not keys, the output holds no key and converting it again changes nothing |
| Extraction.MiniKanaTableValuesAreNotKeys | src/main.rs:52-55 | no regular kana of the table is itself a small kana key |
| Extraction.ConvertExample | src/main.rs:16 | the sample line `こうなっちまったら最後―` becomes `こうなつちまつたら最後―` |
| Cleaning.Insert | src/dataprep/cleaning.rs:24-28 | inserting into an ordered set keeps the sequence strictly ascending and adds exactly the new character |
| Cleaning.CollectInto | src/dataprep/cleaning.rs:24-28 | collecting characters into an ordered set keeps it strictly ascending, and its members are the old members and the collected characters |
| Cleaning.DedupeAndSort | src/dataprep/cleaning.rs:24-28 | the result holds exactly the input's characters, strictly ascending by code point, none twice |
| Cleaning.AscendingUnique | src/dataprep/cleaning.rs:24-28 | two strictly ascending sequences with the same characters are equal, so the result is determined by the set of characters |
| Cleaning.DedupeAndSortSameChars | src/dataprep/cleaning.rs:24-28 | texts with the same characters, in any order and with any repeats, give the same result |
| Cleaning.DedupeAndSortFixed | src/dataprep/cleaning.rs:24-28 | a text is its own dedupe-and-sort exactly when it is strictly ascending |
| Cleaning.DedupeAndSortIdempotent | src/dataprep/cleaning.rs:24-28 | applying dedupe-and-sort to its own output returns that output |
| Cleaning.DedupeAndSortExample | src/dataprep/cleaning.rs:24-28 | `"banana"` gives `"abn"` |
| Text.Split | src/main.rs:44-46 | `str::split` with a non-empty pattern: at least one piece; JoinSplit, SplitPiecesFree, SplitSingle, SplitThree and SplitJoin characterise the pieces |
| Text.JoinSplit | src/main.rs:44-46 | joining the pieces of `str::split` with the same pattern gives back the input |
| Text.SplitPiecesFree | src/main.rs:44-46 | no piece of `str::split` contains the pattern |
| Text.SplitSingle | src/types/timing.rs:53 | a split gives one piece exactly when the pattern does not occur |
| Text.SplitThree | src/types/timing.rs:56 | a split gives three or more pieces exactly when the pattern occurs twice without overlapping |
| Text.SplitJoin | src/main.rs:44-46 | splitting a join gives back the pieces, provided each separator is the leftmost match where it was placed |
| Text.Count | src/types/timestamp.rs:43-45 | `chars().filter(..).count()`: never more than the text's length; CountZero, CountAppend and SplitCharCount tie it to occurrences and to `split` |
| Text.SplitCharCount | src/types/timestamp.rs:43-45 | splitting on a character gives one more piece than the character's count |
| Text.Trim | src/types/timing.rs:63 | `str::trim`: leading and then trailing Unicode whitespace removed; TrimSpec and TrimSurrounded state the result |
| Text.TrimSpec | src/types/timing.rs:63 | `trim` leaves no whitespace at either end, gives the empty text exactly for an all-whitespace input, and keeps only the input's characters |
| Text.TrimSurrounded | src/dataprep/subtitle_set_builder.rs:62 | trimming removes exactly the surrounding whitespace and nothing else |
| Text.DecimalValue | src/types/srt_index.rs:32 | the value `parse::<usize>` reads from a digit string, most significant digit first; LeadingZeros and DigitsWithLeadingZeros state its properties |
| Text.LeadingZeros | src/types/srt_index.rs:32 | leading zeros do not change the value `parse::<usize>` reads |
| Text.DigitsWithLeadingZeros | src/types/srt_index.rs:32 | every digit string is its value's rendering behind some leading zeros |

## Left out

- `parse::<usize>().unwrap()` panics on digit strings beyond `usize::MAX`; values are read into unbounded `nat`s, so the model returns the storage-bound error where the program would panic.
- `RawSubtitleUnit::try_from` indexes out of bounds when fewer than two lines remain; the model returns the `TooFewLines` error instead of a panic.
- `remove_empty_first_element` is not defined in the code; it is modelled as dropping one leading empty string.
- The git conflict marker and the duplicate `Timing`/`Timestamp` definitions in `src/dataprep/subtitle_set_builder.rs`: the model reuses the definitions of `src/types`.
- `main`'s file read and its `"\r\n"` to `"\n"` replacement: file I/O and its preparation, outside the modelled composition.
- `ingest_mini_kana_mappings`: JSON file loading; the table is a parameter, with the described table written out as `MiniKanaTable`.
- `println!` in `src/types/timing.rs` and in `helper_dedupe_and_sort`: output only; the computed value is modelled.
- `src/dataprep/parser.rs`, `src/dataprep/ingestion.rs`, `src/dataprep/processing.rs`: stubs, file-system access and JSON loading, with no behaviour to state.
- Parenthetical removal and blacklist filtering: there is no code for them.
- Conversion of a `RawSubtitleUnit` into a `SubtitleUnit`: the code has no such step; only the record shapes are modelled.
