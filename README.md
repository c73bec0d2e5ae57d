# repeater: card extraction and review statistics in Dafny

This project models the core of `repeater`, a spaced-repetition tool that
reads flashcards from markdown files. It covers three parts:

- **Cards** (`src/card.rs`). A `Card` records the file it came from, the
  half-open line range `[start, end)` of its segment, its content and a
  content hash. `CardContent` is either `Basic { question, answer }` or
  `Cloze { text, start, end }`.
- **Extraction** (`src/utils.rs`).
  - `cards_from_md` cuts the lines of a file into segments. The first line
    opens the first segment, whatever it holds; every later segment starts
    at a raw line beginning `Q:` or `C:`.
  - `content_to_card` turns one segment into a card. `parse_card_lines` reads
    the last `Q:`, `A:` and `C:` value of the segment, and `trim_line` trims
    each of them.
  - `find_cloze_ranges` finds the bracket pairs of a cloze text.
  - `get_card_hash` hashes the segment text followed by `"<start>:<end>"`.
- **Statistics** (`src/stats.rs`). `CardStats::update` counts one card into
  several counters:
  - a per-file counter;
  - the New/Young/Mature lifecycle counters;
  - the due-date buckets;
  - two five-bin `Histogram`s.

The files of the project:

| file | module | what it holds |
|---|---|---|
| `wrappers.dfy` | `Wrappers` | `Option` and `Result` |
| `strlib.dfy` | `StrLib` | the parts of Rust's `str` the extractor uses: `trim`, `strip_prefix`, `lines`, UTF-8 byte offsets, decimal rendering |
| `card.dfy` | `Cards` | `Card`, `CardContent`, `CardType` |
| `cardlines.dfy` | `CardLines` | `trim_line`, `parse_card_lines` |
| `cloze.dfy` | `Cloze` | `find_cloze_ranges` |
| `extract.dfy` | `Extract` | `content_to_card`, the `get_card_hash` message, `cards_from_md` |
| `utils_cases.dfy` | `UtilsCases` | the unit tests of `src/utils.rs`, as lemmas |
| `histogram.dfy` | `Histograms` | `Histogram<N>` |
| `stats.dfy` | `Stats` | `CardLifeCycle`, `CardStats`, `CardStats::update` |

The code that works step by step is imperative Dafny, proved against a
specification function:

- `ParseCardLines` against `FieldsOf`;
- `FindClozeRanges` against `ClozeRanges`;
- `CardsFromMd` against `CardsOf`;
- `Histogram.Update` against `Observe`;
- `CardStats.Update` against `Step`.

The pure parts are functions. The lemmas state the properties of those
functions.

How the model represents the source:

- Text is `string`. Whitespace is Rust's `char::is_whitespace`.
- Cloze offsets are UTF-8 byte offsets, as `str::char_indices` reports them.
- The blake3 digest and its hex rendering are one parameter,
  `digest: string -> string`.
- The clock, the `%Y-%m-%d` rendering of a due date and `calculate_recall`
  are parameters, gathered in `Stats.Env`. Timestamps are UTC instants in
  nanoseconds.
- `f64` values are `real`. Integer counters are unbounded.

### Where segments are cut

The first line of a file opens the first segment, whatever it holds. After
that, only a raw line beginning `Q:` or `C:` opens a segment (src/utils.rs:139),
and any other line joins the segment before it, even after a cloze line:

- The lines `Q: what?`, `A: yes`, `C: ping? [pong]`, `just text` are cut into
  two segments, `[(0, 2), (2, 4)]`, and the second one reads as a valid cloze
  card. `UtilsCases.TrailingTextJoinsLastSegment` states this cut.
- Lines before the first marker, such as a `# Notes` heading or a blank line,
  form a segment of their own. It is closed when the first marker appears
  (src/utils.rs:140-141). With no `Q:`, `A:` or `C:` line it makes no card, so
  the whole `cards_from_md` call fails.
  `UtilsCases.LeadingUntaggedLineFailsFile` and
  `UtilsCases.LeadingHeadingFailsFile` state this.

## Model

| member | source | states |
|---|---|---|
| Cards.TypeOf | src/card.rs:12-29 | Each content has exactly one of the two tags: `BasicType` exactly for `Basic`, `ClozeType` exactly for `Cloze`. |
| StrLib.TrimStartSpec | src/utils.rs:54 | `trim_start` drops a prefix made only of whitespace, and what is left does not start with whitespace. |
| StrLib.TrimEndSpec | src/utils.rs:54 | `trim_end` drops a suffix made only of whitespace, and what is left does not end with whitespace. |
| StrLib.TrimSlice | src/utils.rs:54 | `Trim(s)` is a slice `s[a..b]` with only whitespace on either side, and its ends are not whitespace. |
| StrLib.TrimIsTrimOf | src/utils.rs:54 | `Trim(s)` meets the definition of a trim of `s`. It is empty exactly when `s` is all whitespace. |
| StrLib.TrimOfUnique | src/utils.rs:54 | Any string that meets the definition of a trim of `s` equals `Trim(s)`, so `trim` has one outcome. |
| StrLib.StripPrefix | src/utils.rs:70-75 | `strip_prefix` succeeds exactly when the prefix is present, and the prefix followed by the rest is the whole line. |
| StrLib.IndexOf | src/utils.rs:65 | The index found holds `c` and no earlier position does; "not found" means `c` does not occur. |
| StrLib.TrimStripCR | src/utils.rs:65-66 | Removing a final `'\r'` before trimming does not change the trim. |
| StrLib.Lines | src/utils.rs:65 | `str::lines` gives no line exactly for empty text, and never more lines than characters. |
| StrLib.LinesOfJoinLines | src/utils.rs:65 | Lines without `'\n'`, each followed by `'\n'`, split back by `str::lines` into the same lines, minus any final `'\r'`. |
| StrLib.JoinLinesCons | src/utils.rs:146-147 | The text built from a line followed by more lines is that line, a `'\n'`, then the text of the rest. |
| StrLib.Utf8Len | src/utils.rs:39 | A character takes 1 to 4 bytes in UTF-8, and exactly 1 byte when it is ASCII. |
| StrLib.ByteOffsetStrict | src/utils.rs:39 | Byte offsets reported by `char_indices` grow strictly with the character index. |
| StrLib.ByteOffsetPrefix | src/utils.rs:39 | Appending text does not change the byte offsets of the characters already there. |
| StrLib.AsciiByteOffset | src/utils.rs:39 | Up to the first non-ASCII character, the byte offset equals the character index. |
| StrLib.Decimal | src/utils.rs:125 | The decimal rendering of a `usize` is non-empty and has only digits. |
| StrLib.DecimalInjective | src/utils.rs:125 | Different numbers have different decimal renderings. |
| CardLines.TrimLine | src/utils.rs:53-59 | `trim_line` gives `None` exactly for an all-whitespace line, and otherwise a non-empty value with no whitespace at either end. |
| CardLines.TrimLineSpec | src/utils.rs:53-59 | What `trim_line` keeps is a trim of the line: a slice with only whitespace around it, so by `StrLib.TrimOfUnique` the one `str::trim` gives. |
| CardLines.ParseCardLines | src/utils.rs:60-80 | The loop over the lines of `contents` produces the same three fields as reading the lines one at a time with `ApplyLine`. |
| CardLines.ApplyLineField | src/utils.rs:65-76 | One line sets a field exactly when its trimmed form carries that field's prefix, and then to the trimmed remainder; every other field is unchanged. |
| CardLines.LastWriteWins | src/utils.rs:60-80 | Each field holds the value of the last line tagged with its prefix. An empty remainder resets the field to `None`. |
| CardLines.UntaggedFieldIsNone | src/utils.rs:60-80 | A field that no line is tagged for stays `None`. |
| CardLines.FieldsAreTrimmed | src/utils.rs:70-75 | Every value the parser keeps is non-empty and trimmed. |
| CardLines.IgnoredLine | src/utils.rs:66-76 | Blank lines, and lines with none of the three prefixes, change nothing. |
| CardLines.FieldsOfStripCR | src/utils.rs:65-66 | Removing a final `'\r'` from every line does not change what the parser reads. |
| CardLines.FieldsOfJoinedLines | src/utils.rs:146-147 | A segment built by `cards_from_md` parses exactly as the lines it was built from. |
| Cloze.FindClozeRanges | src/utils.rs:35-52 | The scanning loop returns exactly `ClozeRanges(text)`, with byte offsets advancing by each character's UTF-8 length. |
| Cloze.ClozeRangesWellFormed | src/utils.rs:35-52 | Each range starts at a `[` byte and ends at a later `]` byte, with no `]` between them. Ranges are strictly increasing and disjoint. |
| Cloze.FirstClozeRange | src/utils.rs:35-52 | The first range is the first `[` of the text and the first `]` after it. |
| Cloze.ClozeRangesNonEmpty | src/utils.rs:35-52 | There is a range exactly when some `[` is followed later by a `]`. |
| Cloze.ScanRangesGrow | src/utils.rs:39-48 | Scanning further only appends ranges: the ranges of a prefix begin the ranges of the whole text. |
| Cloze.NoCloseNoRange | src/utils.rs:41-47 | Text without `]` adds no range, so an unclosed trailing `[` adds nothing. |
| Cloze.StrayCloseIgnored | src/utils.rs:42-47 | A `]` read while no `[` is pending changes nothing. |
| Extract.ContentToCard | src/utils.rs:81-120 | A card it builds carries the given path and range, the digest of the hashed message, and well-formed content. |
| Extract.BuildCard | src/utils.rs:81-120 | Running the line parser and the bracket scanner produces the same result as `ContentToCard` (through `CardBuilder`, which is `ContentToCard` for one file). |
| Extract.ContentToCardCases | src/utils.rs:90-119 | The result is Basic exactly when question and answer are both present, so Basic wins over a cloze. Otherwise it is a Cloze exactly when the cloze text has a `[`…`]` pair. It fails with the missing-span error when there is a cloze line without a pair, and with `UnableToCreate(contents)` when there is no cloze line. |
| Extract.ContentToCardClozeSpan | src/utils.rs:101-110 | A Cloze card's span is the byte offsets of the first `[` and of the first `]` after it. |
| Extract.ContentToCardIgnoresPath | src/utils.rs:89-97 | The path affects only `filePath`. Success, content, range and hash are the same for every path. |
| Extract.HashMessage | src/utils.rs:122-127 | The message `get_card_hash` hashes extends the segment text, and a `:` follows the text. The hash is `digest` of this message. |
| Extract.RangeTextInjective | src/utils.rs:125 | The `"start:end"` text determines both numbers. |
| Extract.HashMessageRangeInjective | src/utils.rs:122-126 | For the same text, different ranges give different hashed messages. |
| Extract.HashMessageContentInjective | src/utils.rs:122-126 | For the same range, different texts give different hashed messages. |
| Extract.HashMessageJointCollision | src/utils.rs:122-126 | When text and range both vary, messages can coincide: `"x1"` at `2:3` and `"x"` at `12:3`. |
| Extract.SegmentHashMessageInjective | src/utils.rs:122-126 | For segments ending in `'\n'`, as every segment does, the message determines both the text and the range. |
| Extract.Segments | src/utils.rs:137-151 | Segments are never more numerous than lines. A non-empty file has a last segment, and it ends at the last line. |
| Extract.SegmentsPartition | src/utils.rs:137-151 | The segments cut the lines into contiguous, non-empty ranges covering `[0, n)` in order. Every segment but the first starts at a raw `Q:`/`C:` line, and no such line lies inside a segment. |
| Extract.PartitionIsSegments | src/utils.rs:137-151 | That cut is unique: any partition with those properties is `Segments(lines)`. |
| Extract.SegmentsStable | src/utils.rs:137-151 | Reading more lines never changes a segment that is already closed. |
| Extract.CollectOk | src/utils.rs:141 | Collecting results succeeds exactly when every result is `Ok`, and then yields the values in order. |
| Extract.CollectFirstErr | src/utils.rs:141 | A failed collection fails with the error of the first failing result, and every result before it is `Ok`. |
| Extract.CardsOfOk | src/utils.rs:129-155 | A successful run gives one card per segment, in file order. Card ranges are contiguous, non-empty and cover every line, and equal the segments. Each card is `content_to_card` of its segment's text, with the file's path and well-formed content. An empty file gives no cards. |
| Extract.CardsOfAt | src/utils.rs:141 | On success, card `i` is exactly what `content_to_card` builds from segment `i`. |
| Extract.CardsOfErr | src/utils.rs:141 | A failed run fails with the error of the first failing segment, and all earlier segments succeed. |
| Extract.CardsFromMd | src/utils.rs:129-155 | The line-scanning loop over `buffer`, `start_idx` and `last_idx` returns exactly `CardsOf`: the cards of `Segments(lines)`, or the first error. |
| UtilsCases.UntaggedLineFails | src/utils.rs:117-118 | A one-line segment with no `Q:`, `A:` or `C:` prefix fails with `UnableToCreate`. |
| UtilsCases.QuestionAnswerSegment | src/utils.rs:90-100 | `Q: q`, `A: a` and a blank line, with `q` and `a` trimmed, give the Basic card `(q, a)`. |
| UtilsCases.EmptyAnswerSegment | src/utils.rs:72-73 | `Q: q` followed by an `A:` line with nothing after it fails with `UnableToCreate`. |
| UtilsCases.ClozeLineSegment | src/utils.rs:101-110 | A lone `C: text` line gives the Cloze card spanning the first bracket pair of `text`. |
| UtilsCases.EmptySegmentFails | src/utils.rs:169-170 | `""` fails. |
| UtilsCases.UntaggedSegmentFails | src/utils.rs:172-173 | `"what am i doing here"` fails. |
| UtilsCases.QuestionAnswerIsBasic | src/utils.rs:175-182 | `"Q: what?\nA: yes\n\n"` gives the Basic card `("what?", "yes")`. |
| UtilsCases.EmptyAnswerFails | src/utils.rs:184-186 | `"Q: what?\nA: \n\n"` fails. |
| UtilsCases.PingPongPair | src/utils.rs:193-201 | In `ping? [pong]`, the first bracket pair is at characters 6 and 11, which are also bytes 6 and 11. |
| UtilsCases.ClozeLineSpan | src/utils.rs:193-201 | `"C: ping? [pong]"` gives the Cloze card `("ping? [pong]", 6, 11)`. |
| UtilsCases.TrailingTextJoinsLastSegment | src/utils.rs:137-151 | The lines `Q: what?`, `A: yes`, `C: ping? [pong]`, `just text` form the segments `[(0, 2), (2, 4)]`. |
| UtilsCases.UntaggedSegmentLineFails | src/utils.rs:117-118 | An untagged line followed by `'\n'`, as `cards_from_md` buffers it, fails with `UnableToCreate`. |
| UtilsCases.FirstSegmentAlone | src/utils.rs:137-145 | When the second line is a marker, the first segment is the first line alone, `(0, 1)`. |
| UtilsCases.LeadingUntaggedLineFailsFile | src/utils.rs:137-152 | An untagged first line followed by a marker line is a segment `(0, 1)` of its own. The whole file then fails with that segment's `UnableToCreate` error. |
| UtilsCases.LeadingHeadingFailsFile | src/utils.rs:137-152 | A file of `# Notes` followed by `Q: q` and `A: a` fails as a whole, for every `q` and `a`. |
| Histograms.EmptyHistogram | src/stats.rs:28-37 | The default histogram has `n` zero bins, count 0 and sum 0. |
| Histograms.Clamp | src/stats.rs:40 | `clamp(0.0, 1.0)` lies in `[0, 1]`. It keeps values inside that range and sends values below or above it to the nearest end. |
| Histograms.BinIndex | src/stats.rs:41-42 | The bin index is always below `N`. |
| Histograms.BinIndexSpec | src/stats.rs:40-42 | Bin `k` takes exactly the values whose clamped value times `N` lies in `[k, k + 1)`. The last bin also takes `1.0`. |
| Histograms.BinIndexMonotone | src/stats.rs:40-42 | A larger value never lands in a lower bin. |
| Histograms.SumBump | src/stats.rs:43 | Adding 1 to one bin adds 1 to the total of the bins. |
| Histograms.EmptyIsBalanced | src/stats.rs:28-37 | The default histogram's bins add up to its count. |
| Histograms.Observe | src/stats.rs:39-46 | `update` keeps the number of bins, adds 1 to `count` and adds the unclamped value to `sum`. |
| Histograms.ObserveSpec | src/stats.rs:39-46 | `update` adds 1 to exactly the bin `BinIndex` picks and leaves the other bins unchanged. It adds 1 to `count` and the unclamped value to `sum`, and keeps the bins adding up to `count`. |
| Histograms.ObserveCommutes | src/stats.rs:39-46 | Two updates give the same histogram in either order. |
| Histograms.Histogram.Update | src/stats.rs:39-46 | The in-place update of `bins`, `count` and `sum` leaves the histogram at `Observe` of its old value. |
| Histograms.Histogram.Mean | src/stats.rs:47-49 | The mean exists exactly when there is an observation, and then the mean times `count` is `sum`. |
| Stats.Lifecycle | src/stats.rs:58-82 | A card never reviewed is New, whatever its interval. A reviewed card is Mature exactly when its interval is above 21.0, so an interval of exactly 21.0 is Young. |
| Stats.BumpSpec | src/stats.rs:74 | `entry(k).or_insert(0) += 1` adds 1 for `k`, counting an absent key as 0, and leaves every other entry unchanged. |
| Stats.BumpCommutes | src/stats.rs:74 | Two such increments give the same map in either order. |
| Stats.DefaultStats | src/stats.rs:8-19 | The default statistics have every counter at zero, every map empty, and two empty, balanced five-bin histograms. |
| Stats.TruncDiv | src/stats.rs:110-111 | `num_seconds` truncates toward zero: the whole seconds times the unit never exceed the duration in magnitude, and fall short by less than one unit. |
| Stats.ElapsedWholeDays | src/stats.rs:110-111 | A review exactly `d` days ago is `d` days old. |
| Stats.AtLeastZero | src/stats.rs:112 | `max(0.0)` is non-negative, at least its argument, and either the argument or 0. |
| Stats.Step | src/stats.rs:60-114 | An update keeps both histograms non-empty and never changes `total_cards_in_db` or `num_cards`. |
| Stats.StepFilePaths | src/stats.rs:74 | The card's file gains one card and every other file keeps its count. The set of files gains the card's file. |
| Stats.StepLifecycle | src/stats.rs:76-84 | Exactly one lifecycle counter, the card's stage, goes up by one. |
| Stats.StepDue | src/stats.rs:86-104 | No due date, or one at or before now, adds 1 to `due_cards` only. A due date within 7 days adds 1 to its day and to the month. One within 30 days adds 1 to the month only. A later one changes none of these counters. |
| Stats.StepHistograms | src/stats.rs:105-113 | Every card adds `difficulty / 10` to the difficulty histogram. Only a card with a last review adds to the retrievability histogram, at the recall of the non-negative number of days since that review. |
| Stats.StepKeepsBalance | src/stats.rs:39-46 | An update keeps the bins of both histograms adding up to their counts. |
| Stats.UpcomingWeekCommutes | src/stats.rs:94-97 | Two cards' week-bucket increments commute. |
| Stats.RecordRecallCommutes | src/stats.rs:106-113 | Two cards' retrievability observations commute. |
| Stats.StepCommutes | src/stats.rs:60-114 | With the clock fixed, counting two cards in either order gives the same statistics. |
| Stats.CardStats.CountCard | src/stats.rs:71-104 | The counting half of `update` bumps the file and lifecycle counters and the due-date buckets by their functions of the old values. It leaves `total_cards_in_db` and `num_cards` alone. |
| Stats.CardStats.Update | src/stats.rs:60-114 | The in-place update leaves the statistics at `Step` of their old value, and the two histograms stay separate. |

## Left out

- `validate_file_can_be_card` and `is_markdown` (src/utils.rs:9-33) query the file system and library path semantics. They are not modelled.
- `File::open`, `BufReader` and I/O errors from `lines()` in `cards_from_md` (src/utils.rs:130-138) are left out. `Extract.CardsFromMd` takes the file's lines already split.
- The blake3 hash and its hex rendering (src/utils.rs:123-126) are the parameter `digest`. Collision resistance is not modelled; only the hashed message is.
- The `test_file_capture` test (src/utils.rs:204-210) reads `test_data/test.md`. That file is not part of this model.
- `anyhow` error messages are modelled by the `CardError` constructors, not by their text.
- The clock `Utc::now()`, `%Y-%m-%d` formatting and `calculate_recall` from `src/fsrs.rs` are parameters. `src/fsrs.rs` is not part of this model.
- `Histograms.Clamp`: NaN inputs are not modelled, since `real` has no NaN.
- `Histograms.Histogram.Mean`: the NaN of `0.0 / 0.0` with no observations is modelled as `None`.
- `Histograms.ObserveCommutes`: it holds for `real`. `f64` addition of `sum` is not associative, so in the program the sums can differ in the last bits.
- `Stats.StepCommutes`: it inherits the same limitation for the histogram sums.
- `Histograms.Histogram.Update`: the `u32` bins and `u64` count are unbounded, so wrap-around is not modelled.
- `Stats.CardStats.Update`: the `i64` and `usize` counters are unbounded, and the order of the `BTreeMap` behind `upcoming_week` is not modelled; it is a map.
- `Stats.StepFilePaths`: file paths are modelled as `string`, and equal paths are equal strings. `PathBuf` compares paths component by component, so `notes//a.md` and `notes/a.md` are one key of `file_paths` in the program but two in `Stats.StepFilePaths`. Path normalisation and non-UTF-8 paths are not modelled.
