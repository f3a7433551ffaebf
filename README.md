# pocket-translate core, modelled in Dafny

pocket-translate is a browser tool for translating the text of cartridge
game images. It loads an image and guesses its console family from header
magic bytes and the file extension. It infers a byte-to-glyph table from
byte statistics, or loads one from a `.tbl` file. It scans the image for
text runs and lets the user edit their translations. Then it writes the
translations back into a copy of the image and emits the difference as an
IPS patch.

This project models the deterministic core of that tool:

- `rom_utils.dfy`, module `RomUtils`:
  - `detectSystem` is a pure function over the extension and the header guess;
  - `findFreeSpace` is a method with its scanning loop, proved against a
    reference search.
- `table_utils.dfy`, module `TableUtils`: `generateHeuristicTable` as methods
  over `array`/`array2` histograms and the sets and maps it builds, each
  proved equal to a specification function. `table_properties.dfy`, module
  `TableProperties`, proves what the resulting table holds.
- `text_extraction.dfy`, module `TextExtraction`: `extractText` as nested
  `while` loops, proved equal to a step-function specification.
  `text_properties.dfy` proves:
  - `TextProperties`: what every returned record satisfies;
  - `TextExamples`: worked scans that show the scanner's quirks.
- `rom_rebuild.dfy`, module `RomRebuild`: `rebuildRom` writes into an
  `array` copy of the image. `rebuild_properties.dfy`, module
  `RebuildProperties`, states the byte-level effect of each write and the
  shape of the result.
- `ips_patch.dfy`, module `IpsPatch`: the IPS writer and reader. The reader
  patches an `array` in place. `ips_properties.dfy`, module `IpsProperties`,
  proves:
  - that the writer's records are well formed and cover exactly the
    differences;
  - the round trip between writer and reader.
- `app.dfy`, module `TranslatorApp`: the pure helpers of the editor
  component. They are:
  - the `.tbl` loader and its display text, with a round trip between them;
  - the search filter, editing one translation, the JSON export/import
    merge, and the counters.
- `generated_table.dfy`, module `GeneratedTable`: how the generated table is
  shown.
- `jstext.dfy` (`JsText`) and `common.dfy` (`Common`, `ByteBuffer`): the
  JavaScript string operations the code relies on (`trim`, `split`,
  `parseInt(s, 16)`, `toString(16)`, `padStart`, `includes`), and clamped
  stores into a `Uint8Array`.

Modelling choices:

- Bytes are integers in `0..255`.
- A JavaScript value that may be `undefined`, `null` or `NaN` is an
  `Option`. An operation that throws returns a `Result`.
- A `Uint8Array` store outside the array is dropped, as the engine does.
- The tables are dictionaries with integer keys. Where key order is
  observable (`Object.keys`/`Object.entries`), the model keeps the insertion
  order and applies the JavaScript rule: integer-like keys first, ascending,
  then the others in insertion order.

## Model

| member | source | states |
|---|---|---|
| RomUtils.SystemFor | src/utils/romUtils.js:31-50 | the lookup finds a listed system exactly when the extension is not "constructor" or "__proto__" (inherited `Object.prototype` members); every listed system has a non-empty terminator list and the "ascii" encoding |
| RomUtils.DetectSystem | src/utils/romUtils.js:2-51 | the result is a listed system exactly when the extension is not an inherited key; every listed system has a non-empty terminator list and the "ascii" encoding |
| RomUtils.LastPieceSpec | src/utils/romUtils.js:3 | the last piece of `split` is the suffix after the last separator, holds no separator, and is the whole string exactly when there is no separator |
| RomUtils.ExtensionIsAfterLastDot | src/utils/romUtils.js:3 | the extension is the lower-cased text after the last dot, or the whole lower-cased name when it has no dot |
| RomUtils.SystemTerminator | src/utils/romUtils.js:31-50 | the terminator list ignores the header guess; it is undefined exactly for the inherited keys; the other unknown extensions give `[0x00, 0xFF]`; only gb/gbc lists start with 0x50 |
| RomUtils.TerminatorByExtension | src/utils/romUtils.js:31-50 | two files with the same extension get the same terminator list whatever their bytes; it is undefined exactly for "constructor" and "__proto__"; any other unknown extension gives `[0x00, 0xFF]`; the first terminator is 0x50 exactly for gb/gbc |
| RomUtils.NesHeaderDetected | src/utils/romUtils.js:7-10 | a buffer longer than 16 bytes starting `4E 45 53 1A` is named "NES" for the header-aware extensions and for the unknown extensions that are not inherited keys |
| RomUtils.HeaderNames | src/utils/romUtils.js:32-37 | for nes/snes/gb/gbc/gba/nds, and for unknown extensions other than the inherited keys, a header guess becomes the family name |
| RomUtils.HeaderIgnored | src/utils/romUtils.js:7 | buffers of at most 16 bytes, the smd/bin/iso/z64/n64/v64 extensions and the inherited keys give a result independent of the bytes |
| RomUtils.HeaderFixed | src/utils/romUtils.js:38-46 | the fixed-name extensions and the inherited keys ignore the header guess entirely; "constructor" is named "Object" and "__proto__" has no name |
| RomUtils.FirstFreeFromSpec | src/utils/romUtils.js:59-74 | the search from `r` returns the first all-filler 1024-byte window at or after `r`, or `max(0, len - 1024)` when there is none |
| RomUtils.FreeSpaceOfSpec | src/utils/romUtils.js:54-75 | the free-space offset lies in `[0, max(0, len - 1024)]`; it is the smallest start of an all-0x00/0xFF 1024-byte window when one exists, else exactly `max(0, len - 1024)` |
| RomUtils.FindFreeSpace | src/utils/romUtils.js:54-75 | the counting loop with its early return yields exactly that reference offset |
| TableUtils.CountByte | src/utils/tableUtils.js:11 | one `freq[byte1]++` extends every byte count by one more position |
| TableUtils.CountPair | src/utils/tableUtils.js:12 | one `bigramFreq[byte1][byte2]++` extends every pair count by one more position |
| TableUtils.TallyPairs | src/utils/tableUtils.js:3-14 | fresh 256 and 256x256 arrays hold the pass-1 counts: pairs over positions `0..len-2`, bytes likewise, plus the stray increment at index `len - 1` |
| TableUtils.InsertByCountSpec | src/utils/tableUtils.js:22 | inserting an entry with a smaller byte keeps the list ordered by count (ties by byte) and adds exactly that entry |
| TableUtils.SortByCountSpec | src/utils/tableUtils.js:22 | the stable count-descending sort of a byte-ascending list is ordered by count then byte, and is a permutation of its input |
| TableUtils.CollectCandidates | src/utils/tableUtils.js:16-22 | the candidate loop and sort yield the specified candidate list |
| TableUtils.PickTerminator | src/utils/tableUtils.js:29-37 | the terminator loop yields the specified terminator byte, or -1 |
| TableUtils.PickSpace | src/utils/tableUtils.js:44-56 | the diversity loop yields the specified space byte, or -1 |
| TableUtils.PickSpecialBytes | src/utils/tableUtils.js:29-60 | passes 1 and 2 yield the terminator/space table and the set of bytes they take |
| TableUtils.CountUnassigned | src/utils/tableUtils.js:63-68 | pass 3 yields the per-byte counts of the unassigned bytes |
| TableUtils.MapByRank | src/utils/tableUtils.js:75-82 | pass 4 hands out the common characters by rank up to `min(ranked, 74)` |
| TableUtils.GenerateHeuristicTable | src/utils/tableUtils.js:2-91 | the whole generator returns the specified heuristic table |
| TableProperties.CountBeforePositive | src/utils/tableUtils.js:8-11 | a positive count means the byte occurs in the counted prefix |
| TableProperties.BigramBeforeCounts | src/utils/tableUtils.js:8-13 | every adjacent pair visited by pass 1 has a positive bigram count |
| TableProperties.LastByteMiscounted | src/utils/tableUtils.js:14 | for `[5, 7]` the last byte 7 gets no count while byte 1, the length minus one, gets one |
| TableProperties.FrequentHasSuccessor | src/utils/tableUtils.js:48-50 | a byte counted more than once has positive diversity |
| TableProperties.CandidatesBelowSpec | src/utils/tableUtils.js:17-21 | the candidate loop collects, ascending, exactly the bytes counted more than 100 times, with their counts |
| TableProperties.CandidatesSpec | src/utils/tableUtils.js:16-22 | the candidates are exactly the bytes with count > 100, with their counts, ordered by count descending then byte ascending |
| TableProperties.OrderedPositions | src/utils/tableUtils.js:22 | in the sorted list, `x` precedes `y` in the count order exactly when it comes first |
| TableProperties.FindTerminatorSpec | src/utils/tableUtils.js:30-37 | the scan finds nothing exactly when no entry qualifies, else returns the first qualifying entry |
| TableProperties.TerminatorListed | src/utils/tableUtils.js:16-33 | every byte the terminator rule accepts is in the candidate list with its count |
| TableProperties.TerminatorNoneIff | src/utils/tableUtils.js:29-41 | the scan finds no terminator exactly when no byte has count > 1000 and no follower counted > 50 |
| TableProperties.TerminatorBest | src/utils/tableUtils.js:29-41 | a found terminator is acceptable and beats every other acceptable byte by count, then by lower byte |
| TableProperties.TerminatorChoice | src/utils/tableUtils.js:29-41 | the `[END]` byte is the most frequent acceptable byte, lowest on ties, and exists exactly when some byte is acceptable |
| TableProperties.FindSpaceSpec | src/utils/tableUtils.js:46-56 | the strict-maximum scan keeps its start value when nothing beats it, else returns the first entry of maximal diversity |
| TableProperties.ConsideredListed | src/utils/tableUtils.js:46-52 | a considered byte is in the candidate list and beats diversity 0 |
| TableProperties.SpaceNoneIff | src/utils/tableUtils.js:44-60 | the scan finds no space exactly when no byte is considered |
| TableProperties.SpaceBest | src/utils/tableUtils.js:44-60 | a found space is considered and beats every other considered byte by diversity, ties going to the earlier candidate |
| TableProperties.SpaceChoice | src/utils/tableUtils.js:43-60 | the space is a candidate other than the terminator with maximal diversity (earliest on ties), and exists exactly when such a candidate exists |
| TableProperties.SpecialTableSpec | src/utils/tableUtils.js:38-60 | after pass 2 the table holds exactly the terminator (`[END]`) and the space (" "), which are distinct bytes |
| TableProperties.CharFreqSpec | src/utils/tableUtils.js:63-68 | `charFreq` holds exactly the unassigned bytes that occur, each with its full count |
| TableProperties.EntriesFromSpec | src/utils/tableUtils.js:73 | `Object.entries` of the count map lists each key once, ascending, with its count |
| TableProperties.RankedSpec | src/utils/tableUtils.js:62-73 | the ranking lists every unassigned occurring byte once with its full count, count descending, ties ascending |
| TableProperties.AssignRanksSpec | src/utils/tableUtils.js:75-82 | rank assignment keeps earlier entries, gives the `k`-th ranked byte `commonChars[k]`, and adds nothing else |
| TableProperties.RankedTableSpec | src/utils/tableUtils.js:70-82 | after pass 4 the keys are the special bytes plus the first `min(ranked, 74)` ranked bytes, each ranked byte holding one character |
| TableProperties.WithControlsSpec | src/utils/tableUtils.js:85-88 | the control step keeps every entry and adds `[LF]`, `[CR]`, `[PLAYER]`, `[ITEM]` only where absent |
| TableProperties.TableKeys | src/utils/tableUtils.js:2-91 | the table's keys are exactly the terminator, the space, the ranked bytes and 0x0A/0x0D/0x01/0x02; every key is in 0..255 |
| TableProperties.TableValues | src/utils/tableUtils.js:39-82 | `[END]` is held by the terminator and no other key; the space maps to " "; the `k`-th ranked byte maps to `commonChars[k]` |
| TableProperties.TableEndValues | src/utils/tableUtils.js:39 | a key maps to `[END]` exactly when it is the terminator |
| TableProperties.TableSpaceValue | src/utils/tableUtils.js:58 | the space byte maps to " " |
| TableProperties.TableRankValues | src/utils/tableUtils.js:75-82 | the `k`-th ranked byte maps to `commonChars[k]` |
| TableProperties.TableControls | src/utils/tableUtils.js:84-88 | each control byte carries its placeholder unless an earlier pass took it |
| TableProperties.EmptyRomTable | src/utils/tableUtils.js:2-91 | an empty buffer yields exactly `{0x0A: [LF], 0x0D: [CR], 0x01: [PLAYER], 0x02: [ITEM]}` |
| TextExtraction.Step | src/utils/textExtraction.js:22-84 | a pass of the inner loop that does not break advances the cursor by exactly one |
| TextExtraction.StepByte | src/utils/textExtraction.js:38-83 | the glyph/ASCII/newline/repeat part of a pass that does not break advances the cursor by exactly one |
| TextExtraction.DropNewlines | src/utils/textExtraction.js:87 | dropping leading line feeds yields a suffix that does not start with one, and everything dropped is a line feed |
| TextExtraction.CollapseNewlines | src/utils/textExtraction.js:87 | `replace(/\n+/g, ' ')` leaves no line feed and never lengthens the text |
| TextExtraction.Classify | src/utils/textExtraction.js:95-97 | dialogue exactly when longer than 30 characters; menu exactly when not dialogue and starting with a menu word, case-insensitively |
| TextExtraction.StepContinues | src/utils/textExtraction.js:22-84 | a pass that does not break keeps the run invariant: text start, glyph count and last glyph position stay consistent |
| TextExtraction.StepStops | src/utils/textExtraction.js:22-84 | a pass that breaks leaves a finished run: cursor within the end, and after a terminator the byte before the cursor is in the terminator list |
| TextExtraction.RunFromSpec | src/utils/textExtraction.js:13-84 | every run ends inside the scanned range, starts its text at or after where it began, and a run closed by a terminator ends just past it |
| TextExtraction.ScanCtx | src/utils/textExtraction.js:6-11 | the scanned end is clamped to the buffer length and the length cap to 1024 |
| TextExtraction.ScanByte | src/utils/textExtraction.js:23-84 | one pass of the inner loop body computes the specified step |
| TextExtraction.ScanGlyph | src/utils/textExtraction.js:38-83 | the body after the terminator check computes the specified step |
| TextExtraction.ScanRun | src/utils/textExtraction.js:14-84 | the inner loop, started at `i` with `lastByte` fixed to the byte before `i`, computes the specified run |
| TextExtraction.ClassifyText | src/utils/textExtraction.js:95-97 | the in-code classification equals `Classify` |
| TextExtraction.BuildRecord | src/utils/textExtraction.js:95-109 | the record built for a kept run, and whether its kind is the one requested (`all` or equal names) |
| TextExtraction.EmitSkipsShort | src/utils/textExtraction.js:86 | a run with fewer than `minLength` glyphs or a text longer than the cap adds nothing |
| TextExtraction.EmitRun | src/utils/textExtraction.js:86-113 | the filter-and-push code computes the specified emission |
| TextExtraction.ScanFromUnfold | src/utils/textExtraction.js:13-118 | one outer iteration runs the inner loop, emits, and continues from `max(i, textStart + 1)` until the end |
| TextExtraction.ExtractText | src/utils/textExtraction.js:2-121 | the nested loops return exactly the specified record list |
| TextProperties.CleanShorter | src/utils/textExtraction.js:87 | cleaning never lengthens a text |
| TextProperties.CollapseFirst | src/utils/textExtraction.js:87 | collapsing line feeds keeps a first character that is not a line feed |
| TextProperties.CollapseLast | src/utils/textExtraction.js:87 | collapsing line feeds keeps a last character that is not a line feed |
| TextProperties.CollapseNoNewline | src/utils/textExtraction.js:87 | a text without line feeds is left unchanged |
| TextProperties.CleanSpec | src/utils/textExtraction.js:87 | the cleaned text has no line feed, is no longer than the raw text, is empty exactly when the raw text is all whitespace, has no whitespace at either end, and cleaning it again changes nothing |
| TextProperties.EmitSpec | src/utils/textExtraction.js:86-113 | a finished run adds nothing or one well-formed record spanning the run, carrying its cleaned text and raw length, with the byte before its end as terminator exactly when a terminator closed the run and `null` otherwise, new unless repeats are allowed |
| TextProperties.EmitAppends | src/utils/textExtraction.js:91-109 | a record that is added starts at the run's text start, ends at its cursor, carries the cleaned text and the raw length, has terminator `data[i - 1]` exactly when the run was closed by a terminator and `null` otherwise, and repeats no earlier text unless repeats are allowed |
| TextProperties.EmittedRecordOk | src/utils/textExtraction.js:86-109 | an added record is well formed |
| TextProperties.NewRecordOk | src/utils/textExtraction.js:99-109 | a record built from a run that passes the filters satisfies the record invariant: offset label, no line feed, not a repeated character, not all digits, length bounds, kind, and a terminator only as the in-list byte just before the end (which runs get one is stated by EmitAppends) |
| TextProperties.SortedSnoc | src/utils/textExtraction.js:100 | pushing a record that starts after every earlier record ends keeps the list sorted and non-overlapping |
| TextProperties.DistinctSnoc | src/utils/textExtraction.js:91-94 | pushing a record with a new text keeps the texts distinct |
| TextProperties.EmitKeepsInv | src/utils/textExtraction.js:86-117 | one outer iteration keeps the found records and the scan invariant, with the cursor moved on |
| TextProperties.EmitFromRun | src/utils/textExtraction.js:13-109 | the record one outer iteration adds, if any, is the record of the run read from that cursor, with its terminator set exactly when a terminator closed the run |
| TextProperties.ScanFromSpec | src/utils/textExtraction.js:13-118 | the outer loop keeps earlier records; every record is well formed and is the record of a run read from a cursor in the range, terminated exactly when that run was; records are sorted, and distinct unless repeats are allowed |
| TextProperties.ExtractSpec | src/utils/textExtraction.js:2-121 | every record lies in `[start, min(end, length)]`, has pre-trim length at most `min(maxLength, 1024)`, is well formed, and is the record of the run read from some cursor at or after `start`: same span, cleaned text and length, terminator equal to the byte before its end exactly when a terminator closed that run, `null` otherwise; records are sorted, non-overlapping, and distinct unless repeats are allowed |
| TextProperties.ExtractEmpty | src/utils/textExtraction.js:9-10 | `start >= end` or `start >= length` gives no records |
| TextExamples.RepeatFirstRun | src/utils/textExtraction.js:26-30 | on `41 00 00 00 00 00 42 43 00`, the first run reads "A" and stops just past the terminator |
| TextExamples.RepeatSecondRun | src/utils/textExtraction.js:53-62 | the second run compares against the byte before the run, counts four repeats and aborts at 6 |
| TextExamples.RepeatThirdRun | src/utils/textExtraction.js:116 | after the abort the next run starts at 7 and reads "C" |
| TextExamples.SkipAfterRepeatAbort | src/utils/textExtraction.js:53-117 | the whole scan yields "A" and "C": the byte right after a repeat abort is never read |
| TextExamples.ClosedWithoutRecord | src/utils/textExtraction.js:27-86 | two line feeds and a terminator close a run under `minLength` 2 but yield no record, since line feeds are not glyphs |
| TextExamples.EmitNew | src/utils/textExtraction.js:86-109 | a run with enough glyphs whose clean text is new and unfiltered adds exactly its record |
| TextExamples.EmitA | src/utils/textExtraction.js:100-109 | the record for "A": offset "0x000000", span 0..2, terminator 0x00 |
| TextExamples.EmitC | src/utils/textExtraction.js:100-109 | the record for "C": offset "0x000007", span 7..9, appended after "A" |
| TextExamples.ExampleOffsets | src/utils/textExtraction.js:101 | the offset labels of 0 and 7 are "0x000000" and "0x000007" |
| TextExamples.SingleLetterText | src/utils/textExtraction.js:87-97 | a one-letter text survives cleaning, is not filtered, and is a system text |
| TextExamples.LetterPairText | src/utils/textExtraction.js:87-97 | a two-letter text that cannot start a menu word survives cleaning, is not filtered, and is a system text |
| TextExamples.PairNotMenu | src/utils/textExtraction.js:97 | a two-letter text whose first letter is not N or O matches no menu word |
| TextExamples.TwoTextsFirstRun | src/utils/textExtraction.js:22-30 | on `41 42 00 43 44 00` the first run reads "AB" and is closed by the terminator at 2 |
| TextExamples.TwoTextsSecondRun | src/utils/textExtraction.js:22-30 | the second run starts at 3, reads "CD" and is closed by the terminator at 5 |
| TextExamples.EmitAB | src/utils/textExtraction.js:100-109 | the record for "AB": offset "0x000000", span 0..3, length 2, terminator 0x00 |
| TextExamples.EmitCD | src/utils/textExtraction.js:100-109 | the record for "CD": offset "0x000003", span 3..6, length 2, terminator 0x00, appended after "AB" |
| TextExamples.TwoTerminatedTexts | src/utils/textExtraction.js:2-121 | with minLength 1, `41 42 00 43 44 00` yields exactly "AB" at 0..3 and "CD" at 3..6, each recording the 0x00 that closed it |
| RomRebuild.BlockFor | src/utils/patchUtils.js:38-69 | a block keeps the original and translated texts; it is relocated exactly when the bytes exceed the span; then it covers `[f, f + n)`, otherwise `[start, start + n)` |
| RomRebuild.CopyBytes | src/utils/patchUtils.js:19-23 | the copy loop stores the bytes from `pos` on, dropping stores outside the array |
| RomRebuild.StoreByte | src/utils/patchUtils.js:27 | one typed-array store, dropped outside the array |
| RomRebuild.WriteInPlace | src/utils/patchUtils.js:17-35 | the fit branch writes text, terminator and 0xFF fill as `WriteFit` says |
| RomRebuild.WriteToFreeSpace | src/utils/patchUtils.js:46-61 | the overflow branch writes text and terminator at the free space and the pointer at the start, as `WriteRelocated` says |
| RomRebuild.NewBlock | src/utils/patchUtils.js:38-69 | the pushed block is the one `BlockFor` describes |
| RomRebuild.WriteTranslation | src/utils/patchUtils.js:17-62 | the image after one non-blank translation is its in-place write or its relocation |
| RomRebuild.ApplyTranslation | src/utils/patchUtils.js:7-71 | one `forEach` callback leaves the specified image and returns the specified blocks |
| RomRebuild.RebuildRom | src/utils/patchUtils.js:2-77 | copies the image, computes the free space once and returns the replay of every translation |
| RebuildProperties.WriteFitSpec | src/utils/patchUtils.js:17-35 | the in-place write keeps the length: bytes `[s, s+n)` hold the text, `s+n` the terminator, `[s+n+1, s+span)` 0xFF, out-of-range stores are dropped, all else unchanged |
| RebuildProperties.WriteRelocatedSpec | src/utils/patchUtils.js:44-61 | the relocating write keeps the length: `[f, f+n)` hold the text, `f+n` the terminator, `s` and `s+1` the pointer bytes, all else unchanged |
| RebuildProperties.PointerLittleEndian | src/utils/patchUtils.js:60-61 | the two pointer bytes `f & 0xFF`, `(f >> 8) & 0xFF` read back little-endian as `f mod 65536` |
| RebuildProperties.WritesKeepLength | src/utils/patchUtils.js:17-61 | either write keeps the image length |
| RebuildProperties.ApplyOneShape | src/utils/patchUtils.js:7-71 | one callback keeps the image length and adds no block for a blank translation, else exactly its `BlockFor` block |
| RebuildProperties.ReplaySpec | src/utils/patchUtils.js:7-71 | the replay keeps the length and adds one block per non-blank translation, in order |
| RebuildProperties.RebuildSpec | src/utils/patchUtils.js:2-77 | the result has the input's length and one block per non-blank translation in order; every relocated block starts at the single free-space offset of the original image |
| RebuildProperties.BlankSkipped | src/utils/patchUtils.js:8 | a blank or whitespace-only translation changes no byte and adds no block |
| RebuildProperties.FitInPlace | src/utils/patchUtils.js:17-35 | a fitting translation with parsed start `s` is written in place at `s` |
| RebuildProperties.Overflow | src/utils/patchUtils.js:44-69 | an overflowing translation goes to the free space `f`, its block is `{f, f+n, relocated}`, and every byte is as `WriteRelocatedSpec` says |
| RebuildProperties.UnparsedOffset | src/utils/patchUtils.js:10-35 | a fitting translation whose label does not parse changes no byte |
| RebuildProperties.StartFromLabel | src/utils/patchUtils.js:10 | for a label made by the extractor, the parsed write position is the text's start byte |
| IpsPatch.ModBytes | src/utils/patchUtils.js:97 | the payload read from `modified` has one byte per position |
| IpsPatch.RunEndFrom | src/utils/patchUtils.js:94-100 | the inner loop stops within `original` |
| IpsPatch.EncodeRecordsSnoc | src/utils/patchUtils.js:120-132 | serialising one more record appends its bytes |
| IpsPatch.CollectRun | src/utils/patchUtils.js:90-100 | the inner loop stops where the specification says and collects the `modified` bytes of the run |
| IpsPatch.AppendRecord | src/utils/patchUtils.js:121-131 | one record appends its 3-byte offset, 2-byte length and payload |
| IpsPatch.WriteRecords | src/utils/patchUtils.js:120-132 | the record loop appends the serialisation of every record |
| IpsPatch.GenerateIpsPatch | src/utils/patchUtils.js:80-141 | the writer returns the specified name and "PATCH" + records + "EOF" |
| IpsPatch.PatchBytes | src/utils/patchUtils.js:225-229 | a payload read from the patch has exactly the record's length |
| IpsPatch.WriteRecord | src/utils/patchUtils.js:225-229 | the payload loop writes the payload at the record offset, dropping stores outside the image |
| IpsPatch.ApplyRecord | src/utils/patchUtils.js:212-234 | one record moves the cursor forward and leaves the rest of the reader's work unchanged |
| IpsPatch.ApplyRecords | src/utils/patchUtils.js:202-235 | the record loop patches the image in place as the reader specification says |
| IpsPatch.ApplyIpsPatch | src/utils/patchUtils.js:194-238 | the reader throws on a missing header, else returns the patched copy |
| IpsProperties.RunEndSpec | src/utils/patchUtils.js:94-100 | a run is at most 65535 bytes, takes only differing positions, and stops at an equal byte, the end, or the cap |
| IpsProperties.DiffRecordsOk | src/utils/patchUtils.js:88-107 | every record has 1..65535 payload bytes inside `original`, all at differing positions, carrying `modified`'s bytes |
| IpsProperties.DiffAscending | src/utils/patchUtils.js:88-117 | the records are ascending and disjoint |
| IpsProperties.DiffCovers | src/utils/patchUtils.js:88-117 | a position differs exactly when some record covers it |
| IpsProperties.DiffSpec | src/utils/patchUtils.js:88-117 | the records are well formed, ascending, disjoint, and cover exactly the differing positions |
| IpsProperties.NoDiffWhenEqual | src/utils/patchUtils.js:88-110 | identical images yield no records |
| IpsProperties.GenerateShape | src/utils/patchUtils.js:80-141 | the patch starts with "PATCH", ends with "EOF", and is exactly those 8 bytes for identical images |
| IpsProperties.ThreeBytes | src/utils/patchUtils.js:122-124 | three big-endian bytes read back an offset below 2^24 |
| IpsProperties.TwoBytes | src/utils/patchUtils.js:127-128 | two big-endian bytes read back a length below 2^16 |
| IpsProperties.DecodeStep | src/utils/patchUtils.js:204-234 | the reader decodes one serialised record back to its offset and payload and moves past it |
| IpsProperties.DecodeRecords | src/utils/patchUtils.js:204-235 | the reader applies every serialised record in order and stops at "EOF", if no offset reads as "EOF" |
| IpsProperties.ApplyDiff | src/utils/patchUtils.js:88-107 | writing the found records into an image that holds `original` yields `modified` from the start offset on |
| IpsProperties.ApplyFromLength | src/utils/patchUtils.js:201-237 | the reader never changes the image length |
| IpsProperties.ApplySpec | src/utils/patchUtils.js:194-238 | the reader throws exactly when the first five bytes are not "PATCH"; otherwise the result has the original's length |
| IpsProperties.RoundTrip | src/utils/patchUtils.js:80-238 | for equal-length images of at most 0x454F46 bytes, applying the generated patch to the original gives the modified image |
| IpsProperties.RunLengthRecordIgnored | src/utils/patchUtils.js:231-234 | a zero-length (run-length) record is skipped, not decoded: its fill is never written |
| IpsProperties.PatchName | src/utils/patchUtils.js:138 | "game.nes" becomes "game.ips"; a dot before a slash is kept; a bare trailing dot is kept |
| JsText.TrimStart | src/utils/patchUtils.js:8 | dropping leading whitespace yields a suffix that starts with a non-whitespace character, all dropped characters being whitespace |
| JsText.TrimEnd | src/utils/patchUtils.js:8 | dropping trailing whitespace yields a prefix that ends with a non-whitespace character, all dropped characters being whitespace |
| JsText.TrimEmptyIff | src/utils/patchUtils.js:8 | a string trims to "" exactly when all of it is whitespace |
| JsText.TrimEnds | src/components/App.js:143 | a non-empty trimmed string has no whitespace at either end |
| JsText.TrimOfTrimmed | src/components/App.js:143 | a string without whitespace at its ends is its own trim |
| JsText.TrimIdempotent | src/components/App.js:143 | trimming twice is trimming once |
| JsText.TrimChars | src/components/App.js:143 | trimming only removes characters |
| JsText.TrimDropsLeading | src/components/App.js:143 | leading whitespace does not change the trim |
| JsText.TrimDropsTrailing | src/components/App.js:143 | trailing whitespace does not change the trim |
| JsText.ToLower | src/components/App.js:283 | lower-casing keeps the length and folds each character |
| JsText.ContainsIff | src/components/App.js:283-285 | `includes` holds exactly when the term occurs at some position |
| JsText.Split | src/components/App.js:145 | the pieces are at least one, hold no separator, number at least two when the separator occurs, and are the whole string otherwise |
| JsText.SplitChars | src/components/App.js:145 | every character of a piece comes from the split string |
| JsText.SplitAppend | src/components/App.js:145 | splitting `a + sep + b` with no separator in `a` gives `a`, then the pieces of `b` |
| JsText.HexUpper | src/components/App.js:164 | `toString(16).toUpperCase()` of a non-negative integer is a non-empty run of hex digits |
| JsText.PadStart | src/components/App.js:164 | `padStart` pads on the left to the width and keeps the string as its suffix |
| JsText.HexValueOfHexUpper | src/components/App.js:164 | the hex digits of `n` read back as `n` |
| JsText.HexValueLeadingZeros | src/components/App.js:164 | leading zeros do not change a hex value |
| JsText.ParseAllHex | src/components/App.js:146 | `parseInt(p, 16)` of a non-empty run of hex digits is its value |
| JsText.ParseUnsigned | src/components/App.js:146 | unsigned text parses as the longest hex prefix after an optional `0x`, or NaN when that prefix is empty |
| JsText.PaddedHexRoundTrip | src/components/App.js:164 | zero-padded upper-case hex parses back to its value |
| JsText.OffsetRoundTrip | src/utils/patchUtils.js:10 | the label `0x` + six padded digits, with the `0x` dropped, parses back to the start byte |
| ByteBuffer.Repeat | src/utils/patchUtils.js:31-35 | the fill is `count` copies of the value, nothing for a non-positive count |
| ByteBuffer.WriteAtSpec | src/utils/patchUtils.js:19-23 | a run of clamped stores keeps the length and changes exactly the in-range positions it covers |
| ByteBuffer.WriteAtSnoc | src/utils/patchUtils.js:19-23 | one more store extends a run of stores |
| TranslatorApp.Put | src/components/App.js:150 | `table[k] = v` keeps a well-formed table well formed |
| TranslatorApp.IndexKeys | src/components/App.js:158 | the first part of `Object.keys` holds only array-index keys |
| TranslatorApp.OtherKeys | src/components/App.js:158 | the second part of `Object.keys` holds only other keys |
| TranslatorApp.InsertMultiset | src/components/App.js:158 | insertion adds exactly one element |
| TranslatorApp.InsertAscending | src/components/App.js:158 | insertion keeps a list ascending |
| TranslatorApp.SortSpec | src/components/App.js:158 | the ascending sort is an ascending permutation |
| TranslatorApp.PartitionKeys | src/components/App.js:158 | index keys and other keys together are the key list |
| TranslatorApp.ObjectKeysSpec | src/components/App.js:158 | `Object.keys` lists every key exactly once, so `entryCount` is the number of distinct keys; all-byte keys come ascending |
| TranslatorApp.ParseTable | src/components/App.js:139-153 | the loaded table is well formed |
| TranslatorApp.LoadTable | src/components/App.js:139-158 | the loop over the lines builds the specified table, and `entryCount` is its number of keys |
| TranslatorApp.AssignWellFormed | src/components/App.js:142-153 | the assignments keep the table well formed |
| TranslatorApp.AssignKeys | src/components/App.js:142-153 | a key is present exactly when some line defines it |
| TranslatorApp.AssignLast | src/components/App.js:150 | each key holds the glyph of the last line that defines it |
| TranslatorApp.AssignSpec | src/components/App.js:142-153 | a key is present exactly when some line defines it, and holds the glyph of the last such line |
| TranslatorApp.LineGlyph | src/components/App.js:143-147 | a glyph a line defines is trimmed and holds no `=` or newline |
| TranslatorApp.ParsedGlyphs | src/components/App.js:139-153 | every glyph of a loaded table is of that form |
| TranslatorApp.ParsePrefixedHex | src/components/App.js:146 | `0x` followed by hex digits parses as their value |
| TranslatorApp.PaddedDigits | src/components/App.js:164 | the padded key has at least two digits, all hex |
| TranslatorApp.LabelParses | src/components/App.js:164 | the `0xHH` label of a non-negative key parses back to the key |
| TranslatorApp.LabelChars | src/components/App.js:164 | the label starts `0x` and holds no whitespace, `=` or newline |
| TranslatorApp.NotSkipped | src/components/App.js:144 | a line starting `0x` and holding an `=` is not skipped |
| TranslatorApp.EntryTrim | src/components/App.js:143 | a display line trims to itself, less the space after an empty glyph |
| TranslatorApp.EntrySplit | src/components/App.js:145 | a display line splits at its one `=` into label and glyph part |
| TranslatorApp.EntryLineRoundTrip | src/components/App.js:142-151 | a display line `0xHH = glyph` parses back to its key and glyph |
| TranslatorApp.SplitJoin | src/components/App.js:139 | splitting newline-terminated lines at `\n` gives the lines and a final empty piece |
| TranslatorApp.BodyLoads | src/components/App.js:164 | each display line holds no newline and parses back to its entry |
| TranslatorApp.DisplayBodies | src/components/App.js:163-164 | one display line per key |
| TranslatorApp.JoinLinesSnoc | src/components/App.js:164 | appending one line appends it and a newline |
| TranslatorApp.JoinLinesStep | src/components/App.js:164 | the display text after one more line |
| TranslatorApp.FormatTable | src/components/App.js:162-165 | the display loop builds one `0xHH = glyph` line per `Object.entries` item, in key order |
| TranslatorApp.AssignEntries | src/components/App.js:142-153 | assigning one entry per key, in any order, gives back the map |
| TranslatorApp.DisplayLines | src/components/App.js:162-165 | the display text splits at newlines into the display lines and a final empty piece |
| TranslatorApp.DisplayEntries | src/components/App.js:162-165 | each display line defines its key's entry, and the final piece defines nothing |
| TranslatorApp.DisplayRoundTrip | src/components/App.js:139-165 | loading the display text gives back the table, for non-negative keys and loadable glyphs |
| TranslatorApp.ReloadDisplay | src/components/App.js:139-165 | loading the display of a loaded table with non-negative keys gives the same table |
| TranslatorApp.FilterMatchingSpec | src/components/App.js:282-286 | the filter keeps, in order, exactly the texts that match |
| TranslatorApp.SearchSpec | src/components/App.js:277-290 | a blank term keeps every text; otherwise the result is the order-preserving sublist whose original text, translation or offset contains the term, case-insensitively |
| TranslatorApp.UpdateTranslation | src/components/App.js:299-305 | the list keeps its length; only `translatedText` of items with the given id changes, to the new text |
| TranslatorApp.CountTranslated | src/components/App.js:581 | the translated count is at most the number of texts |
| TranslatorApp.Stats | src/components/App.js:580-587 | `total` is the number of texts; `translated + untranslated == total`; `translated` counts non-blank translations |
| TranslatorApp.UpdateAbsent | src/components/App.js:300-302 | updating an id no text carries changes nothing |
| TranslatorApp.UniqueTail | src/components/App.js:300-302 | distinct ids stay distinct in the tail, which lacks the head's id |
| TranslatorApp.UpdateCount | src/components/App.js:580-587 | editing text `i` moves the translated count by that text's change alone |
| TranslatorApp.UpdateStats | src/components/App.js:299-305 | editing one text keeps `total` and moves `translated` by the change in that text |
| TranslatorApp.ExportTexts | src/components/App.js:556-561 | the export has one entry per text, with its offset |
| TranslatorApp.FindByOffset | src/components/App.js:325 | `find` returns the first entry with the offset, or nothing when no entry has it |
| TranslatorApp.MergeImport | src/components/App.js:324-327 | only `translatedText` changes; texts without a match are unchanged; matched texts take the first match's translation, or "" |
| TranslatorApp.ExportedEntry | src/components/App.js:556-561 | entry `k` of the export carries text `k`'s translation |
| TranslatorApp.ImportedAt | src/components/App.js:324-327 | with distinct offsets, text `k` takes the translation of entry `k` of the export |
| TranslatorApp.ExportImportRoundTrip | src/components/App.js:324-327 | importing the export of a list with distinct offsets into a list with the same offsets copies every translation across |
| TranslatorApp.ImportOwnExport | src/components/App.js:319-327 | importing a list's own export changes nothing |
| GeneratedTable.GeneratedDisplayOrder | src/components/App.js:254-264 | the generated table's display lists every key once, in ascending byte order, whatever the insertion order; `entryCount` is the number of keys |
| GeneratedTable.SpaceLineReadsEmpty | src/components/App.js:256 | the display line of a byte mapped to " " reads back with an empty glyph |

## Left out

- `TextEncoder` is not modelled. The encoded bytes come from a function parameter `encode` of `RomRebuild.RebuildRom`, and UTF-8 itself is not part of this model.
- The `setTimeout` yields in `generateIpsPatch` are left out, and so is the chunked, asynchronous driving of extraction in the editor. They are scheduling only; the model is the synchronous computation.
- `generateXDeltaPatch`, `generateBpsPatch` and `applyPatch` are left out. They wrap `Xdelta`/`BPS` objects whose code is not part of this model.
- Browser and file I/O is left out: `FileReader`, `Blob`, download links, `JSON.parse`/`JSON.stringify`, the date in the export. `TranslatorApp.ImportJson` starts from the parsed `texts` array (or its absence), and `TranslatorApp.LoadTable` starts from the file's text.
- React state is not modelled: `setSearchIndex`, `setCurrentPage`, pagination, `setFilteredTexts` as a separate list, success and error messages, zoom. `updateTranslation` applies the same map to both lists, so one `TranslatorApp.UpdateTranslation` covers both.
- `toLowerCase` is modelled for ASCII only (`JsText.ToLower`). `trim` removes the ECMAScript WhiteSpace and LineTerminator code points, listed one by one in `JsText.IsJsWhitespace`. No Unicode normalisation is done.
- `parseInt` is modelled as an unbounded integer. Past 2^53 JavaScript loses precision, which the model does not reproduce.
- `RomUtils.DetectSystem` takes the buffer as a value. The source's `data &&` test for a missing buffer is not modelled.
- `TextExtraction.ExtractText` and `RomRebuild.RebuildRom` take a listed `RomUtils.SystemInfo`. For the extensions "constructor" and "__proto__", `detectSystem` returns an inherited object member without a terminator list (`RomUtils.Detection.Inherited`); the source then throws a `TypeError` at `terminator.includes` or `terminator[0]`, and that failure is not modelled.
- `RomRebuild.RebuildRom` computes the free space with `RomUtils.FindFreeSpace`. `patchUtils.js` calls `findFreeSpace` without importing it, so the shipped `rebuildRom` throws a `ReferenceError` on every call, which the editor reports as a build error; the model gives the result the call evidently intends.
- `TextExtraction.Step`, `TextExtraction.Keeps`, `TextExtraction.Classify` and `TextExtraction.NewRecord` count characters as Unicode scalar values. JavaScript's `.length` and its non-`u` regular expressions count UTF-16 code units, so a glyph outside the Basic Multilingual Plane counts twice in the source for `minLength`, `maxLength`, the 30-character dialogue test and the stored `length`, and four such glyphs in a row do not match `/^(.)\1{3,}$/` in the source although `TextExtraction.RepeatedChar` holds for them. Texts made of BMP characters, which covers every ASCII fallback, agree.
- `TextExtraction.ExtractText` takes `start` as a natural number. A negative `start` would read `data[-1]` as `undefined`, which is not modelled (the editor always passes 0 or a chunk start).
- `TranslatorApp.Stats` treats `translatedText` as a string. A text whose translation is `undefined` would make the source throw, and that case is not modelled.
- `IpsPatch.EncodeRecord` uses exact division for `>>`. JavaScript's `>>` works on 32-bit values, so offsets of 2^31 or more are not modelled (images that large are out of scope).
- `RebuildProperties.FitInPlace` states only the image after an in-place write. The block it adds is stated by `RomRebuild.BlockFor` and `RebuildProperties.ApplyOneShape`.
- `TextExtraction.StepContinues` and `TextExtraction.StepStops` state the run invariant, not the exact new state. The exact new state is `TextExtraction.Step` itself, which `TextExtraction.ScanByte` is proved equal to.
- The editor's `id` assignment for extracted texts (`processedTexts`) is not modelled. `TranslatorApp.UpdateStats` assumes ids are distinct, as that numbering makes them.
