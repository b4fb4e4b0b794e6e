# One-billion-row aggregation: a verified model of the core

The program reads a large file of `<station>;<temperature>\n` records. It
computes, per station, the minimum, mean and maximum temperature and prints
them as one mapping sorted by station name. Temperatures are decimal numbers
with exactly one fractional digit. The program keeps them as integers in
tenths of a degree.

This project models the four sequential parts of `src/main.rs` and proves
what each one promises:

- **Splitter** (`chunk_data`, module `Splitter`). It cuts the input into at
  most `parts` contiguous pieces. Each cut is made just after the first
  needle byte found at least `jump = len / parts` bytes into what is left.
- **Chunk aggregator** (`process_chunk`, module `Aggregator`). It reads
  `\n`-terminated records and stops at the first empty one. It splits each
  record at its first `;`, decodes the temperature, and folds it into a
  per-station table.
- **Decoder** (`parse_number`, module `Decoder`). It matches exactly an
  optional `-`, one or two digits, `.` and one digit.
- **Statistics and merger** (`Stat`, `merge_and_sort`, modules `Stats` and
  `Merger`). `Stat` holds min, max, total and count. `merge_and_sort` folds
  the partial `(station, Stat)` pairs into one entry per station. It returns
  those entries in byte-lexicographic order of the station names.

Module `Bytes` holds the library stand-ins:

- the byte type;
- `IndexOf`, the meaning of `memchr`;
- `Below`, the order of `BTreeMap` keys of type `&[u8]`.

Module `Tables` describes a run of `(station, value)` pairs through two
views: which stations occur (`KeysOf`), and which values one station
received, in order (`ValuesFor`).

Module `Chunking` connects the splitter and the aggregator. Suppose every
empty line of the input is its last line; bytes after the last `\n` may be
anything. Then cutting the input at `\n` does not change what is read: the
records of the pieces, taken in order, are exactly the records of the whole
input. A non-empty line after an empty one can change what the pieces
read. The whole input stops at the empty line, but a piece that starts
after it is read on its own (`Chunking.BlankLineBeforeEnd`).

The specification of each loop is a function of its input:

- `Records` gives the lines `process_chunk` reads.
- `ParseAll` decodes those lines, or gives the first error.
- `Summary` gives the statistics of a run of temperatures.
- `MergeAll` folds a run of partial statistics.

The methods are proved against these functions. The lemmas then prove what
the program promises about the functions.

The code and its evident meaning disagree in one place. In the record
format a leading `-` marks a reading below zero. But `parse_number`
multiplies the magnitude by `i16::from(negative) * 2 - 1`. That factor is
`+1` when the `-` is present and `-1` when it is absent, so every sign
comes out inverted (see "Findings"). `Decoder.ParseNumberAsWritten` models
the code as written. The corrected `Decoder.ParseNumber` is the decoder
that `Aggregator.ParseLine`, and through it `Aggregator.ProcessChunk`,
use (see "Left out").

## Model

| member | source | states |
|---|---|---|
| Bytes.IndexOf | src/main.rs:67 | `memchr`: the result is the position of the first occurrence of the byte (the byte is there and not before it); it is `None` exactly when the byte does not occur |
| Bytes.IndexOfIsFirst | src/main.rs:67 | a position that holds the byte, with no occurrence before it, is the one the search returns |
| Bytes.IndexOfPrefix | src/main.rs:67 | bytes appended after an occurrence do not change where the search stops |
| Bytes.BelowIsLexLess | src/main.rs:98 | the key order is the byte-lexicographic order: a proper prefix comes first, otherwise the first differing byte decides |
| Bytes.BelowIrreflexive | src/main.rs:98 | no key is ordered before itself |
| Bytes.BelowTransitive | src/main.rs:98 | the key order is transitive |
| Bytes.BelowTotal | src/main.rs:98 | of two distinct keys, one is ordered before the other |
| Bytes.BelowAsymmetric | src/main.rs:98 | two keys are never each ordered before the other |
| Splitter.ChunkData | src/main.rs:47-61 | returns between 1 and `parts` pieces; concatenated in order they give back the input exactly; every piece but the last is longer than `jump` and ends in the first needle at or after `jump`; the last piece is why cutting stopped (budget used up, too short, or no needle after `jump`); empty input, `parts == 1`, or no needle after `jump` give the single piece equal to the input |
| Splitter.CutAtFirstNeedle | src/main.rs:53-55 | cutting at `jump + offset + 1`, where `offset` is what `memchr` found in `data[jump..]`, yields a piece longer than `jump` that ends in the needle, with no needle between `jump` and its end |
| Splitter.ConcatAppend | src/main.rs:56-59 | pushing a piece extends the concatenation by that piece |
| Decoder.Magnitude | src/main.rs:118-134 | the two slice patterns after the optional sign: the accepted body has length 3 or 4, `.` second to last and digits elsewhere; the magnitude is at most 999 |
| Decoder.ParseNumberAsWritten | src/main.rs:116-137 | the code as written: every result lies in [-999, 999]; with a leading `-` it is at least 0, and without one it is at most 0 |
| Decoder.ParseNumber | src/main.rs:116-137 | the decoder as intended: every result lies in [-999, 999]; with a leading `-` it is at most 0, and without one it is at least 0; an accepted input has 3 to 5 bytes, `.` second to last, and otherwise only digits and a leading `-` (so a missing `.` or a non-digit byte is refused) |
| Decoder.ParseSpelled | src/main.rs:118-134 | every spelling `-`? d{1,2} `.` d decodes to its positional value (tens*100 + ones*10 + frac, or ones*10 + frac), negated when the `-` is present |
| Decoder.ParseSound | src/main.rs:118-135 | every accepted input is such a spelling and decodes to its value, so the accepted language is exactly this grammar |
| Decoder.RejectsPlus | src/main.rs:135 | an explicit `+` sign is refused |
| Decoder.RejectsThreeIntegerDigits | src/main.rs:135 | three digits before the `.` are refused |
| Decoder.RejectsTwoFractionalDigits | src/main.rs:135 | two digits after the `.` are refused |
| Decoder.DecodesEdgeValues | src/main.rs:117-135 | `-0.0` decodes to 0, `99.9` to 999, `-99.9` to -999; the empty input is refused |
| Decoder.AsWrittenNegates | src/main.rs:122 | the code as written accepts the same inputs as the intended decoder, and returns the negation of the intended value |
| Decoder.AsWrittenInvertsSign | src/main.rs:133 | as written, `3.2` decodes to -32 and `-3.2` to 32; as intended, `3.2` decodes to 32 |
| Stats.Stat.New | src/main.rs:146-153 | `Stat::new(num)` is the statistics of the one-observation run `[num]` |
| Stats.Stat.Update | src/main.rs:154-159 | `Stat::update`: the new range is the old one widened to take in the observation, the observation is added to the sum, and one more is counted; `Stats.UpdateValid` and `Stats.UpdateSummary` give its meaning |
| Stats.UpdateValid | src/main.rs:154-159 | `update` keeps the invariant: count at least 1, min at most max, count*min ≤ total ≤ count*max |
| Stats.Stat.Merge | src/main.rs:160-165 | `Stat::merge`: the new range is the smallest covering both ranges, and the sums and the counts add; `Stats.MergeValid`, `Stats.MergeSummary`, `Stats.MergeCommutative` and `Stats.MergeAssociative` give its meaning |
| Stats.MergeValid | src/main.rs:160-165 | `merge` of two valid statistics is valid |
| Stats.StatCell.constructor | src/main.rs:146-153 | the in-place object starts as `Stat::new(num)` |
| Stats.StatCell.Update | src/main.rs:154-159 | updating the fields in place gives exactly `update`'s value and keeps the invariant |
| Stats.StatCell.Merge | src/main.rs:160-165 | merging another object in place gives exactly `merge`'s value and keeps the invariant |
| Stats.MinOfIsLeast | src/main.rs:155 | the minimum of a run is an observed value and no observation is below it |
| Stats.MaxOfIsGreatest | src/main.rs:156 | the maximum of a run is an observed value and no observation is above it |
| Stats.SumBounds | src/main.rs:157-158 | count*min ≤ sum ≤ count*max over any non-empty run |
| Stats.SummaryValid | src/main.rs:139-165 | the statistics of any non-empty run satisfy the invariant; min and max are observed values that bound every observation |
| Stats.UpdateSummary | src/main.rs:154-159 | `update(num)` on the statistics of a run gives the statistics of the run extended by `num` |
| Stats.MergeSummary | src/main.rs:160-165 | `merge` of the statistics of two runs gives the statistics of their concatenation |
| Stats.MergeCommutative | src/main.rs:160-165 | `merge` is commutative on all four fields |
| Stats.MergeAssociative | src/main.rs:160-165 | `merge` is associative on all four fields |
| Stats.MeanTenths | src/main.rs:169 | the rounded mean `r` is within half a unit of `total / count`; a mean exactly halfway between two integers is rounded away from zero |
| Stats.MeanWithinBounds | src/main.rs:169 | the mean `total / count`, rounded half away from zero, lies between min and max |
| Stats.MeanExamples | src/main.rs:169 | readings 12.0 and 8.5 give the mean 10.3; a single -3.2 gives -3.2 |
| Aggregator.Records | src/main.rs:66-72 | the lines the loop reads; each takes at least two bytes of the chunk (its content and its `\n`), so there are at most half as many as bytes |
| Aggregator.RecordsEmpty | src/main.rs:67-72 | nothing is read exactly when the chunk holds no `\n` or starts with an empty line |
| Aggregator.RecordsAreLines | src/main.rs:67-72 | every record read is non-empty and holds no `\n` |
| Aggregator.RecordsArePrefix | src/main.rs:66-72 | the records, each followed by its `\n`, are a prefix of the chunk; what follows holds no `\n`, or starts with the `\n` of an empty line |
| Aggregator.RecordsIgnoreTail | src/main.rs:67 | bytes after the last `\n` are never part of a record |
| Aggregator.RecordsStopAtEmptyLine | src/main.rs:70-72 | nothing after the first empty line is read |
| Aggregator.RecordsConcat | src/main.rs:66-72 | for a piece of whole non-empty lines, the records of the piece followed by anything are the piece's records followed by the records of what comes after |
| Aggregator.ParseLine | src/main.rs:74-77 | the line step: on success the station ends just before a `;` of the line and the temperature lies in [-999, 999]; `Aggregator.ParseLineMeaning` gives its full meaning |
| Aggregator.ParseLineMeaning | src/main.rs:74-77 | a line without `;` fails with "no semicolon", and exactly those lines do; on success, the key is the bytes before the first `;` and the value decodes from the bytes after it; a bad temperature fails with "invalid number" |
| Aggregator.ParseAll | src/main.rs:74-77 | decoding all records in order yields one pair per record |
| Aggregator.ParseAllSucceeds | src/main.rs:74-77 | when every record is well formed, decoding succeeds and pair `i` is what record `i` decodes to |
| Aggregator.ParseAllOkParses | src/main.rs:74-77 | when decoding succeeds, every record is well formed |
| Aggregator.ParseAllFirstFailure | src/main.rs:74-77 | when record `i` is malformed and every record before it is well formed, decoding fails with record `i`'s error |
| Aggregator.ParseAllFirstError | src/main.rs:74-77 | once a record is malformed, the records after it do not change the outcome |
| Aggregator.TabulateUpdate | src/main.rs:78-79 | updating the entry of a known station keeps the table equal to the statistics of exactly each station's values |
| Aggregator.TabulateInsert | src/main.rs:80-82 | inserting `Stat::new` for a new station keeps the same property |
| Aggregator.ProcessChunk | src/main.rs:63-86 | fails with the error of the first malformed record before the first empty line; otherwise `total` is the number of records read, and the table has exactly the stations that occur, each with the statistics of exactly its values |
| Merger.MergeAllConcat | src/main.rs:92-96 | folding two runs of partial statistics one after the other is the `merge` of the two folds |
| Merger.MergeAllPermutation | src/main.rs:92-96 | the fold of the partial statistics does not depend on their order |
| Merger.MergeAllSummaries | src/main.rs:92-96 | folding the statistics of several runs gives the statistics of the runs concatenated |
| Merger.Insert | src/main.rs:98 | inserting a new station into an ordered run keeps it strictly ordered, and adds exactly that entry |
| Merger.InsertKeys | src/main.rs:98 | after an insertion the stations are the old ones plus the new one |
| Merger.MergesModify | src/main.rs:93-95 | `and_modify(merge)` keeps the table equal to the fold of each station's partial statistics |
| Merger.MergesInsert | src/main.rs:96 | `or_insert` for a new station keeps the same property |
| Merger.MergeAndSort | src/main.rs:88-99 | returns one entry per station that occurs, in strictly increasing byte-lexicographic order, each holding the `merge` of all partial statistics given for that station |
| Merger.SortedSameKeys | src/main.rs:98 | two strictly ordered runs over the same stations list them in the same order |
| Merger.MergedAndSortedUnique | src/main.rs:88-99 | the result is determined by the input: any two results that meet the specification are equal |
| Merger.MergedAndSortedPermutation | src/main.rs:88-99 | reordering the input pairs gives a result that meets the same specification, so the output does not depend on input order |
| Chunking.BlankOnlyLastSuffix | src/main.rs:55-57 | what follows a cut made just after a `\n` still has no `\n` after an empty line |
| Chunking.BlankIsLast | src/main.rs:70-72 | an empty line inside a piece that ends in `\n` is that piece's last line, and nothing after the piece holds a `\n` |
| Chunking.StopAfterBlank | src/main.rs:70-72 | a piece whose last line is empty hides whatever follows it |
| Chunking.NoNewlinePieces | src/main.rs:67 | pieces without any `\n` hold no records |
| Chunking.RecordsOfChunks | src/main.rs:51-57 | for an input whose only empty line, if any, is its last line (followed by any bytes without `\n`), cut at `\n`, the records of the pieces, in order, are the records of the whole input |
| Chunking.BlankLineBeforeEnd | src/main.rs:51-57 | `A\n\nB\n` in two parts is cut into `A\n\n` and `B\n`, pieces that meet every promise of `chunk_data`; the whole input has the one record `A`, but the pieces have `A` and `B` |
| Tables.ValuesForNonEmpty | src/main.rs:78-82 | a station has recorded values exactly when it occurs |
| Tables.ValuesForPermutation | src/main.rs:92-96 | reordering the pairs reorders each station's values |
| Tables.KeysOfPermutation | src/main.rs:92-96 | reordering the pairs keeps the set of stations |

## Left out

- `main` (src/main.rs:16-45) is not modelled. It opens and memory-maps the file and queries the core count. It runs `process_chunk` on the pieces in parallel with rayon and flattens the tables. These are I/O and concurrency. `Merger.MergedAndSortedPermutation` shows that the order in which the tables are collected does not matter. `Chunking.RecordsOfChunks` shows that the split does not change what is read, proved under the hypothesis that no `\n` follows an empty line.
- `print` (src/main.rs:101-114) writes to stdout and is I/O, so it is not modelled.
- `impl Display for Stat` (src/main.rs:167-181) uses `f32` division, rounding and formatting, which is floating point. `Stats.MeanTenths` is instead the exact rational mean rounded half away from zero, the rounding `f32::round` applies. Normalising `-0.0` and the `{:.1}` rendering are not modelled.
- The internals of gxhash, `memchr` and `BTreeMap` are not modelled. These libraries are replaced by their meanings: a Dafny `map`, `Bytes.IndexOf`, and insertion into a run kept ordered by `Bytes.Below`.
- The `HashMap` iteration order (`results.into_iter()`, and the iteration of `merged` when the `BTreeMap` is built) is unspecified. `Merger.MergeAndSort` picks each next key arbitrarily, and `Merger.MergedAndSortedPermutation` shows that no input order changes the result.
- Integer widths are not modelled: temperatures as `i16`, the total as `i64`, counts as `u32`, and `total` in `process_chunk` as `u32`. All are unbounded integers here, and overflow is not modelled.
- Aggregator.ProcessChunk does not model the two `line.get(..)` failures (src/main.rs:75-76). After `memchr` has found `;` at `idx`, both slices are always in bounds, so these errors cannot occur.
- Aggregator.ProcessChunk does not model anyhow's error context strings. The error is modelled as one of two values, `NoSemicolon` or `InvalidNumber`.
- Aggregator.ParseLineMeaning, Aggregator.ParseLine and Aggregator.ProcessChunk use the corrected decoder `Decoder.ParseNumber`, not the code as written. As written, every station gets the statistics of its negated readings: a chunk `Oslo;-3.2\n` gives min, max and total 32. `Decoder.AsWrittenNegates` relates the two decoders reading by reading. The table the code computes as written is not modelled separately.
- Chunking.RecordsOfChunks is proved under the hypothesis that no `\n` follows an empty line. Several empty lines at the very end also leave the records unchanged, but the lemma does not cover them. A non-empty line after an empty one can change what the pieces read, and `Chunking.BlankLineBeforeEnd` shows this. Run on one core, the program stops at the empty line. Run on several, each piece after the cut is read on its own, so the report depends on the number of cores. The model records this behaviour; it does not correct it.
- Stats.Stat.Update and Stats.Stat.Merge return new values rather than assigning through `&mut self`. A map entry in the source is owned by the map and never aliased, so the tables store the returned value back. `Stats.StatCell` gives the in-place form, and its methods are proved to agree with these functions.

## Findings

| source | as written | input that shows it | evidently intended | confidence | as-written member | corrected member |
|---|---|---|---|---|---|---|
| src/main.rs:122 | the magnitude is multiplied by `i16::from(negative) * 2 - 1`, which is `+1` when the `-` is present and `-1` when it is absent (the same factor at src/main.rs:133) | `3.2` decodes to -32 and `-3.2` to 32 | the magnitude negated exactly when the `-` is present: `3.2` gives 32, `-3.2` gives -32 | not executed | Decoder.ParseNumberAsWritten | Decoder.ParseNumber |
