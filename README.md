# scc line counting, modelled in Dafny

scc counts the lines of source files. For every file a worker builds a
`FileJob` that holds the file's raw bytes. `countStats(&fileJob)` then scans
those bytes once and adds three counters to the job:

- `Lines`: physical lines;
- `Code`: lines that hold at least one non-blank byte;
- `Blank`: lines that hold only blank bytes.

The test file `processor/workers_test.go` pins this behaviour down case by
case. Here is what it requires:

- an empty file has no lines;
- a final line without a terminator still counts;
- a trailing `'\n'` does not open an extra empty line;
- a line of spaces is blank;
- the `'\r'` of a CRLF ending does not make a line code.

The same file also holds a hand-written byte comparison loop, used as a
benchmark against the library's equality.

The project has three modules:

- `LineSpec` (`line_spec.dfy`) is the specification:
  - `Split` cuts the bytes at every `'\n'`. `Join` is its inverse.
  - `Lines` drops a single trailing empty segment.
  - `Classify` returns the `Stats` triple of a file: lines, code and blank.
  - Lemmas about these: the split/join round trip, an independent count of
    lines from the terminators, additivity over line boundaries, CR before
    the terminator, and the facts a left-to-right scan needs.
- `Workers` (`workers.dfy`) is the imperative part:
  - the `FileJob` class;
  - the single-pass `CountStats` method, which updates the job's fields in
    place and is proved to add exactly `Classify(content)` to the counters;
  - the byte-equality loop `CheckByteEqualityLoop`, proved against the
    equality it approximates.
- `WorkersTest` (`workers_test.dfy`) has two parts:
  - every case the Go tests check, stated as a lemma over `Classify`. The
    "a\n" repeated k times case is generalised to every k by induction.
  - the test functions rewritten as clients. Each resets the counter it
    checks, loads the content, calls `CountStats`, and has the expected
    value proved instead of compared at run time.

## Model

| member | source | states |
|---|---|---|
| LineSpec.Classify | processor/workers_test.go:9-195 | every physical line is counted exactly once, either as code or as blank, so lines = code + blank and both counts are non-negative |
| LineSpec.CountsPartition | processor/workers_test.go:137-195 | over any list of lines, the code count plus the blank count equals the number of lines |
| LineSpec.JoinSplit | processor/workers_test.go:9-71 | rejoining the segments with `'\n'` gives back the exact content, so cutting at terminators loses no byte |
| LineSpec.SplitJoin | processor/workers_test.go:9-71 | splitting the join of terminator-free segments gives back those segments |
| LineSpec.SegmentCount | processor/workers_test.go:47-59 | a content with k `'\n'` bytes has k + 1 segments |
| LineSpec.LineCountByTerminators | processor/workers_test.go:9-71 | the line count is the number of `'\n'` bytes, plus one when the content is non-empty and does not end with `'\n'`; this counts lines independently of the splitting |
| LineSpec.LinesHaveNoTerminator | processor/workers_test.go:9-71 | no physical line contains a `'\n'` |
| LineSpec.ClassifyAppend | processor/workers_test.go:61-70 | when a content ends on a line boundary, appending more bytes adds the counts of the appended bytes |
| LineSpec.ClassifyUnterminatedLine | processor/workers_test.go:24-29 | a content without `'\n'` has no lines when empty; otherwise it is one line, blank if all its bytes are blank and code if not |
| LineSpec.ClassifyTerminatedLine | processor/workers_test.go:31-45 | a line followed by `'\n'` is exactly one line, even when empty; it is blank or code by its bytes |
| LineSpec.CrBeforeTerminator | processor/workers_test.go:183-195 | a `'\r'` just before the `'\n'` does not change any count |
| LineSpec.ScanTerminator | processor/workers_test.go:31-52 | during a left-to-right scan, a `'\n'` closes the open line, which counts as blank exactly when it was blank so far; a new empty, blank line opens |
| LineSpec.ScanByte | processor/workers_test.go:148-181 | during a left-to-right scan, any other byte changes no counter; the open line stays blank only if that byte is blank |
| LineSpec.ScanEnd | processor/workers_test.go:24-29 | at the end of the content, the open line counts exactly when the content does not end with `'\n'` |
| Workers.FileJob.constructor | processor/workers_test.go:10-13 | a job built from a literal has the given content and all counters at zero |
| Workers.CountStats | processor/workers_test.go:17-20 | one pass over the content leaves the content unchanged and adds exactly `Classify(content)` to the lines, code and blank counters |
| Workers.CheckByteEqualityLoop | processor/workers_test.go:425-448 | `equal` holds exactly when `one` is a prefix of `two`, i.e. every byte of `one` matches `two` at the same index; `count` goes up by one exactly when `equal` holds; the requires is exactly the condition under which the loop never indexes `two` out of range |
| WorkersTest.EmptyFile | processor/workers_test.go:10-20 | empty content gives 0 lines, 0 code and 0 blank |
| WorkersTest.SingleUnterminatedLine | processor/workers_test.go:24-29 | "a", or any single code byte, gives 1 line and 1 code line |
| WorkersTest.SingleTerminatedLine | processor/workers_test.go:31-45 | "a\n" and "1\n" give 1 line and 1 code line; there is no phantom line after the terminator |
| WorkersTest.TwoTerminatedLines | processor/workers_test.go:47-52 | "1\n2\n" gives 2 lines, both code |
| WorkersTest.UnterminatedLastLine | processor/workers_test.go:54-59 | "1\n2\n3" gives 3 lines, all code; the unterminated last line counts |
| WorkersTest.AppendCodeLine | processor/workers_test.go:61-70 | appending one code line after a line boundary adds one line and one code line to whatever the prefix counts |
| WorkersTest.AppendCodeLineToCode | processor/workers_test.go:61-70 | k code lines followed by one more code line are k + 1 lines, all code |
| WorkersTest.RepeatedLines | processor/workers_test.go:61-70 | "a\n" repeated k times gives k lines and k code lines, for every k, not just up to 5000 |
| WorkersTest.SpacesOnly | processor/workers_test.go:148-174 | a content of n > 0 spaces, such as " " or twelve spaces, is one blank line |
| WorkersTest.LoneTerminator | processor/workers_test.go:155-160 | "\n" is one blank line |
| WorkersTest.EmptyThenSpace | processor/workers_test.go:162-167 | "\n " is two blank lines |
| WorkersTest.TwoSpaceLines | processor/workers_test.go:176-181 | m spaces, a `'\n'`, then n > 0 spaces give two blank lines; the test uses 12 and 13 |
| WorkersTest.TwoCrlfLines | processor/workers_test.go:183-188 | "\r\n\r\n" is two blank lines |
| WorkersTest.CrlfLine | processor/workers_test.go:190-195 | "\r\n" is one blank line |
| WorkersTest.ExpectLines | processor/workers_test.go:24-29 | after resetting `Lines` and loading the content, the scan leaves `Lines` at the expected count; `Code` and `Blank`, which are not reset, grow by the content's code and blank counts |
| WorkersTest.ExpectCode | processor/workers_test.go:88-93 | after resetting `Code` and loading the content, the scan leaves `Code` at the expected count; `Lines` and `Blank`, which are not reset, grow by the content's line and blank counts |
| WorkersTest.ExpectBlank | processor/workers_test.go:148-153 | after resetting `Blank` and loading the content, the scan leaves `Blank` at the expected count; `Lines` and `Code`, which are not reset, grow by the content's line and code counts |
| WorkersTest.ExpectShortFilesLines | processor/workers_test.go:24-59 | the five literal blocks of the line-count test, over any code bytes, end with the "1\n2\n3" content and `Lines` at 3; `Code` grows by 8 and `Blank` is unchanged |
| WorkersTest.ExpectRepeatedLines | processor/workers_test.go:61-70 | after the 5000 rounds of "a\n", `Lines` is 5000; `Code`, never reset, grows by 1 + 2 + ... + 5000 = 12502500; `Blank` is unchanged |
| WorkersTest.ExpectShortFilesCode | processor/workers_test.go:88-123 | the five literal blocks of the code-count test end with the "1\n2\n3" content and `Code` at 3; `Lines` grows by 8 and `Blank` is unchanged |
| WorkersTest.ExpectRepeatedCode | processor/workers_test.go:125-134 | after the 5000 rounds of "a\n", `Code` is 5000; `Lines`, never reset, grows by 12502500; `Blank` is unchanged |
| WorkersTest.CheckByteEqualityOnKeyword | processor/workers_test.go:425-448 | one round of the benchmark on "for" against "for" yields a count of 1; an added "fox" round, a mismatch, leaves it at 1 |

The test functions of module `WorkersTest` follow the Go test functions
block by block. Like them, they return nothing and state their expectations
as asserts, which are proved from the lemmas above:

- `TestCountStatsLines`: processor/workers_test.go:9-71
- `TestCountStatsCode`: processor/workers_test.go:73-135
- `TestCountStatsBlankLines`: processor/workers_test.go:137-196
- `TestCountStatsComplexityCount`: processor/workers_test.go:198-205

## Left out

- The implementation of `countStats` is not part of this model. The scanner follows the behaviour the tests require: one pass, a flag for "blank so far", and a line closed at each `'\n'` and at the end of non-terminated content.
- Blank bytes: only space and `'\r'` count as blank here. A line holding a tab, or any whitespace other than space and `'\r'`, counts as code in this model. The tests never use such bytes, so how the scanner really treats them is not modelled.
- The comment and complexity counters are left out, as is complexity scoring. `TestCountStatsComplexityCount` asserts nothing, and no keyword table is visible. The model has only a call of the scan on "f".
- The worker pool, job queue and aggregation of results across files are left out: they are concurrency and do not appear in the test file.
- Benchmark mechanics are left out: `b.N` repetitions, timers and `b.Log`. They measure time and assert nothing. The byte-equality loop is modelled as a single round.
- `reflect.DeepEqual` and `bytes.Equal` are Go standard-library calls and are not modelled.
- Workers.FileJob: the counters are unbounded integers, so int64 overflow is not modelled. The tests stay far from the limit.
- Workers.CheckByteEqualityLoop: Go panics when `two` is shorter than `one` and no mismatch comes first. That input is excluded by the requires rather than modelled as a panic.
- Workers.CheckByteEqualityLoop: the early `break` at the first mismatch is not observable in the result, so no contract states it.
