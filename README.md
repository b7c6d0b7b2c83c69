# Size accounting of `ion beta analyze size`

This project models the per-value size accounting of the `size` subcommand of
the Ion command-line tool. `size_analyze` walks a binary Ion system stream one
top-level item at a time. For every item the reader reports as
`SystemStreamItem::Value` (a non-null top-level value) it records the value's on-wire
footprint: the header length plus the body length, plus the annotations wrapper
length when the value carries annotations. It skips every other system item and
stops when the reader reports that the stream is exhausted (`Nothing`). A reader
error aborts the walk through Rust's `?`, so no histogram is drawn for that
stream.

The binary decoder is abstracted as a sequence of `Event`s, one per call of the
reader's `next()`: `Value(Measurement(header, annotations, value))`, `Nothing`,
`OtherItem` (any other system stream item, typed nulls included) or
`DecodeError(message)`. Past the end of the sequence the reader yields `Nothing`,
as a real reader does at the end of its input; `EndOfInputIsNothing` shows that this choice changes nothing.

- `wrappers.dfy`: `Option` (an annotations length that may be absent, distinct
  from a zero length) and `Result` (a walk that may fail).
- `size.dfy`, module `AnalyzeSize`:
  - `SizeAnalyze` is the loop itself, as a method. It has a `while` loop, a
    growing `vec`, a mutable `size` computed by the same two branches as the
    source, a `break` at `Nothing` and an early return on a reader error. It is
    proved equal to the recursive specification `Sizes`.
  - `Specified` restates the analysis without a loop: the footprints of the
    values before the first stopping event, unless that event is an error.
    `SizesMeetsSpecification` proves that `Sizes` equals it.
  - The remaining lemmas derive the properties one at a time: the size rule,
    order and count, skipping, stopping, and aborting on an error.

`Success(vec)` in the model is the vector that the source hands to the histogram.
`Failure(message)` is the early return of `size_analyze` through `?`.

`run` discards the `Result` of `size_analyze`
(src/bin/ion/commands/beta/analyze/size.rs:39). A decode error is therefore
silently dropped, the next file is analysed, and the command still succeeds. The
model only states that the walk of the failing stream ends with `Failure` and
produces no sizes. It claims nothing about what the caller does with that.

## Model

| member | source | states |
|---|---|---|
| `AnalyzeSize.ValueSizeRule` | src/bin/ion/commands/beta/analyze/size.rs:53-59 | a value records header + value length, plus its annotations length when annotations are present, ahead of the sizes of the items after it |
| `AnalyzeSize.ZeroAnnotationsLikeAbsent` | src/bin/ion/commands/beta/analyze/size.rs:54-57 | anywhere in the stream, a value with a zero-length annotations wrapper leaves the analysis exactly as the same value without annotations |
| `AnalyzeSize.Sizes` | src/bin/ion/commands/beta/analyze/size.rs:49-64 | recursive specification of the loop; a successful walk records no more sizes than there are events |
| `AnalyzeSize.SizesMeetsSpecification` | src/bin/ion/commands/beta/analyze/size.rs:48-64 | the walk yields the footprints of the `Value` items before the first `Nothing` or error, in order, and fails with the error if the first stopping event is an error |
| `AnalyzeSize.MeasurementsCount` | src/bin/ion/commands/beta/analyze/size.rs:52-59 | the values picked out of an event sequence are exactly one per `Value` event |
| `AnalyzeSize.RecordedSizes` | src/bin/ion/commands/beta/analyze/size.rs:52-59 | on success, the number of sizes equals the number of `Value` items before the first stop; the k-th size is the k-th such value's header + value length plus its annotations length when present (0 otherwise), so never less than header + value length |
| `AnalyzeSize.ValueAppendsInOrder` | src/bin/ion/commands/beta/analyze/size.rs:52-59 | a `Value` item before the first stop appends exactly its footprint, after the sizes of earlier items and before those of later items |
| `AnalyzeSize.OtherItemIgnored` | src/bin/ion/commands/beta/analyze/size.rs:62 | a system item that is neither a value nor `Nothing` leaves the result unchanged, wherever it occurs |
| `AnalyzeSize.StopsAtFirstNothing` | src/bin/ion/commands/beta/analyze/size.rs:61 | when the first stopping event is `Nothing` (no reader error before it), no item after it contributes a size or an error; the result is the sizes of the values before it |
| `AnalyzeSize.NothingFirstYieldsEmpty` | src/bin/ion/commands/beta/analyze/size.rs:49-61 | the vector starts empty, so a stream whose first item is `Nothing` yields no sizes |
| `AnalyzeSize.ErrorAborts` | src/bin/ion/commands/beta/analyze/size.rs:51 | when the first stopping event is a reader error, the walk aborts with that error and no sizes, whatever follows it |
| `AnalyzeSize.EndOfInputIsNothing` | src/bin/ion/commands/beta/analyze/size.rs:50-61 | a finite event sequence behaves exactly like the same sequence followed by `Nothing` |
| `AnalyzeSize.SizeAnalyze` | src/bin/ion/commands/beta/analyze/size.rs:48-64 | the loop with its mutable vector, `break` and `?` returns exactly `Sizes` of the events |

## Left out

- Opening and memory-mapping each input file (size.rs:28-36): file I/O.
- Building the raw binary and system readers, and the Ion binary decoding behind
  `next()`, `header_length()`, `annotations_length()` and `value_length()`
  (size.rs:37-38, 51-57). The ion_rs library is not part of this model; its
  output is the `Event` sequence. Which item kinds fall into the `_` arm
  (version markers, symbol tables, typed nulls and null symbol tables among
  them) is decided by that library, so they are all `OtherItem`.
- The histogram with four intervals and its printing (size.rs:65-69): an external
  plotting library with floating-point bucketing, and terminal output.
- Command wiring: `name`, `about`, `configure_args`, and `run` with its refusal of
  standard input (size.rs:12-46). In particular, `run` discarding the `Result`
  of `size_analyze` is not modelled.
- AnalyzeSize.SizeAnalyze: sizes are unbounded naturals. The `usize` addition and
  the `as f64` cast (size.rs:55-59) are exact for any length a real file can have,
  so overflow and rounding are not modelled.
