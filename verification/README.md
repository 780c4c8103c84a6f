# Test-error log extraction, modelled in Dafny

This project models the data core of `error_heatmaps/plot_error_heatmap.py`, the
script that reads a DeePMD `test_error.log` and draws RMSE heatmaps over
(pressure, temperature) per composition and phase. It covers two functions:

- `parse_test_error_log` (lines 33-87) makes one forward pass over the log's lines.
  It uses a single slot for the record being built:
  - a "testing system" header whose condition token reads `<digits>G_<digits>K`
    opens a fresh record, keyed by the composition without its `fcc`/`bcc`/`hcp`
    prefix, the phase, the pressure and the kelvin figure divided by 1000;
  - while a record is open, each energy, force and virial RMSE line stores the value
    `float()` reads from its capture;
  - a virial line appends a copy of the record to the output and clears the slot.
- `get_error_ranges` (lines 89-106) takes the smallest and largest value of each
  listed RMSE column of the resulting table.

The modules follow that structure:

- `Digits`: ASCII digit runs and their `int` value.
- `SystemHeader`: the header's three segments, the prefix strip and the condition
  token.
- `FloatLiteral`: the capture group `([\d.e-]+)` and the decimal literals
  `float()` accepts, with their exact values.
- `Extractor`: the per-line step, the scan over a log, and the loop as the source
  writes it (a method with in-place field updates).
- `ExtractorSpec`: a position-based description of the table, and the theorem that
  the scan computes it.
- `ErrorRanges`: the per-column bounds.
- `Scenarios`: a four-line log and the edge cases, stated as lemmas about the
  model.

A log line reaches the model already classified: `Line` holds the three header
segments if the header pattern matched, and the text each metric pattern captured.
The regular expressions themselves are not modelled beyond that. RMSE values are
exact decimal numbers: `FloatLiteral.Value` reads a literal's digits as an integer
and scales it by a power of ten. A malformed capture makes `float()` raise
`ValueError`, which aborts the whole parse. The model returns that as
`Failure(MalformedMetric(line, text))`. A column no record carries makes pandas
raise `KeyError` in `get_error_ranges`. The model returns that as
`Failure(column)`.

Three behaviours of the code are easy to misread. The model follows the code in each:

- A metric pattern's match does not guarantee that the number parses. The class
  `[\d.e-]` admits texts such as `1.2e`, `1-2` or `.`, and `float()` raises on them
  (`Scenarios.TruncatedExponent`).
- For the header `.../run/PbSn/10G_500K/deepmd`, the three segments before
  `/deepmd` are "run", "PbSn" and "10G_500K". The composition is therefore "run"
  and the phase is "PbSn" (`Scenarios.FourLineLog`, `Scenarios.FourLineKey`).
- The prefix strip is not idempotent. The anchored `re.sub` removes one prefix only,
  so "fccbccX" becomes "bccX", which a second strip changes again
  (`SystemHeader.StripTwice`, `Scenarios.PrefixExamples`).

## Model

| member | source | states |
|---|---|---|
| Extractor.Step | error_heatmaps/plot_error_heatmap.py:49-85 | One loop iteration fails exactly when a record is open after the header and some capture on the line is malformed. The error carries the line index and the first malformed capture in the order energy, force, virial, the order in which `float()` is called. Otherwise a record is emitted exactly when a record is open and the line has a virial capture. The slot stays pending exactly when a record is open and there is none. Both carry the key the header left. |
| Extractor.Update | error_heatmaps/plot_error_heatmap.py:73-85 | The metric part of an iteration with a record open fails exactly on a malformed capture, and reports the first one in the order energy, force, virial. It emits exactly when the line has a virial capture and keeps the record pending otherwise, with the open record's key either way. |
| Extractor.FirstMalformedRejected | error_heatmaps/plot_error_heatmap.py:78-83 | The capture reported for a line with a malformed capture is one of its three captures, and `float()` rejects it. |
| Extractor.ReadMetric | error_heatmaps/plot_error_heatmap.py:78-83 | Reading a capture fails exactly when `float()` rejects it, reporting the line and the text. A value results exactly when there was a capture. |
| Extractor.ParseTestErrorLog | error_heatmaps/plot_error_heatmap.py:43-87 | The loop with a mutable slot and output list returns exactly what the functional scan `Extract` returns: the same table, or the same first error. |
| Extractor.ProcessLine | error_heatmaps/plot_error_heatmap.py:50-85 | The loop body with in-place updates agrees with `Step` on every slot and line. |
| Extractor.UpdateRecord | error_heatmaps/plot_error_heatmap.py:73-85 | The in-place field updates and early returns agree with `Update`. |
| Extractor.Extract | error_heatmaps/plot_error_heatmap.py:43-87 | The value of `parse_test_error_log`. Its contract is stated by `ExtractorSpec.ExtractMatchesSpec` (the table of a well-formed log) and `ExtractorSpec.ExtractFailsAtFirstBadLine` (the error otherwise). |
| Extractor.AfterHeader | error_heatmaps/plot_error_heatmap.py:51-70 | The slot after the header part of an iteration. Its contract is stated by `Extractor.HeaderOpensFreshRecord` and `Extractor.MalformedHeaderKeepsSlot`. |
| Extractor.FirstMalformed | error_heatmaps/plot_error_heatmap.py:78-83 | Which `float()` call raises first on a line: energy, then force, then virial. Its contract is stated by `Extractor.FirstMalformedRejected`, and it is the error `Step` and `Update` report. |
| Extractor.Latest | error_heatmaps/plot_error_heatmap.py:78-81 | The overwrite of the record's energy or force field: a read value replaces the stored one, and no capture keeps it. Its contract is stated by `Extractor.StepWithOpenRecord`. |
| Extractor.Emit | error_heatmaps/plot_error_heatmap.py:84 | `data.append` of a completed record. Its contract is stated by `Extractor.ScanGrows`, `Extractor.NoVirialNoOutput` and `ExtractorSpec.RecordInPlace`. |
| Extractor.Scan | error_heatmaps/plot_error_heatmap.py:49-85 | The slot and output after the loop has read n lines, or the first error. Its contract is stated by `ExtractorSpec.ScanMatchesSpec` and `ExtractorSpec.FailureAtFirstBadLine`. |
| Extractor.HeaderOpensFreshRecord | error_heatmaps/plot_error_heatmap.py:51-70 | A header whose condition is `<p>G_<k>K...` opens a record. Its key is the stripped composition, the phase, `int(p)` and `int(k)/1000`, with no RMSE values. The line's outcome is the same whatever was pending before. |
| Extractor.MalformedHeaderKeepsSlot | error_heatmaps/plot_error_heatmap.py:61-62 | A header whose condition does not parse leaves the slot as it was. A line with nothing else on it then changes nothing. |
| Extractor.OrphanLineIgnored | error_heatmaps/plot_error_heatmap.py:73 | With no record open and no well-formed header, a line is ignored, even one with malformed captures. |
| Extractor.StepWithOpenRecord | error_heatmaps/plot_error_heatmap.py:73-85 | With a record open and valid captures, energy and force captures replace the stored values and absent ones keep them. Without a virial capture the record stays pending. With one, exactly that record, virial set, is emitted and the slot cleared. |
| Extractor.ScanFailurePersists | error_heatmaps/plot_error_heatmap.py:78-83 | Once a malformed value has aborted the parse, later lines change nothing. |
| Extractor.ScanPrefix | error_heatmaps/plot_error_heatmap.py:49 | The state after n lines depends only on those n lines. |
| Extractor.ScanGrows | error_heatmaps/plot_error_heatmap.py:84 | The output only grows: each earlier table is a prefix of each later one, and a parse that succeeds succeeded on every prefix. |
| Extractor.NoVirialNoOutput | error_heatmaps/plot_error_heatmap.py:82-85 | Lines without a virial capture add no rows. |
| Extractor.TrailingPendingDropped | error_heatmaps/plot_error_heatmap.py:84-87 | Lines after the last virial line do not change a successful result. The record still pending at the end is dropped. |
| Extractor.EmptyLog | error_heatmaps/plot_error_heatmap.py:43-87 | An empty log gives an empty table. |
| ExtractorSpec.SpecStep | error_heatmaps/plot_error_heatmap.py:49-85 | Reading one more line from the described slot fails exactly when it breaks well-formedness. Otherwise it yields the described slot and the described table for one more line. |
| ExtractorSpec.ScanMatchesSpec | error_heatmaps/plot_error_heatmap.py:49-85 | The scan of n lines succeeds exactly when no open record meets a malformed value. Its slot and table are then the position-based ones: the key of the last well-formed header, and the last energy and force values since that header. |
| ExtractorSpec.ExtractMatchesSpec | error_heatmaps/plot_error_heatmap.py:43-87 | The parse succeeds exactly when the log is well-formed. It then returns the records of the completing lines in line order. |
| ExtractorSpec.FailureAtFirstBadLine | error_heatmaps/plot_error_heatmap.py:49-85 | A scan that fails stops at the first line where a record is open and a capture is malformed. Every earlier line is well-formed, and the error reports that line's first malformed capture. |
| ExtractorSpec.ExtractFailsAtFirstBadLine | error_heatmaps/plot_error_heatmap.py:43-87 | A failed parse reports the first malformed line of the log, and on it the first malformed capture in the order energy, force, virial. |
| ExtractorSpec.TablePrefix | error_heatmaps/plot_error_heatmap.py:84 | The table of a prefix of the log is a prefix of the table. |
| ExtractorSpec.RecordInPlace | error_heatmaps/plot_error_heatmap.py:84 | The record of completing line i stands right after the records of the completing lines before i. |
| ExtractorSpec.TableEntryOrigin | error_heatmaps/plot_error_heatmap.py:84 | Every table entry is the record of some completing line. |
| ExtractorSpec.TableLength | error_heatmaps/plot_error_heatmap.py:82-85 | The table has one row per completing line: a virial line read while a record is open. |
| ExtractorSpec.StaleHeaderDiscarded | error_heatmaps/plot_error_heatmap.py:65-70 | The record of any completing line at or after a well-formed header has the key of that header or of a later one, so a record pending when the header arrives never reaches the table. |
| ExtractorSpec.LastOpeningIsLatest | error_heatmaps/plot_error_heatmap.py:65-70 | The header a record's key comes from is the latest well-formed one. |
| ExtractorSpec.SecondVirialIgnored | error_heatmaps/plot_error_heatmap.py:82-85 | A virial line right after a completing line completes nothing, unless it opens a record itself. |
| SystemHeader.StripPhasePrefix | error_heatmaps/plot_error_heatmap.py:58 | The result is a suffix of the composition, three characters shorter exactly when the composition starts with fcc, bcc or hcp, and unchanged otherwise. |
| SystemHeader.StripPrefixed | error_heatmaps/plot_error_heatmap.py:58 | A prefix followed by anything loses exactly that prefix, even when another prefix follows. |
| SystemHeader.StripUnprefixed | error_heatmaps/plot_error_heatmap.py:58 | A composition without a prefix is unchanged. |
| SystemHeader.StripTwice | error_heatmaps/plot_error_heatmap.py:58 | Stripping twice equals stripping once exactly when the first strip exposes no further prefix. |
| SystemHeader.SplitCondition | error_heatmaps/plot_error_heatmap.py:61 | An accepted token has the shape `<digits>G_<digits>K<rest>` and is cut at those pieces. |
| SystemHeader.ParseCondition | error_heatmaps/plot_error_heatmap.py:61-64 | The condition token's figures. Its contract is stated by `SystemHeader.ParseConditionSound` and `SystemHeader.ParseConditionComplete`. |
| SystemHeader.KeyOf | error_heatmaps/plot_error_heatmap.py:53-70 | The key a header opens. Its contract is stated by `Extractor.HeaderOpensFreshRecord`. |
| SystemHeader.ParseConditionSound | error_heatmaps/plot_error_heatmap.py:61-64 | Every accepted token has the condition shape, and the figures are its two digit runs read as integers. |
| SystemHeader.ParseConditionComplete | error_heatmaps/plot_error_heatmap.py:61-64 | Every token of the condition shape is accepted with those figures, whatever follows the K. |
| Digits.DigitsThen | error_heatmaps/plot_error_heatmap.py:61 | A found run is a non-empty digit string, followed by the stop character and the rest. |
| Digits.DigitsThenRun | error_heatmaps/plot_error_heatmap.py:61 | A digit run followed by the stop character is exactly what is found. |
| Digits.NatOf | error_heatmaps/plot_error_heatmap.py:63-64 | `int()` of an ASCII digit run. Its contract is stated by `Digits.NatOfSnoc` and, for the condition figures, by `SystemHeader.ParseConditionComplete`. |
| Digits.NatOfSnoc | error_heatmaps/plot_error_heatmap.py:63-64 | Appending a digit multiplies the value by ten and adds the digit. |
| FloatLiteral.CapturePrefix | error_heatmaps/plot_error_heatmap.py:74-76 | The greedy run is a prefix made of class characters, followed by the end or by a character outside the class. |
| FloatLiteral.CaptureRun | error_heatmaps/plot_error_heatmap.py:74-76 | The group matches exactly when the text starts with a class character. The capture is then a non-empty maximal run of class characters. |
| FloatLiteral.CaptureWhole | error_heatmaps/plot_error_heatmap.py:74-76 | A run of class characters followed by a non-class character or the end is captured whole. |
| FloatLiteral.CaptureRendered | error_heatmaps/plot_error_heatmap.py:74-83 | A literal's text followed by a non-class character or the end is captured whole when the class admits its signs. `float()` then reads the number the literal denotes. |
| FloatLiteral.PlusExponentCut | error_heatmaps/plot_error_heatmap.py:74-79 | With `[\d.e-]`, a literal with a `+` exponent is captured only up to its `e`, and `float()` rejects that. |
| FloatLiteral.ParseExponent | error_heatmaps/plot_error_heatmap.py:79 | An accepted exponent is an optional sign followed by at least one digit, and nothing else. |
| FloatLiteral.Parse | error_heatmaps/plot_error_heatmap.py:79 | Every accepted text is a well-formed literal that renders back to that same text. |
| FloatLiteral.ParseRender | error_heatmaps/plot_error_heatmap.py:79 | Parsing the text of any well-formed literal gives that literal back. |
| FloatLiteral.AcceptedEnding | error_heatmaps/plot_error_heatmap.py:74-79 | Every accepted text ends in a digit or a point, so a capture cut off after `e`, `-` or `+` is rejected. |
| FloatLiteral.Value | error_heatmaps/plot_error_heatmap.py:79 | The number `float()` returns for a literal. Its contract is stated by `FloatLiteral.CaptureRendered` and `Scenarios.FourLineFigures`. |
| FloatLiteral.MetricValue | error_heatmaps/plot_error_heatmap.py:79-83 | A value results exactly when `float()` accepts the text. |
| ErrorRanges.ColumnRange | error_heatmaps/plot_error_heatmap.py:102-105 | There is a range exactly when some record carries the column. Then vmin ≤ vmax, every present value lies within them, and both bounds are attained by some record. |
| ErrorRanges.GetErrorRanges | error_heatmaps/plot_error_heatmap.py:100-106 | The call succeeds exactly when every listed column is carried. Its keys are then exactly the listed columns, each mapped to that column's range. Otherwise it fails on the first listed column that no record carries. |
| ErrorRanges.RangeDeterminedByValues | error_heatmaps/plot_error_heatmap.py:102-105 | A column's range depends only on the set of values present in it, not on record order, repetitions or missing entries. |
| ErrorRanges.MissingEntriesIgnored | error_heatmaps/plot_error_heatmap.py:102-105 | Inserting a record that lacks the column anywhere leaves the column's range unchanged. |
| ErrorRanges.VirialRangeExists | error_heatmaps/plot_error_heatmap.py:102-105 | The virial column has a range exactly when the table is non-empty. |
| ErrorRanges.EmptyTableRaises | error_heatmaps/plot_error_heatmap.py:101-103 | On the table of an empty log, the first listed column raises. |
| Scenarios.FourLineKey | error_heatmaps/plot_error_heatmap.py:51-70 | The header `run/PbSn/10G_500K` opens the key (run, PbSn, 10, 0.5). |
| Scenarios.FourLineCondition | error_heatmaps/plot_error_heatmap.py:61-64 | The condition token "10G_500K" reads as pressure 10 and 500 K. |
| Scenarios.FourLineFigures | error_heatmaps/plot_error_heatmap.py:79-83 | "1.2e-03", "4.5e-02" and "7.8e-04" are read as 0.0012, 0.045 and 0.00078. |
| Scenarios.CompleteRecord | error_heatmaps/plot_error_heatmap.py:49-85 | A header followed by one energy, one force and one virial line gives exactly one record, with the header's key and the three values. |
| Scenarios.FourLineLog | error_heatmaps/plot_error_heatmap.py:49-85 | The four-line log gives the single record (run, PbSn, 10, 0.5, 0.0012, 0.045, 0.00078). |
| Scenarios.TruncatedCapture | error_heatmaps/plot_error_heatmap.py:74 | The energy pattern captures "1.2e+03" only as "1.2e". |
| Scenarios.EnergyReportedFirst | error_heatmaps/plot_error_heatmap.py:78-83 | With a record open, a line whose energy and virial captures are both malformed is reported with its energy capture. |
| Scenarios.TruncatedExponent | error_heatmaps/plot_error_heatmap.py:78-79 | With a record open, an energy capture "1.2e" aborts the parse at that line. |
| Scenarios.PlusExponentRead | error_heatmaps/plot_error_heatmap.py:74-79 | With `+` in the class, "1.2e+03" is captured whole and read as 1200. |
| Scenarios.MalformedConditionIgnored | error_heatmaps/plot_error_heatmap.py:61-62 | After the header condition "abcG_500K", a virial line produces no record. |
| Scenarios.HeaderThenVirial | error_heatmaps/plot_error_heatmap.py:82-85 | A header straight followed by a virial line gives one record with no energy or force, and an empty slot. |
| Scenarios.SecondVirialDropped | error_heatmaps/plot_error_heatmap.py:73-85 | A second virial line with no header in between adds nothing. |
| Scenarios.PrefixExamples | error_heatmaps/plot_error_heatmap.py:58 | "fccPbSn" becomes "PbSn"; "fccbccX" becomes "bccX", which a second strip changes again. |

## Left out

- Reading the file (lines 46-47): the model starts from the sequence of lines. An I/O error is not modelled.
- The regular expressions as such: `Line` carries what the header pattern and the three metric patterns captured. The header pattern's segment selection (`(?:.*/)?` then three segments before `/deepmd`) is not modelled. The capture group is modelled on the text after ": ".
- Unicode digits: Python's `\d` also matches non-ASCII decimal digits, and `int` reads them. The model uses ASCII digits only.
- FloatLiteral.MetricValue: gives the exact decimal value, not the nearest binary64 double. Rounding, overflow to `inf` and underflow are left out, because floating point is not modelled; values compare exactly.
- Extractor.HeaderOpensFreshRecord: the temperature in the key is the exact real k/1000. `int(k) / 1000` at line 64 is Python true division into a binary64 float. It rounds (300 gives 0.29999999999999998…) and raises `OverflowError` when the quotient exceeds the float range. Floating point is not modelled.
- ExtractorSpec.ExtractMatchesSpec: its "succeeds exactly when the log is well-formed" ignores two exceptions that a header can raise at lines 63-64, and so does `Extractor.HeaderOpensFreshRecord`, which opens a record for every well-formed condition. `int()` raises `ValueError` on a digit run longer than Python's integer-string conversion limit (4300 digits by default). `int(k) / 1000` raises `OverflowError` when the quotient exceeds the float range. Both run before the check for an open record at line 73, so either aborts the whole parse whether or not a record is open. The model has no digit limit and exact reals, so such a header simply opens a record.
- `Line` captures are arbitrary strings, wider than what `[\d.e-]+` can capture: a capture containing `+`, such as "1.2e+03", is read as 1200 by the model. The pattern as written never yields such a capture (`FloatLiteral.CaptureRun` with `AsWritten`), so the extra inputs only describe the `WithPlus` variant.
- `float()` also accepts forms that no capture can contain (`E`, `inf`, `nan`, `_`, surrounding blanks). Their absence from the grammar changes nothing reachable.
- The `pd.DataFrame` construction (line 87) is represented by the list of records. Column presence is derived from which records carry a field, and a missing entry is `None` rather than NaN.
- ErrorRanges.GetErrorRanges: a column name outside the three RMSE columns cannot be asked for, because `Column` has only those three. The frame built at line 87 also has the columns composition, phase, pressure and temperature, and pandas would answer them on a non-empty table. The only caller (line 308) lists the three RMSE columns, so those are all the model covers.
- Error text: the message of `ValueError` or `KeyError` is not modelled. Only the offending line and text, or the column, are kept.
- The plotting half of the script is not part of this model: font setup (lines 18-31), value formatting, the heatmap functions and `main`. The other scripts of the repository are not part of it either.

## Findings

| source | as written | input that shows it | evidently intended | confidence | as-written member | corrected member |
|---|---|---|---|---|---|---|
| error_heatmaps/plot_error_heatmap.py:74-76 | The capture class `[\d.e-]` has no `+`, so a value printed in `%e` style with a non-negative exponent is cut off after its `e`. | A record open and the line `Energy RMSE/Natoms : 1.2e+03 eV`: the capture is `1.2e`, `float()` raises `ValueError`, and the whole parse aborts. | `[\d.e+-]`, which captures `1.2e+03` whole and reads 1200 | medium; not executed | FloatLiteral.PlusExponentCut | FloatLiteral.CaptureRendered |

For every well-formed literal followed by a non-class character or the end of the line, `FloatLiteral.CaptureRendered` proves that the class with `+` captures the literal's text whole and that `float()` reads the literal's value. The same lemma holds for the class as written only for literals without a `+`. `FloatLiteral.PlusExponentCut` proves that every literal with a `+` exponent is cut off and rejected. `Scenarios.TruncatedCapture`, `Scenarios.TruncatedExponent` and `Scenarios.PlusExponentRead` show the concrete case. The extractor takes captures as given, so it is unaffected by which class produced them. The literal grammar accepts `+` signs, as `float()` does.
