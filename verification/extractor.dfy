/** The record extractor of `parse_test_error_log` (plot_error_heatmap.py, lines
    33-87): one forward pass over the log's lines with a single pending-record slot.
    A line arrives already classified: the header pattern's three segments if the
    line carries a "testing system" header, and the text each of the energy, force
    and virial RMSE patterns captured if it matched. */
module Extractor {
  import opened Results
  import opened FloatLiteral
  import opened SystemHeader
  import opened Digits

  /** One classified log line. */
  datatype Line = Line(header: Option<Header>, energy: Option<string>, force: Option<string>, virial: Option<string>)

  /** The slot's content: the key from the last header and the RMSE values read since. */
  datatype Pending = Pending(key: SystemKey, energy: Option<real>, force: Option<real>)

  /** A row of the result table; the virial RMSE is always present. */
  datatype Completed = Completed(key: SystemKey, energy: Option<real>, force: Option<real>, virial: real)

  /** `float()` raised on a captured text: the 0-based line index and the text. */
  datatype ParseError = MalformedMetric(line: nat, text: string)

  /** A header whose condition token parses. */
  predicate OpensRecord(line: Line) {
    line.header.Some? && KeyOf(line.header.value).Some?
  }

  /** The slot after a line's header has been looked at (lines 51-70): a fresh record
      for a well-formed header, otherwise the slot as it was. */
  function AfterHeader(slot: Option<Pending>, line: Line): Option<Pending> {
    if OpensRecord(line) then Some(Pending(KeyOf(line.header.value).value, None, None)) else slot
  }

  predicate CaptureValid(capture: Option<string>) {
    capture.None? || ValidLiteral(capture.value)
  }

  /** Every captured RMSE text on the line is one `float()` accepts. */
  predicate CapturesValid(line: Line) {
    CaptureValid(line.energy) && CaptureValid(line.force) && CaptureValid(line.virial)
  }

  /** The capture `float()` raises on when a line has a malformed one: the energy
      capture is read first (line 79), then the force capture (line 81), then the
      virial capture (line 83). */
  function FirstMalformed(line: Line): string
    requires !CapturesValid(line)
  {
    if !CaptureValid(line.energy) then line.energy.value
    else if !CaptureValid(line.force) then line.force.value
    else line.virial.value
  }

  /** The reported capture is one of the line's captures, and one `float()` rejects. */
  lemma FirstMalformedRejected(line: Line)
    requires !CapturesValid(line)
    ensures !ValidLiteral(FirstMalformed(line))
    ensures Some(FirstMalformed(line)) in [line.energy, line.force, line.virial]
  {
  }

  /** `float()` on a capture, if there is one. */
  function ReadMetric(capture: Option<string>, index: nat): (r: Result<Option<real>, ParseError>)
    ensures r.Success? <==> CaptureValid(capture)
    ensures r.Success? ==> (r.value.Some? <==> capture.Some?)
    ensures r.Failure? ==> r.error == MalformedMetric(index, capture.value)
  {
    match capture
    case None => Success(None)
    case Some(text) =>
      match MetricValue(text)
      case None => Failure(MalformedMetric(index, text))
      case Some(v) => Success(Some(v))
  }

  /** A newly read value replaces the old one; no value keeps it. */
  function Latest(previous: Option<real>, read: Option<real>): Option<real> {
    if read.Some? then read else previous
  }

  /** One iteration of the loop (lines 49-85): the new slot and the record the line
      completes, if any. With a record open, the energy, force and virial captures
      are read in that order, the first malformed one aborting the whole parse. */
  function Step(slot: Option<Pending>, line: Line, index: nat): (r: Result<(Option<Pending>, Option<Completed>), ParseError>)
    ensures r.Failure? <==> AfterHeader(slot, line).Some? && !CapturesValid(line)
    ensures r.Failure? ==> !CapturesValid(line) && r.error == MalformedMetric(index, FirstMalformed(line))
    ensures r.Success? ==> (r.value.1.Some? <==> AfterHeader(slot, line).Some? && line.virial.Some?)
    ensures r.Success? ==> (r.value.0.Some? <==> AfterHeader(slot, line).Some? && line.virial.None?)
    ensures r.Success? && r.value.0.Some? ==> r.value.0.value.key == AfterHeader(slot, line).value.key
    ensures r.Success? && r.value.1.Some? ==> r.value.1.value.key == AfterHeader(slot, line).value.key
  {
    match AfterHeader(slot, line)
    case None => Success((None, None))
    case Some(p) => Update(p, line, index)
  }

  /** The metric part of an iteration (lines 73-85) with record `p` open: the record
      with the line's values, or the record completed by its virial value. */
  function Update(p: Pending, line: Line, index: nat): (r: Result<(Option<Pending>, Option<Completed>), ParseError>)
    ensures r.Failure? <==> !CapturesValid(line)
    ensures r.Failure? ==> !CapturesValid(line) && r.error == MalformedMetric(index, FirstMalformed(line))
    ensures r.Success? ==> (r.value.1.Some? <==> line.virial.Some?)
    ensures r.Success? ==> (r.value.0.Some? <==> line.virial.None?)
    ensures r.Success? && r.value.0.Some? ==> r.value.0.value.key == p.key
    ensures r.Success? && r.value.1.Some? ==> r.value.1.value.key == p.key
  {
    var energy :- ReadMetric(line.energy, index);
    var force :- ReadMetric(line.force, index);
    var virial :- ReadMetric(line.virial, index);
    var p' := Pending(p.key, Latest(p.energy, energy), Latest(p.force, force));
    if virial.Some? then
      Success((None, Some(Completed(p'.key, p'.energy, p'.force, virial.value))))
    else
      Success((Some(p'), None))
  }

  /** The slot and the table after the first `n` lines, or the error that aborted. */
  function Scan(lines: seq<Line>, n: nat): Result<(Option<Pending>, seq<Completed>), ParseError>
    requires n <= |lines|
    decreases n, 1
  {
    if n == 0 then Success((None, [])) else Advance(lines, n - 1)
  }

  /** The loop body of lines 49-85 applied to line `k`, after the lines before it. */
  function Advance(lines: seq<Line>, k: nat): Result<(Option<Pending>, seq<Completed>), ParseError>
    requires k < |lines|
    decreases k + 1, 0
  {
    var before :- Scan(lines, k);
    var step :- Step(before.0, lines[k], k);
    Success((step.0, Emit(before.1, step.1)))
  }

  /** The table grows by the record each completing line emits. */
  function Emit(table: seq<Completed>, completed: Option<Completed>): seq<Completed> {
    if completed.Some? then table + [completed.value] else table
  }

  lemma ScanNext(lines: seq<Line>, n: nat)
    requires n < |lines|
    ensures Scan(lines, n + 1) ==
      match Scan(lines, n)
      case Failure(e) => Failure(e)
      case Success(before) =>
        match Step(before.0, lines[n], n)
        case Failure(e) => Failure(e)
        case Success(step) => Success((step.0, Emit(before.1, step.1)))
  {
  }

  /** A successful scan of `n + 1` lines extends a successful scan of `n` by one
      successful step. */
  lemma ScanSucceeded(lines: seq<Line>, n: nat)
    requires 0 < n <= |lines| && Scan(lines, n).Success?
    ensures Scan(lines, n - 1).Success?
    ensures var before := Scan(lines, n - 1).value;
      var step := Step(before.0, lines[n - 1], n - 1);
      step.Success? && Scan(lines, n).value == (step.value.0, Emit(before.1, step.value.1))
  {
  }

  /** A successful step extends the scan by its slot and its record. */
  lemma ScanExtends(lines: seq<Line>, n: nat, slot: Option<Pending>, table: seq<Completed>)
    requires n < |lines| && Scan(lines, n) == Success((slot, table)) && Step(slot, lines[n], n).Success?
    ensures Scan(lines, n + 1) == Success((Step(slot, lines[n], n).value.0, Emit(table, Step(slot, lines[n], n).value.1)))
  {
  }

  /** A failing step ends the scan with its error. */
  lemma ScanAborts(lines: seq<Line>, n: nat, slot: Option<Pending>, table: seq<Completed>)
    requires n < |lines| && Scan(lines, n) == Success((slot, table)) && Step(slot, lines[n], n).Failure?
    ensures Scan(lines, n + 1) == Failure(Step(slot, lines[n], n).error)
  {
  }

  /** A failed scan stays failed one line further. */
  lemma ScanFailed(lines: seq<Line>, n: nat)
    requires 0 < n <= |lines| && Scan(lines, n - 1).Failure?
    ensures Scan(lines, n) == Scan(lines, n - 1)
  {
  }

  /** Once a malformed value has aborted the parse, later lines change nothing. */
  lemma {:induction false} ScanFailurePersists(lines: seq<Line>, m: nat, n: nat)
    requires m <= n <= |lines|
    requires Scan(lines, m).Failure?
    ensures Scan(lines, n) == Scan(lines, m)
  {
    if n > m {
      ScanFailurePersists(lines, m, n - 1);
      ScanFailed(lines, n);
    }
  }

  /** `parse_test_error_log` on the lines of a log: the table of completed records;
      the record still pending at the end is dropped (line 87). */
  function Extract(lines: seq<Line>): Result<seq<Completed>, ParseError> {
    match Scan(lines, |lines|)
    case Failure(e) => Failure(e)
    case Success(state) => Success(state.1)
  }

  /** The loop of lines 43-87 as the source writes it: a mutable slot and an output
      list, stopping at the first malformed value. */
  method ParseTestErrorLog(lines: seq<Line>) returns (r: Result<seq<Completed>, ParseError>)
    ensures r == Extract(lines)
  {
    var data: seq<Completed> := [];
    var current: Option<Pending> := None;
    for i := 0 to |lines|
      invariant Scan(lines, i) == Success((current, data))
    {
      var step := ProcessLine(current, lines[i], i);
      if step.Failure? {
        ScanAborts(lines, i, current, data);
        ScanFailurePersists(lines, i + 1, |lines|);
        return Failure(step.error);
      }
      ScanExtends(lines, i, current, data);
      current := step.value.0;
      data := Emit(data, step.value.1);
    }
    r := Success(data);
  }

  /** The body of the loop (lines 50-85) with the source's in-place field updates. */
  method ProcessLine(current: Option<Pending>, line: Line, index: nat)
    returns (r: Result<(Option<Pending>, Option<Completed>), ParseError>)
    ensures r == Step(current, line, index)
  {
    var slot := current;
    if line.header.Some? {
      var key := KeyOf(line.header.value);
      if key.Some? {
        slot := Some(Pending(key.value, None, None));
      }
    }
    assert slot == AfterHeader(current, line);
    if slot.None? {
      return Success((None, None));
    }
    r := UpdateRecord(slot.value, line, index);
  }

  /** Lines 73-85: each matching metric line overwrites a field of the open record
      in place, and a virial line completes it. */
  method UpdateRecord(current: Pending, line: Line, index: nat)
    returns (r: Result<(Option<Pending>, Option<Completed>), ParseError>)
    ensures r == Update(current, line, index)
  {
    var record := current;
    if line.energy.Some? {
      var value := MetricValue(line.energy.value);
      if value.None? {
        return Failure(MalformedMetric(index, line.energy.value));
      }
      record := record.(energy := value);
    }
    if line.force.Some? {
      var value := MetricValue(line.force.value);
      if value.None? {
        return Failure(MalformedMetric(index, line.force.value));
      }
      record := record.(force := value);
    }
    if line.virial.Some? {
      var value := MetricValue(line.virial.value);
      if value.None? {
        return Failure(MalformedMetric(index, line.virial.value));
      }
      return Success((None, Some(Completed(record.key, record.energy, record.force, value.value))));
    }
    return Success((Some(record), None));
  }

  /** `float()` of a capture, with no capture read as no value. A rejected capture
      also gives `None`; callers use it only where the captures are valid. */
  function ValueOf(capture: Option<string>): Option<real> {
    if capture.None? then None else MetricValue(capture.value)
  }

  /** A header with a well-formed condition opens a fresh record keyed by the stripped
      composition, the phase, and the figures of the condition, with no RMSE values;
      whatever was pending before has no influence on the line's outcome. */
  lemma {:induction false} HeaderOpensFreshRecord(slot: Option<Pending>, line: Line, index: nat,
                                                 pressure: string, kelvin: string, tail: string)
    requires line.header.Some? && IsConditionOf(line.header.value.condition, pressure, kelvin, tail)
    ensures OpensRecord(line)
    ensures AfterHeader(slot, line) == Some(Pending(
      SystemKey(StripPhasePrefix(line.header.value.composition), line.header.value.phase,
                NatOf(pressure), NatOf(kelvin) as real / 1000.0),
      None, None))
    ensures Step(slot, line, index) == Step(None, line, index)
  {
    ParseConditionComplete(line.header.value.condition, pressure, kelvin, tail);
  }

  /** A header whose condition token does not parse leaves the slot exactly as it
      was; a line carrying nothing else then changes nothing. */
  lemma MalformedHeaderKeepsSlot(slot: Option<Pending>, line: Line, index: nat)
    requires line.header.Some? && ParseCondition(line.header.value.condition).None?
    ensures AfterHeader(slot, line) == slot
    ensures line.energy.None? && line.force.None? && line.virial.None? ==> Step(slot, line, index) == Success((slot, None))
  {
  }

  /** With no record open and no well-formed header, a line is ignored, whatever
      it captured, malformed values included. */
  lemma OrphanLineIgnored(line: Line, index: nat)
    requires !OpensRecord(line)
    ensures Step(None, line, index) == Success((None, None))
  {
  }

  /** With a record open and valid captures: energy and force values replace the
      stored ones (absent ones keep them); without a virial value the record stays
      pending and nothing is emitted; with one, exactly that record, virial set, is
      emitted and the slot is cleared. */
  lemma StepWithOpenRecord(slot: Option<Pending>, line: Line, index: nat)
    requires AfterHeader(slot, line).Some? && CapturesValid(line)
    ensures var p := AfterHeader(slot, line).value;
      var energy := Latest(p.energy, ValueOf(line.energy));
      var force := Latest(p.force, ValueOf(line.force));
      && (line.virial.None? ==> Step(slot, line, index) == Success((Some(Pending(p.key, energy, force)), None)))
      && (line.virial.Some? ==>
            Step(slot, line, index) == Success((None, Some(Completed(p.key, energy, force, MetricValue(line.virial.value).value)))))
  {
  }

  /** Scanning looks only at the lines already read. */
  lemma {:induction false} ScanPrefix(lines: seq<Line>, more: seq<Line>, n: nat)
    requires n <= |lines|
    ensures Scan(lines + more, n) == Scan(lines, n)
  {
    if n > 0 {
      ScanPrefix(lines, more, n - 1);
      assert (lines + more)[n - 1] == lines[n - 1];
      assert Advance(lines + more, n - 1) == Advance(lines, n - 1);
    }
  }

  /** The table only ever grows: a record once emitted is never withdrawn or
      reordered, and a parse that succeeds succeeded on every prefix. */
  lemma {:induction false} ScanGrows(lines: seq<Line>, m: nat, n: nat)
    requires m <= n <= |lines|
    requires Scan(lines, n).Success?
    ensures Scan(lines, m).Success?
    ensures Scan(lines, m).value.1 <= Scan(lines, n).value.1
  {
    if m < n {
      OneLineGrows(lines, n);
      ScanGrows(lines, m, n - 1);
    }
  }


  lemma OneLineGrows(lines: seq<Line>, n: nat)
    requires 0 < n <= |lines| && Scan(lines, n).Success?
    ensures Scan(lines, n - 1).Success? && Scan(lines, n - 1).value.1 <= Scan(lines, n).value.1
  {
    ScanSucceeded(lines, n);
    var before := Scan(lines, n - 1).value;
    EmitGrows(before.1, Step(before.0, lines[n - 1], n - 1).value.1);
  }

  lemma EmitGrows(table: seq<Completed>, completed: Option<Completed>)
    ensures table <= Emit(table, completed)
  {
  }

  /** Lines without a virial value emit nothing: a record still pending at the end
      of the input is dropped, and the table is that of the input without them. */
  lemma {:induction false} TrailingPendingDropped(lines: seq<Line>, tail: seq<Line>)
    requires forall k :: 0 <= k < |tail| ==> tail[k].virial.None?
    requires Extract(lines + tail).Success?
    ensures Extract(lines + tail) == Extract(lines)
  {
    NoVirialNoOutput(lines + tail, |lines|, |lines + tail|);
    ScanPrefix(lines, tail, |lines|);
  }

  lemma {:induction false} NoVirialNoOutput(lines: seq<Line>, m: nat, n: nat)
    requires m <= n <= |lines|
    requires forall k :: m <= k < n ==> lines[k].virial.None?
    requires Scan(lines, n).Success?
    ensures Scan(lines, m).Success? && Scan(lines, n).value.1 == Scan(lines, m).value.1
  {
    if m < n {
      ScanSucceeded(lines, n);
      NoVirialNoOutput(lines, m, n - 1);
    }
  }

  /** An empty log gives an empty table. */
  lemma EmptyLog()
    ensures Extract([]) == Success([])
  {
  }
}
