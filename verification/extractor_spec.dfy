/** A declarative description of the table `parse_test_error_log` builds, in terms of
    positions in the log rather than of a running slot: a line completes a record
    when a well-formed header precedes it (or is on it) and no virial line lies
    between that header and it; the record carries the key of the latest such
    header and the latest energy and force values read since. The main theorem
    says the single-slot scan computes exactly this. */
module ExtractorSpec {
  import opened Results
  import opened FloatLiteral
  import opened Extractor

  /** The index of the last line before `n` that opens a record. */
  function LastOpening(lines: seq<Line>, n: nat): (r: Option<nat>)
    requires n <= |lines|
    ensures r.Some? ==> r.value < n && OpensRecord(lines[r.value])
  {
    if n == 0 then None
    else if OpensRecord(lines[n - 1]) then Some(n - 1)
    else LastOpening(lines, n - 1)
  }

  /** No line after the last opening one opens a record, and none at all when there
      is no last opening one. */
  lemma {:induction false} LastOpeningIsLatest(lines: seq<Line>, n: nat)
    requires n <= |lines|
    ensures forall k {:trigger OpensRecord(lines[k])} :: 0 <= k < n && OpensRecord(lines[k]) ==>
      LastOpening(lines, n).Some? && k <= LastOpening(lines, n).value
  {
    if n > 0 && !OpensRecord(lines[n - 1]) {
      LastOpeningIsLatest(lines, n - 1);
    }
  }

  predicate NoVirialBetween(lines: seq<Line>, lo: nat, hi: nat)
    requires lo <= hi <= |lines|
  {
    forall k :: lo <= k < hi ==> lines[k].virial.None?
  }

  /** The key a record-opening line opens. */
  function OpenedKey(line: Line): SystemHeader.SystemKey
    requires OpensRecord(line)
  {
    SystemHeader.KeyOf(line.header.value).value
  }

  datatype Field = EnergyField | ForceField

  function CaptureOf(line: Line, field: Field): Option<string> {
    match field
    case EnergyField => line.energy
    case ForceField => line.force
  }

  /** The value of the last capture of `field` among lines lo..hi-1, if any. */
  function LastValue(lines: seq<Line>, lo: nat, hi: nat, field: Field): Option<real>
    requires lo <= hi <= |lines|
  {
    if hi == lo then None
    else
      match CaptureOf(lines[hi - 1], field)
      case Some(text) => MetricValue(text)
      case None => LastValue(lines, lo, hi - 1, field)
  }

  /** Whether a record is open while line `i` is read, once its header is taken into
      account: some well-formed header at or before `i` with no virial line from it
      up to (not including) `i`. */
  predicate OpenAt(lines: seq<Line>, i: nat)
    requires i < |lines|
  {
    match LastOpening(lines, i + 1)
    case None => false
    case Some(j) => NoVirialBetween(lines, j, i)
  }

  /** Line `i` completes a record. */
  predicate Completes(lines: seq<Line>, i: nat)
    requires i < |lines|
  {
    OpenAt(lines, i) && lines[i].virial.Some?
  }

  /** No line read while a record is open carries a malformed value. */
  predicate WellFormedUpTo(lines: seq<Line>, n: nat)
    requires n <= |lines|
  {
    forall i {:trigger OpenAt(lines, i)} :: 0 <= i < n ==> OpenAt(lines, i) ==> CapturesValid(lines[i])
  }

  /** The slot after the first `n` lines. */
  function PendingAfter(lines: seq<Line>, n: nat): Option<Pending>
    requires n <= |lines|
  {
    match LastOpening(lines, n)
    case None => None
    case Some(j) =>
      if NoVirialBetween(lines, j, n) then
        Some(Pending(OpenedKey(lines[j]), LastValue(lines, j, n, EnergyField), LastValue(lines, j, n, ForceField)))
      else None
  }

  /** The record line `i` completes. */
  function RecordAt(lines: seq<Line>, i: nat): Completed
    requires i < |lines| && Completes(lines, i) && CapturesValid(lines[i])
  {
    var j := LastOpening(lines, i + 1).value;
    Completed(OpenedKey(lines[j]), LastValue(lines, j, i + 1, EnergyField), LastValue(lines, j, i + 1, ForceField),
              MetricValue(lines[i].virial.value).value)
  }

  /** The records of the completing lines among the first `n`, in line order. */
  function Table(lines: seq<Line>, n: nat): seq<Completed>
    requires n <= |lines| && WellFormedUpTo(lines, n)
  {
    if n == 0 then []
    else Table(lines, n - 1) + if Completes(lines, n - 1) then [RecordAt(lines, n - 1)] else []
  }

  /** The slot as the header of line `m` leaves it. */
  lemma {:induction false} AfterHeaderSpec(lines: seq<Line>, m: nat)
    requires m < |lines|
    ensures AfterHeader(PendingAfter(lines, m), lines[m]).Some? <==> OpenAt(lines, m)
    ensures OpenAt(lines, m) ==>
      var j := LastOpening(lines, m + 1).value;
      AfterHeader(PendingAfter(lines, m), lines[m]) ==
        Some(Pending(OpenedKey(lines[j]), LastValue(lines, j, m, EnergyField), LastValue(lines, j, m, ForceField)))
  {
    if !OpensRecord(lines[m]) {
      assert LastOpening(lines, m + 1) == LastOpening(lines, m);
    }
  }

  /** One more line, read from the described slot, fails exactly when it breaks
      well-formedness, and otherwise yields the described slot and table. */
  lemma SpecStep(lines: seq<Line>, m: nat)
    requires m < |lines| && WellFormedUpTo(lines, m)
    ensures Step(PendingAfter(lines, m), lines[m], m).Success? <==> WellFormedUpTo(lines, m + 1)
    ensures Step(PendingAfter(lines, m), lines[m], m).Success? ==>
      var step := Step(PendingAfter(lines, m), lines[m], m).value;
      step.0 == PendingAfter(lines, m + 1) && Emit(Table(lines, m), step.1) == Table(lines, m + 1)
  {
    WellFormedNext(lines, m);
    AfterHeaderSpec(lines, m);
    if OpenAt(lines, m) {
      if CapturesValid(lines[m]) {
        SpecStepOpen(lines, m);
      } else {
        assert Step(PendingAfter(lines, m), lines[m], m).Failure?;
      }
    } else {
      SpecStepClosed(lines, m);
    }
  }

  lemma WellFormedNext(lines: seq<Line>, m: nat)
    requires m < |lines| && WellFormedUpTo(lines, m)
    ensures WellFormedUpTo(lines, m + 1) <==> (OpenAt(lines, m) ==> CapturesValid(lines[m]))
  {
  }

  lemma SpecStepOpen(lines: seq<Line>, m: nat)
    requires m < |lines| && WellFormedUpTo(lines, m + 1)
    requires OpenAt(lines, m)
    ensures Step(PendingAfter(lines, m), lines[m], m).Success?
    ensures var step := Step(PendingAfter(lines, m), lines[m], m).value;
      step.0 == PendingAfter(lines, m + 1) && Emit(Table(lines, m), step.1) == Table(lines, m + 1)
  {
    var line := lines[m];
    var j := LastOpening(lines, m + 1).value;
    AfterHeaderSpec(lines, m);
    StepWithOpenRecord(PendingAfter(lines, m), line, m);
    LastValueNext(lines, j, m, EnergyField);
    LastValueNext(lines, j, m, ForceField);
    PendingAfterOpen(lines, m);
  }

  /** Reading one more line updates the last value of a field as the slot does. */
  lemma LastValueNext(lines: seq<Line>, lo: nat, m: nat, field: Field)
    requires lo <= m < |lines| && CaptureValid(CaptureOf(lines[m], field))
    ensures LastValue(lines, lo, m + 1, field) == Latest(LastValue(lines, lo, m, field), ValueOf(CaptureOf(lines[m], field)))
  {
  }

  /** After a line read with a record open, the record stays open unless the line
      had a virial value. */
  lemma PendingAfterOpen(lines: seq<Line>, m: nat)
    requires m < |lines| && OpenAt(lines, m)
    ensures var j := LastOpening(lines, m + 1).value;
      PendingAfter(lines, m + 1) ==
        if lines[m].virial.None? then
          Some(Pending(OpenedKey(lines[j]), LastValue(lines, j, m + 1, EnergyField), LastValue(lines, j, m + 1, ForceField)))
        else None
  {
    var j := LastOpening(lines, m + 1).value;
    assert NoVirialBetween(lines, j, m + 1) <==> lines[m].virial.None?;
  }

  lemma SpecStepClosed(lines: seq<Line>, m: nat)
    requires m < |lines| && WellFormedUpTo(lines, m + 1)
    requires !OpenAt(lines, m)
    ensures Step(PendingAfter(lines, m), lines[m], m) == Success((None, None))
    ensures PendingAfter(lines, m + 1).None? && Table(lines, m + 1) == Table(lines, m)
  {
    AfterHeaderSpec(lines, m);
    match LastOpening(lines, m + 1)
    case None =>
    case Some(j) =>
      assert !NoVirialBetween(lines, j, m + 1);
  }

  /** The scan succeeds exactly when no open record meets a malformed value, and then
      its slot and table are those described above. */
  lemma {:induction false} ScanMatchesSpec(lines: seq<Line>, n: nat)
    requires n <= |lines|
    ensures Scan(lines, n).Success? <==> WellFormedUpTo(lines, n)
    ensures Scan(lines, n).Success? ==> Scan(lines, n).value == (PendingAfter(lines, n), Table(lines, n))
  {
    if n > 0 {
      var m := n - 1;
      ScanMatchesSpec(lines, m);
      ScanNext(lines, m);
      if WellFormedUpTo(lines, m) {
        var before := Scan(lines, m).value;
        assert before.0 == PendingAfter(lines, m) && before.1 == Table(lines, m);
        SpecStep(lines, m);
        var step := Step(before.0, lines[m], m);
        if step.Success? {
          assert Scan(lines, n) == Success((step.value.0, Emit(before.1, step.value.1)));
        } else {
          assert Scan(lines, n).Failure?;
        }
      } else {
        assert Scan(lines, n).Failure?;
        WellFormedShrinks(lines, m, n);
      }
    }
  }

  lemma WellFormedShrinks(lines: seq<Line>, m: nat, n: nat)
    requires m <= n <= |lines|
    ensures WellFormedUpTo(lines, n) ==> WellFormedUpTo(lines, m)
  {
  }

  /** `parse_test_error_log` returns the table of the completing lines, and fails
      exactly when a record it reads meets a value `float()` rejects. */
  lemma {:induction false} ExtractMatchesSpec(lines: seq<Line>)
    ensures Extract(lines).Success? <==> WellFormedUpTo(lines, |lines|)
    ensures Extract(lines).Success? ==> Extract(lines).value == Table(lines, |lines|)
  {
    ScanMatchesSpec(lines, |lines|);
  }

  /** The table of a prefix of the log is a prefix of the table. */
  lemma {:induction false} TablePrefix(lines: seq<Line>, m: nat, n: nat)
    requires m <= n <= |lines| && WellFormedUpTo(lines, n)
    ensures WellFormedUpTo(lines, m) && Table(lines, m) <= Table(lines, n)
  {
    WellFormedShrinks(lines, m, n);
    if m < n {
      TablePrefix(lines, m, n - 1);
      WellFormedShrinks(lines, n - 1, n);
    }
  }

  /** Order preservation: the record of completing line `i` stands in the table right
      after the records of the completing lines before it. */
  lemma {:induction false} RecordInPlace(lines: seq<Line>, i: nat, n: nat)
    requires i < n <= |lines| && WellFormedUpTo(lines, n) && Completes(lines, i)
    ensures WellFormedUpTo(lines, i) && CapturesValid(lines[i])
    ensures |Table(lines, i)| < |Table(lines, n)| && Table(lines, n)[|Table(lines, i)|] == RecordAt(lines, i)
  {
    RowPrefix(lines, i, n);
    CompletingRow(lines, i);
    ExtendedPrefix(Table(lines, i), RecordAt(lines, i), Table(lines, n));
  }

  lemma RowPrefix(lines: seq<Line>, i: nat, n: nat)
    requires i < n <= |lines| && WellFormedUpTo(lines, n)
    ensures WellFormedUpTo(lines, i + 1) && Table(lines, i + 1) <= Table(lines, n)
  {
    TablePrefix(lines, i + 1, n);
  }

  lemma CompletingRow(lines: seq<Line>, i: nat)
    requires i < |lines| && WellFormedUpTo(lines, i + 1) && Completes(lines, i)
    ensures WellFormedUpTo(lines, i) && CapturesValid(lines[i])
    ensures Table(lines, i + 1) == Table(lines, i) + [RecordAt(lines, i)]
  {
    WellFormedShrinks(lines, i, i + 1);
  }

  lemma ExtendedPrefix<T>(a: seq<T>, x: T, b: seq<T>)
    requires a + [x] <= b
    ensures |a| < |b| && b[|a|] == x
  {
    assert (a + [x])[|a|] == x;
  }

  /** Every entry of the table is the record of some completing line. */
  lemma {:induction false} TableEntryOrigin(lines: seq<Line>, n: nat, k: nat)
    requires n <= |lines| && WellFormedUpTo(lines, n) && k < |Table(lines, n)|
    ensures exists i :: 0 <= i < n && Completes(lines, i) && CapturesValid(lines[i]) && Table(lines, n)[k] == RecordAt(lines, i)
  {
    WellFormedShrinks(lines, n - 1, n);
    if k < |Table(lines, n - 1)| {
      TableEntryOrigin(lines, n - 1, k);
      var i :| 0 <= i < n - 1 && Completes(lines, i) && CapturesValid(lines[i]) && Table(lines, n - 1)[k] == RecordAt(lines, i);
      assert Table(lines, n)[k] == Table(lines, n - 1)[k];
    } else {
      assert Table(lines, n)[k] == RecordAt(lines, n - 1);
    }
  }

  /** The lines among the first `n` that complete a record. */
  function CompletingLines(lines: seq<Line>, n: nat): set<nat>
    requires n <= |lines|
  {
    set i: nat | i < n && Completes(lines, i)
  }

  /** One table row per virial line read while a record was open. */
  lemma {:induction false} TableLength(lines: seq<Line>, n: nat)
    requires n <= |lines| && WellFormedUpTo(lines, n)
    ensures |Table(lines, n)| == |CompletingLines(lines, n)|
    decreases n, 1
  {
    if n == 0 {
      NoLinesNoRows(lines);
    } else {
      TableLengthAfter(lines, n);
    }
  }

  lemma NoLinesNoRows(lines: seq<Line>)
    ensures |Table(lines, 0)| == |CompletingLines(lines, 0)| == 0
  {
    assert CompletingLines(lines, 0) == {};
  }

  lemma TableLengthAfter(lines: seq<Line>, n: nat)
    requires 0 < n <= |lines| && WellFormedUpTo(lines, n)
    ensures |Table(lines, n)| == |CompletingLines(lines, n)|
    decreases n, 0
  {
    GrowTogether(lines, n);
    TableLength(lines, n - 1);
  }

  /** The last line adds a row exactly when it adds a completing line. */
  lemma {:induction false} GrowTogether(lines: seq<Line>, n: nat)
    requires 0 < n <= |lines| && WellFormedUpTo(lines, n)
    ensures WellFormedUpTo(lines, n - 1)
    ensures |Table(lines, n)| - |Table(lines, n - 1)| == |CompletingLines(lines, n)| - |CompletingLines(lines, n - 1)|
  {
    WellFormedShrinks(lines, n - 1, n);
    CompletingLinesLast(lines, n);
    assert n - 1 !in CompletingLines(lines, n - 1);
  }

  lemma CompletingLinesLast(lines: seq<Line>, n: nat)
    requires 0 < n <= |lines|
    ensures CompletingLines(lines, n) == CompletingLines(lines, n - 1) + if Completes(lines, n - 1) then {n - 1} else {}
  {
  }

  /** A header superseded by a later well-formed header gives no record from then
      on: the record of every completing line at or past the later header carries
      the key of that header or of a still later one, so a record left pending
      when the later header arrives is discarded. */
  lemma StaleHeaderDiscarded(lines: seq<Line>, h2: nat, i: nat)
    requires h2 <= i < |lines| && OpensRecord(lines[h2])
    requires Completes(lines, i) && CapturesValid(lines[i])
    ensures exists j :: h2 <= j <= i && OpensRecord(lines[j]) && RecordAt(lines, i).key == OpenedKey(lines[j])
  {
    LastOpeningIsLatest(lines, i + 1);
    var j := LastOpening(lines, i + 1).value;
    assert h2 <= j <= i && OpensRecord(lines[j]) && RecordAt(lines, i).key == OpenedKey(lines[j]);
  }

  /** A virial line right after a completing line finds the slot empty and adds
      nothing, unless it carries a well-formed header itself. */
  lemma SecondVirialIgnored(lines: seq<Line>, i: nat)
    requires i + 1 < |lines| && Completes(lines, i) && !OpensRecord(lines[i + 1])
    ensures !Completes(lines, i + 1)
  {
    assert LastOpening(lines, i + 2) == LastOpening(lines, i + 1);
  }

  /** A parse that fails stops at the first line read with a record open that
      carries a malformed capture, and reports the capture `float()` meets first on
      it: every line before it is well-formed. */
  lemma {:induction false} FailureAtFirstBadLine(lines: seq<Line>, n: nat)
    requires n <= |lines| && Scan(lines, n).Failure?
    ensures var i := Scan(lines, n).error.line;
      && i < n && WellFormedUpTo(lines, i) && OpenAt(lines, i) && !CapturesValid(lines[i])
      && Scan(lines, n).error.text == FirstMalformed(lines[i])
  {
    var m := n - 1;
    ScanNext(lines, m);
    if Scan(lines, m).Failure? {
      FailureAtFirstBadLine(lines, m);
    } else {
      ScanMatchesSpec(lines, m);
      AfterHeaderSpec(lines, m);
    }
  }

  /** `parse_test_error_log` raises at the first bad line of the whole log. */
  lemma ExtractFailsAtFirstBadLine(lines: seq<Line>)
    requires Extract(lines).Failure?
    ensures var i := Extract(lines).error.line;
      && i < |lines| && WellFormedUpTo(lines, i) && OpenAt(lines, i) && !CapturesValid(lines[i])
      && Extract(lines).error.text == FirstMalformed(lines[i])
  {
    FailureAtFirstBadLine(lines, |lines|);
  }
}
