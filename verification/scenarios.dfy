/** Concrete logs stated as lemmas about the model: a four-line log,
    malformed headers and values, and the prefix rule on compositions. */
module Scenarios {
  import opened Results
  import opened FloatLiteral
  import opened SystemHeader
  import opened Extractor
  import opened Digits

  function HeaderLine(composition: string, phase: string, condition: string): Line {
    Line(Some(Header(composition, phase, condition)), None, None, None)
  }

  function EnergyLine(text: string): Line {
    Line(None, Some(text), None, None)
  }

  function ForceLine(text: string): Line {
    Line(None, None, Some(text), None)
  }

  function VirialLine(text: string): Line {
    Line(None, None, None, Some(text))
  }

  /** The value of a rendered literal is the number its parts denote. */
  lemma {:induction false} RenderedValue(lit: FloatLit)
    requires WellFormed(lit)
    ensures MetricValue(Render(lit)) == Some(Value(lit))
  {
    ParseRender(lit);
  }

  /** The literal `d.fe-0x`. */
  function ShortLit(d: char, f: char, x: char): FloatLit {
    FloatLit(Unsigned, [d], Some([f]), Some(Exponent(Minus, ['0', x])))
  }

  /** `d.fe-0x` denotes the integer `df` scaled by 10^-(x+1). */
  lemma ShortLitValue(d: char, f: char, x: char)
    requires IsDigit(d) && IsDigit(f) && IsDigit(x)
    ensures WellFormed(ShortLit(d, f, x))
    ensures Value(ShortLit(d, f, x)) == Scale((DigitValue(d) * 10 + DigitValue(f)) as real, -(DigitValue(x) as int) - 1)
  {
    var lit := ShortLit(d, f, x);
    NatOfSnoc([d], f);
    assert [d] + [f] == [d, f] == MantissaDigits(lit);
    assert [d][..0] == [];
    NatOfSnoc(['0'], x);
    assert ['0'] + [x] == ['0', x];
    assert ['0'][..0] == [];
  }

  /** The text `d.fe-0x` is read as the integer `df` scaled by 10^-(x+1). */
  lemma {:induction false} ShortScientific(text: string, d: char, f: char, x: char)
    requires IsDigit(d) && IsDigit(f) && IsDigit(x)
    requires text == [d, '.', f, 'e', '-', '0', x]
    ensures MetricValue(text) == Some(Scale((DigitValue(d) * 10 + DigitValue(f)) as real, -(DigitValue(x) as int) - 1))
  {
    var lit := ShortLit(d, f, x);
    ShortLitValue(d, f, x);
    assert Render(lit) == text;
    RenderedValue(lit);
  }

  /** The three figures of the four-line log below. */
  lemma {:induction false} FourLineFigures()
    ensures MetricValue("1.2e-03") == Some(0.0012)
    ensures MetricValue("4.5e-02") == Some(0.045)
    ensures MetricValue("7.8e-04") == Some(0.00078)
  {
    EnergyFigure();
    ForceFigure();
    VirialFigure();
  }

  lemma EnergyFigure()
    ensures MetricValue("1.2e-03") == Some(0.0012)
  {
    ShortScientific("1.2e-03", '1', '2', '3');
    EnergyScale();
  }

  lemma ForceFigure()
    ensures MetricValue("4.5e-02") == Some(0.045)
  {
    ShortScientific("4.5e-02", '4', '5', '2');
    ForceScale();
  }

  lemma VirialFigure()
    ensures MetricValue("7.8e-04") == Some(0.00078)
  {
    ShortScientific("7.8e-04", '7', '8', '4');
    VirialScale();
  }

  /** The scalings behind the three figures, each stated on its own so that the
      real arithmetic is done outside the figure lemmas' context. */
  lemma EnergyScale()
    ensures Scale(12.0, -4) == 0.0012
  {
  }

  lemma ForceScale()
    ensures Scale(45.0, -3) == 0.045
  {
  }

  lemma VirialScale()
    ensures Scale(78.0, -5) == 0.00078
  {
  }

  /** A bare header line that opens a record starts it afresh. */
  lemma HeaderStep(slot: Option<Pending>, h: Header, index: nat)
    requires KeyOf(h).Some?
    ensures Step(slot, Line(Some(h), None, None, None), index) == Success((Some(Pending(KeyOf(h).value, None, None)), None))
  {
    StepWithOpenRecord(slot, Line(Some(h), None, None, None), index);
  }

  /** An energy line sets the open record's energy value. */
  lemma EnergyStep(p: Pending, text: string, index: nat)
    requires ValidLiteral(text)
    ensures Step(Some(p), EnergyLine(text), index) == Success((Some(p.(energy := MetricValue(text))), None))
  {
    StepWithOpenRecord(Some(p), EnergyLine(text), index);
  }

  /** A force line sets the open record's force value. */
  lemma ForceStep(p: Pending, text: string, index: nat)
    requires ValidLiteral(text)
    ensures Step(Some(p), ForceLine(text), index) == Success((Some(p.(force := MetricValue(text))), None))
  {
    StepWithOpenRecord(Some(p), ForceLine(text), index);
  }

  /** A virial line completes the open record and clears the slot. */
  lemma VirialStep(p: Pending, text: string, index: nat)
    requires ValidLiteral(text)
    ensures Step(Some(p), VirialLine(text), index) == Success((None, Some(Completed(p.key, p.energy, p.force, MetricValue(text).value))))
  {
    StepWithOpenRecord(Some(p), VirialLine(text), index);
  }

  /** A line whose energy and virial captures are both malformed aborts on the
      energy capture, the one `float()` reads first. */
  lemma EnergyReportedFirst(p: Pending, energy: string, virial: string, index: nat)
    requires !ValidLiteral(energy) && !ValidLiteral(virial)
    ensures Step(Some(p), Line(None, Some(energy), None, Some(virial)), index) == Failure(MalformedMetric(index, energy))
  {
  }

  /** The first two lines of a complete record: the header and the energy line. */
  lemma OpenWithEnergy(lines: seq<Line>, h: Header, energy: string)
    requires 2 <= |lines| && lines[0] == Line(Some(h), None, None, None) && lines[1] == EnergyLine(energy)
    requires KeyOf(h).Some? && ValidLiteral(energy)
    ensures Scan(lines, 2) == Success((Some(Pending(KeyOf(h).value, MetricValue(energy), None)), []))
  {
    var p0 := Pending(KeyOf(h).value, None, None);
    HeaderStep(None, h, 0);
    ScanExtends(lines, 0, None, []);
    EnergyStep(p0, energy, 1);
    ScanExtends(lines, 1, Some(p0), []);
  }

  /** The last two lines of a complete record: the force line and the virial line. */
  lemma {:induction false} CloseWithForce(lines: seq<Line>, p: Pending, force: string, virial: string)
    requires 4 <= |lines| && lines[2] == ForceLine(force) && lines[3] == VirialLine(virial)
    requires ValidLiteral(force) && ValidLiteral(virial)
    requires Scan(lines, 2) == Success((Some(p), []))
    ensures Scan(lines, 4) == Success((None, [Completed(p.key, p.energy, MetricValue(force), MetricValue(virial).value)]))
  {
    var p2 := p.(force := MetricValue(force));
    var record := Completed(p2.key, p2.energy, p2.force, MetricValue(virial).value);
    ForceStep(p, force, 2);
    ScanExtends(lines, 2, Some(p), []);
    VirialStep(p2, virial, 3);
    ScanExtends(lines, 3, Some(p2), []);
    assert Emit([], Some(record)) == [record];
  }

  /** A header that opens a record, then one energy, one force and one virial line,
      each with a valid capture: exactly one record, keyed by the header, carrying
      the three values. */
  lemma {:induction false} CompleteRecord(h: Header, energy: string, force: string, virial: string)
    requires KeyOf(h).Some?
    requires ValidLiteral(energy) && ValidLiteral(force) && ValidLiteral(virial)
    ensures Extract([Line(Some(h), None, None, None), EnergyLine(energy), ForceLine(force), VirialLine(virial)])
         == Success([Completed(KeyOf(h).value, MetricValue(energy), MetricValue(force), MetricValue(virial).value)])
  {
    var lines := [Line(Some(h), None, None, None), EnergyLine(energy), ForceLine(force), VirialLine(virial)];
    OpenWithEnergy(lines, h, energy);
    CloseWithForce(lines, Pending(KeyOf(h).value, MetricValue(energy), None), force, virial);
  }

  /** The header of the four-line log opens the key (run, PbSn, 10 GPa, 0.5). */
  lemma FourLineKey()
    ensures KeyOf(Header("run", "PbSn", "10G_500K")) == Some(SystemKey("run", "PbSn", 10, 0.5))
  {
    FourLineCondition();
    assert "run"[..3] == "run";
  }

  /** The condition token of the four-line log reads 10 GPa and 500 K. */
  lemma FourLineCondition()
    ensures ParseCondition("10G_500K") == Some((10, 500))
  {
    assert IsConditionOf("10G_500K", "10", "500", "");
    ParseConditionComplete("10G_500K", "10", "500", "");
    assert NatOf("10") == 10;
    assert NatOf("500") == 500;
  }

  /** The header `run/PbSn/10G_500K/deepmd` followed by energy, force and virial lines
      yields one record; the header pattern's segments are "run", "PbSn" and
      "10G_500K", so the composition is "run" and the phase "PbSn". */
  lemma FourLineLog()
    ensures Extract([HeaderLine("run", "PbSn", "10G_500K"), EnergyLine("1.2e-03"), ForceLine("4.5e-02"), VirialLine("7.8e-04")])
         == Success([Completed(SystemKey("run", "PbSn", 10, 0.5), Some(0.0012), Some(0.045), 0.00078)])
  {
    FourLineFigures();
    FourLineKey();
    CompleteRecord(Header("run", "PbSn", "10G_500K"), "1.2e-03", "4.5e-02", "7.8e-04");
  }

  /** Under the energy pattern, "1.2e+03" is captured only up to "1.2e": the class
      `[\d.e-]` has no '+'. */
  lemma TruncatedCapture()
    ensures CaptureRun(AsWritten, "1.2e+03") == Some("1.2e")
  {
    assert !InClass(AsWritten, "1.2e+03"[4]);
    assert "1.2e+03"[..4] == "1.2e";
  }

  /** `float()` rejects that capture, so with a record open the energy line aborts
      the parse at its index. */
  lemma TruncatedExponent(slot: Option<Pending>, index: nat)
    requires slot.Some?
    ensures Step(slot, EnergyLine("1.2e"), index) == Failure(MalformedMetric(index, "1.2e"))
  {
    AcceptedEnding("1.2e");
    assert !ValidLiteral("1.2e");
  }

  /** The literal `1.2e+03`. */
  function PlusLit(): FloatLit {
    FloatLit(Unsigned, "1", Some("2"), Some(Exponent(Plus, "03")))
  }

  lemma PlusLitValue()
    ensures WellFormed(PlusLit()) && Value(PlusLit()) == 1200.0
  {
    var lit := PlusLit();
    NatOfSnoc("1", '2');
    assert "1" + "2" == "12" == MantissaDigits(lit);
    assert "1"[..0] == [];
    NatOfSnoc("0", '3');
    assert "0" + "3" == "03";
    assert "0"[..0] == [];
    assert Scale(12.0, 2) == 1200.0;
  }

  /** With '+' in the class, the same text is captured whole and read as 1200. */
  lemma {:induction false} PlusExponentRead()
    ensures CaptureRun(WithPlus, "1.2e+03") == Some("1.2e+03")
    ensures MetricValue("1.2e+03") == Some(1200.0)
  {
    PlusLitValue();
    assert Render(PlusLit()) == "1.2e+03";
    assert "1.2e+03" + "" == "1.2e+03";
    CaptureRendered(WithPlus, PlusLit(), "");
  }

  /** A header whose condition is not `<digits>G_<digits>K` opens nothing, so the
      virial line after it, with nothing open, produces no record. */
  lemma MalformedConditionIgnored(virial: string)
    requires ValidLiteral(virial)
    ensures Extract([HeaderLine("run", "PbSn", "abcG_500K"), VirialLine(virial)]) == Success([])
  {
    assert DigitsThen("abcG_500K", 'G').None? by { assert !IsDigit("abcG_500K"[0]); }
    var lines := [HeaderLine("run", "PbSn", "abcG_500K"), VirialLine(virial)];
    OrphanLineIgnored(lines[0], 0);
    ScanExtends(lines, 0, None, []);
    OrphanLineIgnored(lines[1], 1);
    ScanExtends(lines, 1, None, []);
  }

  /** A second virial line with no header in between finds the slot empty and adds
      nothing. */
  lemma {:induction false} SecondVirialDropped(h: Header, first: string, second: string)
    requires KeyOf(h).Some? && ValidLiteral(first) && ValidLiteral(second)
    ensures Extract([Line(Some(h), None, None, None), VirialLine(first), VirialLine(second)])
         == Success([Completed(KeyOf(h).value, None, None, MetricValue(first).value)])
  {
    var lines := [Line(Some(h), None, None, None), VirialLine(first), VirialLine(second)];
    var record := Completed(KeyOf(h).value, None, None, MetricValue(first).value);
    HeaderThenVirial(lines, h, first);
    OrphanLineIgnored(lines[2], 2);
    ScanExtends(lines, 2, None, [record]);
  }

  /** A header line straight followed by a virial line: one record without energy
      or force, and an empty slot. */
  lemma HeaderThenVirial(lines: seq<Line>, h: Header, virial: string)
    requires 2 <= |lines| && lines[0] == Line(Some(h), None, None, None) && lines[1] == VirialLine(virial)
    requires KeyOf(h).Some? && ValidLiteral(virial)
    ensures Scan(lines, 2) == Success((None, [Completed(KeyOf(h).value, None, None, MetricValue(virial).value)]))
  {
    var p := Pending(KeyOf(h).value, None, None);
    var record := Completed(p.key, None, None, MetricValue(virial).value);
    HeaderStep(None, h, 0);
    ScanExtends(lines, 0, None, []);
    VirialStep(p, virial, 1);
    ScanExtends(lines, 1, Some(p), []);
    assert Emit([], Some(record)) == [record];
  }

  /** Only the first crystal-structure prefix goes: "fccPbSn" becomes "PbSn", and
      "fccbccX" becomes "bccX", which a second strip would change again. */
  lemma PrefixExamples()
    ensures StripPhasePrefix("fccPbSn") == "PbSn"
    ensures StripPhasePrefix("fccbccX") == "bccX"
    ensures StripPhasePrefix(StripPhasePrefix("fccbccX")) != StripPhasePrefix("fccbccX")
  {
    StripPrefixed("fcc", "PbSn");
    StripPrefixed("fcc", "bccX");
    StripPrefixed("bcc", "X");
  }
}
