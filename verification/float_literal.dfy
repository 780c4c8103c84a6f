/** RMSE values in the test-error log. A metric line's value is the text captured by
    the group `([\d.e-]+)` right after ": "; Python's `float()` then either accepts
    that text as a decimal literal or raises. Over the characters `[\d.e+-]` the
    literals `float()` accepts are exactly
        [sign] ( digits ['.' [digits]] | '.' digits ) ['e' [sign] digits]
    with sign '+' or '-' (no 'E', no "inf"/"nan", no '_' or white space can be
    captured). The class as written has no '+', so a '+' never reaches `float()`. */
module FloatLiteral {
  import opened Results
  import opened Digits

  /** The character class of the capture group: `[\d.e-]` as the three patterns
      write it, or `[\d.e+-]`, which also admits the '+' that `%e` formatting puts
      in front of a non-negative exponent. */
  datatype CaptureClass = AsWritten | WithPlus

  predicate InClass(cls: CaptureClass, c: char) {
    IsDigit(c) || c == '.' || c == 'e' || c == '-' || (cls == WithPlus && c == '+')
  }

  predicate AllInClass(cls: CaptureClass, s: string) {
    forall i :: 0 <= i < |s| ==> InClass(cls, s[i])
  }

  /** The longest prefix of `s` made of class characters (the greedy `[...]+`). */
  function CapturePrefix(cls: CaptureClass, s: string): (r: string)
    ensures |r| <= |s| && r == s[..|r|]
    ensures AllInClass(cls, r)
    ensures |r| == |s| || !InClass(cls, s[|r|])
  {
    if |s| == 0 || !InClass(cls, s[0]) then [] else [s[0]] + CapturePrefix(cls, s[1..])
  }

  /** The capture group applied at the start of `after`: the longest run of class
      characters, or None when the run would be empty (no match here). The source's
      patterns are `CaptureRun(AsWritten, _)`. */
  function CaptureRun(cls: CaptureClass, after: string): (r: Option<string>)
    ensures r.Some? <==> |after| > 0 && InClass(cls, after[0])
    ensures r.Some? ==> 0 < |r.value| <= |after| && r.value == after[..|r.value|]
    ensures r.Some? ==> AllInClass(cls, r.value)
    ensures r.Some? ==> |r.value| == |after| || !InClass(cls, after[|r.value|])
  {
    var t := CapturePrefix(cls, after);
    if |t| == 0 then None else Some(t)
  }

  /** A text whose characters are all in the class, followed by a character outside
      it (or by nothing), is captured whole. */
  lemma {:induction false} CaptureWhole(cls: CaptureClass, a: string, rest: string)
    requires AllInClass(cls, a)
    requires |rest| == 0 || !InClass(cls, rest[0])
    ensures CapturePrefix(cls, a + rest) == a
  {
    if |a| == 0 {
      assert a + rest == rest;
    } else {
      assert (a + rest)[1..] == a[1..] + rest;
      CaptureWhole(cls, a[1..], rest);
      assert a == [a[0]] + a[1..];
    }
  }

  lemma AllInClassJoin(cls: CaptureClass, a: string, b: string)
    requires AllInClass(cls, a) && AllInClass(cls, b)
    ensures AllInClass(cls, a + b)
  {
    assert forall i :: |a| <= i < |a + b| ==> (a + b)[i] == b[i - |a|];
  }

  /** The sign of the whole literal or of its exponent. */
  datatype Sign = Unsigned | Plus | Minus

  /** The signed exponent part `e[sign]digits`. */
  datatype Exponent = Exponent(sign: Sign, digits: string)

  /** The parts of a decimal literal: sign, digits before the point, digits after the
      point (None when there is no point) and the exponent. */
  datatype FloatLit = FloatLit(sign: Sign, whole: string, fraction: Option<string>, exponent: Option<Exponent>)

  /** A literal `float()` accepts: digit strings everywhere, at least one mantissa
      digit, at least one exponent digit. */
  predicate WellFormed(lit: FloatLit) {
    && ValidMantissa(lit.whole, lit.fraction)
    && (lit.exponent.Some? ==> |lit.exponent.value.digits| > 0 && AllDigits(lit.exponent.value.digits))
  }

  /** Digit strings on both sides of the point, at least one digit in all. */
  predicate ValidMantissa(whole: string, fraction: Option<string>) {
    && AllDigits(whole)
    && (fraction.Some? ==> AllDigits(fraction.value))
    && (|whole| > 0 || (fraction.Some? && |fraction.value| > 0))
  }

  function SignText(sign: Sign): string {
    match sign
    case Unsigned => ""
    case Plus => "+"
    case Minus => "-"
  }

  /** A literal written with a '+' sign, which only the class with '+' captures. */
  predicate UsesPlus(lit: FloatLit) {
    lit.sign == Plus || (lit.exponent.Some? && lit.exponent.value.sign == Plus)
  }

  function FractionText(fraction: Option<string>): string {
    match fraction
    case None => ""
    case Some(f) => "." + f
  }

  function ExponentText(exponent: Option<Exponent>): string {
    match exponent
    case None => ""
    case Some(e) => "e" + SignText(e.sign) + e.digits
  }

  /** The text of a literal. */
  function Render(lit: FloatLit): string {
    SignText(lit.sign) + UnsignedText(lit)
  }

  /** The text of a literal after its sign. */
  function UnsignedText(lit: FloatLit): string {
    lit.whole + FractionText(lit.fraction) + ExponentText(lit.exponent)
  }

  /** The position of the first `c` in `s`. */
  function IndexOf(s: string, c: char): (r: Option<nat>)
    ensures r.None? <==> c !in s
    ensures r.Some? ==> r.value < |s| && s[r.value] == c && c !in s[..r.value]
  {
    if |s| == 0 then None
    else if s[0] == c then Some(0)
    else
      match IndexOf(s[1..], c)
      case None => None
      case Some(k) =>
        assert s[..k + 1] == [s[0]] + s[1..][..k];
        Some(k + 1)
  }

  lemma IndexOfAfter(a: string, c: char, b: string)
    requires c !in a
    ensures IndexOf(a + [c] + b, c) == Some(|a|)
  {
    var s := a + [c] + b;
    assert s[|a|] == c;
    assert s[..|a|] == a;
    assert forall k :: |a| < k <= |s| ==> s[..k][|a|] == c;
  }

  /** Digits with at most one '.', as the mantissa of a literal. */
  function ParseMantissa(m: string): (r: Option<(string, Option<string>)>)
    ensures r.Some? ==> ValidMantissa(r.value.0, r.value.1) && m == r.value.0 + FractionText(r.value.1)
  {
    match IndexOf(m, '.')
    case None =>
      if |m| > 0 && AllDigits(m) then Some((m, None)) else None
    case Some(k) =>
      var w := m[..k];
      var f := m[k + 1..];
      PointSplit(m, k);
      if AllDigits(w) && AllDigits(f) && |w| + |f| > 0 then Some((w, Some(f))) else None
  }

  /** A text is its part before a '.', the '.', and its part after. */
  lemma PointSplit(m: string, k: nat)
    requires k < |m| && m[k] == '.'
    ensures m == m[..k] + FractionText(Some(m[k + 1..]))
  {
    assert FractionText(Some(m[k + 1..])) == m[k..];
    assert m == m[..k] + m[k..];
  }

  /** The sign a text starts with. */
  function LeadingSign(s: string): Sign {
    if |s| > 0 && s[0] == '-' then Minus
    else if |s| > 0 && s[0] == '+' then Plus
    else Unsigned
  }

  /** A text is its leading sign followed by the rest. */
  function AfterSign(s: string): (r: string)
    ensures s == SignText(LeadingSign(s)) + r
  {
    if LeadingSign(s) == Unsigned then s
    else
      assert s == [s[0]] + s[1..];
      s[1..]
  }

  /** The part after 'e': an optional sign and at least one digit. */
  function ParseExponent(x: string): (r: Option<Exponent>)
    ensures r.Some? ==> x == SignText(r.value.sign) + r.value.digits
    ensures r.Some? ==> |r.value.digits| > 0 && AllDigits(r.value.digits)
  {
    var d := AfterSign(x);
    if |d| > 0 && AllDigits(d) then Some(Exponent(LeadingSign(x), d)) else None
  }

  /** A literal without its leading sign: the mantissa up to the first 'e', then the exponent. */
  function ParseUnsigned(sign: Sign, body: string): (r: Option<FloatLit>)
    ensures r.Some? ==> WellFormed(r.value) && r.value.sign == sign
    ensures r.Some? ==> body == UnsignedText(r.value)
  {
    match IndexOf(body, 'e')
    case None =>
      (match ParseMantissa(body)
       case None => None
       case Some(m) =>
         assert ExponentText(None) == [];
         Some(FloatLit(sign, m.0, m.1, None)))
    case Some(k) =>
      match ParseMantissa(body[..k])
      case None => None
      case Some(m) =>
        match ParseExponent(body[k + 1..])
        case None => None
        case Some(e) =>
          Reassemble(body, k, m.0 + FractionText(m.1), e);
          Some(FloatLit(sign, m.0, m.1, Some(e)))
  }

  lemma Reassemble(body: string, k: nat, mantissa: string, e: Exponent)
    requires k < |body| && body[k] == 'e'
    requires body[..k] == mantissa
    requires body[k + 1..] == SignText(e.sign) + e.digits
    ensures body == mantissa + ExponentText(Some(e))
  {
    assert ExponentText(Some(e)) == [body[k]] + body[k + 1..];
    assert body == body[..k] + ([body[k]] + body[k + 1..]);
  }

  /** What `float()` makes of a captured string: the literal's parts, or None where
      it raises `ValueError`. Every accepted text is a well-formed literal that
      renders back to the same text. */
  function Parse(s: string): (r: Option<FloatLit>)
    ensures r.Some? ==> WellFormed(r.value) && Render(r.value) == s
  {
    ParseUnsigned(LeadingSign(s), AfterSign(s))
  }

  predicate ValidLiteral(s: string) {
    Parse(s).Some?
  }

  /** Parsing the text of a well-formed literal gives that literal back. */
  lemma ParseRender(lit: FloatLit)
    requires WellFormed(lit)
    ensures Parse(Render(lit)) == Some(lit)
  {
    var body := UnsignedText(lit);
    assert |body| > 0 && body[0] != '-' && body[0] != '+' by {
      if |lit.whole| > 0 {
        assert body[0] == lit.whole[0];
      } else {
        assert body[0] == '.';
      }
    }
    SignRoundTrip(lit.sign, body);
    UnsignedRoundTrip(lit);
  }

  /** The sign is read off the first character only. */
  lemma {:induction false} SignRoundTrip(sign: Sign, body: string)
    requires |body| > 0 && body[0] != '-' && body[0] != '+'
    ensures Parse(SignText(sign) + body) == ParseUnsigned(sign, body)
  {
    SignSplit(sign, body);
  }

  lemma SignSplit(sign: Sign, body: string)
    requires |body| > 0 && body[0] != '-' && body[0] != '+'
    ensures LeadingSign(SignText(sign) + body) == sign && AfterSign(SignText(sign) + body) == body
  {
    var s := SignText(sign) + body;
    if sign == Unsigned {
      assert s == body;
    } else {
      assert s[0] == SignText(sign)[0];
      assert s[1..] == body;
    }
  }

  lemma UnsignedRoundTrip(lit: FloatLit)
    requires WellFormed(lit)
    ensures ParseUnsigned(lit.sign, UnsignedText(lit)) == Some(lit)
  {
    var mant := lit.whole + FractionText(lit.fraction);
    var body := mant + ExponentText(lit.exponent);
    MantissaRoundTrip(lit.whole, lit.fraction);
    NoExponentMarkInMantissa(lit.whole, lit.fraction);
    match lit.exponent
    case None =>
      assert body == mant;
    case Some(e) =>
      WithExponentRoundTrip(lit.sign, mant, e);
      assert ParseMantissa(mant) == Some((lit.whole, lit.fraction));
  }

  lemma {:induction false} WithExponentRoundTrip(sign: Sign, mant: string, e: Exponent)
    requires 'e' !in mant
    requires |e.digits| > 0 && AllDigits(e.digits)
    ensures ParseUnsigned(sign, mant + ExponentText(Some(e))) ==
      match ParseMantissa(mant)
      case None => None
      case Some(m) => Some(FloatLit(sign, m.0, m.1, Some(e)))
  {
    var body := mant + ExponentText(Some(e));
    var tail := SignText(e.sign) + e.digits;
    assert body == mant + ['e'] + tail;
    IndexOfAfter(mant, 'e', tail);
    assert body[..|mant|] == mant;
    assert body[|mant| + 1..] == tail;
    ExponentRoundTrip(e);
  }

  lemma NoExponentMarkInMantissa(whole: string, fraction: Option<string>)
    requires AllDigits(whole)
    requires fraction.Some? ==> AllDigits(fraction.value)
    ensures 'e' !in whole + FractionText(fraction)
  {
    assert 'e' !in whole;
    assert 'e' !in FractionText(fraction);
  }

  lemma ExponentRoundTrip(e: Exponent)
    requires |e.digits| > 0 && AllDigits(e.digits)
    ensures ParseExponent(SignText(e.sign) + e.digits) == Some(e)
  {
    assert IsDigit(e.digits[0]);
    SignSplit(e.sign, e.digits);
  }

  lemma MantissaRoundTrip(whole: string, fraction: Option<string>)
    requires ValidMantissa(whole, fraction)
    ensures ParseMantissa(whole + FractionText(fraction)) == Some((whole, fraction))
  {
    assert '.' !in whole;
    match fraction
    case None =>
      assert whole + FractionText(fraction) == whole;
    case Some(f) =>
      var m := whole + FractionText(fraction);
      assert m == whole + ['.'] + f;
      IndexOfAfter(whole, '.', f);
      assert m[..|whole|] == whole;
      assert m[|whole| + 1..] == f;
  }

  /** Every accepted text ends in a digit or the point: a capture cut off after
      'e' or '-' (as happens to "1.2e+03", captured as "1.2e") is rejected. */
  lemma AcceptedEnding(s: string)
    ensures ValidLiteral(s) ==> |s| > 0 && (IsDigit(s[|s| - 1]) || s[|s| - 1] == '.')
  {
    if ValidLiteral(s) {
      RenderEnding(Parse(s).value);
    }
  }

  /** The text of a well-formed literal ends in a digit or the point. */
  lemma RenderEnding(lit: FloatLit)
    requires WellFormed(lit)
    ensures var s := Render(lit); |s| > 0 && (IsDigit(s[|s| - 1]) || s[|s| - 1] == '.')
  {
    var mantissa := lit.whole + FractionText(lit.fraction);
    var exponent := ExponentText(lit.exponent);
    if lit.exponent.Some? {
      var e := lit.exponent.value;
      EndsWith("e" + SignText(e.sign), e.digits);
      EndsWith(mantissa, exponent);
    } else {
      assert UnsignedText(lit) == mantissa;
      if lit.fraction.Some? {
        EndsWith(lit.whole, FractionText(lit.fraction));
      }
    }
    EndsWith(SignText(lit.sign), UnsignedText(lit));
  }

  /** A non-empty tail gives a concatenation its last character. */
  lemma EndsWith(a: string, b: string)
    requires |b| > 0
    ensures |a + b| > 0 && (a + b)[|a + b| - 1] == b[|b| - 1]
  {
  }

  /** x * 10^e for a possibly negative exponent e. */
  function Scale(x: real, e: int): real
    decreases if e >= 0 then e else -e
  {
    if e == 0 then x
    else if e > 0 then Scale(x, e - 1) * 10.0
    else Scale(x, e + 1) / 10.0
  }

  /** The digits of a literal without its point, and how many of them follow it. */
  function MantissaDigits(lit: FloatLit): string {
    if lit.fraction.Some? then lit.whole + lit.fraction.value else lit.whole
  }

  function FractionLength(lit: FloatLit): nat {
    if lit.fraction.Some? then |lit.fraction.value| else 0
  }

  /** The power of ten the exponent part denotes (0 without one). */
  function ExponentValue(exponent: Option<Exponent>): int
    requires exponent.Some? ==> AllDigits(exponent.value.digits)
  {
    match exponent
    case None => 0
    case Some(x) => if x.sign == Minus then -(NatOf(x.digits) as int) else NatOf(x.digits)
  }

  /** The exact decimal number a well-formed literal denotes: its mantissa digits
      read as one integer, scaled by ten to the exponent less the number of
      fraction digits. */
  function Value(lit: FloatLit): real
    requires WellFormed(lit)
  {
    var magnitude := Scale(NatOf(MantissaDigits(lit)) as real, ExponentValue(lit.exponent) - FractionLength(lit));
    if lit.sign == Minus then -magnitude else magnitude
  }

  /** The number a captured RMSE text denotes, or None where `float()` raises. */
  function MetricValue(text: string): (r: Option<real>)
    ensures r.Some? <==> ValidLiteral(text)
  {
    match Parse(text)
    case None => None
    case Some(lit) => Some(Value(lit))
  }

  /** Every character of a literal's text is in the class, provided the class has
      '+' or the literal has no '+' sign. */
  lemma RenderInClass(cls: CaptureClass, lit: FloatLit)
    requires WellFormed(lit) && (cls == WithPlus || !UsesPlus(lit))
    ensures AllInClass(cls, Render(lit))
  {
    var fraction := FractionText(lit.fraction);
    var exponent := ExponentText(lit.exponent);
    if lit.fraction.Some? {
      AllInClassJoin(cls, ".", lit.fraction.value);
    }
    if lit.exponent.Some? {
      var e := lit.exponent.value;
      AllInClassJoin(cls, "e", SignText(e.sign));
      AllInClassJoin(cls, "e" + SignText(e.sign), e.digits);
    }
    AllInClassJoin(cls, lit.whole, fraction);
    AllInClassJoin(cls, lit.whole + fraction, exponent);
    AllInClassJoin(cls, SignText(lit.sign), UnsignedText(lit));
  }

  /** The text of a literal, followed by a character the class does not continue
      with (or by the end of the line), is captured whole and read back as the
      number the literal denotes, as long as the class admits the literal's signs. */
  lemma CaptureRendered(cls: CaptureClass, lit: FloatLit, rest: string)
    requires WellFormed(lit) && (cls == WithPlus || !UsesPlus(lit))
    requires |rest| == 0 || !InClass(cls, rest[0])
    ensures CaptureRun(cls, Render(lit) + rest) == Some(Render(lit))
    ensures MetricValue(Render(lit)) == Some(Value(lit))
  {
    RenderInClass(cls, lit);
    CaptureWhole(cls, Render(lit), rest);
    RenderEnding(lit);
    ParseRender(lit);
  }

  /** With the class as written, a literal whose exponent carries a '+' is cut off
      just after its 'e', and `float()` rejects what is left. */
  lemma PlusExponentCut(lit: FloatLit, rest: string)
    requires WellFormed(lit) && lit.sign != Plus
    requires lit.exponent.Some? && lit.exponent.value.sign == Plus
    ensures CaptureRun(AsWritten, Render(lit) + rest) == Some(MantissaText(lit) + "e")
    ensures !ValidLiteral(MantissaText(lit) + "e")
  {
    var e := lit.exponent.value;
    var head := MantissaText(lit) + "e";
    var tail := "+" + e.digits + rest;
    PlusSplit(lit, rest);
    if lit.fraction.Some? {
      AllInClassJoin(AsWritten, ".", lit.fraction.value);
    }
    AllInClassJoin(AsWritten, lit.whole, FractionText(lit.fraction));
    AllInClassJoin(AsWritten, SignText(lit.sign), lit.whole + FractionText(lit.fraction));
    AllInClassJoin(AsWritten, MantissaText(lit), "e");
    CaptureWhole(AsWritten, head, tail);
    AcceptedEnding(head);
    EndsWith(MantissaText(lit), "e");
  }

  /** The sign and mantissa of a literal, up to its exponent. */
  function MantissaText(lit: FloatLit): string {
    SignText(lit.sign) + (lit.whole + FractionText(lit.fraction))
  }

  lemma PlusSplit(lit: FloatLit, rest: string)
    requires lit.exponent.Some? && lit.exponent.value.sign == Plus
    ensures Render(lit) + rest == (MantissaText(lit) + "e") + ("+" + lit.exponent.value.digits + rest)
  {
  }
}
