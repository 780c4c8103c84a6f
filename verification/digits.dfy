/** ASCII decimal digits: the `\d+` runs of the log's condition token and of the
    RMSE literals, and their integer value (Python's `int` on a digit string). */
module Digits {
  import opened Results

  predicate IsDigit(c: char) {
    '0' <= c <= '9'
  }

  predicate AllDigits(s: string) {
    forall i :: 0 <= i < |s| ==> IsDigit(s[i])
  }

  function DigitValue(c: char): nat
    requires IsDigit(c)
  {
    c as nat - '0' as nat
  }

  /** The value of a digit string read most-significant digit first; leading
      zeros are allowed, as in `int("007")`. */
  function NatOf(s: string): nat
    requires AllDigits(s)
  {
    if |s| == 0 then 0 else NatOf(s[..|s| - 1]) * 10 + DigitValue(s[|s| - 1])
  }

  /** What `(\d+)` followed by the non-digit `stop` finds at the start of `s`: the
      digit run and the text after `stop`. */
  function DigitsThen(s: string, stop: char): (r: Option<(string, string)>)
    requires !IsDigit(stop)
    ensures r.Some? ==> |r.value.0| > 0 && AllDigits(r.value.0) && s == r.value.0 + [stop] + r.value.1
  {
    if |s| < 2 || !IsDigit(s[0]) then None
    else if s[1] == stop then
      assert s == [s[0]] + [stop] + s[2..];
      Some(([s[0]], s[2..]))
    else
      match DigitsThen(s[1..], stop)
      case None => None
      case Some(p) =>
        assert s == [s[0]] + s[1..];
        Some(([s[0]] + p.0, p.1))
  }

  /** A digit run followed by `stop` is exactly what `DigitsThen` finds. */
  lemma {:induction false} DigitsThenRun(d: string, stop: char, rest: string)
    requires !IsDigit(stop)
    requires |d| > 0 && AllDigits(d)
    ensures DigitsThen(d + [stop] + rest, stop) == Some((d, rest))
  {
    var s := d + [stop] + rest;
    if |d| == 1 {
      assert s[2..] == rest;
      assert [s[0]] == d;
    } else {
      DigitsThenRun(d[1..], stop, rest);
      assert s[1..] == d[1..] + [stop] + rest;
      assert s[1] == d[1] && IsDigit(s[1]);
      assert [d[0]] + d[1..] == d;
    }
  }

  /** Appending a digit multiplies the value by ten and adds the digit. */
  lemma NatOfSnoc(s: string, c: char)
    requires AllDigits(s) && IsDigit(c)
    ensures AllDigits(s + [c])
    ensures NatOf(s + [c]) == NatOf(s) * 10 + DigitValue(c)
  {
    assert (s + [c])[..|s|] == s;
  }
}
