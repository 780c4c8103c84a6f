/** The "testing system" header of the test-error log. Its three path segments
    (composition, phase, condition) arrive already split; this module turns them
    into the key of a record: the composition without its crystal-structure prefix,
    the phase as written, and pressure and temperature read from a condition token
    of the form `<digits>G_<digits>K` (plot_error_heatmap.py, lines 51-70). */
module SystemHeader {
  import opened Results
  import opened Digits

  /** The three segments the header pattern captures before "/deepmd". */
  datatype Header = Header(composition: string, phase: string, condition: string)

  /** Which system subsequent metric lines belong to; `pressure` in GPa as written,
      `temperature` the kelvin figure divided by 1000. */
  datatype SystemKey = SystemKey(composition: string, phase: string, pressure: nat, temperature: real)

  /** The alternatives of `^(fcc|bcc|hcp)`. */
  predicate IsPhasePrefix(p: string) {
    p == "fcc" || p == "bcc" || p == "hcp"
  }

  predicate HasPhasePrefix(c: string) {
    |c| >= 3 && IsPhasePrefix(c[..3])
  }

  /** `re.sub(r'^(fcc|bcc|hcp)', '', composition)`: the anchor only matches at the
      start of the original text, so at most one prefix goes. */
  function StripPhasePrefix(c: string): (r: string)
    ensures |r| <= |c| && r == c[|c| - |r|..]
    ensures |c| - |r| == if HasPhasePrefix(c) then 3 else 0
  {
    if HasPhasePrefix(c) then c[3..] else c
  }

  /** A prefix followed by anything loses exactly that prefix, even when what
      follows starts with another prefix. */
  lemma StripPrefixed(p: string, rest: string)
    requires IsPhasePrefix(p)
    ensures StripPhasePrefix(p + rest) == rest
  {
    assert (p + rest)[..3] == p;
  }

  /** A composition without a prefix is returned unchanged. */
  lemma StripUnprefixed(c: string)
    requires !HasPhasePrefix(c)
    ensures StripPhasePrefix(c) == c
  {
  }

  /** Stripping twice gives the same as stripping once exactly when the first strip
      does not expose another prefix. */
  lemma StripTwice(c: string)
    ensures StripPhasePrefix(StripPhasePrefix(c)) == StripPhasePrefix(c) <==> !HasPhasePrefix(StripPhasePrefix(c))
  {
    var r := StripPhasePrefix(c);
    if HasPhasePrefix(r) {
      assert |StripPhasePrefix(r)| == |r| - 3;
    }
  }

  /** The text of a condition token: pressure digits, "G_", kelvin digits, "K",
      then anything (`re.match` anchors only at the start). */
  function ConditionText(pressure: string, kelvin: string, tail: string): string {
    pressure + "G_" + kelvin + "K" + tail
  }

  predicate IsConditionOf(c: string, pressure: string, kelvin: string, tail: string) {
    && |pressure| > 0 && AllDigits(pressure)
    && |kelvin| > 0 && AllDigits(kelvin)
    && c == ConditionText(pressure, kelvin, tail)
  }

  /** What `re.match(r'(\d+)G_(\d+)K', condition)` finds: the two digit runs and
      the rest of the token, or None when the token does not start with that shape. */
  function SplitCondition(c: string): (r: Option<(string, string, string)>)
    ensures r.Some? ==> IsConditionOf(c, r.value.0, r.value.1, r.value.2)
  {
    match DigitsThen(c, 'G')
    case None => None
    case Some(p) =>
      if |p.1| == 0 || p.1[0] != '_' then None
      else
        match DigitsThen(p.1[1..], 'K')
        case None => None
        case Some(k) =>
          ConditionJoin(c, p.0, p.1, k.0, k.1);
          Some((p.0, k.0, k.1))
  }

  /** The pieces `DigitsThen` cuts a condition token into put it back together. */
  lemma ConditionJoin(c: string, pressure: string, afterG: string, kelvin: string, tail: string)
    requires c == pressure + ['G'] + afterG
    requires |afterG| > 0 && afterG[0] == '_' && afterG[1..] == kelvin + ['K'] + tail
    ensures c == ConditionText(pressure, kelvin, tail)
  {
    assert afterG == "_" + afterG[1..];
  }

  /** The condition token with both groups read by `int`: the pressure and kelvin
      figures, or None when the token is malformed. */
  function ParseCondition(c: string): Option<(nat, nat)> {
    match SplitCondition(c)
    case None => None
    case Some(parts) => Some((NatOf(parts.0), NatOf(parts.1)))
  }

  /** Every accepted token has the condition shape, and the figures are the values of
      its two digit runs. */
  lemma ParseConditionSound(c: string)
    requires ParseCondition(c).Some?
    ensures exists pressure, kelvin, tail ::
      IsConditionOf(c, pressure, kelvin, tail) && ParseCondition(c).value == (NatOf(pressure), NatOf(kelvin))
  {
    var parts := SplitCondition(c).value;
    assert IsConditionOf(c, parts.0, parts.1, parts.2);
  }

  /** Every token of the condition shape is accepted, with the figures its digit
      runs denote. */
  lemma ParseConditionComplete(c: string, pressure: string, kelvin: string, tail: string)
    requires IsConditionOf(c, pressure, kelvin, tail)
    ensures ParseCondition(c) == Some((NatOf(pressure), NatOf(kelvin)))
  {
    var afterG := "_" + kelvin + "K" + tail;
    assert c == pressure + ['G'] + afterG;
    DigitsThenRun(pressure, 'G', afterG);
    assert afterG[1..] == kelvin + ['K'] + tail;
    DigitsThenRun(kelvin, 'K', tail);
  }

  /** The key a header opens, or None when its condition token is malformed. */
  function KeyOf(h: Header): Option<SystemKey> {
    match ParseCondition(h.condition)
    case None => None
    case Some(figures) =>
      Some(SystemKey(StripPhasePrefix(h.composition), h.phase, figures.0, figures.1 as real / 1000.0))
  }
}
