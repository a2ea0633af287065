/**
  `formatSecondsToMMSS` of web/src/utils/date.ts: a whole number of seconds as "mm:ss".
  `Math.floor(seconds / 60)` is floor division; `seconds % 60` is JavaScript's remainder,
  which takes the sign of the dividend. Non-integer seconds and `formatDateISO` (date
  parsing) are not part of this model.
*/
module DateFormat {
  import opened Wrappers
  import opened Strings

  /** JavaScript `a % b` for `b > 0`: truncating, so negative for a negative dividend. */
  function JsRemainder(a: int, b: int): (r: int)
    requires b > 0
    ensures a >= 0 ==> 0 <= r < b
    ensures a < 0 ==> -b < r <= 0
    ensures (a - r) % b == 0
  {
    if a >= 0 then
      MultipleRemainder(a / b, b);
      assert a - a % b == a / b * b;
      a % b
    else
      var q := (-a) / b;
      MultipleRemainder(-q, b);
      assert -a - (-a) % b == q * b;
      assert a + (-a) % b == -q * b;
      -((-a) % b)
  }

  /** A multiple of `b` leaves no remainder. */
  lemma MultipleRemainder(q: int, b: int)
    requires b > 0
    ensures (q * b) % b == 0
  {
    var m := (q * b) % b;
    var d := q - (q * b) / b;
    assert q * b == (q * b) / b * b + m;
    assert m == d * b;
  }

  /** `String(n).padStart(2, '0')`. */
  function TwoDigits(n: int): string {
    PadStart(IntToString(n), 2, '0')
  }

  function FormatSecondsToMMSS(seconds: int): string {
    var mins := Floor(seconds, 60);
    var secs := JsRemainder(seconds, 60);
    TwoDigits(mins) + ":" + TwoDigits(secs)
  }

  /** `Math.floor(a / b)` for `b > 0`; Dafny's `/` already rounds down for a positive divisor. */
  function Floor(a: int, b: int): (r: int)
    requires b > 0
    ensures r * b <= a < r * b + b
  {
    a / b
  }

  /** Reads "m:s" back: two non-empty digit fields around the one colon. */
  function ParseMMSS(s: string): (r: Option<(nat, nat)>)
    ensures r.Some? ==> |Split(s, ':')| == 2
  {
    var parts := Split(s, ':');
    if |parts| == 2 && |parts[0]| > 0 && |parts[1]| > 0 && AllDigits(parts[0]) && AllDigits(parts[1]) then
      Some((DigitsValue(parts[0]), DigitsValue(parts[1])))
    else None
  }

  /** A non-negative number below 100 pads to exactly two digits with its value kept. */
  lemma TwoDigitsSmall(n: nat)
    requires n < 100
    ensures |TwoDigits(n)| == 2 && AllDigits(TwoDigits(n)) && DigitsValue(TwoDigits(n)) == n
  {
    NatToStringSize(n, 2);
    NatToStringRoundTrip(n);
    PadZerosValue(NatToString(n), 2);
  }

  /** Any non-negative number pads to at least two digits with its value kept. */
  lemma TwoDigitsNat(n: nat)
    ensures |TwoDigits(n)| >= 2 && AllDigits(TwoDigits(n)) && DigitsValue(TwoDigits(n)) == n
  {
    NatToStringRoundTrip(n);
    PadZerosValue(NatToString(n), 2);
  }

  /**
    For `s >= 0`: the minutes field has at least two digits, the seconds field exactly two,
    and reading the fields back gives `s / 60` and `s % 60`, which recombine to `s`.
  */
  lemma FormatRoundTrip(s: int)
    requires s >= 0
    ensures var r := FormatSecondsToMMSS(s); var parts := Split(r, ':');
      && |parts| == 2
      && |parts[0]| >= 2
      && |parts[1]| == 2
      && ParseMMSS(r) == Some((s / 60, s % 60))
    ensures var p := ParseMMSS(FormatSecondsToMMSS(s)); p.Some? && 60 * p.value.0 + p.value.1 == s
  {
    var m := TwoDigits(s / 60);
    var c := TwoDigits(s % 60);
    TwoDigitsNat(s / 60);
    TwoDigitsSmall(s % 60);
    assert ':' !in m;
    assert ':' !in c;
    assert FormatSecondsToMMSS(s) == m + [':'] + c;
    SplitAtFirst(m, ':', c);
    SplitFree(c, ':');
  }

  /** Zero seconds is "00:00". */
  lemma ZeroSeconds()
    ensures FormatSecondsToMMSS(0) == "00:00"
  {
  }

  /** A negative input keeps JavaScript's signs: -5 seconds is minute -1 and second -5. */
  lemma NegativeSeconds()
    ensures FormatSecondsToMMSS(-5) == "-1:-5"
  {
    assert Floor(-5, 60) == -1;
    assert JsRemainder(-5, 60) == -5;
    assert TwoDigits(-1) == "-1" by {
      assert NatToString(1) == "1";
    }
    assert TwoDigits(-5) == "-5" by {
      assert NatToString(5) == "5";
    }
  }
}
