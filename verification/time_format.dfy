/** The `HH:MM:SS` rendering of the elapsed-seconds counter shown by the
    timer display, together with a parser that reads such a string back. */
module TimeFormat {

  datatype Option<T> = None | Some(value: T)

  predicate IsDigit(c: char) { '0' <= c <= '9' }

  function DigitValue(c: char): (d: nat)
    requires IsDigit(c)
    ensures d < 10
  {
    c as int - '0' as int
  }

  function DigitChar(d: nat): (c: char)
    requires d < 10
    ensures IsDigit(c)
    ensures DigitValue(c) == d
  {
    ('0' as int + d) as char
  }

  /** The number a string of decimal digits denotes, leading zeros allowed,
      or None when some character is not a digit. */
  function DigitsValue(s: string): Option<nat>
    decreases |s|
  {
    if |s| == 0 then Some(0)
    else
      var last := s[|s| - 1];
      match DigitsValue(s[..|s| - 1])
      case None => None
      case Some(v) => if IsDigit(last) then Some(10 * v + DigitValue(last)) else None
  }

  /** The decimal digits of `n`, most significant first, without leading
      zeros: what `Number.prototype.toString()` yields for a non-negative
      integer. */
  function ToDecimal(n: nat): (s: string)
    ensures 1 <= |s|
    ensures |s| > 1 ==> s[0] != '0'
    ensures n < 10 <==> |s| == 1
    ensures n < 100 <==> |s| <= 2
    decreases n
  {
    if n < 10 then [DigitChar(n)] else ToDecimal(n / 10) + [DigitChar(n % 10)]
  }

  /** Reading the rendered digits back gives the number. */
  lemma {:induction false} ToDecimalValue(n: nat)
    ensures DigitsValue(ToDecimal(n)) == Some(n)
    decreases n
  {
    if n >= 10 {
      var s := ToDecimal(n);
      assert s[..|s| - 1] == ToDecimal(n / 10);
      ToDecimalValue(n / 10);
    }
  }

  /** `String.prototype.padStart(width, fill)` with a one-character fill. */
  function PadStart(s: string, width: nat, fill: char): (r: string)
    ensures |r| == if |s| < width then width else |s|
    ensures r[|r| - |s|..] == s
    ensures forall i :: 0 <= i < |r| - |s| ==> r[i] == fill
  {
    if |s| < width then seq(width - |s|, _ => fill) + s else s
  }

  function Zeros(n: nat): (z: string)
    ensures |z| == n
    ensures forall i :: 0 <= i < n ==> z[i] == '0'
  {
    seq(n, _ => '0')
  }

  lemma {:induction false} ZerosValue(n: nat)
    ensures DigitsValue(Zeros(n)) == Some(0)
    decreases n
  {
    if n > 0 {
      assert Zeros(n)[..n - 1] == Zeros(n - 1);
      ZerosValue(n - 1);
    }
  }

  /** Leading zeros do not change the value of a string. */
  lemma {:induction false} LeadingZerosKeepValue(n: nat, s: string)
    ensures DigitsValue(Zeros(n) + s) == DigitsValue(s)
    decreases |s|
  {
    var z := Zeros(n) + s;
    if |s| == 0 {
      assert z == Zeros(n);
      ZerosValue(n);
    } else {
      assert z[..|z| - 1] == Zeros(n) + s[..|s| - 1];
      LeadingZerosKeepValue(n, s[..|s| - 1]);
    }
  }

  /** Padding with '0', the way the display pads each field, keeps the
      value of the padded string. */
  lemma ZeroPadKeepsValue(s: string, width: nat)
    ensures DigitsValue(PadStart(s, width, '0')) == DigitsValue(s)
  {
    if |s| < width {
      assert PadStart(s, width, '0') == Zeros(width - |s|) + s;
      LeadingZerosKeepValue(width - |s|, s);
    }
  }

  /** JavaScript's `%` on non-negative numbers: the dividend minus the
      largest multiple of the divisor not exceeding it. */
  function JsRemainder(x: real, y: real): (r: real)
    requires 0.0 <= x && 0.0 < y
    ensures 0.0 <= r < y
  {
    var q := (x / y).Floor as real;
    assert q <= x / y < q + 1.0;
    assert y * (x / y) == x;
    var frac := x / y - q;
    assert 0.0 <= frac < 1.0;
    assert x == y * q + y * frac;
    assert 0.0 <= y * frac < y;
    x - y * q
  }

  /** The hours field as `formatTime` computes it: `Math.floor(t / 3600)`. */
  function JsHours(t: nat): int
  {
    (t as real / 3600.0).Floor
  }

  /** The minutes field as `formatTime` computes it: `Math.floor((t / 60) % 60)`. */
  function JsMinutes(t: nat): int
  {
    JsRemainder(t as real / 60.0, 60.0).Floor
  }

  /** On a non-negative integer, flooring the real quotient is integer division. */
  lemma HoursFieldAsWritten(t: nat)
    ensures JsHours(t) == t / 3600
  {
    var q := t / 3600;
    assert t as real == 3600.0 * q as real + (t % 3600) as real;
    assert q as real <= t as real / 3600.0 < q as real + 1.0;
  }

  /** On a non-negative integer, the floored real remainder is the integer
      `(t / 60) % 60`. */
  lemma MinutesFieldAsWritten(t: nat)
    ensures JsMinutes(t) == (t / 60) % 60
  {
    var x := t as real / 60.0;
    var a, b, c := t / 3600, (t / 60) % 60, t % 60;
    assert t == 3600 * a + 60 * b + c;
    assert x == 60.0 * a as real + b as real + c as real / 60.0;
    assert a as real <= x / 60.0 < a as real + 1.0;
    assert (x / 60.0).Floor == a;
    var rem := JsRemainder(x, 60.0);
    assert rem == b as real + c as real / 60.0;
    assert b as real <= rem < b as real + 1.0;
  }

  function Pad2(s: string): string { PadStart(s, 2, '0') }

  /** The pieces of `a:b:c` when `b` and `c` are two characters long. */
  lemma JoinFields(a: string, b: string, c: string)
    requires |b| == 2 && |c| == 2
    ensures var r := a + ":" + b + ":" + c;
      && |r| == |a| + 6
      && r[..|r| - 6] == a && r[|r| - 6] == ':'
      && r[|r| - 5..|r| - 3] == b && r[|r| - 3] == ':'
      && r[|r| - 2..] == c
  {
    var r := a + ":" + b + ":" + c;
    assert r == a + ([':'] + b + [':'] + c);
  }

  /** A field of the display denotes the number it renders. */
  lemma PaddedFieldValue(n: nat)
    ensures DigitsValue(Pad2(ToDecimal(n))) == Some(n)
  {
    ToDecimalValue(n);
    ZeroPadKeepsValue(ToDecimal(n), 2);
  }

  /** A number below 100 fills a padded field exactly. */
  lemma TwoDigitField(n: nat)
    requires n < 100
    ensures |Pad2(ToDecimal(n))| == 2
  {
  }

  /** The template literal of the display: each field rendered in decimal,
      left-padded with '0' to at least two characters, joined by ':'. */
  function JoinClock(h: nat, m: nat, s: nat): string
  {
    Pad2(ToDecimal(h)) + ":" + Pad2(ToDecimal(m)) + ":" + Pad2(ToDecimal(s))
  }

  /** With minutes and seconds below 60, the joined string ends in `:MM:SS`,
      preceded by the padded hours field. */
  lemma JoinClockShape(h: nat, m: nat, s: nat)
    requires m < 60 && s < 60
    ensures var r := JoinClock(h, m, s);
      && |r| == |Pad2(ToDecimal(h))| + 6 >= 8
      && r[|r| - 6] == ':' && r[|r| - 3] == ':'
  {
    TwoDigitField(m);
    TwoDigitField(s);
    JoinFields(Pad2(ToDecimal(h)), Pad2(ToDecimal(m)), Pad2(ToDecimal(s)));
  }

  /** The display string for `t` elapsed seconds, computed the way
      `formatTime` does: real division, `Math.floor` and JavaScript's `%`. Its
      fields are the integer hours, minutes-of-the-hour and
      seconds-of-the-minute of `t`. */
  function FormatTime(t: nat): (r: string)
    ensures r == JoinClock(t / 3600, (t / 60) % 60, t % 60)
    ensures 8 <= |r|
    ensures t < 360000 <==> |r| == 8
    ensures r[|r| - 6] == ':' && r[|r| - 3] == ':'
  {
    HoursFieldAsWritten(t);
    MinutesFieldAsWritten(t);
    JoinClockShape(t / 3600, (t / 60) % 60, t % 60);
    TwoDigitHours(t);
    JoinClock(JsHours(t), JsMinutes(t), t % 60)
  }

  /** Reads an `H..H:MM:SS` string back into a count of seconds: at least
      one hour digit, two minute digits below 60, two second digits below 60. */
  function ParseTime(str: string): Option<nat>
  {
    if |str| < 7 || str[|str| - 6] != ':' || str[|str| - 3] != ':' then None
    else
      var h, m, s := DigitsValue(str[..|str| - 6]), DigitsValue(str[|str| - 5..|str| - 3]), DigitsValue(str[|str| - 2..]);
      if h.Some? && m.Some? && s.Some? && m.value < 60 && s.value < 60
      then Some(3600 * h.value + 60 * m.value + s.value)
      else None
  }

  /** The hours field fits in two digits exactly below 100 hours. */
  lemma TwoDigitHours(t: nat)
    ensures |Pad2(ToDecimal(t / 3600))| == 2 <==> t < 360000
  {
    assert t / 3600 < 100 <==> t < 360000;
  }

  /** Hours, minutes and seconds recompose the count they were taken from. */
  lemma ClockArithmetic(t: nat)
    ensures 3600 * (t / 3600) + 60 * ((t / 60) % 60) + t % 60 == t
  {
    var q := t / 60;
    assert t == 60 * q + t % 60;
    assert q == 60 * (q / 60) + q % 60;
    assert q / 60 == t / 3600;
  }

  /** A string with colons 6 and 3 from the end and digit fields whose
      minutes and seconds are below 60 parses to the count they denote. */
  lemma ParseFields(str: string, h: nat, m: nat, s: nat)
    requires |str| >= 7 && str[|str| - 6] == ':' && str[|str| - 3] == ':'
    requires DigitsValue(str[..|str| - 6]) == Some(h)
    requires DigitsValue(str[|str| - 5..|str| - 3]) == Some(m)
    requires DigitsValue(str[|str| - 2..]) == Some(s)
    requires m < 60 && s < 60
    ensures ParseTime(str) == Some(3600 * h + 60 * m + s)
  {
  }

  /** Parsing `a:b:c` reads each of the three pieces as a field. */
  lemma ParseJoined(a: string, b: string, c: string, h: nat, m: nat, s: nat)
    requires 1 <= |a| && |b| == 2 && |c| == 2
    requires DigitsValue(a) == Some(h) && DigitsValue(b) == Some(m) && DigitsValue(c) == Some(s)
    requires m < 60 && s < 60
    ensures ParseTime(a + ":" + b + ":" + c) == Some(3600 * h + 60 * m + s)
  {
    JoinFields(a, b, c);
    var r := a + ":" + b + ":" + c;
    assert r[..|r| - 6] == a && r[|r| - 5..|r| - 3] == b && r[|r| - 2..] == c;
    ParseFields(r, h, m, s);
  }

  /** Parsing a joined clock string gives back the count its fields denote. */
  lemma JoinClockParses(h: nat, m: nat, s: nat)
    requires m < 60 && s < 60
    ensures ParseTime(JoinClock(h, m, s)) == Some(3600 * h + 60 * m + s)
  {
    TwoDigitField(m);
    TwoDigitField(s);
    PaddedFieldValue(h);
    PaddedFieldValue(m);
    PaddedFieldValue(s);
    ParseJoined(Pad2(ToDecimal(h)), Pad2(ToDecimal(m)), Pad2(ToDecimal(s)), h, m, s);
  }

  /** Parsing the display string gives back the elapsed seconds. */
  lemma FormatTimeRoundTrip(t: nat)
    ensures ParseTime(FormatTime(t)) == Some(t)
  {
    JoinClockParses(t / 3600, (t / 60) % 60, t % 60);
    ClockArithmetic(t);
  }

  /** Distinct elapsed times are displayed differently. */
  lemma FormatTimeInjective(t1: nat, t2: nat)
    requires FormatTime(t1) == FormatTime(t2)
    ensures t1 == t2
  {
    FormatTimeRoundTrip(t1);
    FormatTimeRoundTrip(t2);
  }
}
