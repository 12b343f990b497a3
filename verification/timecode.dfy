/** `format_time` of the shot cutter: a count of seconds as `HH:MM:SS`. */
module Timecode {
  import opened Wrappers
  import opened Text

  /** Hours, minutes and seconds. */
  datatype Clock = Clock(hours: int, minutes: int, seconds: int)

  /** The number of seconds a clock reading stands for. */
  function Total(c: Clock): int
  {
    c.hours * 3600 + c.minutes * 60 + c.seconds
  }

  /** A reading whose minutes and seconds lie in `0..59`. */
  predicate Normal(c: Clock)
  {
    0 <= c.minutes < 60 && 0 <= c.seconds < 60
  }

  /** The three fields `format_time` computes: `seconds // 3600`,
      `(seconds % 3600) // 60` and `seconds % 60`. Python's `//` and `%` floor,
      which for the positive divisors here agree with Dafny's `/` and `%`. */
  function Decompose(s: int): (c: Clock)
    ensures Normal(c)
    ensures Total(c) == s
    ensures s >= 0 ==> c.hours >= 0
  {
    Clock(s / 3600, (s % 3600) / 60, s % 60)
  }

  /** A normal reading is the only one for its total: `Decompose` is its inverse. */
  lemma DecomposeUnique(c: Clock)
    requires Normal(c)
    ensures Decompose(Total(c)) == c
  {
    var s := Total(c);
    var r := c.minutes * 60 + c.seconds;
    assert 0 <= r < 3600;
    assert s == c.hours * 3600 + r;
    EuclidUnique(s, 3600, c.hours, r);
    EuclidUnique(r, 60, c.minutes, c.seconds);
  }

  lemma EuclidUnique(s: int, d: int, q: int, r: int)
    requires d > 0 && 0 <= r < d && s == q * d + r
    ensures s / d == q && s % d == r
  {
    var k := s / d - q;
    assert k * d == r - s % d;
    MulBounds(k, d);
  }

  lemma MulBounds(k: int, d: int)
    requires d > 0
    ensures k >= 1 ==> k * d >= d
    ensures k <= -1 ==> k * d <= -d
  {
    assert k * d - d == (k - 1) * d;
    assert k * d + d == (k + 1) * d;
  }

  /** `f"{n:02}"`: at least two characters, padded with zeros after the sign. */
  function Pad2(n: int): (r: string)
    ensures |r| >= 2
  {
    if n < 0 then "-" + NatToString(-n)
    else if n < 10 then "0" + NatToString(n)
    else NatToString(n)
  }

  /** The f-string `f"{hours:02}:{minutes:02}:{seconds:02}"`. */
  function Render(c: Clock): string
  {
    Pad2(c.hours) + ":" + Pad2(c.minutes) + ":" + Pad2(c.seconds)
  }

  /** `format_time(seconds)` for a whole number of seconds. */
  function FormatTime(s: int): (r: string)
    ensures |r| >= 8
    ensures r[|r| - 3] == ':' && r[|r| - 6] == ':'
  {
    Render(Decompose(s))
  }

  /** Python's `a % b` on floats for `b > 0`: `a - b * floor(a / b)`, in `[0, b)`. */
  function RealMod(a: real, b: real): (r: real)
    requires b > 0.0
    ensures 0.0 <= r < b
  {
    var q := (a / b).Floor;
    DivBounds(a, b, q as real);
    DivBounds(a, b, q as real + 1.0);
    a - b * q as real
  }

  lemma DivBounds(a: real, b: real, y: real)
    requires b > 0.0
    ensures y <= a / b <==> y * b <= a
    ensures a / b < y <==> a < y * b
  {
    assert (a / b) * b == a;
    assert y * b - a == (y - a / b) * b;
  }

  /** `format_time(seconds)` for seconds given as a (real-valued) float:
      `int()` truncates, and every value it truncates here is already whole or
      non-negative, so truncation is the floor. Float rounding is not modelled. */
  function FormatTimeReal(x: real): string
  {
    Render(DecomposeReal(x))
  }

  /** The three fields for a real-valued input. */
  function DecomposeReal(x: real): Clock
  {
    Clock((x / 3600.0).Floor, (RealMod(x, 3600.0) / 60.0).Floor, RealMod(x, 60.0).Floor)
  }

  /** The fractional part never shows: a float prints like its whole seconds. */
  lemma FormatTimeRealFloor(x: real)
    ensures FormatTimeReal(x) == FormatTime(x.Floor)
  {
    DecomposeRealFloor(x);
  }

  lemma DecomposeRealFloor(x: real)
    ensures DecomposeReal(x) == Decompose(x.Floor)
  {
    var n := x.Floor;
    var c := DecomposeReal(x);
    FloorDiv(x, 3600);
    assert c.hours == n / 3600;
    ModFloor(x, 3600);
    FloorDiv(RealMod(x, 3600.0), 60);
    assert c.minutes == (n % 3600) / 60;
    ModFloor(x, 60);
    assert c.seconds == n % 60;
  }

  /** `floor(x / d) == floor(x) // d` for a positive whole `d`. */
  lemma FloorDiv(x: real, d: int)
    requires d > 0
    ensures (x / d as real).Floor == x.Floor / d
  {
    var n := x.Floor;
    var q := n / d;
    assert q * d <= n < q * d + d;
    assert (q * d) as real <= x < (q * d + d) as real;
    assert q as real * d as real == (q * d) as real;
    assert (q as real + 1.0) * d as real == (q * d + d) as real;
    DivBounds(x, d as real, q as real);
    DivBounds(x, d as real, q as real + 1.0);
  }

  /** `floor(x % d) == floor(x) % d` for a positive whole `d`. */
  lemma ModFloor(x: real, d: int)
    requires d > 0
    ensures RealMod(x, d as real).Floor == x.Floor % d
  {
    var n := x.Floor;
    FloorDiv(x, d);
    var q := n / d;
    assert RealMod(x, d as real) == x - (q * d) as real;
    assert n % d == n - q * d;
  }

  // ----- reading a time back -----

  /** An optionally signed decimal numeral. */
  function ParseSigned(u: string): Option<int>
  {
    if |u| >= 2 && u[0] == '-' && AllDigits(u[1..]) then Some(-(DigitsValue(u[1..]) as int))
    else if |u| >= 1 && AllDigits(u) then Some(DigitsValue(u))
    else None
  }

  /** Reads `H:MM:SS`, where `H` is an optionally signed numeral of any length. */
  function ParseTime(t: string): Option<Clock>
  {
    if |t| < 7 then None
    else
      var n := |t|;
      var mm := t[n - 5..n - 3];
      var ss := t[n - 2..];
      if t[n - 3] != ':' || t[n - 6] != ':' || !AllDigits(mm) || !AllDigits(ss) then None
      else
        match ParseSigned(t[..n - 6])
        case None => None
        case Some(h) => Some(Clock(h, DigitsValue(mm), DigitsValue(ss)))
  }

  lemma PadTwoDigits(n: int)
    requires 0 <= n < 60
    ensures |Pad2(n)| == 2 && AllDigits(Pad2(n)) && DigitsValue(Pad2(n)) == n
  {
    NatToStringValue(n);
    var p := Pad2(n);
    if n < 10 {
      assert p[..1] == "0";
      assert DigitsValue(p[..1]) == 0;
    } else {
      assert n / 10 < 10;
    }
  }

  lemma PadSigned(n: int)
    ensures ParseSigned(Pad2(n)) == Some(n)
  {
    var p := Pad2(n);
    if n < 0 {
      NatToStringValue(-n);
      assert p[1..] == NatToString(-n);
    } else {
      NatToStringValue(n);
      if n < 10 {
        assert p[..1] == "0";
        assert DigitsValue(p[..1]) == 0;
        assert AllDigits(p);
      }
    }
  }

  /** Reading the formatted text gives back the hours, minutes and seconds:
      nothing is truncated, however many hours there are or whatever the sign. */
  lemma FormatTimeRoundTrip(s: int)
    ensures ParseTime(FormatTime(s)) == Some(Decompose(s))
    ensures Total(ParseTime(FormatTime(s)).value) == s
  {
    RenderRoundTrip(Decompose(s));
  }

  lemma RenderRoundTrip(c: Clock)
    requires Normal(c)
    ensures ParseTime(Render(c)) == Some(c)
  {
    var h := Pad2(c.hours);
    var m := Pad2(c.minutes);
    var x := Pad2(c.seconds);
    PadTwoDigits(c.minutes);
    PadTwoDigits(c.seconds);
    PadSigned(c.hours);
    var t := Render(c);
    assert t == h + ":" + m + ":" + x;
    var n := |t|;
    assert t[n - 5..n - 3] == m;
    assert t[n - 2..] == x;
    assert t[..n - 6] == h;
  }

  /** The docstring's example and an hour count of three digits. */
  lemma FormatTimeExamples()
    ensures FormatTime(3661) == "01:01:01"
    ensures FormatTime(360000) == "100:00:00"
  {
    assert Decompose(3661) == Clock(1, 1, 1);
    assert NatToString(1) == "1";
    assert Pad2(1) == "01";
    assert Decompose(360000) == Clock(100, 0, 0);
    assert NatToString(0) == "0";
    assert Pad2(0) == "00";
    assert NatToString(10) == "1" + "0";
    assert NatToString(100) == NatToString(10) + "0";
    assert Pad2(100) == "100";
  }
}
