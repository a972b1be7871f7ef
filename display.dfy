/** The text that `updateDisplay` writes into the timer element: the
    remaining seconds as `MM:SS`, built from `Math.floor(t / 60)` and the
    JavaScript remainder `t % 60`, each turned into a decimal string and
    padded on the left with '0' to two characters. */
module Display {

  datatype Option<T> = None | Some(value: T)

  /* ---------------------------------------------------------------------
     Decimal digits
     --------------------------------------------------------------------- */

  predicate IsDigit(c: char) {
    '0' <= c <= '9'
  }

  predicate AllDigits(s: string) {
    forall i :: 0 <= i < |s| ==> IsDigit(s[i])
  }

  /** The character of a decimal digit. */
  function Digit(d: int): (c: char)
    requires 0 <= d < 10
    ensures IsDigit(c) && c as int - '0' as int == d
  {
    ('0' as int + d) as char
  }

  /** The value a string of decimal digits denotes, most significant first. */
  function DecimalValue(s: string): int
  {
    if s == [] then 0
    else DecimalValue(s[..|s| - 1]) * 10 + (s[|s| - 1] as int - '0' as int)
  }

  /** `Number.prototype.toString()` of a non-negative integer: its decimal
      digits with no leading zero. The length tells how many digits the
      number has. */
  function NatToString(n: nat): (s: string)
    ensures 1 <= |s| && AllDigits(s)
    ensures |s| == 1 <==> n < 10
    ensures |s| == 2 <==> 10 <= n < 100
    decreases n
  {
    if n < 10 then [Digit(n)] else NatToString(n / 10) + [Digit(n % 10)]
  }

  /** `Number.prototype.toString()` of any integer: a minus sign in front of
      the digits of a negative one. */
  function IntToString(i: int): string {
    if i < 0 then "-" + NatToString(-i) else NatToString(i)
  }

  /** `String.prototype.padStart(width, pad)` with a one-character pad: pad
      characters fill the front up to `width`; a string already that long is
      returned unchanged. */
  function PadStart(s: string, width: nat, pad: char): (r: string)
    ensures |r| == if |s| >= width then |s| else width
    ensures |s| >= width ==> r == s
    ensures |s| < width ==> r == Fill(pad, width - |s|) + s
  {
    if |s| >= width then s else Fill(pad, width - |s|) + s
  }

  /** n copies of c. */
  function Fill(c: char, n: nat): (r: string)
    ensures |r| == n && forall i :: 0 <= i < n ==> r[i] == c
  {
    seq(n, _ => c)
  }

  /* ---------------------------------------------------------------------
     JavaScript arithmetic
     --------------------------------------------------------------------- */

  /** `Math.floor(t / 60)`: the largest m with m * 60 <= t. (Dafny's `/`
      rounds the same way for a positive divisor.) */
  function FloorMinutes(t: int): (m: int)
    ensures m * 60 <= t < m * 60 + 60
  {
    t / 60
  }

  /** JavaScript's `t % 60`: the remainder of division truncated toward
      zero, which takes the sign of the dividend. */
  function JsRemMinute(t: int): (r: int)
    ensures t >= 0 ==> 0 <= r < 60 && (t - r) % 60 == 0
    ensures t < 0 ==> -60 < r <= 0 && (t - r) % 60 == 0
  {
    if t >= 0 then t % 60 else -((-t) % 60)
  }

  /* ---------------------------------------------------------------------
     The display text and its reading
     --------------------------------------------------------------------- */

  /** The text `updateDisplay` shows for `t` remaining seconds. */
  function Format(t: int): string {
    PadStart(IntToString(FloorMinutes(t)), 2, '0') + ":" + PadStart(IntToString(JsRemMinute(t)), 2, '0')
  }

  /** Reads a display text back: one or more minute digits, ':', and two
      second digits below 60. */
  function Parse(s: string): Option<int> {
    if |s| >= 4 && s[|s| - 3] == ':' then
      var minutes, seconds := s[..|s| - 3], s[|s| - 2..];
      if AllDigits(minutes) && AllDigits(seconds) && DecimalValue(seconds) < 60
      then Some(DecimalValue(minutes) * 60 + DecimalValue(seconds))
      else None
    else None
  }

  /* ---------------------------------------------------------------------
     Lemmas
     --------------------------------------------------------------------- */

  /** Reading back the decimal digits of n gives n. */
  lemma {:induction false} DecimalOfNatToString(n: nat)
    ensures DecimalValue(NatToString(n)) == n
    decreases n
  {
    if n >= 10 {
      var s := NatToString(n);
      assert s[..|s| - 1] == NatToString(n / 10);
      DecimalOfNatToString(n / 10);
    }
  }

  /** A leading '0' does not change the value of a digit string. */
  lemma {:induction false} DecimalLeadingZero(s: string)
    requires AllDigits(s)
    ensures AllDigits(['0'] + s) && DecimalValue(['0'] + s) == DecimalValue(s)
    decreases |s|
  {
    var z := ['0'] + s;
    if s != [] {
      assert z[..|z| - 1] == ['0'] + s[..|s| - 1];
      DecimalLeadingZero(s[..|s| - 1]);
    }
  }

  /** Any number of leading '0's do not change the value of a digit string. */
  lemma {:induction false} DecimalLeadingZeros(k: nat, s: string)
    requires AllDigits(s)
    ensures AllDigits(Fill('0', k) + s) && DecimalValue(Fill('0', k) + s) == DecimalValue(s)
    decreases k
  {
    if k > 0 {
      assert Fill('0', k) + s == ['0'] + (Fill('0', k - 1) + s);
      DecimalLeadingZeros(k - 1, s);
      DecimalLeadingZero(Fill('0', k - 1) + s);
    } else {
      assert Fill('0', k) + s == s;
    }
  }

  /** Padding a digit string with '0' keeps it a digit string of the same value. */
  lemma DecimalOfPadded(s: string, width: nat)
    requires AllDigits(s)
    ensures AllDigits(PadStart(s, width, '0'))
    ensures DecimalValue(PadStart(s, width, '0')) == DecimalValue(s)
  {
    if |s| < width {
      DecimalLeadingZeros(width - |s|, s);
    }
  }

  /** A number below 100, shown as `toString().padStart(2, '0')`, is its two
      decimal digits. */
  lemma TwoDigits(n: nat)
    requires n < 100
    ensures PadStart(NatToString(n), 2, '0') == [Digit(n / 10), Digit(n % 10)]
  {
    if n >= 10 {
      assert NatToString(n) == [Digit(n / 10)] + [Digit(n % 10)];
    } else {
      assert Fill('0', 1) == [Digit(0)];
    }
  }

  /** For a non-negative count both parts are plain digit strings. */
  lemma FormatNonNegative(t: int)
    requires t >= 0
    ensures Format(t) == PadStart(NatToString(t / 60), 2, '0') + ":" + PadStart(NatToString(t % 60), 2, '0')
  {
    assert FloorMinutes(t) == t / 60;
    assert JsRemMinute(t) == t % 60;
  }

  /** Two two-character fields joined by ':' make five characters. */
  lemma JoinTwoDigitFields(a: string, b: string)
    requires |a| == 2 && |b| == 2
    ensures a + ":" + b == [a[0], a[1], ':', b[0], b[1]]
  {
  }

  /** For 0 <= t < 6000 (less than a hundred minutes) the display is exactly
      five characters: the two digits of the minutes, ':', the two digits of
      the seconds. */
  lemma FormatShape(t: int)
    requires 0 <= t < 6000
    ensures Format(t) == [Digit(t / 60 / 10), Digit(t / 60 % 10), ':', Digit(t % 60 / 10), Digit(t % 60 % 10)]
    ensures |Format(t)| == 5
  {
    var m, sec := t / 60, t % 60;
    assert m < 100 && sec < 60;
    var ms, ss := PadStart(NatToString(m), 2, '0'), PadStart(NatToString(sec), 2, '0');
    FormatNonNegative(t);
    TwoDigits(m);
    TwoDigits(sec);
    assert ms == [Digit(m / 10), Digit(m % 10)];
    assert ss == [Digit(sec / 10), Digit(sec % 10)];
    assert Format(t) == ms + ":" + ss;
    JoinTwoDigitFields(ms, ss);
  }

  /** A non-negative count shows in five characters exactly when it is
      below 6000; larger counts get three or more minute digits. */
  lemma FormatLength(t: nat)
    ensures |Format(t)| == 5 <==> t < 6000
  {
    var m := PadStart(NatToString(t / 60), 2, '0');
    var sec := PadStart(NatToString(t % 60), 2, '0');
    FormatNonNegative(t);
    assert |sec| == 2;
    assert |m| == 2 <==> t / 60 < 100;
  }

  /** Reading a joined text splits it back into its two fields. */
  lemma ParseJoined(ms: string, ss: string, v: int)
    requires 1 <= |ms| && AllDigits(ms)
    requires |ss| == 2 && AllDigits(ss) && DecimalValue(ss) < 60
    requires v == DecimalValue(ms) * 60 + DecimalValue(ss)
    ensures Parse(ms + ":" + ss) == Some(v)
  {
    var s := ms + ":" + ss;
    assert s[|s| - 3] == ':';
    assert s[..|s| - 3] == ms;
    assert s[|s| - 2..] == ss;
  }

  /** The display of a non-negative count reads back as that count. */
  lemma FormatRoundTrip(t: nat)
    ensures Parse(Format(t)) == Some(t)
  {
    var m, sec := t / 60, t % 60;
    var ms, ss := PadStart(NatToString(m), 2, '0'), PadStart(NatToString(sec), 2, '0');
    FormatNonNegative(t);
    DecimalOfPadded(NatToString(m), 2);
    DecimalOfPadded(NatToString(sec), 2);
    DecimalOfNatToString(m);
    DecimalOfNatToString(sec);
    ParseJoined(ms, ss, t);
  }

  /** Below zero, JavaScript's rounding shows through: `Math.floor` rounds
      the minutes down while `%` keeps the sign, so -1 shows as "-1:-1" and
      -60 as "-1:00". */
  lemma FormatNegative()
    ensures Format(-1) == "-1:-1"
    ensures Format(-60) == "-1:00"
    ensures Parse(Format(-1)) == None
  {
    assert FloorMinutes(-1) == -1 && JsRemMinute(-1) == -1;
    assert FloorMinutes(-60) == -1 && JsRemMinute(-60) == 0;
    assert NatToString(1) == "1" && NatToString(0) == "0";
    var minus1, zero := IntToString(-1), IntToString(0);
    assert minus1 == "-1" && zero == "0";
    assert PadStart(minus1, 2, '0') == "-1";
    assert PadStart(zero, 2, '0') == "00";
    assert Format(-1) == "-1" + ":" + "-1";
    assert Format(-60) == "-1" + ":" + "00";
  }
}
