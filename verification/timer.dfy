/** The countdown of the OTP verification page
    (sss/static/js/user_app/timer.js): the seconds left are read from a
    hidden field with `parseInt(value, 10)`, shown as minutes and seconds,
    and decremented once per second until the text becomes "OTP Expired"
    and the resend button appears. The one-second delay between calls is
    not modelled; each call of `updateTimer` is one step. */
module OtpTimer {
  import opened Text
  import opened Outcomes

  // ---------------------------------------------------------------------
  // parseInt(value, 10)
  // ---------------------------------------------------------------------

  /** The characters JavaScript's `parseInt` skips before the number: the
      WhiteSpace and LineTerminator code points of ECMAScript. */
  predicate IsJsSpace(c: char) {
    || ('\t' <= c <= '\r') || c == ' '
    || c == '\U{A0}' || c == '\U{1680}'
    || ('\U{2000}' <= c <= '\U{200A}')
    || c == '\U{2028}' || c == '\U{2029}' || c == '\U{202F}'
    || c == '\U{205F}' || c == '\U{3000}' || c == '\U{FEFF}'
  }

  function SkipJsSpace(s: string): (r: string)
    ensures |r| <= |s| && r == s[|s| - |r|..]
    ensures forall i :: 0 <= i < |s| - |r| ==> IsJsSpace(s[i])
    ensures |r| > 0 ==> !IsJsSpace(r[0])
  {
    if |s| > 0 && IsJsSpace(s[0]) then SkipJsSpace(s[1..]) else s
  }

  /** The length of the run of ASCII digits `s` starts with. */
  function DigitRun(s: string): (n: nat)
    ensures n <= |s| && AllDigits(s[..n])
    ensures n < |s| ==> !IsAsciiDigit(s[n])
  {
    if |s| > 0 && IsAsciiDigit(s[0]) then
      var n := 1 + DigitRun(s[1..]);
      assert forall i :: 1 <= i < n ==> s[..n][i] == s[1..][..n - 1][i - 1];
      n
    else 0
  }

  /** The number after the sign: the value of the leading run of digits,
      or NaN (`None`) when there is none. */
  function ParseDigits(b: string): (r: Option<int>)
    ensures r.Some? <==> |b| > 0 && IsAsciiDigit(b[0])
    ensures r.Some? ==> r.value >= 0
  {
    var n := DigitRun(b);
    if n == 0 then None
    else
      assert b[..n][0] == b[0];
      Some(DigitsValue(b[..n]))
  }

  /** `parseInt(s, 10)`: leading white space, an optional sign, then as
      many decimal digits as follow; the rest is ignored. Without a digit
      the result is NaN (`None`). */
  function ParseInt(s: string): (r: Option<int>)
    ensures r.Some? ==> exists i :: 0 <= i < |s| && IsAsciiDigit(s[i])
  {
    var t := SkipJsSpace(s);
    if |t| > 0 && (t[0] == '-' || t[0] == '+') then
      var r := ParseDigits(t[1..]);
      if r.None? then None
      else
        assert IsAsciiDigit(s[|s| - |t| + 1]);
        if t[0] == '-' then Some(-r.value) else r
    else
      var r := ParseDigits(t);
      assert r.Some? ==> IsAsciiDigit(s[|s| - |t|]);
      r
  }

  /** The decimal form of an integer, as JavaScript's `toString()` and
      Python's `str()` both write it. */
  function IntToString(n: int): (r: string)
    ensures |r| > 0
  {
    if n < 0 then "-" + NatToString(-n) else NatToString(n)
  }

  /** The digit run of digits followed by a non-digit is exactly those
      digits. */
  lemma DigitRunOfDigits(d: string, rest: string)
    requires AllDigits(d)
    requires |rest| > 0 ==> !IsAsciiDigit(rest[0])
    ensures DigitRun(d + rest) == |d| && (d + rest)[..|d|] == d
    decreases |d|
  {
    var s := d + rest;
    if |d| > 0 {
      assert s[0] == d[0] && s[1..] == d[1..] + rest;
      DigitRunOfDigits(d[1..], rest);
      assert DigitRun(s) == 1 + DigitRun(s[1..]);
    } else {
      assert s == rest;
    }
    assert s[..|d|] == d;
  }

  /** Digits followed by a non-digit read back as their value. */
  lemma ParseDigitsOfDigits(d: string, rest: string)
    requires |d| > 0 && AllDigits(d)
    requires |rest| > 0 ==> !IsAsciiDigit(rest[0])
    ensures ParseDigits(d + rest) == Some(DigitsValue(d))
  {
    DigitRunOfDigits(d, rest);
  }

  /** The field holds the server's integer followed by anything that does
      not start with a digit: `parseInt` reads back exactly that integer. */
  lemma ParseIntOfIntToString(n: int, rest: string)
    requires |rest| > 0 ==> !IsAsciiDigit(rest[0])
    ensures ParseInt(IntToString(n) + rest) == Some(n)
  {
    if n < 0 {
      ParseIntOfNegative(n, rest);
    } else {
      var d := NatToString(n);
      DigitsValueOfNatToString(n);
      ParseDigitsOfDigits(d, rest);
      UnsignedParse(d + rest);
    }
  }

  /** The negative case: the minus sign, then the digits of `-n`. */
  lemma ParseIntOfNegative(n: int, rest: string)
    requires n < 0 && (|rest| > 0 ==> !IsAsciiDigit(rest[0]))
    ensures ParseInt(IntToString(n) + rest) == Some(n)
  {
    var d := NatToString(-n);
    DigitsValueOfNatToString(-n);
    ParseDigitsOfDigits(d, rest);
    NegativeParse(d, rest, -n);
    assert IntToString(n) == "-" + d;
  }

  /** A leading minus sign negates the number after it. */
  lemma NegativeParse(d: string, rest: string, v: int)
    requires ParseDigits(d + rest) == Some(v)
    ensures ParseInt("-" + d + rest) == Some(-v)
  {
    var s := "-" + d + rest;
    assert s[0] == '-' && s[1..] == d + rest;
    assert !IsJsSpace(s[0]);
    assert SkipJsSpace(s) == s;
    assert ParseDigits(s[1..]) == Some(v);
  }

  /** A text that starts with a digit has no white space and no sign to
      skip. */
  lemma UnsignedParse(b: string)
    requires |b| > 0 && IsAsciiDigit(b[0])
    ensures ParseInt(b) == ParseDigits(b)
  {
    assert SkipJsSpace(b) == b;
  }

  /** A field with no digit in it starts no countdown. */
  lemma NoDigitNoCountdown(s: string)
    requires forall i :: 0 <= i < |s| ==> !IsAsciiDigit(s[i])
    ensures ParseInt(s) == None
  {
  }

  // ---------------------------------------------------------------------
  // The clock text
  // ---------------------------------------------------------------------

  /** JavaScript's `%`, whose result takes the sign of the dividend. */
  function JsRem(a: int, b: int): (r: int)
    requires b > 0
    ensures a >= 0 ==> 0 <= r < b
    ensures a < 0 ==> -b < r <= 0
    ensures (a - r) % b == 0
  {
    RemDifference(if a >= 0 then a else -a, b);
    if a >= 0 then a % b else -((-a) % b)
  }

  /** `n` and its remainder differ by a multiple of `b`, in either sign. */
  lemma RemDifference(n: nat, b: int)
    requires b > 0
    ensures (n - n % b) % b == 0 && (n % b - n) % b == 0
  {
    var q := n / b;
    assert n == q * b + n % b;
    MultipleRem(n - n % b, q, b);
    MultipleRem(n % b - n, -q, b);
  }

  /** A multiple of `b` leaves no remainder: the quotient is unique. */
  lemma MultipleRem(x: int, q: int, b: int)
    requires b > 0 && x == q * b
    ensures x % b == 0
  {
    var d := x / b;
    var m := x % b;
    assert x == d * b + m;
    assert (q - d) * b == m by { assert (q - d) * b == q * b - d * b; }
    MulBounds(q - d, b);
  }

  /** The one nonlinear step of `MultipleRem`: a non-zero multiple of `b` is
      at least `b` in size. */
  lemma MulBounds(k: int, b: int)
    requires b > 0
    ensures k >= 1 ==> k * b >= b
    ensures k <= -1 ==> k * b <= -b
  {
    if k >= 1 { assert k * b == (k - 1) * b + b; }
    if k <= -1 { assert k * b == (k + 1) * b - b; }
  }


  /** `Math.floor(a / b)` for a positive divisor: Dafny's division already
      rounds down when the divisor is positive. */
  function FloorDiv(a: int, b: int): (q: int)
    requires b > 0
    ensures q * b <= a < (q + 1) * b
  {
    a / b
  }

  /** `s.padStart(2, '0')`. */
  function PadStart2(s: string): (r: string)
    ensures |r| == if |s| >= 2 then |s| else 2
    ensures r[|r| - |s|..] == s
    ensures forall i :: 0 <= i < |r| - |s| ==> r[i] == '0'
  {
    if |s| >= 2 then s else seq(2 - |s|, _ => '0') + s
  }

  /** The text `updateTimer` writes for `t` seconds left. */
  function Clock(t: int): (r: string)
    ensures ':' in r
    ensures t >= 0 ==> ClockValue(r) == Some(t)
  {
    ClockText(t);
    IntToString(FloorDiv(t, 60)) + ":" + PadStart2(IntToString(JsRem(t, 60)))
  }

  /** Reading a clock text back: digits, ':', two digits below 60. */
  function ClockValue(s: string): Option<int> {
    var k := IndexOf(s, ':');
    if k <= 0 then None
    else
      var m, ss := s[..k], s[k + 1..];
      if AllDigits(m) && |ss| == 2 && AllDigits(ss) && DigitsValue(ss) < 60 then
        Some(60 * DigitsValue(m) + DigitsValue(ss))
      else None
  }

  /** The seconds of a non-negative clock are two digits, zero-padded. */
  lemma SecondsField(t: int)
    requires t >= 0
    ensures var s := PadStart2(IntToString(JsRem(t, 60)));
      |s| == 2 && AllDigits(s) && DigitsValue(s) == t % 60
  {
    var x := NatToString(t % 60);
    NatToStringLength(t % 60, 2);
    assert Pow10(2) == 100;
    DigitsValueOfNatToString(t % 60);
    if |x| == 1 {
      DigitsValueAppend("0", x);
      assert PadStart2(x) == "0" + x;
    }
  }

  /** A text of digits, ':' and two digits below 60 reads back as its
      minutes and seconds. */
  lemma ClockValueOfParts(m: string, ss: string)
    requires |m| > 0 && AllDigits(m) && |ss| == 2 && AllDigits(ss) && DigitsValue(ss) < 60
    ensures ClockValue(m + ":" + ss) == Some(60 * DigitsValue(m) + DigitsValue(ss))
  {
    assert ':' !in m by {
      forall i | 0 <= i < |m|
        ensures m[i] != ':'
      {
        assert IsAsciiDigit(m[i]);
      }
    }
    SplitAtFirst(m, ':', ss);
  }

  /** The clock text holds ':' and, for `t >= 0`, is the minutes, ':' and
      two digits of seconds in 00..59, so it reads back as `t`. */
  lemma ClockText(t: int)
    ensures var r := IntToString(FloorDiv(t, 60)) + ":" + PadStart2(IntToString(JsRem(t, 60)));
      ':' in r && (t >= 0 ==> ClockValue(r) == Some(t))
  {
    var m := IntToString(FloorDiv(t, 60));
    var ss := PadStart2(IntToString(JsRem(t, 60)));
    assert (m + ":" + ss)[|m|] == ':';
    if t >= 0 {
      assert m == NatToString(t / 60);
      SecondsField(t);
      DigitsValueOfNatToString(t / 60);
      ClockValueOfParts(m, ss);
    }
  }

  /** For `t >= 0` the clock reads back as `t`. */
  lemma ClockRoundTrip(t: int)
    requires t >= 0
    ensures ClockValue(Clock(t)) == Some(t)
  {
  }

  lemma ClockInjective(t: int, u: int)
    requires t >= 0 && u >= 0 && Clock(t) == Clock(u)
    ensures t == u
  {
    ClockRoundTrip(t);
    ClockRoundTrip(u);
  }

  /** A clock text always holds ':', so it is never the expiry text. */
  lemma ClockIsNotExpired(t: int)
    ensures Clock(t) != Expired
  {
    assert forall i :: 0 <= i < |Expired| ==> Expired[i] != ':';
  }

  /** Five minutes left shows as "5:00". */
  lemma FullClock()
    ensures Clock(300) == "5:00"
  {
    assert NatToString(5) == "5";
    assert NatToString(0) == "0";
  }

  /** The clock text of a negative value (a code that expired before the
      page was served) carries minus signs in both fields: -42 gives
      "-1:-42". `updateTimer` writes this text and, in the same call,
      replaces it with the expiry text, so it is never displayed: by
      `Countdown` such a page shows "OTP Expired" only. */
  lemma NegativeClock(t: int)
    requires -60 < t < 0
    ensures Clock(t) == "-1:" + PadStart2("-" + NatToString(-t))
  {
    assert FloorDiv(t, 60) == -1;
    assert JsRem(t, 60) == t;
    assert IntToString(-1) == "-1" by { assert NatToString(1) == "1"; }
  }

  // ---------------------------------------------------------------------
  // The countdown
  // ---------------------------------------------------------------------

  const Expired: string := "OTP Expired"

  /** What the page shows and whether another call is scheduled. */
  datatype Page = Page(timeLeft: int, text: string, resendShown: bool, scheduled: bool)

  /** One call of `updateTimer`. With time left the clock is shown and the
      next call scheduled with one second less; at zero or below the clock
      is overwritten by the expiry text, the resend button (when the page
      has one) is shown, and nothing is scheduled. */
  function UpdateTimer(p: Page, hasResend: bool): (q: Page)
    ensures q.scheduled <==> p.timeLeft > 0
    ensures q.scheduled ==> q.timeLeft == p.timeLeft - 1 && q.text == Clock(p.timeLeft)
    ensures !q.scheduled ==> q.text == Expired && q.timeLeft == p.timeLeft
    ensures q.resendShown <==> p.resendShown || (!q.scheduled && hasResend)
  {
    if p.timeLeft > 0 then Page(p.timeLeft - 1, Clock(p.timeLeft), p.resendShown, true)
    else Page(p.timeLeft, Expired, p.resendShown || hasResend, false)
  }

  /** The number of calls that show a clock before the page expires. */
  function Ticks(t: int): nat {
    if t > 0 then t else 0
  }

  /** The first `n` texts are the clocks of `t0`, `t0 - 1`, ... (with
      `show` the clock rendering). */
  predicate CountsDown(texts: seq<string>, show: int -> string, t0: int, n: nat)
    requires n <= |texts|
  {
    forall i :: 0 <= i < n ==> texts[i] == show(t0 - i)
  }

  lemma CountsDownExtend(texts: seq<string>, show: int -> string, t0: int, n: nat, x: string)
    requires n <= |texts| && CountsDown(texts, show, t0, n)
    ensures CountsDown(texts + [x], show, t0, n)
    ensures n == |texts| && x == show(t0 - n) ==> CountsDown(texts + [x], show, t0, n + 1)
  {
    var u := texts + [x];
    assert forall i :: 0 <= i < |texts| ==> u[i] == texts[i];
  }

  /** The page from its first call until nothing more is scheduled: the
      texts it shows one after the other, and its final state. A start of
      `t` seconds shows `t` clocks, counting down one second at a time,
      then the expiry text, and the resend button if the page has one. */
  method Countdown(t0: int, hasResend: bool) returns (texts: seq<string>, last: Page)
    ensures |texts| == Ticks(t0) + 1
    ensures forall i :: 0 <= i < Ticks(t0) ==> texts[i] == Clock(t0 - i)
    ensures texts[Ticks(t0)] == Expired && last.text == Expired
    ensures !last.scheduled && last.resendShown == hasResend
    ensures last.timeLeft == if t0 > 0 then 0 else t0
  {
    var p := Page(t0, "", false, true);
    texts := [];
    while p.scheduled
      invariant p.scheduled ==> p.timeLeft == t0 - |texts| && |texts| <= Ticks(t0) && !p.resendShown
      invariant p.scheduled ==> CountsDown(texts, Clock, t0, |texts|)
      invariant !p.scheduled ==> |texts| == Ticks(t0) + 1 && p.text == Expired == texts[Ticks(t0)]
      invariant !p.scheduled ==> p.resendShown == hasResend && p.timeLeft == if t0 > 0 then 0 else t0
      invariant !p.scheduled ==> CountsDown(texts, Clock, t0, Ticks(t0))
      decreases if p.scheduled then Ticks(p.timeLeft) + 1 else 0
    {
      var n := |texts|;
      p := UpdateTimer(p, hasResend);
      CountsDownExtend(texts, Clock, t0, n, p.text);
      texts := texts + [p.text];
    }
    last := p;
  }

  /** The script as a whole: without both page elements it stops at once;
      a field that is not a number starts no countdown; otherwise the
      countdown runs from the parsed value. */
  method RunTimer(field: Option<string>, hasTimer: bool, hasResend: bool)
    returns (texts: seq<string>, resendShown: bool)
    ensures field.None? || !hasTimer || ParseInt(field.value).None? ==> texts == [] && !resendShown
    ensures field.Some? && hasTimer && ParseInt(field.value).Some? ==>
      var t := ParseInt(field.value).value;
      |texts| == Ticks(t) + 1 && texts[|texts| - 1] == Expired && resendShown == hasResend
      && forall i :: 0 <= i < Ticks(t) ==> texts[i] == Clock(t - i)
  {
    texts, resendShown := [], false;
    if field.Some? {
      var t := ParseInt(field.value);
      if t.Some? && hasTimer {
        var last;
        texts, last := Countdown(t.value, hasResend);
        resendShown := last.resendShown;
      }
    }
  }
}
