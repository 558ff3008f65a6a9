/** Character classes and string operations shared by the validators.

    Whitespace is Python's `str.isspace()` set, which is also the set that
    `str.strip()`, `str.split()` and the regex class `\s` use on `str`
    values. Case mapping is modelled on ASCII letters only (see README). */
module Text {

  /** Python's `str.isspace()`: ASCII controls 9-13 and 28-31, space, NEL,
      NO-BREAK SPACE and the Unicode space separators and line/paragraph
      separators. */
  predicate IsSpace(c: char) {
    || c == ' '
    || ('\t' <= c <= '\r')
    || ('\U{1C}' <= c <= '\U{1F}')
    || c == '\U{85}' || c == '\U{A0}' || c == '\U{1680}'
    || ('\U{2000}' <= c <= '\U{200A}')
    || c == '\U{2028}' || c == '\U{2029}' || c == '\U{202F}'
    || c == '\U{205F}' || c == '\U{3000}'
  }

  predicate IsAsciiDigit(c: char) { '0' <= c <= '9' }
  predicate IsAsciiUpper(c: char) { 'A' <= c <= 'Z' }
  predicate IsAsciiLower(c: char) { 'a' <= c <= 'z' }
  predicate IsAsciiLetter(c: char) { IsAsciiUpper(c) || IsAsciiLower(c) }

  predicate AllDigits(s: string) {
    forall i :: 0 <= i < |s| ==> IsAsciiDigit(s[i])
  }

  // ---------------------------------------------------------------------
  // Case mapping (ASCII)
  // ---------------------------------------------------------------------

  function ToUpper(c: char): char {
    if IsAsciiLower(c) then (c as int - 32) as char else c
  }

  function ToLower(c: char): char {
    if IsAsciiUpper(c) then (c as int + 32) as char else c
  }

  /** `str.lower()` on the ASCII model: maps position by position. */
  function Lower(s: string): (r: string)
    ensures |r| == |s|
    ensures forall i :: 0 <= i < |s| ==> r[i] == ToLower(s[i])
  {
    seq(|s|, i requires 0 <= i < |s| => ToLower(s[i]))
  }

  lemma LowerCharFacts(c: char)
    ensures !IsAsciiUpper(ToLower(c))
    ensures ToLower(ToLower(c)) == ToLower(c)
    ensures IsAsciiLetter(ToLower(c)) <==> IsAsciiLetter(c)
    ensures IsAsciiDigit(ToLower(c)) <==> IsAsciiDigit(c)
    ensures IsSpace(ToLower(c)) <==> IsSpace(c)
    ensures ToLower(c) == c <==> !IsAsciiUpper(c)
    ensures ToLower(c) == '.' <==> c == '.'
    ensures ToLower(c) == '/' <==> c == '/'
  {
  }

  lemma UpperCharFacts(c: char)
    ensures !IsAsciiLower(ToUpper(c))
    ensures IsAsciiLetter(ToUpper(c)) <==> IsAsciiLetter(c)
    ensures IsAsciiDigit(ToUpper(c)) <==> IsAsciiDigit(c)
    ensures IsSpace(ToUpper(c)) <==> IsSpace(c)
    ensures ToUpper(c) == c <==> !IsAsciiLower(c)
    ensures ToLower(ToUpper(c)) == ToLower(c)
  {
  }

  // ---------------------------------------------------------------------
  // strip()
  // ---------------------------------------------------------------------

  /** The first index at or after `i` that does not hold whitespace, or
      `|s|`. */
  function SkipSpaces(s: string, i: nat): (j: nat)
    requires i <= |s|
    ensures i <= j <= |s|
    ensures forall k :: i <= k < j ==> IsSpace(s[k])
    ensures j < |s| ==> !IsSpace(s[j])
    decreases |s| - i
  {
    if i < |s| && IsSpace(s[i]) then SkipSpaces(s, i + 1) else i
  }

  /** The end of `s[lo..hi]` once its trailing whitespace is dropped. */
  function SkipSpacesBack(s: string, lo: nat, hi: nat): (j: nat)
    requires lo <= hi <= |s|
    ensures lo <= j <= hi
    ensures forall k :: j <= k < hi ==> IsSpace(s[k])
    ensures j > lo ==> !IsSpace(s[j - 1])
    decreases hi - lo
  {
    if hi > lo && IsSpace(s[hi - 1]) then SkipSpacesBack(s, lo, hi - 1) else hi
  }

  /** Where `str.strip()` cuts: after the leading whitespace, and before
      the trailing whitespace of what remains. */
  function StripStart(s: string): nat
    ensures StripStart(s) <= |s|
  {
    SkipSpaces(s, 0)
  }

  function StripEnd(s: string): (e: nat)
    ensures StripStart(s) <= e <= |s|
  {
    SkipSpacesBack(s, StripStart(s), |s|)
  }

  /** `str.strip()`: the slice between a leading and a trailing run of
      whitespace that neither starts nor ends with whitespace. */
  function Strip(s: string): (r: string)
    ensures r == s[StripStart(s)..StripEnd(s)]
    ensures forall i :: 0 <= i < StripStart(s) ==> IsSpace(s[i])
    ensures forall i :: StripEnd(s) <= i < |s| ==> IsSpace(s[i])
    ensures |r| > 0 ==> !IsSpace(r[0]) && !IsSpace(r[|r| - 1])
  {
    s[StripStart(s)..StripEnd(s)]
  }

  /** Whitespace padding around a core that neither starts nor ends with
      whitespace is exactly what stripping removes. */
  lemma StripWithin(s: string, a: nat, b: nat)
    requires a + b < |s|
    requires forall i :: 0 <= i < a ==> IsSpace(s[i])
    requires forall i :: |s| - b <= i < |s| ==> IsSpace(s[i])
    requires !IsSpace(s[a]) && !IsSpace(s[|s| - b - 1])
    ensures Strip(s) == s[a..|s| - b]
  {
    var k, e := StripStart(s), StripEnd(s);
    assert k == a;
    assert e == |s| - b;
  }

  /** Stripping keeps a string free of surrounding whitespace as it is and
      empties exactly the blank strings. */
  lemma StripFacts(s: string)
    ensures (|s| == 0 || (!IsSpace(s[0]) && !IsSpace(s[|s| - 1]))) ==> Strip(s) == s
    ensures Strip(s) == "" <==> forall i :: 0 <= i < |s| ==> IsSpace(s[i])
  {
    if |s| > 0 && !IsSpace(s[0]) && !IsSpace(s[|s| - 1]) {
      StripWithin(s, 0, 0);
    }
  }

  lemma StripIdempotent(s: string)
    ensures Strip(Strip(s)) == Strip(s)
  {
    StripFacts(Strip(s));
  }

  /** Two strings of one length with whitespace at the same places are cut
      at the same places. */
  lemma SameSpacesSameCuts(s: string, t: string)
    requires |s| == |t|
    requires forall i :: 0 <= i < |s| ==> (IsSpace(s[i]) <==> IsSpace(t[i]))
    ensures StripStart(s) == StripStart(t) && StripEnd(s) == StripEnd(t)
  {
    var a, b := StripStart(s), StripStart(t);
    assert a == b by {
      assert a < |s| ==> !IsSpace(t[a]);
      assert b < |t| ==> !IsSpace(s[b]);
    }
    var e, f := StripEnd(s), StripEnd(t);
    assert e == f by {
      assert e > a ==> !IsSpace(t[e - 1]);
      assert f > a ==> !IsSpace(s[f - 1]);
    }
  }

  lemma LowerIdempotent(s: string)
    ensures Lower(Lower(s)) == Lower(s)
  {
    forall i | 0 <= i < |s| ensures Lower(Lower(s))[i] == Lower(s)[i] {
      LowerCharFacts(s[i]);
    }
  }

  /** Lower-casing leaves no upper-case letter, and keeps a string that
      neither starts nor ends with whitespace so. */
  lemma LowerKeepsShape(t: string)
    ensures forall i :: 0 <= i < |t| ==> !IsAsciiUpper(Lower(t)[i])
    ensures |t| > 0 && !IsSpace(t[0]) && !IsSpace(t[|t| - 1]) ==>
      !IsSpace(Lower(t)[0]) && !IsSpace(Lower(t)[|t| - 1])
  {
    forall i | 0 <= i < |t| ensures !IsAsciiUpper(Lower(t)[i]) {
      LowerCharFacts(t[i]);
    }
    if |t| > 0 {
      LowerCharFacts(t[0]);
      LowerCharFacts(t[|t| - 1]);
    }
  }

  /** Lower-casing and stripping commute, since lower-casing maps
      whitespace to whitespace and nothing else to it. */
  lemma StripOfLower(s: string)
    ensures Strip(Lower(s)) == Lower(Strip(s))
  {
    forall i | 0 <= i < |s| ensures IsSpace(s[i]) <==> IsSpace(Lower(s)[i]) {
      LowerCharFacts(s[i]);
    }
    SameSpacesSameCuts(s, Lower(s));
  }

  // ---------------------------------------------------------------------
  // Searching and splitting
  // ---------------------------------------------------------------------

  /** Index of the first `c` in `s`, or -1 (`str.find`). */
  function IndexOf(s: string, c: char): (k: int)
    ensures -1 <= k < |s|
    ensures k >= 0 ==> s[k] == c
    ensures forall i :: 0 <= i < |s| && (k < 0 || i < k) ==> s[i] != c
  {
    if |s| == 0 then -1
    else if s[0] == c then 0
    else
      var k := IndexOf(s[1..], c);
      if k < 0 then -1 else k + 1
  }

  /** Index of the last `c` in `s`, or -1 (`str.rfind`). */
  function LastIndexOf(s: string, c: char): (k: int)
    ensures -1 <= k < |s|
    ensures k >= 0 ==> s[k] == c
    ensures forall i :: k < i < |s| ==> s[i] != c
  {
    if |s| == 0 then -1
    else if s[|s| - 1] == c then |s| - 1
    else LastIndexOf(s[..|s| - 1], c)
  }

  /** Python's `s.split(sep)` for a one-character separator: empty pieces
      are kept, so there is always at least one piece. */
  function SplitOn(s: string, sep: char): (parts: seq<string>)
    ensures |parts| >= 1
    decreases |s|
  {
    var k := IndexOf(s, sep);
    if k < 0 then [s] else [s[..k]] + SplitOn(s[k + 1..], sep)
  }

  /** No piece of a split contains the separator. */
  lemma {:induction false} SplitOnPieces(s: string, sep: char)
    ensures forall i :: 0 <= i < |SplitOn(s, sep)| ==> sep !in SplitOn(s, sep)[i]
    decreases |s|
  {
    var k := IndexOf(s, sep);
    if k >= 0 {
      SplitOnPieces(s[k + 1..], sep);
      assert sep !in s[..k] by {
        forall i | 0 <= i < k ensures s[..k][i] != sep {
        }
      }
    }
  }

  /** `sep.join(parts)`. */
  function Join(parts: seq<string>, sep: char): string
    decreases |parts|
  {
    if |parts| == 0 then ""
    else if |parts| == 1 then parts[0]
    else parts[0] + [sep] + Join(parts[1..], sep)
  }

  /** Splitting loses nothing: joining the pieces gives the input back. */
  lemma {:induction false} JoinSplitOn(s: string, sep: char)
    ensures Join(SplitOn(s, sep), sep) == s
    decreases |s|
  {
    var k := IndexOf(s, sep);
    if k >= 0 {
      JoinSplitOn(s[k + 1..], sep);
      assert s == s[..k] + [sep] + s[k + 1..];
    }
  }

  /** The first separator of `p + [sep] + rest` is the one after `p`. */
  lemma SplitAtFirst(p: string, sep: char, rest: string)
    requires sep !in p
    ensures var s := p + [sep] + rest;
      IndexOf(s, sep) == |p| && s[..|p|] == p && s[|p| + 1..] == rest
  {
    var s := p + [sep] + rest;
    assert s[|p|] == sep;
    assert forall i :: 0 <= i < |p| ==> s[i] == p[i];
  }

  /** And joining loses nothing: pieces free of the separator come back. */
  lemma {:induction false} SplitOnJoin(parts: seq<string>, sep: char)
    requires |parts| >= 1
    requires forall i :: 0 <= i < |parts| ==> sep !in parts[i]
    ensures SplitOn(Join(parts, sep), sep) == parts
    decreases |parts|
  {
    if |parts| > 1 {
      var rest := Join(parts[1..], sep);
      assert Join(parts, sep) == parts[0] + [sep] + rest;
      SplitAtFirst(parts[0], sep, rest);
      SplitOnJoin(parts[1..], sep);
      assert parts == [parts[0]] + parts[1..];
    } else {
      assert IndexOf(parts[0], sep) < 0;
    }
  }

  /** Length of the leading run of non-whitespace characters. */
  function WordLength(s: string): (n: nat)
    ensures n <= |s|
    ensures forall i :: 0 <= i < n ==> !IsSpace(s[i])
    ensures n < |s| ==> IsSpace(s[n])
  {
    if |s| == 0 || IsSpace(s[0]) then 0 else 1 + WordLength(s[1..])
  }

  /** Python's `s.split()` with no argument: the maximal runs of
      non-whitespace characters, in order, never an empty word. */
  function Words(s: string): (ws: seq<string>)
    ensures forall i :: 0 <= i < |ws| ==> |ws[i]| > 0
    ensures forall i, j :: 0 <= i < |ws| && 0 <= j < |ws[i]| ==> !IsSpace(ws[i][j])
    decreases |s|
  {
    if |s| == 0 then []
    else if IsSpace(s[0]) then Words(s[1..])
    else
      var n := WordLength(s);
      [s[..n]] + Words(s[n..])
  }

  lemma {:induction false} WordsEmptyIffBlank(s: string)
    ensures Words(s) == [] <==> forall i :: 0 <= i < |s| ==> IsSpace(s[i])
    decreases |s|
  {
    if |s| > 0 {
      if IsSpace(s[0]) {
        WordsEmptyIffBlank(s[1..]);
        if Words(s) == [] {
          forall i | 0 <= i < |s| ensures IsSpace(s[i]) {
            if i > 0 { assert s[i] == s[1..][i - 1]; }
          }
        }
      }
    }
  }

  // ---------------------------------------------------------------------
  // Decimal digits
  // ---------------------------------------------------------------------

  function DigitChar(d: nat): (c: char)
    requires d < 10
    ensures IsAsciiDigit(c)
  {
    ('0' as int + d) as char
  }

  function DigitValue(c: char): (d: nat)
    requires IsAsciiDigit(c)
    ensures d < 10 && DigitChar(d) == c
  {
    c as int - '0' as int
  }

  function Pow10(n: nat): (p: nat)
    ensures p >= 1
  {
    if n == 0 then 1 else 10 * Pow10(n - 1)
  }

  /** The number a string of ASCII digits denotes (Python's `int(s)`). */
  function DigitsValue(s: string): (v: nat)
    requires AllDigits(s)
    ensures v < Pow10(|s|)
  {
    if |s| == 0 then 0
    else DigitsValue(s[..|s| - 1]) * 10 + DigitValue(s[|s| - 1])
  }

  /** Decimal rendering of a natural number, as `str(n)` and JavaScript's
      `n.toString()` give it: digits only, no leading zero. */
  function NatToString(n: nat): (r: string)
    ensures |r| >= 1 && AllDigits(r)
    ensures r[0] == '0' ==> n == 0
    decreases n
  {
    if n < 10 then [DigitChar(n)] else NatToString(n / 10) + [DigitChar(n % 10)]
  }

  lemma {:induction false} DigitsValueOfNatToString(n: nat)
    ensures DigitsValue(NatToString(n)) == n
    decreases n
  {
    if n >= 10 {
      var s := NatToString(n);
      assert s[..|s| - 1] == NatToString(n / 10);
      DigitsValueOfNatToString(n / 10);
    }
  }

  /** Strings of the same length denote the same number only if equal. */
  lemma {:induction false} DigitsValueInjective(s: string, t: string)
    requires AllDigits(s) && AllDigits(t) && |s| == |t|
    requires DigitsValue(s) == DigitsValue(t)
    ensures s == t
    decreases |s|
  {
    if |s| > 0 {
      var n := |s| - 1;
      assert s == s[..n] + [s[n]] && t == t[..n] + [t[n]];
      DigitsValueSnoc(s[..n], s[n]);
      DigitsValueSnoc(t[..n], t[n]);
      assert DigitValue(s[n]) == DigitValue(t[n]) && DigitsValue(s[..n]) == DigitsValue(t[..n]);
      DigitsValueInjective(s[..n], t[..n]);
    }
  }

  /** Appending a digit multiplies by ten and adds the digit. */
  lemma DigitsValueSnoc(s: string, c: char)
    requires AllDigits(s) && IsAsciiDigit(c)
    ensures AllDigits(s + [c])
    ensures DigitsValue(s + [c]) == DigitsValue(s) * 10 + DigitValue(c)
  {
    assert (s + [c])[..|s|] == s;
  }

  /** The number of a concatenation of digit strings. */
  lemma {:induction false} DigitsValueAppend(s: string, t: string)
    requires AllDigits(s) && AllDigits(t)
    ensures AllDigits(s + t)
    ensures DigitsValue(s + t) == DigitsValue(s) * Pow10(|t|) + DigitsValue(t)
    decreases |t|
  {
    if |t| == 0 {
      assert s + t == s;
    } else {
      var t', c := t[..|t| - 1], t[|t| - 1];
      assert t == t' + [c];
      assert s + t == (s + t') + [c];
      DigitsValueAppend(s, t');
      DigitsValueSnoc(s + t', c);
      DigitsValueSnoc(t', c);
      MulShift(DigitsValue(s), Pow10(|t'|));
    }
  }

  /** The one nonlinear step of `DigitsValueAppend`, kept apart so that the
      solver meets it without the rest of that proof's context. */
  lemma MulShift(a: int, p: int)
    ensures (a * p) * 10 == a * (10 * p)
  {
  }

  /** The decimal form of `n` fits in `k` characters exactly when `n` is
      below 10^k. */
  lemma {:induction false} NatToStringLength(n: nat, k: nat)
    ensures |NatToString(n)| <= k <==> k >= 1 && n < Pow10(k)
    decreases n
  {
    if n >= 10 && k >= 2 {
      NatToStringLength(n / 10, k - 1);
      assert Pow10(k) == 10 * Pow10(k - 1);
      assert n / 10 < Pow10(k - 1) <==> n < Pow10(k);
    } else if k >= 1 {
      assert Pow10(k) >= 10 by { assert Pow10(k) == 10 * Pow10(k - 1); }
    }
  }
}
