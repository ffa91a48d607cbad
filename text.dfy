/**
 * Byte-level helpers the expander relies on: decimal digit runs, the
 * lowercase hexadecimal rendering of `printf("%x")`, zero runs, and the
 * decimal conversion of `strtoull(str, NULL, 10)` in the C locale.
 */
module Text {

  datatype Option<T> = None | Some(value: T)

  /** `*str` for a C string positioned at `i`: the byte there, or the terminating '\0' past the end. */
  function At(s: string, i: nat): char
  {
    if i < |s| then s[i] else '\0'
  }

  function Min(a: int, b: int): int { if a < b then a else b }

  predicate IsDigit(c: char) { '0' <= c <= '9' }

  predicate AllDigits(s: string) { forall k :: 0 <= k < |s| ==> IsDigit(s[k]) }

  function DigitValue(c: char): (d: nat)
    requires IsDigit(c)
    ensures d < 10
  {
    c as int - '0' as int
  }

  function DigitChar(d: nat): (c: char)
    requires d < 10
    ensures IsDigit(c) && DigitValue(c) == d
  {
    ('0' as int + d) as char
  }

  /** Value of a digit run, accumulated left to right as `value*10 + digit`. */
  function DecValue(ds: string): nat
    requires AllDigits(ds)
  {
    if ds == [] then 0 else DecValue(ds[..|ds| - 1]) * 10 + DigitValue(ds[|ds| - 1])
  }

  /** Position of the first non-digit at or after `j` (or the end of `s`). */
  function DigitsEnd(s: string, j: nat): (k: nat)
    requires j <= |s|
    ensures j <= k <= |s|
    ensures AllDigits(s[j..k])
    ensures k == |s| || !IsDigit(s[k])
    decreases |s| - j
  {
    if j < |s| && IsDigit(s[j]) then
      var k := DigitsEnd(s, j + 1);
      assert s[j..k] == [s[j]] + s[j + 1..k];
      k
    else j
  }

  /** `DigitsEnd` is the first non-digit at or after `j`, wherever that is found. */
  lemma {:induction false} DigitsEndIsFirstNonDigit(s: string, j: nat, k: nat)
    requires j <= k <= |s| && AllDigits(s[j..k]) && (k == |s| || !IsDigit(s[k]))
    ensures DigitsEnd(s, j) == k
    decreases k - j
  {
    if j < k {
      assert IsDigit(s[j..k][0]);
      assert s[j + 1..k] == s[j..k][1..];
      DigitsEndIsFirstNonDigit(s, j + 1, k);
    }
  }

  /** Every prefix of a digit run is worth at most the whole run. */
  lemma {:induction false} DecValuePrefix(ds: string, n: nat)
    requires AllDigits(ds) && n <= |ds|
    ensures AllDigits(ds[..n]) && DecValue(ds[..n]) <= DecValue(ds)
    decreases |ds| - n
  {
    if n < |ds| {
      var init := ds[..|ds| - 1];
      assert init[..n] == ds[..n];
      DecValuePrefix(init, n);
    } else {
      assert ds[..n] == ds;
    }
  }

  /** Appending one digit to a run extends its value by one decimal place. */
  lemma DecValueSnoc(ds: string, c: char)
    requires AllDigits(ds) && IsDigit(c)
    ensures AllDigits(ds + [c]) && DecValue(ds + [c]) == DecValue(ds) * 10 + DigitValue(c)
  {
    assert (ds + [c])[..|ds + [c]| - 1] == ds;
  }

  /** A leading `'0'` does not change the value of a digit run. */
  lemma {:induction false} DecValueLeadingZero(ds: string)
    requires AllDigits(ds)
    ensures AllDigits(['0'] + ds) && DecValue(['0'] + ds) == DecValue(ds)
    decreases |ds|
  {
    if ds != [] {
      var init := ds[..|ds| - 1];
      assert (['0'] + ds)[..|['0'] + ds| - 1] == ['0'] + init;
      DecValueLeadingZero(init);
    }
  }

  /** Canonical decimal rendering: no leading zeros, "0" for zero. */
  function DecString(n: nat): (s: string)
    ensures |s| > 0 && AllDigits(s)
    ensures n > 0 ==> s[0] != '0'
  {
    if n < 10 then [DigitChar(n)] else DecString(n / 10) + [DigitChar(n % 10)]
  }

  lemma {:induction false} DecValueOfDecString(n: nat)
    ensures DecValue(DecString(n)) == n
  {
    if n >= 10 {
      DecValueOfDecString(n / 10);
      DecValueSnoc(DecString(n / 10), DigitChar(n % 10));
    }
  }

  predicate IsLowerHex(c: char) { '0' <= c <= '9' || 'a' <= c <= 'f' }

  predicate AllLowerHex(s: string) { forall k :: 0 <= k < |s| ==> IsLowerHex(s[k]) }

  function HexChar(d: nat): (c: char)
    requires d < 16
    ensures IsLowerHex(c)
  {
    "0123456789abcdef"[d]
  }

  function HexValue(c: char): (d: nat)
    requires IsLowerHex(c)
    ensures d < 16
  {
    if c <= '9' then c as int - '0' as int else c as int - 'a' as int + 10
  }

  /** Value of a lowercase hex string, most significant digit first. */
  function ParseHex(h: string): nat
    requires AllLowerHex(h)
  {
    if h == [] then 0 else ParseHex(h[..|h| - 1]) * 16 + HexValue(h[|h| - 1])
  }

  /** `printf("%x", n)`: lowercase hex without leading zeros, "0" for zero. */
  function HexOf(n: nat): (h: string)
    ensures |h| > 0 && AllLowerHex(h)
    ensures n > 0 ==> h[0] != '0'
  {
    if n < 16 then [HexChar(n)] else HexOf(n / 16) + [HexChar(n % 16)]
  }

  /** `HexValue` undoes `HexChar`. */
  lemma HexValueOfHexChar(d: nat)
    requires d < 16
    ensures HexValue(HexChar(d)) == d
  {
    var digits := "0123456789abcdef";
    assert digits[0] == '0' && digits[1] == '1' && digits[2] == '2' && digits[3] == '3';
    assert digits[4] == '4' && digits[5] == '5' && digits[6] == '6' && digits[7] == '7';
    assert digits[8] == '8' && digits[9] == '9' && digits[10] == 'a' && digits[11] == 'b';
    assert digits[12] == 'c' && digits[13] == 'd' && digits[14] == 'e' && digits[15] == 'f';
  }

  /** Reading back the rendering of `n` gives `n`. */
  lemma {:induction false} ParseHexOfHexOf(n: nat)
    ensures ParseHex(HexOf(n)) == n
  {
    if n >= 16 {
      ParseHexOfHexOf(n / 16);
      var h := HexOf(n / 16) + [HexChar(n % 16)];
      assert h[..|h| - 1] == HexOf(n / 16);
      HexValueOfHexChar(n % 16);
    } else {
      HexValueOfHexChar(n);
    }
  }

  function Zeros(k: nat): (z: string)
    ensures |z| == k && forall i :: 0 <= i < k ==> z[i] == '0'
  {
    seq(k, _ => '0')
  }

  /** One more '0' in front of a run of zeros and a string. */
  lemma ZerosPrepend(k: nat, h: string)
    ensures "0" + (Zeros(k) + h) == Zeros(k + 1) + h
  {
    assert "0" + (Zeros(k) + h) == ("0" + Zeros(k)) + h;
    assert "0" + Zeros(k) == Zeros(k + 1);
  }

  /** Leading zeros do not change the value of a hex string. */
  lemma {:induction false} ParseHexLeadingZero(h: string)
    requires AllLowerHex(h)
    ensures AllLowerHex(['0'] + h) && ParseHex(['0'] + h) == ParseHex(h)
    decreases |h|
  {
    if h != [] {
      var init := h[..|h| - 1];
      assert (['0'] + h)[..|['0'] + h| - 1] == ['0'] + init;
      ParseHexLeadingZero(init);
    }
  }

  lemma {:induction false} ParseHexZeros(k: nat, h: string)
    requires AllLowerHex(h)
    ensures AllLowerHex(Zeros(k) + h) && ParseHex(Zeros(k) + h) == ParseHex(h)
  {
    if k > 0 {
      ParseHexZeros(k - 1, h);
      assert Zeros(k) + h == ['0'] + (Zeros(k - 1) + h);
      ParseHexLeadingZero(Zeros(k - 1) + h);
    } else {
      assert Zeros(k) + h == h;
    }
  }

  /** `isspace` in the C locale: space, \t, \n, \v, \f and \r. */
  predicate IsSpace(c: char) { c == ' ' || '\t' <= c <= '\r' }

  function SkipSpaces(s: string, i: nat): (k: nat)
    requires i <= |s|
    ensures i <= k <= |s| && (k == |s| || !IsSpace(s[k]))
    decreases |s| - i
  {
    if i < |s| && IsSpace(s[i]) then SkipSpaces(s, i + 1) else i
  }

  const ULLongMax: nat := 0xFFFF_FFFF_FFFF_FFFF

  /**
   * `strtoull(s, NULL, 10)` in the C locale: leading white space, an
   * optional sign and the longest digit run; a value above ULLONG_MAX
   * saturates, and a '-' negates the value modulo 2^64.
   */
  function StrToUll(s: string): (v: nat)
    ensures v <= ULLongMax
  {
    var i := SkipSpaces(s, 0);
    var neg := i < |s| && s[i] == '-';
    var j := if i < |s| && (s[i] == '-' || s[i] == '+') then i + 1 else i;
    var v := DecValue(s[j..DigitsEnd(s, j)]);
    if v > ULLongMax then ULLongMax
    else if neg then (ULLongMax + 1 - v) % (ULLongMax + 1)
    else v
  }
}
