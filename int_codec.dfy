/** Non-negative integers as base-36 numerals (digits `0-9a-z`), shorter than their decimal form. */
module IntCodec {
  import opened Wrappers

  /** The character of digit `d`. */
  function DigitChar(d: nat): (c: char)
    requires d < 36
    ensures '0' <= c <= '9' || 'a' <= c <= 'z'
  {
    if d < 10 then (('0' as int) + d) as char else (('a' as int) + d - 10) as char
  }

  /** The digit a character denotes in `base`, if any. */
  function DigitValue(c: char, base: nat): (r: Option<nat>)
    requires 2 <= base <= 36
    ensures r.Some? ==> r.value < base && DigitChar(r.value) == c
  {
    var d :=
      if '0' <= c <= '9' then (c as int) - ('0' as int)
      else if 'a' <= c <= 'z' then (c as int) - ('a' as int) + 10
      else base;
    if d < base then Some(d) else None
  }

  lemma DigitRoundTrip(d: nat, base: nat)
    requires 2 <= base <= 36 && d < base
    ensures DigitValue(DigitChar(d), base) == Some(d)
  {
  }

  /** The numeral of `n` in `base`, most significant digit first, with no leading zeros. */
  function Numeral(n: nat, base: nat): (s: seq<char>)
    requires 2 <= base <= 36
    ensures |s| >= 1
    decreases n
  {
    if n < base then [DigitChar(n)] else Numeral(n / base, base) + [DigitChar(n % base)]
  }

  /** The value of a numeral in `base`; None for an empty string or a non-digit. */
  function ValueOf(s: seq<char>, base: nat): (r: Option<nat>)
    requires 2 <= base <= 36
    ensures s == [] ==> r.None?
    ensures r.Some? <==> s != [] && forall k :: 0 <= k < |s| ==> DigitValue(s[k], base).Some?
    decreases |s|
  {
    if s == [] then None
    else
      var last := DigitValue(s[|s| - 1], base);
      if last.None? then None
      else if |s| == 1 then last
      else
        var front := ValueOf(s[..|s| - 1], base);
        if front.None? then None else Some(Shift(front.value, base, last.value))
  }

  /** The value of a numeral worth `v` followed by the digit `d`. */
  function Shift(v: nat, base: nat, d: nat): nat {
    v * base + d
  }

  function EncodeInt(n: nat): seq<char> {
    Numeral(n, 36)
  }

  function DecodeInt(s: seq<char>): Option<nat> {
    ValueOf(s, 36)
  }

  /** The decimal string of `n`. */
  function Decimal(n: nat): seq<char> {
    Numeral(n, 10)
  }

  lemma {:induction false} NumeralRoundTrip(n: nat, base: nat)
    requires 2 <= base <= 36
    ensures ValueOf(Numeral(n, base), base) == Some(n)
    decreases n
  {
    if n < base {
      DigitRoundTrip(n, base);
    } else {
      NumeralRoundTrip(n / base, base);
      RoundTripStep(n, base);
    }
  }

  /** A numeral of two or more digits decodes right when its leading part does. */
  lemma RoundTripStep(n: nat, base: nat)
    requires 2 <= base <= 36 && n >= base
    requires ValueOf(Numeral(n / base, base), base) == Some(n / base)
    ensures ValueOf(Numeral(n, base), base) == Some(n)
  {
    NumeralUnfold(n, base);
    AppendQuotient(Numeral(n / base, base), n, base);
  }

  /** Appending the last digit of `n` to a numeral of `n / base` gives a numeral of `n`. */
  lemma AppendQuotient(front: seq<char>, n: nat, base: nat)
    requires 2 <= base <= 36
    requires ValueOf(front, base) == Some(n / base)
    ensures ValueOf(front + [DigitChar(n % base)], base) == Some(n)
  {
    AppendDigit(front, n / base, n % base, base);
    DivMod(n, base);
  }

  lemma NumeralUnfold(n: nat, base: nat)
    requires 2 <= base <= 36 && n >= base
    ensures n % base < base
    ensures Numeral(n, base) == Numeral(n / base, base) + [DigitChar(n % base)]
  {
  }

  /** Appending a digit multiplies the value by the base and adds the digit. */
  lemma AppendDigit(s: seq<char>, v: nat, d: nat, base: nat)
    requires 2 <= base <= 36 && d < base
    requires ValueOf(s, base) == Some(v)
    ensures ValueOf(s + [DigitChar(d)], base) == Some(v * base + d)
  {
    DigitRoundTrip(d, base);
    var t := s + [DigitChar(d)];
    assert t[..|t| - 1] == s;
  }

  lemma DivMod(n: nat, base: nat)
    requires base > 0
    ensures (n / base) * base + n % base == n
  {
  }

  /** Decoding inverts encoding for every non-negative integer. */
  lemma IntRoundTrip(n: nat)
    ensures DecodeInt(EncodeInt(n)) == Some(n)
  {
    NumeralRoundTrip(n, 36);
  }

  /** Distinct numbers have distinct numerals. */
  lemma EncodeIntInjective(a: nat, b: nat)
    ensures EncodeInt(a) == EncodeInt(b) ==> a == b
  {
    IntRoundTrip(a);
    IntRoundTrip(b);
  }

  lemma NumeralStep(n: nat, base: nat)
    requires 2 <= base <= 36 && n >= base
    ensures |Numeral(n, base)| == |Numeral(n / base, base)| + 1
  {
  }

  /** More decimal digits for a larger number. */
  lemma {:induction false} DecimalLengthMonotone(m: nat, n: nat)
    requires m <= n
    ensures |Decimal(m)| <= |Decimal(n)|
    decreases n
  {
    if m >= 10 {
      DecimalLengthMonotone(m / 10, n / 10);
    }
  }

  /** The base-36 form is never longer than the decimal string. */
  lemma {:induction false} NeverLongerThanDecimal(n: nat)
    ensures |EncodeInt(n)| <= |Decimal(n)|
    decreases n
  {
    if n >= 36 {
      NeverLongerThanDecimal(n / 36);
      DecimalLengthMonotone(n / 36, n / 10);
    }
  }

  /** The base-36 form of a number from 100 up is strictly shorter than its decimal string. */
  lemma ShorterThanDecimal(n: nat)
    requires n >= 100
    ensures |EncodeInt(n)| < |Decimal(n)|
  {
    NumeralStep(n, 10);
    NumeralStep(n / 10, 10);
    assert n / 10 / 10 == n / 100;
    NumeralStep(n, 36);
    if n >= 1296 {
      NumeralStep(n / 10 / 10, 10);
      assert n / 100 / 10 == n / 1000;
      NumeralStep(n / 36, 36);
      assert n / 36 / 36 == n / 1296;
      NeverLongerThanDecimal(n / 1296);
      DecimalLengthMonotone(n / 1296, n / 1000);
    } else {
      assert n / 36 < 36;
    }
  }

  lemma EncodeIntExamples()
    ensures |EncodeInt(1111)| < |Decimal(1111)|
    ensures DecodeInt(EncodeInt(2323)) == Some(2323)
    ensures EncodeInt(17) == "h" && DecodeInt("h") == Some(17)
  {
    ShorterThanDecimal(1111);
    IntRoundTrip(2323);
    assert DigitChar(17) == 'h';
  }
}
