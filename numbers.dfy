// The numeric conversions main.cpp calls: `std::stoi(s)` (base 10, result an
// `int`) and `std::stoull(s, nullptr, 16)` (base 16, result an
// `unsigned long long`). Both read like strtol/strtoull in the "C" locale:
// leading white space, an optional sign, for base 16 an optional "0x"/"0X",
// then the longest run of digits; what follows the digits is ignored. No
// digits throws std::invalid_argument, a value out of range throws
// std::out_of_range; both are `None` here.

module Numbers {
  import opened Base

  const MINUS: Byte := 0x2D
  const PLUS: Byte := 0x2B

  /** isspace in the "C" locale. */
  predicate IsSpace(b: Byte)
  {
    b == 0x20 || 0x09 <= b <= 0x0D
  }

  /** The two bases the source parses in. */
  datatype Radix = Decimal | Hex

  function RadixBase(r: Radix): nat
  {
    match r
    case Decimal => 10
    case Hex => 16
  }

  /** v * RadixBase(r), spelled out per radix so that it stays linear. */
  function Shift(v: nat, r: Radix): (w: nat)
  {
    match r
    case Decimal => v * 10
    case Hex => v * 16
  }

  /** The value of b as a digit in radix r, if it is one. */
  function DigitValue(b: Byte, r: Radix): (d: Option<nat>)
    ensures d.Some? ==> d.value < RadixBase(r)
  {
    var v := if 0x30 <= b <= 0x39 then b - 0x30
             else if 0x61 <= b <= 0x66 then b - 0x61 + 10
             else if 0x41 <= b <= 0x46 then b - 0x41 + 10
             else 16;
    if v < RadixBase(r) then Some(v) else None
  }

  predicate IsDigit(b: Byte, r: Radix)
  {
    DigitValue(b, r).Some?
  }

  /** The first index at or after i that does not hold white space. */
  function SkipSpace(s: seq<Byte>, i: nat): (j: nat)
    requires i <= |s|
    ensures i <= j <= |s|
    ensures forall k :: i <= k < j ==> IsSpace(s[k])
    ensures j < |s| ==> !IsSpace(s[j])
    decreases |s| - i
  {
    if i < |s| && IsSpace(s[i]) then SkipSpace(s, i + 1) else i
  }

  /** The length of the run of digits that starts at i. */
  function DigitRun(s: seq<Byte>, i: nat, r: Radix): (n: nat)
    requires i <= |s|
    ensures i + n <= |s|
    ensures forall k :: i <= k < i + n ==> IsDigit(s[k], r)
    ensures i + n < |s| ==> !IsDigit(s[i + n], r)
    decreases |s| - i
  {
    if i < |s| && IsDigit(s[i], r) then 1 + DigitRun(s, i + 1, r) else 0
  }

  /** The value of a digit string, most significant digit first (it is only
      applied to runs of digits; anything else would count as 0). */
  function DigitsValue(ds: seq<Byte>, r: Radix): nat
  {
    if ds == [] then 0
    else
      var last := DigitValue(ds[|ds| - 1], r);
      Shift(DigitsValue(ds[..|ds| - 1], r), r) + (if last.Some? then last.value else 0)
  }

  /** What strtol/strtoull read before range checking: the sign and the
      magnitude of the digits. */
  datatype Numeral = Numeral(negative: bool, magnitude: nat)

  /** Whether the numeral carries a minus sign (after leading white space). */
  predicate IsNegative(s: seq<Byte>)
  {
    var i := SkipSpace(s, 0);
    i < |s| && s[i] == MINUS
  }

  /** Where the digits start: after white space, an optional sign and, in
      base 16, a "0x"/"0X" that a hexadecimal digit follows. */
  function DigitsStart(s: seq<Byte>, r: Radix): (k: nat)
    ensures k <= |s|
  {
    var i := SkipSpace(s, 0);
    var j := if i < |s| && (s[i] == MINUS || s[i] == PLUS) then i + 1 else i;
    if r == Hex && j + 2 < |s| && s[j] == 0x30 && (s[j + 1] == 0x78 || s[j + 1] == 0x58)
       && IsDigit(s[j + 2], Hex)
    then j + 2 else j
  }

  function ScanNumeral(s: seq<Byte>, r: Radix): (m: Option<Numeral>)
  {
    var k := DigitsStart(s, r);
    var n := DigitRun(s, k, r);
    if n == 0 then None else Some(Numeral(IsNegative(s), DigitsValue(s[k..k + n], r)))
  }

  /** `std::stoi(s)`. */
  function StoI(s: seq<Byte>): (r: Option<int>)
    ensures r.Some? ==> INT_MIN <= r.value <= INT_MAX
  {
    match ScanNumeral(s, Decimal)
    case None => None
    case Some(n) =>
      var v: int := if n.negative then -(n.magnitude as int) else n.magnitude;
      if INT_MIN <= v <= INT_MAX then Some(v) else None
  }

  /** `std::stoull(s, nullptr, 16)`: a negative numeral wraps modulo 2^64. */
  function StoULL16(s: seq<Byte>): (r: Option<U64>)
  {
    match ScanNumeral(s, Hex)
    case None => None
    case Some(n) =>
      if n.magnitude >= TWO_64 then None
      else if n.negative then Some(ToU64(-(n.magnitude as int)))
      else Some(n.magnitude)
  }

  // ---- Rendering numbers, the inverse the parsers are checked against ----

  /** The minus sign a negative numeral is written with. */
  function Sign(negative: bool): (s: seq<Byte>)
    ensures |s| <= 1
  {
    if negative then [MINUS] else []
  }

  /** The digit byte of d: '0'..'9', then upper-case 'A'..'F'. */
  function DigitByte(d: nat): (b: Byte)
    requires d < 16
    ensures forall r :: d < RadixBase(r) ==> DigitValue(b, r) == Some(d)
  {
    if d < 10 then 0x30 + d else 0x41 + d - 10
  }

  /** n split into its last digit d and the number q before it. */
  function LastDigit(n: nat, r: Radix): (qd: (nat, nat))
    ensures qd.1 < RadixBase(r) && n == Shift(qd.0, r) + qd.1
    ensures n < RadixBase(r) <==> qd.0 == 0
    ensures qd.0 < n || n == 0
  {
    match r
    case Decimal => (n / 10, n % 10)
    case Hex => (n / 16, n % 16)
  }

  /** The digits of n in radix r, without leading zeros. */
  function Digits(n: nat, r: Radix): (ds: seq<Byte>)
    ensures |ds| >= 1
    ensures forall k :: 0 <= k < |ds| ==> IsDigit(ds[k], r)
    decreases n
  {
    var (q, d) := LastDigit(n, r);
    if q == 0 then [DigitByte(d)] else Digits(q, r) + [DigitByte(d)]
  }

  lemma {:induction false} DigitsValueOfDigits(n: nat, r: Radix)
    ensures DigitsValue(Digits(n, r), r) == n
    decreases n
  {
    var (q, d) := LastDigit(n, r);
    if q != 0 {
      var ds := Digits(n, r);
      assert ds[..|ds| - 1] == Digits(q, r);
      DigitsValueOfDigits(q, r);
    }
  }

  lemma {:induction false} DigitRunExact(s: seq<Byte>, i: nat, j: nat, r: Radix)
    requires i <= j <= |s|
    requires forall k :: i <= k < j ==> IsDigit(s[k], r)
    requires j < |s| ==> !IsDigit(s[j], r)
    ensures DigitRun(s, i, r) == j - i
    decreases j - i
  {
    if i < j {
      DigitRunExact(s, i + 1, j, r);
    }
  }

  /** The numeral scanned from an optional minus sign, a run of digits and a
      tail that does not continue the run. */
  lemma ScanNumeralOf(s: seq<Byte>, negative: bool, ds: seq<Byte>, tail: seq<Byte>, r: Radix)
    requires s == Sign(negative) + ds + tail
    requires |ds| >= 1 && forall k :: 0 <= k < |ds| ==> IsDigit(ds[k], r)
    requires tail != [] ==> !IsDigit(tail[0], r)
    requires r == Hex && |ds| == 1 && tail != [] ==> tail[0] != 0x78 && tail[0] != 0x58
    ensures ScanNumeral(s, r) == Some(Numeral(negative, DigitsValue(ds, r)))
  {
    var sign := Sign(negative);
    NumeralStart(negative, ds, tail, r);
    assert s[|sign|..|sign| + |ds|] == ds;
    DigitRunExact(s, |sign|, |sign| + |ds|, r);
  }

  /** Where the digits of such a numeral start, and its sign. */
  lemma NumeralStart(negative: bool, ds: seq<Byte>, tail: seq<Byte>, r: Radix)
    requires |ds| >= 1 && forall k :: 0 <= k < |ds| ==> IsDigit(ds[k], r)
    requires r == Hex && |ds| == 1 && tail != [] ==> tail[0] != 0x78 && tail[0] != 0x58
    ensures var s := Sign(negative) + ds + tail;
            DigitsStart(s, r) == (if negative then 1 else 0) && IsNegative(s) == negative
  {
    var sign := Sign(negative);
    var s := sign + ds + tail;
    var j := |sign|;
    assert s[j] == ds[0];
    assert !IsSpace(s[0]);
    assert SkipSpace(s, 0) == 0;
    assert j + 1 < |s| ==> s[j + 1] == (if |ds| > 1 then ds[1] else tail[0]);
    assert |ds| > 1 ==> IsDigit(ds[1], r);
  }

  /** `std::stoi` reads back the decimal rendering of any int, with or without
      a minus sign, whatever non-digit text follows it (such as "\r"). */
  lemma StoIDecimal(negative: bool, n: nat, tail: seq<Byte>)
    requires if negative then n <= -INT_MIN else n <= INT_MAX
    requires tail != [] ==> !IsDigit(tail[0], Decimal)
    ensures StoI(Sign(negative) + Digits(n, Decimal) + tail)
            == Some(if negative then -(n as int) else n)
  {
    var ds := Digits(n, Decimal);
    var s := Sign(negative) + ds + tail;
    ScanNumeralOf(s, negative, ds, tail, Decimal);
    DigitsValueOfDigits(n, Decimal);
    StoIOf(s, negative, n);
  }

  lemma StoIOf(s: seq<Byte>, negative: bool, n: nat)
    requires if negative then n <= -INT_MIN else n <= INT_MAX
    requires ScanNumeral(s, Decimal) == Some(Numeral(negative, n))
    ensures StoI(s) == Some(if negative then -(n as int) else n)
  {
  }

  /** The same without a sign. */
  lemma ScanUnsigned(ds: seq<Byte>, tail: seq<Byte>, r: Radix)
    requires |ds| >= 1 && forall k :: 0 <= k < |ds| ==> IsDigit(ds[k], r)
    requires tail != [] ==> !IsDigit(tail[0], r)
    requires r == Hex && |ds| == 1 && tail != [] ==> tail[0] != 0x78 && tail[0] != 0x58
    ensures ScanNumeral(ds + tail, r) == Some(Numeral(false, DigitsValue(ds, r)))
  {
    Unsigned(ds, tail);
    ScanNumeralOf(ds + tail, false, ds, tail, r);
  }

  lemma Unsigned(ds: seq<Byte>, tail: seq<Byte>)
    ensures ds + tail == Sign(false) + ds + tail
  {
    assert Sign(false) == [];
  }

  lemma ScanHexDigits(n: U64, tail: seq<Byte>)
    requires tail != [] ==> !IsDigit(tail[0], Hex) && tail[0] != 0x78 && tail[0] != 0x58
    ensures ScanNumeral(Digits(n, Hex) + tail, Hex) == Some(Numeral(false, n))
  {
    ScanUnsigned(Digits(n, Hex), tail, Hex);
    DigitsValueOfDigits(n, Hex);
  }

  /** `std::stoull(_, nullptr, 16)` reads back the hexadecimal rendering of any
      64-bit value, whatever text follows it that is neither a digit nor an
      'x' that would turn a leading "0" into a "0x" prefix. */
  lemma StoULLHex(n: U64, tail: seq<Byte>)
    requires tail != [] ==> !IsDigit(tail[0], Hex) && tail[0] != 0x78 && tail[0] != 0x58
    ensures StoULL16(Digits(n, Hex) + tail) == Some(n)
  {
    ScanHexDigits(n, tail);
  }
}
