// Fixed-width integers of the C++ source, the conversions between them, the
// little-endian byte layout the atlas uses, and the failure outcomes of the
// conversion.

module Base {

  /** One byte of a buffer (`char`/`uint8_t` in the source, read as unsigned). */
  type Byte = b: int | 0 <= b < 0x100

  const TWO_8: nat := 0x100
  const TWO_16: nat := 0x1_0000
  const TWO_32: nat := 0x1_0000_0000
  const TWO_64: nat := 0x1_0000_0000_0000_0000
  const INT_MIN: int := -0x8000_0000
  const INT_MAX: int := 0x7FFF_FFFF

  type U8 = x: int | 0 <= x < 0x100
  type I8 = x: int | -0x80 <= x < 0x80
  type U16 = x: int | 0 <= x < 0x1_0000
  type U32 = x: int | 0 <= x < 0x1_0000_0000
  type U64 = x: int | 0 <= x < 0x1_0000_0000_0000_0000

  /** The outcomes of the source that produce no atlas. */
  datatype Failure =
    | Truncated        // properties end before ENDPROPERTIES ("invalid format!", exit code -1)
    | NumericParse     // std::stoi / std::stoull throws; nothing catches it
    | CorpusStalls     // a continuation byte in lead position: the scan never advances and appends until allocation fails
    | CorpusOverRead   // the corpus decoder steps past the terminating NUL (undefined behaviour)
    | BbxTooShort      // a BBX line with fewer than four fields: vector index out of range (UB)
    | RowOutOfRange    // a BITMAP row index at or past the bitmap vector's size (UB)
    | IntOverflow      // signed `int` overflow in the glyph loop (UB)
    | GlyphTooLarge    // a glyph's rows overrun the bitmap vector or the scratch buffer (UB)
    | LengthError      // a negative CHARS or PIXEL_SIZE becomes a size_t too large to reserve: std::length_error

  datatype Result<+T> = Ok(value: T) | Err(failure: Failure) {
    predicate IsFailure() { Err? }
    function PropagateFailure<U>(): Result<U> requires Err? { Err(failure) }
    function Extract(): T requires Ok? { value }
  }

  datatype Option<+T> = None | Some(value: T)

  function Pow256(k: nat): (r: nat)
    ensures r > 0
  {
    if k == 0 then 1 else 256 * Pow256(k - 1)
  }

  // Conversions to an unsigned type of n bits keep the unique value congruent
  // modulo 2^n; conversions to int8_t do the same within [-128, 127].

  function ToU8(x: int): (r: U8)
    ensures (x - r) % TWO_8 == 0
  {
    x % TWO_8
  }

  function ToU16(x: int): (r: U16)
    ensures (x - r) % TWO_16 == 0
  {
    x % TWO_16
  }

  function ToU32(x: int): (r: U32)
    ensures (x - r) % TWO_32 == 0
  {
    x % TWO_32
  }

  function ToU64(x: int): (r: U64)
    ensures (x - r) % TWO_64 == 0
  {
    x % TWO_64
  }

  function ToI8(x: int): (r: I8)
    ensures (x - r) % TWO_8 == 0
  {
    var m := x % TWO_8;
    if m < 0x80 then m else m - TWO_8
  }

  /** Reading one byte back as int8_t. */
  function ByteI8(b: Byte): I8
  {
    if b < 0x80 then b else b - TWO_8
  }

  /** The byte an int8_t occupies in memory (two's complement, the same
      truncation as a conversion to uint8_t) reads back as the value. */
  lemma I8ByteRoundTrip(x: I8)
    ensures ByteI8(ToU8(x)) == x
  {
  }

  /** Truncating a size_t first and an int8_t afterwards is the same as
      truncating to int8_t at once, because 2^64 is a multiple of 2^8. */
  lemma ToI8ThroughU64(x: int)
    ensures ToI8(ToU64(x)) == ToI8(x)
  {
    var q := x / TWO_64;
    assert x == q * TWO_64 + ToU64(x);
    assert q * TWO_64 == (q * 0x1_0000_0000_0000_00) * TWO_8;
    ModMultipleShift(ToU64(x), q * 0x1_0000_0000_0000_00);
  }

  lemma ModMultipleShift(a: int, k: int)
    ensures (a + k * TWO_8) % TWO_8 == a % TWO_8
  {
  }

  /** The n lowest bytes of x, least significant first: what a little-endian
      host stores for an unsigned integer of n bytes. */
  function LE(x: nat, n: nat): (r: seq<Byte>)
    ensures |r| == n
  {
    if n == 0 then [] else [x % TWO_8] + LE(x / TWO_8, n - 1)
  }

  /** The unsigned value of a little-endian byte sequence. */
  function FromLE(bs: seq<Byte>): nat
  {
    if bs == [] then 0 else bs[0] + TWO_8 * FromLE(bs[1..])
  }

  lemma DivDiv(x: nat, a: nat, b: nat)
    requires a > 0 && b > 0
    ensures x / a / b == x / (a * b)
  {
    var q, r := x / (a * b), x % (a * b);
    var s, t := r / a, r % a;
    assert r == s * a + t;
    assert s * a < b * a by {
      assert s * a <= r < a * b;
    }
    MulCancelLt(s, b, a);
    assert x == (q * b + s) * a + t by {
      assert q * (a * b) == (q * b) * a;
    }
    ModOfDecomposition(x, q * b + s, a, t);
    assert x / a == q * b + s;
    ModOfDecomposition(q * b + s, q, b, s);
  }

  lemma MulCancelLt(s: int, b: int, a: int)
    requires a > 0 && s * a < b * a
    ensures s < b
  {
  }

  /** Byte k of LE(x, n) is (x >> 8k) & 0xff. */
  lemma {:induction false} LEAt(x: nat, n: nat, k: nat)
    requires k < n
    ensures LE(x, n)[k] == (x / Pow256(k)) % TWO_8
  {
    if k > 0 {
      LEAt(x / TWO_8, n - 1, k - 1);
      DivDiv(x, TWO_8, Pow256(k - 1));
    }
  }

  /** Extending a little-endian rendering by one more byte appends byte n. */
  lemma {:induction false} LESnoc(x: nat, n: nat)
    ensures LE(x, n + 1) == LE(x, n) + [(x / Pow256(n)) % TWO_8]
  {
    if n > 0 {
      LESnoc(x / TWO_8, n - 1);
      DivDiv(x, TWO_8, Pow256(n - 1));
    }
  }

  /** Reading back n little-endian bytes gives x modulo 256^n. */
  lemma {:induction false} FromLEOfLE(x: nat, n: nat)
    ensures FromLE(LE(x, n)) == x % Pow256(n)
  {
    if n > 0 {
      var bs := LE(x, n);
      assert bs[1..] == LE(x / TWO_8, n - 1);
      FromLEOfLE(x / TWO_8, n - 1);
      var q := x / TWO_8;
      assert x == q * TWO_8 + x % TWO_8;
      ModOfByteStep(x, q, x % TWO_8, Pow256(n - 1));
    }
  }

  /** If x is q followed by one more low byte b, then x modulo 256p is b
      followed by q modulo p. */
  lemma ModOfByteStep(x: int, q: int, b: int, p: int)
    requires p > 0 && 0 <= b < TWO_8 && x == q * TWO_8 + b
    ensures x % (TWO_8 * p) == b + TWO_8 * (q % p)
  {
    var d, r := q / p, q % p;
    assert q == d * p + r;
    assert x == d * (TWO_8 * p) + (b + TWO_8 * r);
    assert b + TWO_8 * r < TWO_8 * p by {
      assert r <= p - 1;
      assert TWO_8 * r <= TWO_8 * (p - 1);
    }
    ModOfDecomposition(x, d, TWO_8 * p, b + TWO_8 * r);
  }

  /** Euclidean division is determined by its quotient/remainder decomposition. */
  lemma ModOfDecomposition(x: int, q: int, m: int, r: int)
    requires m > 0 && 0 <= r < m && x == q * m + r
    ensures x / m == q && x % m == r
  {
    var q', r' := x / m, x % m;
    assert x == q' * m + r';
    assert (q' - q) * m == r - r' < 1 * m;
    assert (q - q') * m == r' - r < 1 * m;
    MulCancelLt(q' - q, 1, m);
    MulCancelLt(q - q', 1, m);
  }

  /** Concatenation regrouped to the right. */
  lemma Regroup<T>(a: seq<T>, b: seq<T>, c: seq<T>)
    ensures a + b + c == a + (b + c)
  {
  }
}
