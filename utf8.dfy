// The UTF-8 codec of main.cpp: `convcode` decodes one scalar at a position,
// `convert` encodes a code point into its 1- to 3-byte form (RFC 3629,
// section 3). Bit operations are written arithmetically: a mask
// `& (2^k - 1)` is `% 2^k`, a shift `<< k` is `* 2^k`, and `|` joins fields
// whose bits do not overlap, so it is `+`.

module Utf8 {
  import opened Base

  /** How many bytes `convcode` moves its pointer for a given lead byte;
      zero for 0x80..0xBF, whose high nibble no `case` matches. */
  function Advance(lead: Byte): (n: nat)
    ensures n == 0 <==> 0x80 <= lead < 0xC0
    ensures n == 1 <==> lead <= 0x7F
    ensures n == 2 <==> lead / 0x10 == 0xC || lead / 0x10 == 0xD
    ensures n == 3 <==> lead / 0x10 == 0xE
    ensures n == 4 <==> lead / 0x10 == 0xF
  {
    if lead <= 0x7F then 1
    else if lead < 0xC0 then 0
    else if lead < 0xE0 then 2
    else if lead < 0xF0 then 3
    else 4
  }

  /** `convcode(ptr, code)` with `ptr` at index p of buffer t: the new value of
      the by-reference `code` and the new pointer index. It reads the lead byte
      and Advance(lead) - 1 further bytes without checking that they are
      continuation bytes; those reads must lie inside the buffer. */
  function ConvCode(t: seq<Byte>, p: nat, code: U32): (r: (U32, nat))
    requires p < |t| && p + Advance(t[p]) <= |t|
    ensures r.1 == p + Advance(t[p])
    ensures t[p] <= 0x7F ==> r.0 == t[p]
    ensures 0x80 <= t[p] < 0xC0 ==> r.0 == code
    ensures 0xC0 <= t[p] < 0xE0 ==> r.0 < 0x800
    ensures 0xE0 <= t[p] < 0xF0 ==> r.0 < 0x1_0000
    ensures 0xF0 <= t[p] ==> r.0 < 0x20_0000
  {
    var c0: int := t[p];
    if c0 <= 0x7F then
      (c0, p + 1)
    else if c0 < 0xC0 then
      (code, p)
    else if c0 < 0xE0 then
      var c1: int := t[p + 1];
      ((c0 % 0x20) * 0x40 + c1 % 0x40, p + 2)
    else if c0 < 0xF0 then
      var c1: int, c2: int := t[p + 1], t[p + 2];
      ((c0 % 0x10) * 0x1000 + (c1 % 0x40) * 0x40 + c2 % 0x40, p + 3)
    else
      var c1: int, c2: int, c3: int := t[p + 1], t[p + 2], t[p + 3];
      ((c0 % 0x8) * 0x4_0000 + (c1 % 0x40) * 0x1000 + (c2 % 0x40) * 0x40 + c3 % 0x40, p + 4)
  }

  /** The contents of `char buff[5]{}` after `convert` has filled it. */
  function Buffer(c: U32): (b: seq<Byte>)
    ensures |b| == 5
  {
    if c <= 0x7F then [c, 0, 0, 0, 0]
    else if c <= 0x7FF then [0xC0 + c / 0x40, 0x80 + c % 0x40, 0, 0, 0]
    else if c <= 0xFFFF then [0xE0 + c / 0x1000, 0x80 + (c / 0x40) % 0x40, 0x80 + c % 0x40, 0, 0]
    else [0, 0, 0, 0, 0]
  }

  /** The std::string built from a NUL-terminated character buffer: the bytes
      before the first NUL. */
  function CString(b: seq<Byte>): (r: seq<Byte>)
    ensures |r| <= |b| && r == b[..|r|]
    ensures forall i :: 0 <= i < |r| ==> r[i] != 0
    ensures |r| < |b| ==> b[|r|] == 0
  {
    if b == [] || b[0] == 0 then [] else [b[0]] + CString(b[1..])
  }

  /** `convert(c)`: the UTF-8 form of c for c <= 0xFFFF, returned as a C string. */
  function Convert(c: U32): (r: seq<Byte>)
  {
    CString(Buffer(c))
  }

  /** The lengths of `convert(c)`: 1, 2 or 3 bytes over the three ranges it
      encodes; empty for 0 (the C string ends at once) and above 0xFFFF. */
  lemma ConvertLength(c: U32)
    ensures 1 <= c <= 0x7F ==> |Convert(c)| == 1
    ensures 0x80 <= c <= 0x7FF ==> |Convert(c)| == 2
    ensures 0x800 <= c <= 0xFFFF ==> |Convert(c)| == 3
    ensures c == 0 || c > 0xFFFF ==> Convert(c) == []
  {
    var b := Buffer(c);
    if c == 0 || c > 0xFFFF {
      assert CString(b) == [];
    } else if c <= 0x7F {
      assert b[1..][0] == 0;
    } else if c <= 0x7FF {
      assert b[1..][1..][0] == 0;
    } else {
      assert b[1..][1..][1..][0] == 0;
    }
  }

  /** `convert(c)` has the bytes of RFC 3629's table: one plain byte, or a lead
      byte 110xxxxx / 1110xxxx followed by 10xxxxxx continuation bytes. */
  lemma ConvertBytes(c: U32)
    requires 1 <= c <= 0xFFFF
    ensures Convert(c) == Buffer(c)[..|Convert(c)|]
    ensures c <= 0x7F ==> Convert(c)[0] == c
    ensures 0x80 <= c <= 0x7FF ==> 0xC0 <= Convert(c)[0] < 0xE0
    ensures 0x800 <= c ==> 0xE0 <= Convert(c)[0] < 0xF0
    ensures forall i :: 1 <= i < |Convert(c)| ==> 0x80 <= Convert(c)[i] < 0xC0
  {
    ConvertLength(c);
  }

  /** The bytes of `convert(c)`, range by range. */
  lemma ConvertIs(c: U32)
    ensures 1 <= c <= 0x7F ==> Convert(c) == [c]
    ensures 0x80 <= c <= 0x7FF ==> Convert(c) == [0xC0 + c / 0x40, 0x80 + c % 0x40]
    ensures 0x800 <= c <= 0xFFFF ==>
              Convert(c) == [0xE0 + c / 0x1000, 0x80 + (c / 0x40) % 0x40, 0x80 + c % 0x40]
  {
    ConvertLength(c);
  }

  lemma DecodeTwo(t: seq<Byte>, p: nat, c: U32, code: U32)
    requires 0x80 <= c <= 0x7FF && p + 2 <= |t|
    requires t[p] == 0xC0 + c / 0x40 && t[p + 1] == 0x80 + c % 0x40
    ensures Advance(t[p]) == 2 && ConvCode(t, p, code) == (c, p + 2)
  {
    assert t[p] % 0x20 == c / 0x40;
    assert t[p + 1] % 0x40 == c % 0x40;
  }

  lemma DecodeThree(t: seq<Byte>, p: nat, c: U32, code: U32)
    requires 0x800 <= c <= 0xFFFF && p + 3 <= |t|
    requires t[p] == 0xE0 + c / 0x1000
    requires t[p + 1] == 0x80 + (c / 0x40) % 0x40 && t[p + 2] == 0x80 + c % 0x40
    ensures Advance(t[p]) == 3 && ConvCode(t, p, code) == (c, p + 3)
  {
    assert t[p] % 0x10 == c / 0x1000;
    assert t[p + 1] % 0x40 == (c / 0x40) % 0x40;
    assert t[p + 2] % 0x40 == c % 0x40;
    assert c / 0x1000 * 0x1000 + (c / 0x40) % 0x40 * 0x40 + c % 0x40 == c;
  }

  /** Decoding what `convert` produced gives the code point back and consumes
      exactly its bytes, wherever it sits in a buffer and whatever follows it. */
  lemma DecodeConvert(pre: seq<Byte>, c: U32, rest: seq<Byte>, code: U32)
    requires 1 <= c <= 0xFFFF
    ensures var t := pre + Convert(c) + rest;
            |pre| < |t| && |pre| + Advance(t[|pre|]) <= |t| &&
            ConvCode(t, |pre|, code) == (c, |pre| + |Convert(c)|)
  {
    ConvertIs(c);
    var e := Convert(c);
    var t := pre + e + rest;
    var p := |pre|;
    assert forall i :: 0 <= i < |e| ==> t[p + i] == e[i];
    if c <= 0x7F {
    } else if c <= 0x7FF {
      DecodeTwo(t, p, c, code);
    } else {
      DecodeThree(t, p, c, code);
    }
  }

  /** Encoding is injective on the range it covers. */
  lemma ConvertInjective(c: U32, d: U32)
    requires 1 <= c <= 0xFFFF && 1 <= d <= 0xFFFF
    requires Convert(c) == Convert(d)
    ensures c == d
  {
    DecodeConvert([], c, [], 0);
    DecodeConvert([], d, [], 0);
    assert [] + Convert(c) + [] == Convert(c);
    assert [] + Convert(d) + [] == Convert(d);
  }
}
