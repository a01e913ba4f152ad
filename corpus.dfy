// The corpus scan of main.cpp (lines 233-240): the wanted-character text is
// walked through `c_str()`, one `convcode` per step, until a NUL lead byte;
// every decoded code point is appended to `useCodeList`, duplicates included.

module Corpus {
  import opened Base
  import Utf8

  /** One step of the scan loop with the pointer at index p of the terminated
      buffer t, codes decoded so far in `codes`. On a continuation byte in lead
      position the loop as written never advances (`convcode` does not move
      the pointer) and appends to `useCodeList` until allocation fails; it
      reads past the terminating NUL when a multi-byte lead
      byte sits too close to it: those two outcomes are failures here. */
  function ScanFrom(t: seq<Byte>, p: nat, codes: seq<U32>): (r: Result<seq<U32>>)
    requires p < |t| && t[|t| - 1] == 0
    decreases |t| - p
  {
    if t[p] == 0 then Ok(codes)
    else if Utf8.Advance(t[p]) == 0 then Err(CorpusStalls)
    else if p + Utf8.Advance(t[p]) > |t| then Err(CorpusOverRead)
    else
      var (code, q) := Utf8.ConvCode(t, p, 0);
      if q >= |t| then Err(CorpusOverRead)
      else ScanFrom(t, q, codes + [code])
  }

  /** The code points `useCodeList` holds once the scan loop has finished. */
  function Scan(text: seq<Byte>): (r: Result<seq<U32>>)
  {
    ScanFrom(text + [0], 0, [])
  }

  lemma {:induction false} ScanFromBounded(t: seq<Byte>, p: nat, codes: seq<U32>)
    requires p < |t| && t[|t| - 1] == 0
    requires forall i :: 0 <= i < |codes| ==> codes[i] < 0x20_0000
    ensures ScanFrom(t, p, codes).Ok? ==>
              var r := ScanFrom(t, p, codes).value;
              codes <= r && forall i :: 0 <= i < |r| ==> r[i] < 0x20_0000
    decreases |t| - p
  {
    if t[p] != 0 && Utf8.Advance(t[p]) != 0 && p + Utf8.Advance(t[p]) <= |t| {
      var (code, q) := Utf8.ConvCode(t, p, 0);
      if q < |t| {
        ScanFromBounded(t, q, codes + [code]);
      }
    }
  }

  /** Every code point the scan yields fits the 21 bits a 4-byte lead leaves,
      so none is mistaken for an unencoded glyph (ENCODING -1). */
  lemma ScanBounded(text: seq<Byte>)
    ensures Scan(text).Ok? ==> forall i :: 0 <= i < |Scan(text).value| ==> Scan(text).value[i] < 0x20_0000
  {
    ScanFromBounded(text + [0], 0, []);
  }

  /** The scan loop as the source writes it, over `c_str()`. */
  method ScanCorpus(text: seq<Byte>) returns (r: Result<seq<U32>>)
    ensures r == Scan(text)
  {
    var t := text + [0];
    var useCodeList: seq<U32> := [];
    var p := 0;
    while t[p] != 0
      invariant p < |t|
      invariant ScanFrom(t, p, useCodeList) == Scan(text)
      decreases |t| - p
    {
      if Utf8.Advance(t[p]) == 0 {
        return Err(CorpusStalls);
      }
      if p + Utf8.Advance(t[p]) > |t| {
        return Err(CorpusOverRead);
      }
      var (code, q) := Utf8.ConvCode(t, p, 0);
      if q >= |t| {
        return Err(CorpusOverRead);
      }
      useCodeList := useCodeList + [code];
      p := q;
    }
    return Ok(useCodeList);
  }

  /** The UTF-8 text of a list of code points, as `convert` writes each one. */
  function EncodeAll(cs: seq<U32>): seq<Byte>
  {
    if cs == [] then [] else Utf8.Convert(cs[0]) + EncodeAll(cs[1..])
  }

  /** One step of the scan over the bytes `convert(c)` wrote. */
  lemma ScanStep(t: seq<Byte>, p: nat, c: U32, rest: seq<Byte>, acc: seq<U32>, q: nat)
    requires 1 <= c <= 0xFFFF && rest != [] && rest[|rest| - 1] == 0
    requires p <= |t| && t[p..] == Utf8.Convert(c) + rest
    requires q == p + |Utf8.Convert(c)|
    ensures p < q < |t| && t[|t| - 1] == 0
    ensures ScanFrom(t, p, acc) == ScanFrom(t, q, acc + [c])
  {
    assert t == t[..p] + Utf8.Convert(c) + rest;
    Utf8.DecodeConvert(t[..p], c, rest, 0);
    Utf8.ConvertLength(c);
    assert t[|t| - 1] == rest[|rest| - 1];
    ScanOneCode(t, p, c, acc, q);
  }

  /** A scan step that decodes c and lands on q before the end. */
  lemma ScanOneCode(t: seq<Byte>, p: nat, c: U32, acc: seq<U32>, q: nat)
    requires p < q < |t| && t[|t| - 1] == 0 && c != 0
    requires p + Utf8.Advance(t[p]) <= |t| && Utf8.ConvCode(t, p, 0) == (c, q)
    ensures ScanFrom(t, p, acc) == ScanFrom(t, q, acc + [c])
  {
  }

  /** Facts about a suffix t[p..] that is known to be a + b. */
  lemma SuffixSplit(t: seq<Byte>, p: nat, a: seq<Byte>, b: seq<Byte>)
    requires p <= |t| && t[p..] == a + b
    ensures p + |a| <= |t| && t[p + |a|..] == b
    ensures b != [] ==> t[|t| - 1] == b[|b| - 1]
    ensures a == [] && b != [] ==> t[p] == b[0]
  {
    assert t[p + |a|..] == t[p..][|a|..];
    if b != [] {
      assert t[|t| - 1] == t[p..][|t| - 1 - p];
    }
  }

  /** The scan stops at once on the NUL that follows the text. */
  lemma ScanAtNul(t: seq<Byte>, p: nat, rest: seq<Byte>, acc: seq<U32>)
    requires rest != [] && rest[0] == 0 && rest[|rest| - 1] == 0
    requires p <= |t| && t[p..] == rest
    ensures p < |t| && t[|t| - 1] == 0
    ensures ScanFrom(t, p, acc) == Ok(acc)
  {
    SuffixSplit(t, p, [], rest);
  }

  /** The text of a non-empty list of code points starts with the bytes of
      the first one. */
  lemma EncodedHead(t: seq<Byte>, p: nat, cs: seq<U32>, rest: seq<Byte>, q: nat)
    requires cs != []
    requires p <= |t| && t[p..] == EncodeAll(cs) + rest
    requires q == p + |Utf8.Convert(cs[0])|
    ensures t[p..] == Utf8.Convert(cs[0]) + (EncodeAll(cs[1..]) + rest)
    ensures q <= |t| && t[q..] == EncodeAll(cs[1..]) + rest
  {
    var e := Utf8.Convert(cs[0]);
    var more := EncodeAll(cs[1..]);
    Regroup(e, more, rest);
    SuffixSplit(t, p, e, more + rest);
  }

  lemma ConsAppend(acc: seq<U32>, cs: seq<U32>)
    requires cs != []
    ensures acc + [cs[0]] + cs[1..] == acc + cs
  {
  }

  /** Scanning text made of `convert` outputs finds exactly those code points,
      in order, and stops at the NUL that follows them. */
  lemma {:induction false} ScanEncoded(t: seq<Byte>, p: nat, cs: seq<U32>, rest: seq<Byte>, acc: seq<U32>)
    requires forall i :: 0 <= i < |cs| ==> 1 <= cs[i] <= 0xFFFF
    requires rest != [] && rest[0] == 0 && rest[|rest| - 1] == 0
    requires p <= |t| && t[p..] == EncodeAll(cs) + rest
    ensures p < |t| && t[|t| - 1] == 0
    ensures ScanFrom(t, p, acc) == Ok(acc + cs)
    decreases |cs|
  {
    if cs == [] {
      ScanAtNul(t, p, rest, acc);
      assert acc + cs == acc;
    } else {
      var q := p + |Utf8.Convert(cs[0])|;
      EncodedHead(t, p, cs, rest, q);
      ScanStep(t, p, cs[0], EncodeAll(cs[1..]) + rest, acc, q);
      ScanEncoded(t, q, cs[1..], rest, acc + [cs[0]]);
      ConsAppend(acc, cs);
    }
  }

  /** The scan of `text`, when the text is `convert` outputs followed by a NUL
      and anything else. */
  lemma ScanOfEncodedPrefix(cs: seq<U32>, rest: seq<Byte>, text: seq<Byte>)
    requires forall i :: 0 <= i < |cs| ==> 1 <= cs[i] <= 0xFFFF
    requires rest != [] && rest[0] == 0 && rest[|rest| - 1] == 0
    requires text + [0] == EncodeAll(cs) + rest
    ensures Scan(text) == Ok(cs)
  {
    var acc: seq<U32> := [];
    ScanEncoded(text + [0], 0, cs, rest, acc);
    assert acc + cs == cs;
  }

  /** Round trip: the corpus scan decodes the UTF-8 text `convert` produces
      for code points 1..0xFFFF back to the same list. */
  lemma ScanOfEncodeAll(cs: seq<U32>)
    requires forall i :: 0 <= i < |cs| ==> 1 <= cs[i] <= 0xFFFF
    ensures Scan(EncodeAll(cs)) == Ok(cs)
  {
    ScanOfEncodedPrefix(cs, [0], EncodeAll(cs));
  }

  /** When the text before the first NUL is `convert` outputs of code points
      1..0xFFFF, the scan stops at that NUL and nothing after it is read. */
  lemma ScanStopsAtNul(cs: seq<U32>, rest: seq<Byte>)
    requires forall i :: 0 <= i < |cs| ==> 1 <= cs[i] <= 0xFFFF
    ensures Scan(EncodeAll(cs) + [0] + rest) == Ok(cs)
  {
    var text := EncodeAll(cs) + [0] + rest;
    var tail := [0] + rest + [0];
    Terminated(EncodeAll(cs), rest, text, tail);
    ScanOfEncodedPrefix(cs, tail, text);
  }

  /** A two-byte lead just before a NUL takes the NUL as its continuation
      byte, so the scan goes on to read what follows it. */
  lemma LeadConsumesNul(b: Byte, c: Byte)
    requires 0xC0 <= b < 0xE0 && 1 <= c <= 0x7F
    ensures Scan([b, 0, c]) == Ok([(b - 0xC0) * 64, c])
  {
    var t: seq<Byte> := [b, 0, c, 0];
    assert [b, 0, c] + [0] == t;
    assert b % 0x20 == b - 0xC0;
    assert Utf8.ConvCode(t, 0, 0) == ((b - 0xC0) * 64, 2);
    assert Utf8.ConvCode(t, 2, 0) == (c, 3);
    var codes := [(b - 0xC0) * 64, c];
    assert ScanFrom(t, 3, codes) == Ok(codes);
    assert t[2] == c && Utf8.Advance(c) == 1;
    assert [(b - 0xC0) * 64] + [c] == codes;
    assert ScanFrom(t, 2, [(b - 0xC0) * 64]) == ScanFrom(t, 3, codes);
    assert Utf8.Advance(b) == 2 && [] + [(b - 0xC0) * 64] == [(b - 0xC0) * 64];
    assert ScanFrom(t, 0, []) == ScanFrom(t, 2, [(b - 0xC0) * 64]);
  }

  lemma Terminated(a: seq<Byte>, rest: seq<Byte>, text: seq<Byte>, tail: seq<Byte>)
    requires text == a + [0] + rest && tail == [0] + rest + [0]
    ensures text + [0] == a + tail && tail[0] == 0 && tail[|tail| - 1] == 0
  {
  }

  lemma {:induction false} StallAfterAscii(t: seq<Byte>, i: nat, p: nat, codes: seq<U32>)
    requires i <= p < |t| && t[|t| - 1] == 0 && 0x80 <= t[p] < 0xC0
    requires forall j :: i <= j < p ==> 1 <= t[j] <= 0x7F
    requires forall j :: 0 <= j < |codes| ==> codes[j] < 0x20_0000
    ensures ScanFrom(t, i, codes) == Err(CorpusStalls)
    decreases p - i
  {
    if i < p {
      StallAfterAscii(t, i + 1, p, codes + [t[i]]);
    }
  }

  /** A continuation byte in lead position, reached after plain ASCII text,
      leaves the pointer where it is: the source's scan never advances again
      and appends to `useCodeList` until allocation fails. */
  lemma ContinuationStalls(text: seq<Byte>, p: nat)
    requires p < |text| && 0x80 <= text[p] < 0xC0
    requires forall i :: 0 <= i < p ==> 1 <= text[i] <= 0x7F
    ensures Scan(text) == Err(CorpusStalls)
  {
    StallAfterAscii(text + [0], 0, p, []);
  }
}
