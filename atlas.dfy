// The atlas file main.cpp writes once the glyphs are sorted (lines 345-387):
// an 8-byte `header` (lines 20-26), one 12-byte `hint` record per glyph
// (lines 29-39, 352-368) and then each glyph's bitmap rows, packed into the
// scratch `bitmapBuffer` and written out (lines 369-387). The structs are
// written as raw memory; the layout here is the one of a little-endian host
// with natural alignment, where neither struct has padding.

module Atlas {
  import opened Base
  import Bdf

  type Glyph = Bdf.Glyph

  /** "FONT" read as a little-endian uint32_t. */
  const MAGIC: U32 := 0x544E4F46
  // sizeof(header) is 8 and sizeof(hint) is 12; they appear as literals in
  // the offset arithmetic below.

  /** The header: magic, the glyph count as uint16_t, the pixel size as
      uint8_t and a zero reserve byte. */
  function HeaderBytes(n: nat, fontSize: U64): (r: seq<Byte>)
    ensures |r| == 8
  {
    LE(MAGIC, 4) + LE(ToU16(n), 2) + [ToU8(fontSize), 0]
  }

  /** `struct hint`. */
  datatype Hint = Hint(
    dataOffset: U32,
    code: U16,
    width: U8,
    height: U8,
    pitch: U8,
    offsetX: I8,
    offsetY: I8,
    byteStep: U8)

  /** The record filled from glyph g whose bitmap starts at byte `offset`:
      the size_t offset, the uint32_t code and the size_t byteStep are
      narrowed to the record's field types. */
  function HintOf(g: Glyph, offset: nat): Hint
  {
    Hint(ToU32(offset), ToU16(g.code), g.width, g.height, g.pitch, g.offsetX, g.offsetY, ToU8(g.byteStep))
  }

  /** The 12 bytes of a record in memory order. */
  function HintBytes(h: Hint): (r: seq<Byte>)
    ensures |r| == 12
  {
    LE(h.dataOffset, 4) + LE(h.code, 2)
    + [h.width, h.height, h.pitch, ToU8(h.offsetX), ToU8(h.offsetY), h.byteStep]
  }

  /** The bytes of one record read back as the struct a reader of the atlas
      would see (the reductions only restate that four and two bytes hold
      values below 2^32 and 2^16). */
  function ParseHint(bs: seq<Byte>): Hint
    requires |bs| == 12
  {
    Hint(FromLE(bs[0..4]) % 0x1_0000_0000, FromLE(bs[4..6]) % 0x1_0000, bs[6], bs[7], bs[8],
         ByteI8(bs[9]), ByteI8(bs[10]), bs[11])
  }

  /** Reading a record back gives every field as stored. */
  lemma HintRoundTrip(h: Hint)
    ensures ParseHint(HintBytes(h)) == h
  {
    var bs := HintBytes(h);
    assert bs[0..4] == LE(h.dataOffset, 4);
    assert bs[4..6] == LE(h.code, 2);
    ReadBack(h.dataOffset, 4, 0x1_0000_0000);
    ReadBack(h.code, 2, 0x1_0000);
    I8ByteRoundTrip(h.offsetX);
    I8ByteRoundTrip(h.offsetY);
  }

  /** An n-byte field below 256^n reads back as itself. */
  lemma ReadBack(x: nat, n: nat, bound: nat)
    requires bound == Pow256(n) && x < bound
    ensures FromLE(LE(x, n)) % bound == x
  {
    FromLEOfLE(x, n);
    ModSmall(x, bound);
  }

  lemma ModSmall(x: nat, m: nat)
    requires x < m
    ensures x % m == x
  {
  }

  // ---- Offsets ----

  /** The bytes glyph g contributes: `f.byteStep * f.height`. */
  function DataSize(g: Glyph): nat
  {
    g.byteStep * g.height
  }

  /** The bitmap bytes of all glyphs in gs. */
  function TotalData(gs: seq<Glyph>): nat
  {
    if gs == [] then 0 else DataSize(gs[0]) + TotalData(gs[1..])
  }

  /** Where the bitmap data begins: after the 8-byte header and n records. */
  function IndexEnd(n: nat): nat
  {
    8 + 12 * n
  }

  /** The records of gs, the first glyph's data starting at byte `offset`
      and each later one right after its predecessor's. */
  function IndexFrom(gs: seq<Glyph>, offset: nat): (r: seq<Byte>)
    ensures |r| == 12 * |gs|
  {
    if gs == [] then []
    else HintBytes(HintOf(gs[0], offset)) + IndexFrom(gs[1..], offset + DataSize(gs[0]))
  }

  /** The data before glyph i is that of glyph 0 and then of the glyphs
      before i in the rest. */
  lemma TotalDataPrefix(gs: seq<Glyph>, i: nat)
    requires 0 < i <= |gs|
    ensures TotalData(gs[..i]) == DataSize(gs[0]) + TotalData(gs[1..][..i - 1])
  {
    assert gs[..i][1..] == gs[1..][..i - 1];
  }

  /** Record i sits at byte 12i of the records and describes glyph i, whose
      data starts after the data of the glyphs before it. */
  lemma {:induction false} IndexAt(gs: seq<Glyph>, offset: nat, i: nat)
    requires i < |gs|
    ensures IndexFrom(gs, offset)[12 * i..12 * i + 12] == HintBytes(HintOf(gs[i], offset + TotalData(gs[..i])))
    decreases i
  {
    var head := HintBytes(HintOf(gs[0], offset));
    var rest := IndexFrom(gs[1..], offset + DataSize(gs[0]));
    if i == 0 {
      assert gs[..0] == [];
      SliceShift(head, rest, 0, 0);
    } else {
      IndexAt(gs[1..], offset + DataSize(gs[0]), i - 1);
      TotalDataPrefix(gs, i);
      SliceShift(head, rest, 12 * (i - 1), 12);
    }
  }

  // ---- Bitmap packing ----

  /** Rows 0..rows-1 of a bitmap, each as its `step` low bytes, least
      significant first: the inner loop takes `line & 0xff` and shifts
      `line` right by 8, so once the 64 bits are used up it writes zeros. */
  function PackedRows(bitmap: seq<U64>, rows: nat, step: nat): (r: seq<Byte>)
    requires rows <= |bitmap|
  {
    if rows == 0 then [] else PackedRows(bitmap, rows - 1, step) + LE(bitmap[rows - 1], step)
  }

  lemma {:induction false} PackedLength(bitmap: seq<U64>, rows: nat, step: nat)
    requires rows <= |bitmap|
    ensures |PackedRows(bitmap, rows, step)| == step * rows
    decreases rows
  {
    if rows > 0 {
      PackedLength(bitmap, rows - 1, step);
      assert step * rows == step * (rows - 1) + step;
    }
  }

  /** Byte k of row r of the packed rows is `(bitmap[r] >> 8k) & 0xff`. */
  lemma PackedAt(bitmap: seq<U64>, rows: nat, step: nat, r: nat, k: nat)
    requires rows <= |bitmap| && r < rows && k < step
    ensures r * step + k < |PackedRows(bitmap, rows, step)| == step * rows
    ensures PackedRows(bitmap, rows, step)[r * step + k] == (bitmap[r] / Pow256(k)) % TWO_8
  {
    var pre := PackedRows(bitmap, r, step);
    PackedRowAt(bitmap, rows, step, r, k, pre);
    LEAt(bitmap[r], step, k);
    PackedLength(bitmap, r, step);
    PackedLength(bitmap, rows, step);
  }

  lemma PackedRowAt(bitmap: seq<U64>, rows: nat, step: nat, r: nat, k: nat, pre: seq<Byte>)
    requires rows <= |bitmap| && r < rows && k < step && pre == PackedRows(bitmap, r, step)
    ensures |pre| + k < |PackedRows(bitmap, rows, step)|
    ensures PackedRows(bitmap, rows, step)[|pre| + k] == LE(bitmap[r], step)[k]
  {
    var full, row := PackedRows(bitmap, rows, step), LE(bitmap[r], step);
    PackedPrefix(bitmap, rows, step, r + 1);
    assert PackedRows(bitmap, r + 1, step) == pre + row;
    var j := |pre| + k;
    assert j < |pre + row| <= |full|;
    assert full[j] == (pre + row)[j] == row[k];
  }

  /** The packed rows of a glyph begin with the packed rows of any fewer rows. */
  lemma {:induction false} PackedPrefix(bitmap: seq<U64>, rows: nat, step: nat, r: nat)
    requires r <= rows <= |bitmap|
    ensures PackedRows(bitmap, r, step) <= PackedRows(bitmap, rows, step)
    decreases rows
  {
    if r < rows {
      PackedPrefix(bitmap, rows - 1, step, r);
    }
  }

  /** The size of `bitmapBuffer`: `((fontSize + 7) >> 3) * fontSize` in
      size_t arithmetic. */
  function ScratchSize(fontSize: U64): U64
  {
    ToU64(ToU64(fontSize + 7) / 8 * fontSize)
  }

  /** Packing g reads `bitmap[0..height)` and writes `byteStep * height`
      bytes into the scratch buffer; outside those bounds the source has
      undefined behaviour. */
  predicate Fits(g: Glyph, fontSize: U64)
  {
    g.height <= |g.bitmap| && DataSize(g) <= ScratchSize(fontSize)
  }

  /** The bytes glyph g contributes to the file. */
  function GlyphData(g: Glyph): (r: seq<Byte>)
    requires g.height <= |g.bitmap|
    ensures |r| == DataSize(g)
  {
    PackedLength(g.bitmap, g.height, g.byteStep);
    PackedRows(g.bitmap, g.height, g.byteStep)
  }

  /** Glyphs no larger than the pixel size in either direction fit the
      scratch buffer, when the pixel size is one `int` can hold. */
  lemma FitsWithinPixelSize(g: Glyph, fontSize: U64)
    requires 0 <= fontSize <= INT_MAX && |g.bitmap| == fontSize
    requires g.width <= fontSize && g.height <= fontSize && g.byteStep == (g.width + 7) / 8
    ensures Fits(g, fontSize)
  {
    var s := (fontSize + 7) / 8;
    assert g.byteStep <= s;
    MulMono(g.byteStep, s, g.height, fontSize);
    assert s * fontSize <= 0x1000_0000 * 0x8000_0000 by {
      MulMono(s, 0x1000_0000, fontSize, 0x8000_0000);
    }
    assert ToU64(fontSize + 7) == fontSize + 7;
  }

  lemma MulMono(a: nat, b: nat, c: nat, d: nat)
    requires a <= b && c <= d
    ensures a * c <= b * d
  {
    assert a * c <= b * c;
    assert b * c <= b * d;
  }

  /** The bitmap data of all glyphs, in order; the first glyph that does
      not fit is undefined behaviour of the packing loop. */
  function DataFrom(gs: seq<Glyph>, fontSize: U64): (r: Result<seq<Byte>>)
  {
    if gs == [] then Ok([])
    else if !Fits(gs[0], fontSize) then Err(GlyphTooLarge)
    else
      var rest :- DataFrom(gs[1..], fontSize);
      Ok(GlyphData(gs[0]) + rest)
  }

  predicate AllFit(gs: seq<Glyph>, fontSize: U64)
  {
    forall i :: 0 <= i < |gs| ==> Fits(gs[i], fontSize)
  }

  /** The file: header, records, then data. */
  function Serialize(gs: seq<Glyph>, fontSize: U64): (r: Result<seq<Byte>>)
  {
    var data :- DataFrom(gs, fontSize);
    Ok(HeaderBytes(|gs|, fontSize) + IndexFrom(gs, IndexEnd(|gs|)) + data)
  }

  /** The data can be written exactly when every glyph fits, and then it
      has the size the offsets account for. */
  lemma {:induction false} DataFromOk(gs: seq<Glyph>, fontSize: U64)
    ensures DataFrom(gs, fontSize).Ok? <==> AllFit(gs, fontSize)
    ensures DataFrom(gs, fontSize).Ok? ==> |DataFrom(gs, fontSize).value| == TotalData(gs)
    decreases |gs|
  {
    if gs != [] {
      DataFromOk(gs[1..], fontSize);
      if AllFit(gs, fontSize) {
        assert Fits(gs[0], fontSize);
        assert AllFit(gs[1..], fontSize) by {
          forall i | 0 <= i < |gs| - 1
            ensures Fits(gs[1..][i], fontSize)
          {
            assert gs[1..][i] == gs[i + 1];
          }
        }
      } else if Fits(gs[0], fontSize) {
        var i :| 0 <= i < |gs| && !Fits(gs[i], fontSize);
        assert gs[1..][i - 1] == gs[i];
      }
    }
  }

  /** Glyph i's bytes sit right after the bytes of the glyphs before it. */
  lemma {:induction false} DataAt(gs: seq<Glyph>, fontSize: U64, i: nat)
    requires i < |gs| && DataFrom(gs, fontSize).Ok?
    ensures gs[i].height <= |gs[i].bitmap|
    ensures TotalData(gs[..i]) + DataSize(gs[i]) <= |DataFrom(gs, fontSize).value|
    ensures DataFrom(gs, fontSize).value[TotalData(gs[..i])..TotalData(gs[..i]) + DataSize(gs[i])]
            == GlyphData(gs[i])
    decreases i
  {
    DataFromUnfold(gs, fontSize);
    var head, rest := GlyphData(gs[0]), DataFrom(gs[1..], fontSize).value;
    if i == 0 {
      assert gs[..0] == [];
      SliceShift(head, rest, 0, 0);
    } else {
      DataAt(gs[1..], fontSize, i - 1);
      TotalDataPrefix(gs, i);
      SliceShift(head, rest, TotalData(gs[1..][..i - 1]), DataSize(gs[i]));
    }
  }

  lemma DataFromUnfold(gs: seq<Glyph>, fontSize: U64)
    requires gs != [] && DataFrom(gs, fontSize).Ok?
    ensures Fits(gs[0], fontSize) && DataFrom(gs[1..], fontSize).Ok?
    ensures DataFrom(gs, fontSize).value == GlyphData(gs[0]) + DataFrom(gs[1..], fontSize).value
  {
  }

  /** A slice of `rest` is the same slice of `head + rest`, shifted by |head|;
      with s and d zero, the front of `head + rest` is `head`. */
  lemma SliceShift(head: seq<Byte>, rest: seq<Byte>, s: nat, d: nat)
    requires s + d <= |rest|
    ensures (head + rest)[|head| + s..|head| + s + d] == rest[s..s + d]
    ensures (head + rest)[..|head|] == head
  {
  }

  // ---- What the file holds ----

  /** The file is the header, one record per glyph, and the data; it is
      written exactly when every glyph fits. */
  lemma AtlasLength(gs: seq<Glyph>, fontSize: U64)
    ensures Serialize(gs, fontSize).Ok? <==> AllFit(gs, fontSize)
    ensures Serialize(gs, fontSize).Ok? ==>
              |Serialize(gs, fontSize).value| == IndexEnd(|gs|) + TotalData(gs)
  {
    DataFromOk(gs, fontSize);
  }

  /** The header carries the magic, the number of glyphs (as uint16_t) and
      the pixel size (as uint8_t). */
  lemma AtlasHeader(gs: seq<Glyph>, fontSize: U64)
    requires Serialize(gs, fontSize).Ok?
    ensures var out := Serialize(gs, fontSize).value;
            |out| >= 8 &&
            FromLE(out[0..4]) == MAGIC && FromLE(out[4..6]) == |gs| % TWO_16 &&
            out[6] == fontSize % TWO_8 && out[7] == 0
  {
    var out := Serialize(gs, fontSize).value;
    var h := HeaderBytes(|gs|, fontSize);
    HeaderFields(|gs|, fontSize);
    assert out[..8] == h;
    assert out[0..4] == h[0..4] && out[4..6] == h[4..6];
  }

  lemma HeaderFields(n: nat, fontSize: U64)
    ensures var h := HeaderBytes(n, fontSize);
            FromLE(h[0..4]) == MAGIC && FromLE(h[4..6]) == n % TWO_16 &&
            h[6] == fontSize % TWO_8 && h[7] == 0
  {
    var h := HeaderBytes(n, fontSize);
    assert h[0..4] == LE(MAGIC, 4);
    assert h[4..6] == LE(ToU16(n), 2);
    FromLEOfLE(MAGIC, 4);
    FromLEOfLE(ToU16(n), 2);
    assert Pow256(4) == TWO_32 && Pow256(2) == TWO_16;
  }

  /** Record i describes glyph i and points (modulo 2^32) at the byte
      8 + 12n + the data sizes of glyphs 0..i-1. */
  lemma AtlasRecord(gs: seq<Glyph>, fontSize: U64, i: nat)
    requires Serialize(gs, fontSize).Ok? && i < |gs|
    ensures var out := Serialize(gs, fontSize).value;
            var h := HintOf(gs[i], IndexEnd(|gs|) + TotalData(gs[..i]));
            8 + 12 * i + 12 <= |out| &&
            out[8 + 12 * i..8 + 12 * i + 12] == HintBytes(h) &&
            ParseHint(out[8 + 12 * i..8 + 12 * i + 12]) == h
  {
    var n := |gs|;
    var out := Serialize(gs, fontSize).value;
    var h, idx, data := HeaderBytes(n, fontSize), IndexFrom(gs, IndexEnd(n)), DataFrom(gs, fontSize).value;
    assert out == h + idx + data;
    var hint := HintOf(gs[i], IndexEnd(n) + TotalData(gs[..i]));
    IndexAt(gs, IndexEnd(n), i);
    MiddleSlice(h, idx, data, 12 * i, 12);
    var rec := out[8 + 12 * i..8 + 12 * i + 12];
    assert rec == HintBytes(hint);
    HintRoundTrip(hint);
  }

  lemma MiddleSlice(x: seq<Byte>, y: seq<Byte>, z: seq<Byte>, s: nat, d: nat)
    requires s + d <= |y|
    ensures (x + y + z)[|x| + s..|x| + s + d] == y[s..s + d]
  {
    assert (x + y + z)[|x| + s..|x| + s + d] == (x + y)[|x| + s..|x| + s + d];
  }

  /** At the offset record i gives, the file holds glyph i's packed rows. */
  lemma AtlasGlyph(gs: seq<Glyph>, fontSize: U64, i: nat)
    requires Serialize(gs, fontSize).Ok? && i < |gs|
    ensures gs[i].height <= |gs[i].bitmap|
    ensures var out := Serialize(gs, fontSize).value;
            var at := IndexEnd(|gs|) + TotalData(gs[..i]);
            at + DataSize(gs[i]) <= |out| && out[at..at + DataSize(gs[i])] == GlyphData(gs[i])
  {
    var n := |gs|;
    var front := HeaderBytes(n, fontSize) + IndexFrom(gs, IndexEnd(n));
    DataAt(gs, fontSize, i);
    SliceShift(front, DataFrom(gs, fontSize).value, TotalData(gs[..i]), DataSize(gs[i]));
  }

  // ---- The writing loops ----

  /** The packing loop for one glyph: row after row, `byteStep` bytes per row
      through the pointer `b`, into the front of the scratch buffer. */
  method PackGlyph(buf: array<Byte>, g: Glyph)
    requires g.height <= |g.bitmap| && DataSize(g) <= buf.Length
    modifies buf
    ensures buf[..DataSize(g)] == GlyphData(g)
    ensures buf[DataSize(g)..] == old(buf[DataSize(g)..])
  {
    var step: nat, size := g.byteStep, DataSize(g);
    var b: nat := 0;
    var height := 0;
    while height < g.height
      invariant height <= g.height && b == height * step <= size
      invariant buf[..b] == PackedRows(g.bitmap, height, step)
      invariant buf[size..] == old(buf[size..])
    {
      RowEnd(height, g.height, step, size);
      PackedLength(g.bitmap, height, step);
      ghost var done := buf[..b];
      PackRow(buf, b, g.bitmap[height], step);
      assert buf[..b + step] == done + LE(g.bitmap[height], step) by {
        assert buf[..b + step] == buf[..b] + buf[b..b + step];
      }
      b, height := b + step, height + 1;
    }
  }

  /** The inner loop: the `step` low bytes of one row through the pointer,
      least significant first, starting at index `at`. */
  method PackRow(buf: array<Byte>, at: nat, x: U64, step: nat)
    requires at + step <= buf.Length
    modifies buf
    ensures buf[at..at + step] == LE(x, step)
    ensures buf[..at] == old(buf[..at]) && buf[at + step..] == old(buf[at + step..])
  {
    var b, line := at, x;
    for width := 0 to step
      invariant b == at + width
      invariant buf[at..b] == LE(x, width)
      invariant line == x / Pow256(width)
      invariant buf[..at] == old(buf[..at]) && buf[at + step..] == old(buf[at + step..])
    {
      buf[b] := line % TWO_8;
      LESnoc(x, width);
      DivDiv(x, Pow256(width), TWO_8);
      b, line := b + 1, line / TWO_8;
    }
  }

  lemma RowEnd(r: nat, rows: nat, step: nat, size: nat)
    requires r < rows && size == step * rows
    ensures r * step + step <= size && (r + 1) * step == r * step + step
  {
    assert (r + 1) * step == r * step + step;
    assert (r + 1) * step <= rows * step;
  }

  /** The index loop: one record per glyph, `dataOffset` advancing by each
      glyph's data size; the final `dataOffset` is the end of the file. */
  method WriteIndex(gs: seq<Glyph>, start: nat) returns (out: seq<Byte>, dataOffset: nat)
    ensures out == IndexFrom(gs, start)
    ensures dataOffset == start + TotalData(gs)
  {
    out, dataOffset := [], start;
    for i := 0 to |gs|
      invariant out + IndexFrom(gs[i..], dataOffset) == IndexFrom(gs, start)
      invariant dataOffset + TotalData(gs[i..]) == start + TotalData(gs)
    {
      IndexStep(gs, i, dataOffset);
      out := out + HintBytes(HintOf(gs[i], dataOffset));
      dataOffset := dataOffset + DataSize(gs[i]);
    }
    assert gs[|gs|..] == [];
  }

  lemma IndexStep(gs: seq<Glyph>, i: nat, offset: nat)
    requires i < |gs|
    ensures IndexFrom(gs[i..], offset)
            == HintBytes(HintOf(gs[i], offset)) + IndexFrom(gs[i + 1..], offset + DataSize(gs[i]))
    ensures TotalData(gs[i..]) == DataSize(gs[i]) + TotalData(gs[i + 1..])
  {
    assert gs[i..][1..] == gs[i + 1..];
  }

  /** r with `out` written before its bytes. */
  function After(out: seq<Byte>, r: Result<seq<Byte>>): Result<seq<Byte>>
  {
    if r.Ok? then Ok(out + r.value) else r
  }

  lemma AfterNothing(r: Result<seq<Byte>>)
    ensures After([], r) == r
  {
    if r.Ok? {
      assert [] + r.value == r.value;
    }
  }

  /** The packing loop over all glyphs: each glyph packed into the scratch
      buffer and its `byteStep * height` bytes written. */
  method WriteData(gs: seq<Glyph>, fontSize: U64) returns (r: Result<seq<Byte>>)
    ensures r == DataFrom(gs, fontSize)
  {
    var out: seq<Byte> := [];
    var buffer := new Byte[ScratchSize(fontSize)];
    assert gs[0..] == gs;
    AfterNothing(DataFrom(gs, fontSize));
    for i := 0 to |gs|
      invariant After(out, DataFrom(gs[i..], fontSize)) == DataFrom(gs, fontSize)
    {
      DataStep(gs, i, fontSize, out);
      if !Fits(gs[i], fontSize) {
        return Err(GlyphTooLarge);
      }
      PackGlyph(buffer, gs[i]);
      out := out + buffer[..DataSize(gs[i])];
    }
    assert gs[|gs|..] == [] && out + [] == out;
    return Ok(out);
  }

  lemma DataStep(gs: seq<Glyph>, i: nat, fontSize: U64, out: seq<Byte>)
    requires i < |gs|
    ensures !Fits(gs[i], fontSize) ==> After(out, DataFrom(gs[i..], fontSize)) == Err(GlyphTooLarge)
    ensures Fits(gs[i], fontSize) ==>
              After(out, DataFrom(gs[i..], fontSize))
              == After(out + GlyphData(gs[i]), DataFrom(gs[i + 1..], fontSize))
  {
    assert gs[i..][1..] == gs[i + 1..];
    if Fits(gs[i], fontSize) {
      var r := DataFrom(gs[i + 1..], fontSize);
      if r.Ok? {
        assert out + (GlyphData(gs[i]) + r.value) == out + GlyphData(gs[i]) + r.value;
      }
    }
  }

  /** main's output: the header, the index loop, then the packing loop. */
  method WriteAtlas(gs: seq<Glyph>, fontSize: U64) returns (r: Result<seq<Byte>>, dataOffset: nat)
    ensures r == Serialize(gs, fontSize)
    ensures r.Ok? ==> dataOffset == |r.value|
  {
    var header := HeaderBytes(|gs|, fontSize);
    var index;
    index, dataOffset := WriteIndex(gs, IndexEnd(|gs|));
    var data := WriteData(gs, fontSize);
    if data.Err? {
      return Err(data.failure), dataOffset;
    }
    DataFromOk(gs, fontSize);
    return Ok(header + index + data.value), dataOffset;
  }
}
