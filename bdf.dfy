// The BDF reader inside main.cpp's `main`: the properties loop (lines
// 249-267), the CHARS line (268-277) and the glyph loop (286-340). The text is
// consumed one newline-terminated line at a time through `cut`; each line is
// classified by `cmp` against the keywords in the order the source tests them.

module Bdf {
  import opened Base
  import opened Text
  import opened Numbers
  import Utf8

  const PIXEL_SIZE: seq<Byte> := Ascii("PIXEL_SIZE ")
  const CHARSET_REGISTRY: seq<Byte> := Ascii("CHARSET_REGISTRY ")
  const FONT_ASCENT: seq<Byte> := Ascii("FONT_ASCENT ")
  const ENDPROPERTIES: seq<Byte> := Ascii("ENDPROPERTIES")
  const CHARS: seq<Byte> := Ascii("CHARS ")
  const STARTCHAR: seq<Byte> := Ascii("STARTCHAR ")
  const ENCODING: seq<Byte> := Ascii("ENCODING ")
  const BITMAP: seq<Byte> := Ascii("BITMAP")
  const ENDCHAR: seq<Byte> := Ascii("ENDCHAR")
  const BBX: seq<Byte> := Ascii("BBX ")
  const DWIDTH: seq<Byte> := Ascii("DWIDTH ")

  /** `std::stoi`, with its exception as a failure. */
  function ParseInt(s: seq<Byte>): (r: Result<int>)
    ensures r.Ok? ==> INT_MIN <= r.value <= INT_MAX
  {
    match StoI(s)
    case None => Err(NumericParse)
    case Some(v) => Ok(v)
  }

  /** `std::stoull(s, nullptr, 16)`, with its exception as a failure. */
  function ParseHex(s: seq<Byte>): (r: Result<U64>)
  {
    match StoULL16(s)
    case None => Err(NumericParse)
    case Some(v) => Ok(v)
  }

  // ---- Properties ----

  /** The two properties the conversion keeps: `fontSize` and `ascentSize`,
      both `size_t`. */
  datatype Props = Props(fontSize: U64, ascent: U64)

  const DEFAULT_PROPS := Props(16, 0)

  /** What one line inside the properties block does, tested in the source's
      order: the updated properties, or `None` on the ENDPROPERTIES line that
      ends the block. */
  function PropLine(line: seq<Byte>, p: Props): (r: Result<Option<Props>>)
  {
    if HasPrefix(line, PIXEL_SIZE) then
      var v :- ParseInt(line[|PIXEL_SIZE|..]);
      Ok(Some(p.(fontSize := ToU64(v))))
    else if HasPrefix(line, CHARSET_REGISTRY) then
      Ok(Some(p))
    else if HasPrefix(line, FONT_ASCENT) then
      var v :- ParseInt(line[|FONT_ASCENT|..]);
      Ok(Some(p.(ascent := ToU64(v))))
    else if HasPrefix(line, ENDPROPERTIES) then
      Ok(None)
    else
      Ok(Some(p))
  }

  /** The properties loop from byte `pos` on: the properties read and the
      position just after the ENDPROPERTIES line. Running out of complete lines
      first is the "invalid format!" exit. */
  function ReadPropsFrom(buf: seq<Byte>, pos: nat, p: Props): (r: Result<(Props, nat)>)
    decreases |buf| + 1 - pos, 0
  {
    match Cut(buf, pos)
    case (None, _) => Err(Truncated)
    case (Some(_), line) => PropsThen(buf, pos + |line| + 1, p, PropLine(line, p))
  }

  /** The properties loop after a line that did `step`, with the next line
      starting at `next`. */
  function PropsThen(buf: seq<Byte>, next: nat, p: Props, step: Result<Option<Props>>): (r: Result<(Props, nat)>)
    requires next <= |buf|
    decreases |buf| + 1 - next, 1
  {
    match step
    case Err(f) => Err(f)
    case Ok(None) => Ok((p, next))
    case Ok(Some(p')) => ReadPropsFrom(buf, next, p')
  }

  /** The line after the properties: `count` and the position after it. The
      position moves past the line even when `cut` found none. */
  function ReadCountAt(buf: seq<Byte>, pos: nat): (r: Result<(U64, nat)>)
  {
    var (p, line) := Cut(buf, pos);
    var next := pos + |line| + 1;
    if p.Some? && HasPrefix(line, CHARS) then
      var v :- ParseInt(line[|CHARS|..]);
      Ok((ToU64(v), next))
    else
      Ok((0, next))
  }

  /** The CHARS line: the position always moves past the line `cut` gave
      (one byte even when it found none); `count` is the parsed value
      truncated to size_t on a complete CHARS line, and stays 0 otherwise. */
  lemma CharCountLine(buf: seq<Byte>, pos: nat)
    ensures var (q, line) := Cut(buf, pos);
            var next := pos + |line| + 1;
            var r := ReadCountAt(buf, pos);
            (r.Ok? ==> r.value.1 == next) &&
            (!(q.Some? && HasPrefix(line, CHARS)) ==> r == Ok((0, next))) &&
            (q.Some? && HasPrefix(line, CHARS) && StoI(line[|CHARS|..]).Some? ==>
               r == Ok((ToU64(StoI(line[|CHARS|..]).value), next))) &&
            (q.Some? && HasPrefix(line, CHARS) && StoI(line[|CHARS|..]).None? ==> r == Err(NumericParse))
  {
  }

  // ---- Glyphs ----

  /** `struct font` without its `dataOffset`, which nothing reads. */
  datatype Glyph = Glyph(
    code: U32,
    utf8: seq<Byte>,
    bitmap: seq<U64>,
    width: U8,
    height: U8,
    pitch: U8,
    offsetX: I8,
    offsetY: I8,
    byteStep: U64)

  /** `font current;` followed by `current.bitmap.resize(fontSize)`. */
  function InitialGlyph(fontSize: nat): (g: Glyph)
    ensures |g.bitmap| == fontSize && forall i :: 0 <= i < fontSize ==> g.bitmap[i] == 0
  {
    Glyph(0, [], seq(fontSize, _ => 0), 0, 0, 0, 0, 0, 0)
  }

  /** The glyph loop's state: the reused `current` record, the row cursor
      `onBitmap` (-1 outside a BITMAP block) and the kept glyphs. */
  datatype Reader = Reader(current: Glyph, onBitmap: int, fontList: seq<Glyph>)

  function InitialReader(fontSize: nat): Reader
  {
    Reader(InitialGlyph(fontSize), -1, [])
  }

  /** A BBX line's fields `l` (width, height, x offset, y offset) applied to
      `current`. Each field is parsed before the next one is indexed, so a
      parse failure in an earlier field wins over a missing later one. */
  function ApplyBbx(l: seq<seq<Byte>>, g: Glyph, ascentSize: U64): (r: Result<Glyph>)
    requires |l| >= 1
    ensures r.Ok? ==> r.value.byteStep == (r.value.width + 7) / 8
    ensures r.Ok? ==> r.value.bitmap == g.bitmap && r.value.code == g.code && r.value.pitch == g.pitch
  {
    var w :- ParseInt(l[0]);
    if |l| < 2 then Err(BbxTooShort) else
    var h :- ParseInt(l[1]);
    if |l| < 3 then Err(BbxTooShort) else
    var x :- ParseInt(l[2]);
    if |l| < 4 then Err(BbxTooShort) else
    var a :- ParseInt(l[3]);
    var width, height := ToU8(w), ToU8(h);
    if height + a > INT_MAX then Err(IntOverflow)
    else
      Ok(g.(width := width, height := height, offsetX := ToI8(x),
            offsetY := ToI8(ToU64(ascentSize - (height + a))),
            byteStep := (width + 7) / 8))
  }

  /** A DWIDTH line's fields: the pitch is the first one. */
  function ApplyDwidth(l: seq<seq<Byte>>, g: Glyph): (r: Result<Glyph>)
    requires |l| >= 1
    ensures r.Ok? <==> StoI(l[0]).Some?
    ensures r.Ok? ==> r.value == g.(pitch := ToU8(StoI(l[0]).value))
    ensures r.Err? ==> r.failure == NumericParse
  {
    var p :- ParseInt(l[0]);
    Ok(g.(pitch := ToU8(p)))
  }

  /** A hexadecimal bitmap row stored at the row cursor, which then moves on. */
  function StoreRow(line: seq<Byte>, r: Reader): (r': Result<Reader>)
    requires r.onBitmap >= 0
    ensures r'.Ok? ==> |r'.value.current.bitmap| == |r.current.bitmap| && r'.value.fontList == r.fontList
  {
    var v :- ParseHex(line);
    if r.onBitmap >= |r.current.bitmap| then Err(RowOutOfRange)
    else
      Ok(r.(current := r.current.(bitmap := r.current.bitmap[r.onBitmap := v]),
            onBitmap := r.onBitmap + 1))
  }

  /** One line of the glyph loop. */
  function GlyphLine(line: seq<Byte>, r: Reader, ascentSize: U64, wanted: seq<U32>): (r': Result<Reader>)
  {
    if HasPrefix(line, STARTCHAR) then
      Ok(r)
    else if HasPrefix(line, ENCODING) then
      var v :- ParseInt(line[|ENCODING|..]);
      var code := ToU32(v);
      Ok(r.(current := r.current.(code := code, utf8 := Utf8.Convert(code))))
    else if HasPrefix(line, BITMAP) then
      Ok(r.(onBitmap := 0))
    else if HasPrefix(line, ENDCHAR) then
      Ok(r.(onBitmap := -1,
            fontList := if r.current.code in wanted then r.fontList + [r.current] else r.fontList))
    else if HasPrefix(line, BBX) then
      var g :- ApplyBbx(Fields(line[|BBX|..], SPACE), r.current, ascentSize);
      Ok(r.(current := g))
    else if HasPrefix(line, DWIDTH) then
      var g :- ApplyDwidth(Fields(line[|DWIDTH|..], SPACE), r.current);
      Ok(r.(current := g))
    else if r.onBitmap >= 0 then
      StoreRow(line, r)
    else
      Ok(r)
  }

  /** The glyph loop from byte `pos` on; it ends at the first position from
      which `cut` finds no complete line. */
  function ReadGlyphsFrom(buf: seq<Byte>, pos: nat, r: Reader, ascentSize: U64, wanted: seq<U32>): (r': Result<Reader>)
    decreases |buf| + 1 - pos, 0
  {
    match Cut(buf, pos)
    case (None, _) => Ok(r)
    case (Some(_), line) => GlyphsThen(buf, pos + |line| + 1, GlyphLine(line, r, ascentSize, wanted), ascentSize, wanted)
  }

  /** The glyph loop after a line that did `step`, with the next line
      starting at `next`. */
  function GlyphsThen(buf: seq<Byte>, next: nat, step: Result<Reader>, ascentSize: U64, wanted: seq<U32>): (r': Result<Reader>)
    requires next <= |buf|
    decreases |buf| + 1 - next, 1
  {
    match step
    case Err(f) => Err(f)
    case Ok(r1) => ReadGlyphsFrom(buf, next, r1, ascentSize, wanted)
  }

  // ---- What the reader promises ----

  /** Two keywords that differ at a position no line can begin with both. */
  lemma PrefixesExclusive(line: seq<Byte>, a: seq<Byte>, b: seq<Byte>, i: nat)
    requires i < |a| && i < |b| && a[i] != b[i]
    ensures !(HasPrefix(line, a) && HasPrefix(line, b))
  {
    if HasPrefix(line, a) {
      assert line[..|a|][i] == line[i];
    }
    if HasPrefix(line, b) {
      assert line[..|b|][i] == line[i];
    }
  }

  /** An ENDCHAR line is none of the keywords tested before it. */
  lemma EndcharIsNoEarlierKeyword(line: seq<Byte>)
    requires HasPrefix(line, ENDCHAR)
    ensures !HasPrefix(line, STARTCHAR) && !HasPrefix(line, ENCODING) && !HasPrefix(line, BITMAP)
  {
    PrefixesExclusive(line, ENDCHAR, STARTCHAR, 0);
    PrefixesExclusive(line, ENDCHAR, ENCODING, 2);
    PrefixesExclusive(line, ENDCHAR, BITMAP, 0);
  }

  /** ENDCHAR leaves the bitmap block and keeps a copy of `current` exactly
      when its code is wanted; equal codes are kept as often as they occur. */
  lemma EndcharKeepsWanted(line: seq<Byte>, r: Reader, ascentSize: U64, wanted: seq<U32>)
    requires HasPrefix(line, ENDCHAR)
    ensures GlyphLine(line, r, ascentSize, wanted).Ok?
    ensures var r' := GlyphLine(line, r, ascentSize, wanted).value;
            r'.onBitmap == -1 && r'.current == r.current &&
            (|r'.fontList| == |r.fontList| + 1 <==> r.current.code in wanted) &&
            (r.current.code in wanted ==> r'.fontList == r.fontList + [r.current]) &&
            (r.current.code !in wanted ==> r'.fontList == r.fontList)
  {
    EndcharIsNoEarlierKeyword(line);
  }

  /** STARTCHAR resets nothing: every field of `current` carries over from the
      previous glyph. */
  lemma StartcharKeepsCurrent(line: seq<Byte>, r: Reader, ascentSize: U64, wanted: seq<U32>)
    requires HasPrefix(line, STARTCHAR)
    ensures GlyphLine(line, r, ascentSize, wanted) == Ok(r)
  {
  }

  /** ENCODING sets the code to the parsed value truncated to uint32_t and
      the UTF-8 form to its `convert`; nothing else changes. */
  lemma EncodingSetsCode(line: seq<Byte>, r: Reader, ascentSize: U64, wanted: seq<U32>)
    requires HasPrefix(line, ENCODING)
    ensures var v := StoI(line[|ENCODING|..]);
            (v.None? ==> GlyphLine(line, r, ascentSize, wanted) == Err(NumericParse)) &&
            (v.Some? ==>
               GlyphLine(line, r, ascentSize, wanted)
               == Ok(r.(current := r.current.(code := ToU32(v.value), utf8 := Utf8.Convert(ToU32(v.value))))))
  {
    PrefixesExclusive(line, ENCODING, STARTCHAR, 0);
  }

  /** BITMAP starts the rows at row 0; nothing else changes. */
  lemma BitmapStartsRows(line: seq<Byte>, r: Reader, ascentSize: U64, wanted: seq<U32>)
    requires HasPrefix(line, BITMAP)
    ensures GlyphLine(line, r, ascentSize, wanted) == Ok(r.(onBitmap := 0))
  {
    PrefixesExclusive(line, BITMAP, STARTCHAR, 0);
    PrefixesExclusive(line, BITMAP, ENCODING, 0);
  }

  /** DWIDTH sets the pitch to its first field, parsed and truncated to
      uint8_t; nothing else changes. */
  lemma DwidthSetsPitch(line: seq<Byte>, r: Reader, ascentSize: U64, wanted: seq<U32>)
    requires HasPrefix(line, DWIDTH)
    ensures var v := StoI(Fields(line[|DWIDTH|..], SPACE)[0]);
            (v.None? ==> GlyphLine(line, r, ascentSize, wanted) == Err(NumericParse)) &&
            (v.Some? ==>
               GlyphLine(line, r, ascentSize, wanted) == Ok(r.(current := r.current.(pitch := ToU8(v.value)))))
  {
    PrefixesExclusive(line, DWIDTH, STARTCHAR, 0);
    PrefixesExclusive(line, DWIDTH, ENCODING, 0);
    PrefixesExclusive(line, DWIDTH, BITMAP, 0);
    PrefixesExclusive(line, DWIDTH, ENDCHAR, 0);
    PrefixesExclusive(line, DWIDTH, BBX, 0);
  }

  /** BBX replaces `current` by the glyph ApplyBbx makes of its fields, or
      fails as ApplyBbx does; BbxGeometry says what that glyph is. */
  lemma BbxSetsGeometry(line: seq<Byte>, r: Reader, ascentSize: U64, wanted: seq<U32>)
    requires HasPrefix(line, BBX)
    ensures var g := ApplyBbx(Fields(line[|BBX|..], SPACE), r.current, ascentSize);
            (g.Err? ==> GlyphLine(line, r, ascentSize, wanted) == Err(g.failure)) &&
            (g.Ok? ==> GlyphLine(line, r, ascentSize, wanted) == Ok(r.(current := g.value)))
  {
    PrefixesExclusive(line, BBX, STARTCHAR, 0);
    PrefixesExclusive(line, BBX, ENCODING, 0);
    PrefixesExclusive(line, BBX, BITMAP, 1);
    PrefixesExclusive(line, BBX, ENDCHAR, 0);
  }

  /** The geometry a BBX line sets: the row width in bytes is the width in
      pixels divided by 8 and rounded up, and the y offset is `ascentSize -
      (height + ascent)` truncated to int8. */
  lemma BbxGeometry(l: seq<seq<Byte>>, g: Glyph, ascentSize: U64, w: int, h: int, x: int, a: int)
    requires |l| >= 4
    requires StoI(l[0]) == Some(w) && StoI(l[1]) == Some(h) && StoI(l[2]) == Some(x) && StoI(l[3]) == Some(a)
    requires ToU8(h) + a <= INT_MAX
    ensures ApplyBbx(l, g, ascentSize).Ok?
    ensures var g' := ApplyBbx(l, g, ascentSize).value;
            g'.width == ToU8(w) && g'.height == ToU8(h) && g'.offsetX == ToI8(x) &&
            g'.offsetY == ToI8(ascentSize - (g'.height + a)) &&
            8 * g'.byteStep - 8 < g'.width <= 8 * g'.byteStep &&
            g' == g.(width := g'.width, height := g'.height, offsetX := g'.offsetX,
                     offsetY := g'.offsetY, byteStep := g'.byteStep)
  {
    ToI8ThroughU64(ascentSize - (ToU8(h) + a));
  }

  /** A BBX line with fewer than four fields is refused (the source indexes
      past the end of the split result), unless a field before the missing
      one fails to parse first. */
  lemma BbxTooShortRefused(l: seq<seq<Byte>>, g: Glyph, ascentSize: U64)
    requires 1 <= |l| < 4
    requires forall i :: 0 <= i < |l| ==> StoI(l[i]).Some?
    ensures ApplyBbx(l, g, ascentSize) == Err(BbxTooShort)
  {
    assert StoI(l[0]).Some?;
    assert |l| >= 2 ==> StoI(l[1]).Some?;
    assert |l| >= 3 ==> StoI(l[2]).Some?;
  }

  /** A bitmap row goes to row `onBitmap` if that row exists; a row past the
      last one is refused. No other row changes. */
  lemma RowStored(line: seq<Byte>, r: Reader, v: U64)
    requires r.onBitmap >= 0 && StoULL16(line) == Some(v)
    ensures StoreRow(line, r).Ok? <==> r.onBitmap < |r.current.bitmap|
    ensures r.onBitmap >= |r.current.bitmap| ==> StoreRow(line, r) == Err(RowOutOfRange)
    ensures StoreRow(line, r).Ok? ==>
              var c := StoreRow(line, r).value.current;
              |c.bitmap| == |r.current.bitmap| && c.bitmap[r.onBitmap] == v &&
              (forall i :: 0 <= i < |c.bitmap| && i != r.onBitmap ==> c.bitmap[i] == r.current.bitmap[i]) &&
              StoreRow(line, r).value.onBitmap == r.onBitmap + 1
  {
  }

  /** A line that begins with none of the keywords is a bitmap row inside a
      BITMAP block, stored as StoreRow says (RowStored), and is ignored
      outside one. */
  lemma RowLineStored(line: seq<Byte>, r: Reader, ascentSize: U64, wanted: seq<U32>)
    requires !HasPrefix(line, STARTCHAR) && !HasPrefix(line, ENCODING) && !HasPrefix(line, BITMAP)
    requires !HasPrefix(line, ENDCHAR) && !HasPrefix(line, BBX) && !HasPrefix(line, DWIDTH)
    ensures r.onBitmap >= 0 ==> GlyphLine(line, r, ascentSize, wanted) == StoreRow(line, r)
    ensures r.onBitmap < 0 ==> GlyphLine(line, r, ascentSize, wanted) == Ok(r)
  {
  }

  /** A glyph as the serialiser needs it: one row per pixel line of the font
      and the row width in bytes that its BBX width calls for. */
  predicate GlyphOk(g: Glyph, fontSize: nat)
  {
    |g.bitmap| == fontSize && g.byteStep == (g.width + 7) / 8
  }

  /** Every kept glyph is well formed and was asked for. */
  predicate AllKept(gs: seq<Glyph>, fontSize: nat, wanted: seq<U32>)
  {
    forall i :: 0 <= i < |gs| ==> GlyphOk(gs[i], fontSize) && gs[i].code in wanted
  }

  predicate ReaderOk(r: Reader, fontSize: nat, wanted: seq<U32>)
  {
    GlyphOk(r.current, fontSize) && r.onBitmap >= -1 && AllKept(r.fontList, fontSize, wanted)
  }

  lemma InitialReaderOk(fontSize: nat, wanted: seq<U32>)
    ensures ReaderOk(InitialReader(fontSize), fontSize, wanted)
  {
  }

  /** Every line keeps the reader well formed; in particular only wanted
      codes are ever kept. */
  lemma GlyphLineKeepsOk(line: seq<Byte>, r: Reader, ascentSize: U64, wanted: seq<U32>, fontSize: nat)
    requires ReaderOk(r, fontSize, wanted)
    ensures GlyphLine(line, r, ascentSize, wanted).Ok? ==>
              ReaderOk(GlyphLine(line, r, ascentSize, wanted).value, fontSize, wanted)
  {
  }

  lemma {:induction false} ReadGlyphsKeepsOk(buf: seq<Byte>, pos: nat, r: Reader, ascentSize: U64,
                                            wanted: seq<U32>, fontSize: nat)
    requires ReaderOk(r, fontSize, wanted)
    ensures ReadGlyphsFrom(buf, pos, r, ascentSize, wanted).Ok? ==>
              ReaderOk(ReadGlyphsFrom(buf, pos, r, ascentSize, wanted).value, fontSize, wanted)
    decreases |buf| + 1 - pos
  {
    var c := Cut(buf, pos);
    if c.0.None? {
      GlyphsAtEnd(buf, pos, r, ascentSize, wanted);
    } else {
      var next := pos + |c.1| + 1;
      var step := GlyphLine(c.1, r, ascentSize, wanted);
      GlyphsAfter(buf, pos, r, ascentSize, wanted, step, next);
      GlyphLineKeepsOk(c.1, r, ascentSize, wanted, fontSize);
      if step.Ok? {
        ReadGlyphsKeepsOk(buf, next, step.value, ascentSize, wanted, fontSize);
      }
    }
  }

  /** Only an ENDPROPERTIES line ends the block; the other keywords set one
      property each and leave the other alone. */
  lemma PropLineEffect(line: seq<Byte>, p: Props)
    ensures PropLine(line, p) == Ok(None) ==> HasPrefix(line, ENDPROPERTIES)
    ensures HasPrefix(line, ENDPROPERTIES) ==> PropLine(line, p) == Ok(None)
    ensures PropLine(line, p).Ok? && PropLine(line, p).value.Some? ==>
              var p' := PropLine(line, p).value.value;
              (p'.fontSize == p.fontSize || HasPrefix(line, PIXEL_SIZE)) &&
              (p'.ascent == p.ascent || HasPrefix(line, FONT_ASCENT))
  {
    PrefixesExclusive(line, ENDPROPERTIES, PIXEL_SIZE, 0);
    PrefixesExclusive(line, ENDPROPERTIES, CHARSET_REGISTRY, 0);
    PrefixesExclusive(line, ENDPROPERTIES, FONT_ASCENT, 0);
  }

  /** PIXEL_SIZE stores its parsed value, truncated to size_t, as the pixel
      size; a value that does not parse is a failure. */
  lemma PixelSizeStored(line: seq<Byte>, p: Props)
    requires HasPrefix(line, PIXEL_SIZE)
    ensures var v := StoI(line[|PIXEL_SIZE|..]);
            (v.None? ==> PropLine(line, p) == Err(NumericParse)) &&
            (v.Some? ==> PropLine(line, p) == Ok(Some(p.(fontSize := ToU64(v.value)))))
  {
  }

  /** FONT_ASCENT stores its parsed value, truncated to size_t, as the
      ascent; a value that does not parse is a failure. */
  lemma AscentStored(line: seq<Byte>, p: Props)
    requires HasPrefix(line, FONT_ASCENT)
    ensures var v := StoI(line[|FONT_ASCENT|..]);
            (v.None? ==> PropLine(line, p) == Err(NumericParse)) &&
            (v.Some? ==> PropLine(line, p) == Ok(Some(p.(ascent := ToU64(v.value)))))
  {
    PrefixesExclusive(line, FONT_ASCENT, PIXEL_SIZE, 0);
    PrefixesExclusive(line, FONT_ASCENT, CHARSET_REGISTRY, 0);
  }

  /** A CHARSET_REGISTRY line changes neither property. */
  lemma RegistryIgnored(line: seq<Byte>, p: Props)
    requires HasPrefix(line, CHARSET_REGISTRY)
    ensures PropLine(line, p) == Ok(Some(p))
  {
    PrefixesExclusive(line, CHARSET_REGISTRY, PIXEL_SIZE, 0);
  }

  /** The newline-terminated line that starts at s and ends with the newline
      at e - 1 begins with the keyword kw. */
  predicate KeywordLine(buf: seq<Byte>, s: nat, e: nat, kw: seq<Byte>)
  {
    s < e <= |buf| && buf[e - 1] == NEWLINE && HasPrefix(buf[s..e - 1], kw)
  }

  /** The properties loop succeeds only by reaching an ENDPROPERTIES line: the
      position it returns is just past a newline-terminated line, starting at
      or after `pos`, that begins with the keyword. */
  lemma {:induction false} PropsEndAtEndproperties(buf: seq<Byte>, pos: nat, p: Props)
    ensures ReadPropsFrom(buf, pos, p).Ok? ==>
              exists s :: pos <= s && KeywordLine(buf, s, ReadPropsFrom(buf, pos, p).value.1, ENDPROPERTIES)
    decreases |buf| - pos
  {
    var c := Cut(buf, pos);
    if c.0.Some? {
      var next := pos + |c.1| + 1;
      var step := PropLine(c.1, p);
      PropsAfter(buf, pos, p, step, next);
      if step.Ok? && step.value.None? {
        PropLineEffect(c.1, p);
        assert buf[pos..next - 1] == c.1;
        assert KeywordLine(buf, pos, next, ENDPROPERTIES);
      } else if step.Ok? {
        PropsEndAtEndproperties(buf, next, step.value.value);
      }
    }
  }

  // ---- The loops as the source writes them ----

  /** One line of the properties loop: the `cmp` chain. */
  method PropStep(line: seq<Byte>, p: Props) returns (r: Result<Option<Props>>)
    ensures r == PropLine(line, p)
  {
    var ok, arg := Cmp(line, PIXEL_SIZE);
    if ok {
      var v :- ParseInt(arg);
      return Ok(Some(p.(fontSize := ToU64(v))));
    }
    ok, arg := Cmp(line, CHARSET_REGISTRY);
    if ok {
      return Ok(Some(p));
    }
    ok, arg := Cmp(line, FONT_ASCENT);
    if ok {
      var v :- ParseInt(arg);
      return Ok(Some(p.(ascent := ToU64(v))));
    }
    ok, arg := Cmp(line, ENDPROPERTIES);
    if ok {
      return Ok(None);
    }
    return Ok(Some(p));
  }

  /** The properties loop: `fontSize` and `ascentSize` start at 16 and 0 and
      are overwritten line by line until ENDPROPERTIES. */
  method ReadProperties(buf: seq<Byte>) returns (r: Result<(Props, nat)>)
    ensures r == ReadPropsFrom(buf, 0, DEFAULT_PROPS)
  {
    var p := DEFAULT_PROPS;
    var pos: nat := 0;
    while true
      invariant pos <= |buf|
      invariant ReadPropsFrom(buf, pos, p) == ReadPropsFrom(buf, 0, DEFAULT_PROPS)
      decreases |buf| - pos
    {
      var c := Cut(buf, pos);
      if c.0.None? {
        PropsAtEnd(buf, pos, p);
        return Err(Truncated);
      }
      var next := pos + |c.1| + 1;
      var step := PropStep(c.1, p);
      PropsAfter(buf, pos, p, step, next);
      if step.Err? {
        return Err(step.failure);
      }
      if step.value.None? {
        return Ok((p, next));
      }
      p, pos := step.value.value, next;
    }
  }

  /** The properties loop with no complete line left. */
  lemma PropsAtEnd(buf: seq<Byte>, pos: nat, p: Props)
    requires Cut(buf, pos).0.None?
    ensures ReadPropsFrom(buf, pos, p) == Err(Truncated)
  {
  }

  /** One turn of the properties loop, given what the line at `pos` does. */
  lemma PropsAfter(buf: seq<Byte>, pos: nat, p: Props, step: Result<Option<Props>>, next: nat)
    requires Cut(buf, pos).0.Some? && step == PropLine(Cut(buf, pos).1, p)
    requires next == pos + |Cut(buf, pos).1| + 1
    ensures pos < next <= |buf|
    ensures ReadPropsFrom(buf, pos, p) == PropsThen(buf, next, p, step)
  {
  }

  /** The CHARS line: `count` stays 0 unless the next complete line starts
      with the keyword; `pos` moves on either way. */
  method ReadCharCount(buf: seq<Byte>, pos: nat) returns (r: Result<(U64, nat)>)
    ensures r == ReadCountAt(buf, pos)
  {
    var count: U64 := 0;
    var (q, line) := Cut(buf, pos);
    if q.Some? {
      var ok, arg := Cmp(line, CHARS);
      if ok {
        var v :- ParseInt(arg);
        count := ToU64(v);
      }
    }
    return Ok((count, pos + |line| + 1));
  }

  /** One line of the glyph loop: the `cmp` chain, in the source's order. */
  method GlyphStep(line: seq<Byte>, r: Reader, ascentSize: U64, wanted: seq<U32>) returns (r': Result<Reader>)
    ensures r' == GlyphLine(line, r, ascentSize, wanted)
  {
    var ok, arg := Cmp(line, STARTCHAR);
    if ok {
      return Ok(r);
    }
    ok, arg := Cmp(line, ENCODING);
    if ok {
      var v :- ParseInt(arg);
      var code := ToU32(v);
      return Ok(r.(current := r.current.(code := code, utf8 := Utf8.Convert(code))));
    }
    ok, arg := Cmp(line, BITMAP);
    if ok {
      return Ok(r.(onBitmap := 0));
    }
    ok, arg := Cmp(line, ENDCHAR);
    if ok {
      var fontList := r.fontList;
      if r.current.code in wanted {
        fontList := fontList + [r.current];
      }
      return Ok(r.(onBitmap := -1, fontList := fontList));
    }
    ok, arg := Cmp(line, BBX);
    if ok {
      var l := Split(arg, SPACE);
      var g :- ApplyBbx(l, r.current, ascentSize);
      return Ok(r.(current := g));
    }
    ok, arg := Cmp(line, DWIDTH);
    if ok {
      var l := Split(arg, SPACE);
      var g :- ApplyDwidth(l, r.current);
      return Ok(r.(current := g));
    }
    if r.onBitmap >= 0 {
      r' := StoreRow(line, r);
      return;
    }
    return Ok(r);
  }

  /** The glyph loop from `pos`: `current`, `onBitmap` and `fontList` are
      updated line by line until no complete line is left. */
  method ReadGlyphs(buf: seq<Byte>, pos0: nat, fontSize: nat, ascentSize: U64, wanted: seq<U32>)
    returns (r: Result<Reader>)
    ensures r == ReadGlyphsFrom(buf, pos0, InitialReader(fontSize), ascentSize, wanted)
  {
    var reader := InitialReader(fontSize);
    var pos := pos0;
    while true
      invariant ReadGlyphsFrom(buf, pos, reader, ascentSize, wanted)
                == ReadGlyphsFrom(buf, pos0, InitialReader(fontSize), ascentSize, wanted)
      decreases |buf| + 1 - pos
    {
      var c := Cut(buf, pos);
      if c.0.None? {
        GlyphsAtEnd(buf, pos, reader, ascentSize, wanted);
        return Ok(reader);
      }
      var next := pos + |c.1| + 1;
      var step := GlyphStep(c.1, reader, ascentSize, wanted);
      GlyphsAfter(buf, pos, reader, ascentSize, wanted, step, next);
      if step.Err? {
        return Err(step.failure);
      }
      reader, pos := step.value, next;
    }
  }

  /** The glyph loop with no complete line left. */
  lemma GlyphsAtEnd(buf: seq<Byte>, pos: nat, r: Reader, ascentSize: U64, wanted: seq<U32>)
    requires Cut(buf, pos).0.None?
    ensures ReadGlyphsFrom(buf, pos, r, ascentSize, wanted) == Ok(r)
  {
  }

  /** One turn of the glyph loop, given what the line at `pos` does. */
  lemma GlyphsAfter(buf: seq<Byte>, pos: nat, r: Reader, ascentSize: U64, wanted: seq<U32>,
                    step: Result<Reader>, next: nat)
    requires Cut(buf, pos).0.Some? && step == GlyphLine(Cut(buf, pos).1, r, ascentSize, wanted)
    requires next == pos + |Cut(buf, pos).1| + 1
    ensures pos < next <= |buf|
    ensures ReadGlyphsFrom(buf, pos, r, ascentSize, wanted) == GlyphsThen(buf, next, step, ascentSize, wanted)
  {
  }
}
