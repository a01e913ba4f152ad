// The conversion `main` performs once its two inputs are in memory (main.cpp
// lines 233-387): scan the wanted characters, read the BDF properties, the
// CHARS line and the glyphs, sort the kept glyphs by code and write the atlas.
// The BDF text and the wanted-character text are parameters; the atlas is the
// byte sequence the output file receives.

module Converter {
  import opened Base
  import Corpus
  import Bdf
  import Order
  import Atlas

  type Glyph = Bdf.Glyph

  /** What the reading stages leave behind: the wanted code points, the pixel
      size and the kept glyphs in the order their ENDCHAR lines came. */
  datatype Parsed = Parsed(wanted: seq<U32>, fontSize: U64, kept: seq<Glyph>)

  /** The corpus scan, the properties loop, the CHARS line and the glyph loop,
      in the source's order. `fontList.reserve(count)` and
      `current.bitmap.resize(fontSize)` throw std::length_error when a
      negative `int` has become a `size_t` beyond any vector's maximum size. */
  function Collect(bdf: seq<Byte>, corpus: seq<Byte>): (r: Result<Parsed>)
  {
    var wanted :- Corpus.Scan(corpus);
    var props :- Bdf.ReadPropsFrom(bdf, 0, Bdf.DEFAULT_PROPS);
    var chars :- Bdf.ReadCountAt(bdf, props.1);
    if chars.0 > INT_MAX then Err(LengthError)
    else if props.0.fontSize > INT_MAX then Err(LengthError)
    else
      var reader :- Bdf.ReadGlyphsFrom(bdf, chars.1, Bdf.InitialReader(props.0.fontSize), props.0.ascent, wanted);
      Ok(Parsed(wanted, props.0.fontSize, reader.fontList))
  }

  /** The atlas written for a BDF text and a wanted-character text. */
  function ConvertFont(bdf: seq<Byte>, corpus: seq<Byte>): (r: Result<seq<Byte>>)
  {
    var p :- Collect(bdf, corpus);
    Atlas.Serialize(Order.SortByCode(p.kept), p.fontSize)
  }

  /** The glyphs in the order the atlas lists them. */
  function Listed(p: Parsed): seq<Glyph>
  {
    Order.SortByCode(p.kept)
  }

  // ---- What the reading stages promise ----

  /** Every kept glyph was asked for by the corpus, has one row per pixel
      line and the byte width its BBX width calls for; the pixel size is one
      an `int` can hold. */
  lemma CollectKeepsWanted(bdf: seq<Byte>, corpus: seq<Byte>)
    requires Collect(bdf, corpus).Ok?
    ensures var p := Collect(bdf, corpus).value;
            Corpus.Scan(corpus) == Ok(p.wanted) && p.fontSize <= INT_MAX &&
            Bdf.AllKept(p.kept, p.fontSize, p.wanted)
  {
    var wanted := Corpus.Scan(corpus).value;
    var props := Bdf.ReadPropsFrom(bdf, 0, Bdf.DEFAULT_PROPS).value;
    var chars := Bdf.ReadCountAt(bdf, props.1).value;
    var fontSize := props.0.fontSize;
    Bdf.InitialReaderOk(fontSize, wanted);
    Bdf.ReadGlyphsKeepsOk(bdf, chars.1, Bdf.InitialReader(fontSize), props.0.ascent, wanted, fontSize);
  }

  /** The listed glyphs are the kept ones, ordered by code. */
  lemma ListedSorted(p: Parsed)
    ensures Order.SortedByCode(Listed(p))
    ensures multiset(Listed(p)) == multiset(p.kept)
  {
    Order.SortSorted(p.kept);
    Order.SortPermutes(p.kept);
  }

  /** Sorting keeps every glyph well formed and wanted. */
  lemma ListedKept(p: Parsed)
    requires Bdf.AllKept(p.kept, p.fontSize, p.wanted)
    ensures Bdf.AllKept(Listed(p), p.fontSize, p.wanted)
  {
    var gs := Listed(p);
    ListedSorted(p);
    forall i | 0 <= i < |gs|
      ensures Bdf.GlyphOk(gs[i], p.fontSize) && gs[i].code in p.wanted
    {
      assert gs[i] in multiset(p.kept) by {
        assert gs[i] in multiset(gs);
      }
      var k :| 0 <= k < |p.kept| && p.kept[k] == gs[i];
    }
  }

  // ---- What the atlas holds ----

  /** The atlas is the listed glyphs serialised; a failure to read is the
      conversion's failure. */
  lemma ConvertUnfold(bdf: seq<Byte>, corpus: seq<Byte>)
    ensures Collect(bdf, corpus).Err? ==> ConvertFont(bdf, corpus) == Err(Collect(bdf, corpus).failure)
    ensures Collect(bdf, corpus).Ok? ==>
              ConvertFont(bdf, corpus)
              == Atlas.Serialize(Listed(Collect(bdf, corpus).value), Collect(bdf, corpus).value.fontSize)
  {
  }

  /** Once the reading stages have succeeded, the atlas is written exactly
      when every listed glyph fits the scratch buffer, and it is then exactly
      as long as the header, the records and the bitmaps. */
  lemma ConvertSucceeds(bdf: seq<Byte>, corpus: seq<Byte>, p: Parsed)
    requires Collect(bdf, corpus) == Ok(p)
    ensures ConvertFont(bdf, corpus).Ok? <==> Atlas.AllFit(Listed(p), p.fontSize)
    ensures ConvertFont(bdf, corpus).Ok? ==>
              |ConvertFont(bdf, corpus).value| == Atlas.IndexEnd(|p.kept|) + Atlas.TotalData(Listed(p))
  {
    ConvertUnfold(bdf, corpus);
    Atlas.AtlasLength(Listed(p), p.fontSize);
  }

  /** A font whose kept glyphs are no larger than its pixel size in either
      direction is always written. */
  lemma ConvertSmallGlyphs(bdf: seq<Byte>, corpus: seq<Byte>, p: Parsed)
    requires Collect(bdf, corpus) == Ok(p)
    requires forall i :: 0 <= i < |p.kept| ==> p.kept[i].width <= p.fontSize && p.kept[i].height <= p.fontSize
    ensures ConvertFont(bdf, corpus).Ok?
  {
    var gs := Listed(p);
    CollectKeepsWanted(bdf, corpus);
    ListedKept(p);
    ListedSorted(p);
    forall i | 0 <= i < |gs|
      ensures Atlas.Fits(gs[i], p.fontSize)
    {
      assert gs[i] in multiset(p.kept) by {
        assert gs[i] in multiset(gs);
      }
      var k :| 0 <= k < |p.kept| && p.kept[k] == gs[i];
      Atlas.FitsWithinPixelSize(gs[i], p.fontSize);
    }
    ConvertSucceeds(bdf, corpus, p);
  }

  /** The header counts the listed glyphs (modulo 2^16) and carries the pixel
      size (modulo 2^8). */
  lemma ConvertHeader(bdf: seq<Byte>, corpus: seq<Byte>, p: Parsed, out: seq<Byte>)
    requires Collect(bdf, corpus) == Ok(p) && ConvertFont(bdf, corpus) == Ok(out)
    ensures |out| >= 8 && FromLE(out[0..4]) == Atlas.MAGIC &&
            FromLE(out[4..6]) == |p.kept| % TWO_16 && out[6] == p.fontSize % TWO_8 && out[7] == 0
  {
    ConvertUnfold(bdf, corpus);
    Atlas.AtlasHeader(Listed(p), p.fontSize);
  }

  /** Record i of the atlas holds the bytes of the i-th listed glyph's
      record, pointing at 8 + 12n + the bitmap sizes of the glyphs before it
      (HintFields says what the record's fields hold, Atlas.HintRoundTrip
      that they read back). */
  lemma ConvertRecord(bdf: seq<Byte>, corpus: seq<Byte>, p: Parsed, out: seq<Byte>, i: nat)
    requires Collect(bdf, corpus) == Ok(p) && ConvertFont(bdf, corpus) == Ok(out)
    requires i < |p.kept|
    ensures 8 + 12 * i + 12 <= |out|
    ensures var gs := Listed(p);
            out[8 + 12 * i..8 + 12 * i + 12]
            == Atlas.HintBytes(Atlas.HintOf(gs[i], Atlas.IndexEnd(|gs|) + Atlas.TotalData(gs[..i])))
  {
    ConvertUnfold(bdf, corpus);
    Atlas.AtlasRecord(Listed(p), p.fontSize, i);
  }

  /** Each listed glyph is well formed and was asked for by the corpus. */
  lemma ListedWanted(bdf: seq<Byte>, corpus: seq<Byte>, p: Parsed, i: nat)
    requires Collect(bdf, corpus) == Ok(p) && i < |p.kept|
    ensures Bdf.GlyphOk(Listed(p)[i], p.fontSize) && Listed(p)[i].code in p.wanted
  {
    CollectKeepsWanted(bdf, corpus);
    ListedKept(p);
  }

  /** A conversion that produced `out` serialised the listed glyphs, all of
      them well formed and wanted. */
  lemma Converted(bdf: seq<Byte>, corpus: seq<Byte>, p: Parsed, out: seq<Byte>)
    requires Collect(bdf, corpus) == Ok(p) && ConvertFont(bdf, corpus) == Ok(out)
    ensures Atlas.Serialize(Listed(p), p.fontSize) == Ok(out)
    ensures Bdf.AllKept(Listed(p), p.fontSize, p.wanted)
  {
    CollectKeepsWanted(bdf, corpus);
    ListedKept(p);
    ConvertUnfold(bdf, corpus);
  }

  /** The record of a well-formed glyph keeps its ceil(width / 8) byte width
      through the narrowing to uint8_t. */
  lemma HintFields(g: Glyph, offset: nat, fontSize: nat)
    requires Bdf.GlyphOk(g, fontSize)
    ensures var h := Atlas.HintOf(g, offset);
            h.code == ToU16(g.code) && h.byteStep == (h.width + 7) / 8 && h.dataOffset == ToU32(offset)
  {
  }

  /** When the corpus holds no code point above 0xFFFF, the 16-bit codes of
      the records ascend. */
  lemma ConvertRecordsAscend(bdf: seq<Byte>, corpus: seq<Byte>, p: Parsed, out: seq<Byte>, i: nat, j: nat)
    requires Collect(bdf, corpus) == Ok(p) && ConvertFont(bdf, corpus) == Ok(out)
    requires i < j < |p.kept| && forall k :: 0 <= k < |p.wanted| ==> p.wanted[k] <= 0xFFFF
    ensures 8 + 12 * j + 12 <= |out|
    ensures Atlas.ParseHint(out[8 + 12 * i..8 + 12 * i + 12]).code
            <= Atlas.ParseHint(out[8 + 12 * j..8 + 12 * j + 12]).code
  {
    Converted(bdf, corpus, p, out);
    RecordsAscend(p, out, i, j);
  }

  /** The same for an atlas of the listed glyphs, whatever produced them. */
  lemma RecordsAscend(p: Parsed, out: seq<Byte>, i: nat, j: nat)
    requires Atlas.Serialize(Listed(p), p.fontSize) == Ok(out) && Bdf.AllKept(Listed(p), p.fontSize, p.wanted)
    requires i < j < |p.kept| && forall k :: 0 <= k < |p.wanted| ==> p.wanted[k] <= 0xFFFF
    ensures 8 + 12 * j + 12 <= |out|
    ensures Atlas.ParseHint(out[8 + 12 * i..8 + 12 * i + 12]).code
            <= Atlas.ParseHint(out[8 + 12 * j..8 + 12 * j + 12]).code
  {
    var gs := Listed(p);
    ListedSorted(p);
    RecordCode(gs, p.fontSize, out, i, p.wanted);
    RecordCode(gs, p.fontSize, out, j, p.wanted);
    assert gs[i].code <= gs[j].code;
  }

  /** The code record i reads back with is its glyph's own when the corpus
      asks only for code points up to 0xFFFF. */
  lemma RecordCode(gs: seq<Glyph>, fontSize: U64, out: seq<Byte>, i: nat, wanted: seq<U32>)
    requires Atlas.Serialize(gs, fontSize) == Ok(out) && i < |gs|
    requires gs[i].code in wanted && forall k :: 0 <= k < |wanted| ==> wanted[k] <= 0xFFFF
    ensures 8 + 12 * i + 12 <= |out|
    ensures Atlas.ParseHint(out[8 + 12 * i..8 + 12 * i + 12]).code == gs[i].code
  {
    assert gs[i].code <= 0xFFFF by {
      var k :| 0 <= k < |wanted| && wanted[k] == gs[i].code;
    }
    Atlas.AtlasRecord(gs, fontSize, i);
    NarrowCode(gs[i], Atlas.IndexEnd(|gs|) + Atlas.TotalData(gs[..i]));
  }

  lemma NarrowCode(g: Glyph, offset: nat)
    requires g.code <= 0xFFFF
    ensures Atlas.HintOf(g, offset).code == g.code
  {
  }

  /** At the offset record i gives, the atlas holds the glyph's rows, each
      as its `byteStep` low bytes, least significant first. */
  lemma ConvertBitmap(bdf: seq<Byte>, corpus: seq<Byte>, p: Parsed, out: seq<Byte>, i: nat)
    requires Collect(bdf, corpus) == Ok(p) && ConvertFont(bdf, corpus) == Ok(out)
    requires i < |p.kept|
    ensures var gs := Listed(p);
            var at := Atlas.IndexEnd(|gs|) + Atlas.TotalData(gs[..i]);
            gs[i].height <= |gs[i].bitmap| && at + Atlas.DataSize(gs[i]) <= |out| &&
            out[at..at + Atlas.DataSize(gs[i])] == Atlas.GlyphData(gs[i])
  {
    ConvertUnfold(bdf, corpus);
    Atlas.AtlasGlyph(Listed(p), p.fontSize, i);
  }

  // ---- main, as the source runs it ----

  /** The reading stages as main runs them, loop by loop. */
  method ReadFont(bdf: seq<Byte>, corpus: seq<Byte>) returns (r: Result<Parsed>)
    ensures r == Collect(bdf, corpus)
  {
    var wanted :- Corpus.ScanCorpus(corpus);
    var props :- Bdf.ReadProperties(bdf);
    var chars :- Bdf.ReadCharCount(bdf, props.1);
    if chars.0 > INT_MAX || props.0.fontSize > INT_MAX {
      return Err(LengthError);
    }
    var reader :- Bdf.ReadGlyphs(bdf, chars.1, props.0.fontSize, props.0.ascent, wanted);
    return Ok(Parsed(wanted, props.0.fontSize, reader.fontList));
  }

  /** main from the corpus scan to the last bitmap: read, sort `fontList` in
      place, then write the header, the index and the bitmaps. */
  method Run(bdf: seq<Byte>, corpus: seq<Byte>) returns (r: Result<seq<Byte>>)
    ensures r == ConvertFont(bdf, corpus)
  {
    var p :- ReadFont(bdf, corpus);
    var fontList := new Glyph[|p.kept|](i requires 0 <= i < |p.kept| => p.kept[i]);
    assert fontList[..] == p.kept;
    Order.SortInPlace(fontList);
    var dataOffset;
    r, dataOffset := Atlas.WriteAtlas(fontList[..], p.fontSize);
  }
}
