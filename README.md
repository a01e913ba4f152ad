# bdfconv2 in Dafny

bdfconv2 converts a bitmap font in BDF text form into a compact binary glyph
atlas for a small renderer. It keeps only the glyphs that a "wanted
characters" text asks for. The whole conversion lives in `main.cpp`, and
this project models it stage by stage:

- **UTF-8 codec** (`Utf8`): `convcode` decodes one code point at a byte
  position; `convert` encodes the 1- to 3-byte forms of section 3 of RFC 3629.
- **Text helpers** (`Text`): `std::string::find` for one byte, `cut` (the
  next newline-terminated line), `cmp` (keyword prefix and the rest of the
  line) and `split` (fields between separators).
- **Number parsing** (`Numbers`): `std::stoi` and `std::stoull(_, nullptr, 16)`
  written out concretely (white space, sign, `0x` prefix, digit run, range).
- **Corpus scan** (`Corpus`): the wanted-character text decoded into
  `useCodeList`, one `convcode` per step, until the terminating NUL.
- **BDF reader** (`Bdf`): the properties loop, the CHARS line and the glyph
  loop. The glyph loop's state is the reused `current` record, the
  `onBitmap` row cursor and the `fontList` of kept glyphs.
- **Sort** (`Order`): `std::sort` by code on the array that backs
  `fontList`.
- **Serialisation** (`Atlas`): the 8-byte header, one 12-byte record per
  glyph with a running `dataOffset`, then each glyph's rows packed low byte
  first through the scratch `bitmapBuffer`.
- **Pipeline** (`Converter`): `main` from the corpus scan to the last bitmap
  write, as one method proved equal to a specification function. The
  end-to-end lemmas are stated about that function.

Loops in the source are `method`s with loop invariants. Each is proved equal
to a recursive function of its inputs, and the properties are lemmas about
those functions. The in-place work is done on `array`s: the sort and the
scratch bitmap buffer. Both text buffers are inputs given as byte sequences.
The output file is a byte sequence in the layout of a little-endian host,
which is the layout the raw struct writes produce.

Every outcome in which the source has undefined behaviour, throws, or stops
making progress is a `Failure` value rather than a precondition:

- `NumericParse`: `stoi`/`stoull` throws.
- `BbxTooShort`: a BBX line has fewer than four fields.
- `RowOutOfRange`: a BITMAP row is at or past `fontSize`.
- `GlyphTooLarge`: a glyph overruns its bitmap or the scratch buffer.
- `IntOverflow`: `height + ascent` overflows `int`.
- `CorpusStalls`: on a continuation byte in lead position the scan pointer
  never advances; the loop appends to `useCodeList` until allocation fails.
- `CorpusOverRead`: the scan reads past the NUL.
- `Truncated`: the input ends before ENDPROPERTIES.
- `LengthError`: a negative CHARS or PIXEL_SIZE value reaches `reserve` or
  `resize` as a huge `size_t`.

Two glyph blocks with the same ENCODING are both appended (main.cpp:311-316).
A corpus code point above 0xFFFF, which `convert` encodes as an empty string,
still selects its glyph.

## Model

| member | source | states |
|---|---|---|
| Utf8.Advance | main.cpp:66-92 | the pointer advance is 1 for lead bytes up to 0x7F; 2, 3 and 4 for high nibbles 0xC/0xD, 0xE and 0xF; 0 exactly for 0x80..0xBF |
| Utf8.ConvCode | main.cpp:63-93 | the new pointer is p + Advance(lead); ASCII decodes to itself; a continuation lead leaves `code` unchanged; 2-, 3- and 4-byte forms give values below 2^11, 2^16 and 2^21 |
| Utf8.CString | main.cpp:99-122 | the string returned from `buff` is the longest NUL-free prefix of the buffer |
| Utf8.Buffer | main.cpp:99-121 | the five bytes of `buff` after the if-chain; ConvertIs and ConvertBytes state what they hold |
| Utf8.Convert | main.cpp:96-123 | `convert(c)`: the C string of `buff`; ConvertLength, ConvertIs, DecodeConvert and ConvertInjective state its lengths, bytes, inverse and injectivity |
| Utf8.ConvertLength | main.cpp:99-122 | `convert(c)` is 1, 2 or 3 bytes long over 1..0x7F, 0x80..0x7FF and 0x800..0xFFFF, and empty for 0 and above 0xFFFF |
| Utf8.ConvertBytes | main.cpp:105-121 | the output is the filled prefix of `buff`, with a 110xxxxx or 1110xxxx lead and 10xxxxxx continuation bytes |
| Utf8.ConvertIs | main.cpp:105-121 | the exact bytes of each of the three forms, written with division and remainder |
| Utf8.DecodeConvert | main.cpp:63-123 | for 1 <= c <= 0xFFFF, `convcode` on `convert(c)` gives back c and advances exactly \|convert(c)\| bytes, whatever surrounds it |
| Utf8.ConvertInjective | main.cpp:96-123 | different code points in 1..0xFFFF never encode to the same bytes |
| Text.Find | main.cpp:173 | `find` returns the first index at or after pos holding the byte, or none when no such index exists |
| Text.FindShift | main.cpp:135 | searching from pos is searching the suffix from 0, shifted by pos |
| Text.Cut | main.cpp:170-176 | the next newline at or after pos and the newline-free line before it; with no newline left, npos and an empty line |
| Text.Cmp | main.cpp:147-167 | returns true exactly when s is a prefix of n, and then arg is the rest of n; otherwise arg is emptied |
| Text.Fields | main.cpp:127-144 | splitting always gives at least one piece |
| Text.FieldsJoin | main.cpp:127-144 | joining the pieces with the separator restores the string, and no piece contains the separator |
| Text.FieldsCount | main.cpp:127-144 | there is one more piece than there are separators |
| Text.FieldsAt | main.cpp:135-139 | a cut at the next separator q leaves the piece n[pos..q] followed by the split of what comes after q |
| Text.FieldsCut | main.cpp:135-139 | one turn of the loop keeps the loop invariant: pieces so far + split of the rest == split of n |
| Text.FieldsRest | main.cpp:136-141 | with no separator left, the rest of n is the last piece |
| Text.Split | main.cpp:127-144 | the `do`/`while` loop over `pos` returns exactly Fields(n, sep) |
| Numbers.SkipSpace | main.cpp:260 | `stoi` skips leading white space up to the first byte that is not white space |
| Numbers.DigitRun | main.cpp:260 | the digit run ends at the first byte that is not a digit of the radix |
| Numbers.StoI | main.cpp:260 | every value `stoi` returns lies in the `int` range |
| Numbers.StoULL16 | main.cpp:336 | `stoull(s, nullptr, 16)`: optional sign and `0x` prefix, values of 2^64 and more fail, negatives wrap modulo 2^64; StoULLHex states that it inverts the hex rendering |
| Numbers.DigitByte | main.cpp:336 | the digit byte of d reads back as d in every radix that has d |
| Numbers.LastDigit | main.cpp:336 | n is its prefix shifted by one digit plus its last digit |
| Numbers.Digits | main.cpp:336 | the rendering of n is a non-empty run of digits |
| Numbers.DigitsValueOfDigits | main.cpp:260 | the value of the rendering of n is n |
| Numbers.DigitRunExact | main.cpp:260 | the digit run from i ends exactly where the first non-digit is |
| Numbers.ScanNumeralOf | main.cpp:260 | a sign, a digit run and a tail that does not continue it scan as that signed numeral |
| Numbers.StoIDecimal | main.cpp:260 | `stoi` reads back the decimal rendering of every int, with or without a minus sign, whatever non-digit text follows |
| Numbers.StoULLHex | main.cpp:336 | `stoull(_, nullptr, 16)` reads back the hex rendering of every 64-bit value, whatever text follows that is neither a digit nor an `x` |
| Bdf.ParseInt | main.cpp:260 | a parse that succeeds gives a value in the `int` range |
| Bdf.ParseHex | main.cpp:336 | `stoull(line, nullptr, 16)` with its exception as NumericParse; RowStored states the row it stores |
| Bdf.InitialGlyph | main.cpp:286-287 | `current` starts with `fontSize` zero rows |
| Bdf.ApplyBbx | main.cpp:317-327 | a BBX line sets byteStep to ceil(width / 8) and leaves the bitmap, code and pitch alone |
| Bdf.ApplyDwidth | main.cpp:328-333 | a DWIDTH line succeeds exactly when its first field parses, and then sets only the pitch, to that value truncated to uint8 |
| Bdf.StoreRow | main.cpp:334-337 | storing a row keeps the bitmap's size and the kept-glyph list |
| Bdf.GlyphLine | main.cpp:294-337 | one glyph-loop line through the `cmp` chain; EndcharKeepsWanted, StartcharKeepsCurrent, EncodingSetsCode, BitmapStartsRows, BbxSetsGeometry, DwidthSetsPitch and RowLineStored state each branch on GlyphLine itself |
| Bdf.PrefixesExclusive | main.cpp:298-333 | two keywords that differ at some position cannot both begin a line |
| Bdf.EndcharIsNoEarlierKeyword | main.cpp:298-311 | an ENDCHAR line matches none of the keywords tested before it |
| Bdf.EndcharKeepsWanted | main.cpp:311-316 | ENDCHAR resets `onBitmap` to -1 and appends a copy of `current` exactly when its code is in the wanted list |
| Bdf.StartcharKeepsCurrent | main.cpp:298-301 | STARTCHAR leaves the whole reader state unchanged, so `current` carries over |
| Bdf.EncodingSetsCode | main.cpp:302-306 | ENCODING sets the code to the parsed value truncated to uint32 and the UTF-8 form to its `convert`, and changes nothing else; an unparseable value fails |
| Bdf.BitmapStartsRows | main.cpp:307-310 | BITMAP sets `onBitmap` to 0 and changes nothing else |
| Bdf.DwidthSetsPitch | main.cpp:328-333 | DWIDTH sets the pitch to its first field truncated to uint8 and changes nothing else; an unparseable field fails |
| Bdf.BbxSetsGeometry | main.cpp:317-327 | a BBX line replaces `current` by the glyph ApplyBbx makes of its space-separated fields, or fails as ApplyBbx fails; the reader's other state is unchanged |
| Bdf.BbxGeometry | main.cpp:317-327 | width and height are the parsed values truncated to uint8, offsetY is ascentSize - (height + ascent) truncated to int8, and 8·byteStep - 8 < width <= 8·byteStep; nothing else changes |
| Bdf.BbxTooShortRefused | main.cpp:320-324 | a BBX line with fewer than four parseable fields fails |
| Bdf.RowStored | main.cpp:334-337 | a row is stored at `onBitmap` exactly when that row exists, the cursor moves on, and no other row changes |
| Bdf.RowLineStored | main.cpp:334-337 | a line that starts with no keyword is stored by StoreRow inside a BITMAP block and leaves the reader unchanged outside one |
| Bdf.InitialReaderOk | main.cpp:283-291 | the initial reader is well formed |
| Bdf.GlyphLineKeepsOk | main.cpp:292-340 | every line keeps the reader well formed, so only wanted glyphs with one row per pixel line and byteStep == ceil(width / 8) are kept |
| Bdf.ReadGlyphsKeepsOk | main.cpp:292-340 | the whole glyph loop keeps the reader well formed |
| Bdf.PropLineEffect | main.cpp:259-266 | only ENDPROPERTIES ends the block; PIXEL_SIZE and FONT_ASCENT each change only their own property |
| Bdf.PropLine | main.cpp:259-266 | one properties line through the `cmp` chain; PropLineEffect, PixelSizeStored, AscentStored and RegistryIgnored state each branch |
| Bdf.PixelSizeStored | main.cpp:259-260 | PIXEL_SIZE stores the parsed value truncated to size_t as the pixel size; an unparseable value fails |
| Bdf.AscentStored | main.cpp:263-264 | FONT_ASCENT stores the parsed value truncated to size_t as the ascent; an unparseable value fails |
| Bdf.RegistryIgnored | main.cpp:261-262 | CHARSET_REGISTRY changes neither property |
| Bdf.ReadPropsFrom | main.cpp:249-267 | the properties loop from a position; PropsEndAtEndproperties states where it can stop |
| Bdf.PropsEndAtEndproperties | main.cpp:249-267 | the properties loop succeeds only just past a newline-terminated ENDPROPERTIES line at or after its start |
| Bdf.PropStep | main.cpp:259-266 | one properties line as the source's `cmp` chain, equal to the line function |
| Bdf.ReadProperties | main.cpp:249-267 | the properties loop, starting from 16 and 0, equals its specification and fails on a buffer that ends first |
| Bdf.ReadCharCount | main.cpp:268-277 | the CHARS step of main equals ReadCountAt, which CharCountLine characterises |
| Bdf.ReadCountAt | main.cpp:268-277 | the CHARS line as a function of the buffer and position; CharCountLine states its cases |
| Bdf.CharCountLine | main.cpp:268-277 | `pos` always moves past the line `cut` gave; `count` is the parsed value truncated to size_t on a complete CHARS line, a parse failure fails, and otherwise `count` stays 0 |
| Bdf.GlyphStep | main.cpp:294-337 | one glyph-loop line as the source's `cmp` chain, equal to the line function |
| Bdf.ReadGlyphs | main.cpp:286-340 | the glyph loop over `current`, `onBitmap` and `fontList` equals its specification |
| Bdf.ReadGlyphsFrom | main.cpp:286-340 | the glyph loop from a position until no complete line is left; ReadGlyphsKeepsOk states its invariant |
| Corpus.ScanFromBounded | main.cpp:235-240 | the scan only appends, and every code it appends is below 2^21 |
| Corpus.ScanBounded | main.cpp:233-240 | every scanned code point is below 2^21 |
| Corpus.ScanCorpus | main.cpp:233-240 | the scan loop over `c_str()` equals its specification |
| Corpus.ScanFrom | main.cpp:235-240 | the scan loop from pointer p; ScanFromBounded, ScanEncoded and StallAfterAscii state what it yields |
| Corpus.Scan | main.cpp:233-240 | the scan of the whole corpus; ScanOfEncodeAll states that it inverts the encoding and ScanBounded bounds its codes |
| Corpus.ScanStep | main.cpp:237-239 | scanning the bytes of `convert(c)` appends c and moves past them |
| Corpus.ScanAtNul | main.cpp:235 | the scan stops at once on the NUL |
| Corpus.ScanEncoded | main.cpp:235-240 | scanning a run of `convert` outputs finds exactly those code points, in order |
| Corpus.ScanOfEncodeAll | main.cpp:233-240 | the scan of the concatenated encodings of code points 1..0xFFFF is that list |
| Corpus.ScanStopsAtNul | main.cpp:235 | when the text before the first NUL is `convert` outputs of 1..0xFFFF, nothing after that NUL is read |
| Corpus.LeadConsumesNul | main.cpp:76-79 | a two-byte lead just before a NUL takes the NUL as its continuation byte, and the scan goes on to decode the byte after it |
| Corpus.StallAfterAscii | main.cpp:235-240 | after plain ASCII, a continuation lead byte makes the scan stall |
| Corpus.ContinuationStalls | main.cpp:235-240 | a continuation byte in lead position after ASCII text leaves the pointer in place: it never advances, and the loop appends to `useCodeList` until allocation fails |
| Order.Insert | main.cpp:343 | inserting adds one element, which heads the result or follows the old head |
| Order.SortByCode | main.cpp:343 | the sort keeps the length |
| Order.InsertSorted | main.cpp:343 | inserting into a sorted sequence keeps it sorted by code |
| Order.InsertPermutes | main.cpp:343 | inserting adds exactly that glyph to the multiset |
| Order.SortSorted | main.cpp:343 | the result is in non-decreasing code order |
| Order.SortPermutes | main.cpp:343 | the result holds the same glyphs, each as often as before |
| Order.InsertSplit | main.cpp:343 | the inserted glyph lands after exactly the glyphs with smaller codes |
| Order.InsertInPlace | main.cpp:343 | one insertion step in place leaves the prefix alone and inserts a[i] into the sorted tail |
| Order.SortInPlace | main.cpp:343 | sorting `fontList`'s storage in place leaves the sorted sequence of the old contents |
| Order.CodesPermute | main.cpp:343 | equal glyph multisets have equal code multisets |
| Order.AscendingUnique | main.cpp:343 | two ascending sequences with the same values are equal |
| Order.SortedCodesDetermined | main.cpp:343 | any sorted permutation, stable or not, has the same sequence of codes as the modelled sort |
| Atlas.HeaderBytes | main.cpp:20-26 | the header is 8 bytes |
| Atlas.HintBytes | main.cpp:29-39 | a record is 12 bytes |
| Atlas.HintRoundTrip | main.cpp:29-39 | reading a record back gives every field as stored |
| Atlas.HintOf | main.cpp:356-364 | the record filled from a glyph; HintFields and AtlasRecord state its narrowed fields |
| Atlas.IndexFrom | main.cpp:352-368 | the records are 12 bytes per glyph |
| Atlas.IndexAt | main.cpp:352-368 | record i describes glyph i and points at the start offset plus the data sizes of glyphs 0..i-1 |
| Atlas.PackedLength | main.cpp:376-385 | a glyph contributes exactly byteStep·height bytes |
| Atlas.PackedRows | main.cpp:376-384 | the packed rows of a glyph; PackedLength and PackedAt state their size and every byte |
| Atlas.PackedAt | main.cpp:376-384 | byte k of row r is `(bitmap[r] >> 8k) & 0xff` |
| Atlas.PackedPrefix | main.cpp:376-384 | the packing of fewer rows is a prefix of the packing of more |
| Atlas.GlyphData | main.cpp:376-386 | a glyph's written bytes number byteStep·height |
| Atlas.ScratchSize | main.cpp:370 | `((fontSize + 7) >> 3) * fontSize` in size_t arithmetic; FitsWithinPixelSize bounds it from below |
| Atlas.Fits | main.cpp:370-384 | a glyph whose rows exist and whose data fits the scratch buffer; FitsWithinPixelSize gives a sufficient condition |
| Atlas.FitsWithinPixelSize | main.cpp:370 | a glyph no larger than the pixel size fits the `((fontSize+7)>>3)*fontSize` scratch buffer |
| Atlas.DataFromOk | main.cpp:369-387 | the bitmaps are written exactly when every glyph fits, and they total the sum of the data sizes |
| Atlas.DataFrom | main.cpp:369-387 | the bitmap data of all glyphs; DataFromOk and DataAt state when it exists, its size and where each glyph sits |
| Atlas.DataAt | main.cpp:372-387 | glyph i's bytes sit right after those of the glyphs before it |
| Atlas.AtlasLength | main.cpp:348-387 | the file is written exactly when every glyph fits, and is then 8 + 12n + the data sizes bytes long, which is the final `dataOffset` |
| Atlas.Serialize | main.cpp:345-387 | the whole file; AtlasLength, AtlasHeader, AtlasRecord and AtlasGlyph state its length, header, records and bitmaps |
| Atlas.AtlasHeader | main.cpp:348-351 | the header holds the magic "FONT", the count modulo 2^16, the pixel size modulo 2^8 and a zero byte |
| Atlas.AtlasRecord | main.cpp:352-368 | record i describes glyph i with `dataOffset` = 8 + 12n + the data sizes of glyphs 0..i-1 (modulo 2^32), and reads back as that record |
| Atlas.AtlasGlyph | main.cpp:352-387 | at the offset record i gives, the file holds glyph i's packed rows |
| Atlas.PackGlyph | main.cpp:375-384 | the pointer loop fills the front of the scratch buffer with the glyph's packed rows and nothing past them |
| Atlas.PackRow | main.cpp:379-383 | the inner loop writes the row's `byteStep` low bytes, least significant first, and nothing else |
| Atlas.WriteIndex | main.cpp:352-368 | the index loop writes the records and ends with `dataOffset` = start + total data size |
| Atlas.WriteData | main.cpp:369-387 | the packing loop writes each glyph's packed rows in order |
| Atlas.WriteAtlas | main.cpp:345-387 | header, index loop and packing loop together produce the specified file, and the final `dataOffset` equals the number of bytes written |
| Converter.CollectKeepsWanted | main.cpp:233-340 | after reading, every kept glyph was asked for by the corpus and is well formed, and the pixel size fits an `int` |
| Converter.Collect | main.cpp:233-340 | the reading stages composed; CollectKeepsWanted states what the kept glyphs satisfy |
| Converter.ConvertFont | main.cpp:233-387 | the whole conversion; ConvertSucceeds, ConvertHeader, ConvertRecord, ConvertRecordsAscend and ConvertBitmap state the atlas it produces |
| Converter.ListedSorted | main.cpp:343 | the sorted list is ordered by code and is a permutation of the kept glyphs |
| Converter.ListedKept | main.cpp:343 | sorting keeps every glyph well formed and wanted |
| Converter.ConvertSucceeds | main.cpp:233-387 | after reading succeeds, the atlas is written exactly when every glyph fits, and it is then 8 + 12n + the data sizes bytes long |
| Converter.ConvertSmallGlyphs | main.cpp:370 | a font whose kept glyphs are no larger than its pixel size is always written |
| Converter.ConvertHeader | main.cpp:348-351 | the atlas header carries the magic, the number of kept glyphs and the pixel size |
| Converter.ConvertRecord | main.cpp:352-368 | record i of the atlas is the i-th sorted glyph's record with its running offset |
| Converter.ListedWanted | main.cpp:311-316 | each listed glyph is well formed and its code is in the wanted list |
| Converter.HintFields | main.cpp:356-364 | a record narrows the code to 16 bits and the offset to 32 bits, and keeps byteStep == ceil(width / 8) |
| Converter.ConvertRecordsAscend | main.cpp:343-368 | when the corpus holds no code point above 0xFFFF, the records' codes ascend |
| Converter.RecordCode | main.cpp:358 | a record's code reads back as its glyph's code when every wanted code fits 16 bits |
| Converter.ConvertBitmap | main.cpp:369-387 | at the offset record i gives, the atlas holds the i-th sorted glyph's rows, low byte first |
| Converter.ReadFont | main.cpp:233-340 | the scan, properties, CHARS and glyph loops equal the reading specification |
| Converter.Run | main.cpp:233-387 | main from the corpus scan to the last write, with the in-place sort, produces exactly the specified atlas |

## Left out

- File handling is not modelled: argument checks, `.bdf` extension check, file existence, `ifstream`/`seekg`/`tellg` reads and the `ofstream` writes (main.cpp:183-232, 346-347). The BDF text and the corpus are inputs; the output is the returned byte sequence.
- Console diagnostics (file size, encoding name, counts, `find:`, output size) are not modelled.
- `CHARSET_REGISTRY`/`encode` and the STARTCHAR counter `cnt` are diagnostic only. The model matches the keyword, so the `cmp` order is unchanged, but stores nothing.
- `font::dataOffset` is dropped: it is assigned at main.cpp:366 and never read.
- Fields of `current` that the source leaves indeterminate until a BBX, DWIDTH or ENCODING line sets them start at 0 in the model.
- Allocation failures other than `std::length_error` from `reserve`/`resize` are not modelled: memory exhaustion is outside the model.
- Order.SortInPlace: `std::sort` is not stable and its internals are unspecified. The model sorts with a stable insertion sort on the array. Order.SortedCodesDetermined shows that every sorted permutation has the same code sequence. Serialize's lemmas hold for any glyph list, but the bytes of glyphs with equal codes may come out in another order.
- Atlas.Serialize: when a glyph does not fit, the whole conversion is one failure. The source has already written the header, all records and the bitmaps of the glyphs before the one that does not fit, and that partial file is not modelled.
- Atlas.WriteIndex: `dataOffset` is a `size_t` and is left unbounded; it would wrap only beyond 2^64 bytes of bitmap data. The 32-bit narrowing into the record is modelled.
- Converter.ConvertRecordsAscend: the records' codes ascend only when every wanted code point is at most 0xFFFF. A larger code is narrowed to 16 bits in the record and can break the order.
- Numbers.StoI: locale-dependent white space and digit classes are not modelled; the "C" locale is assumed.
- The raw struct writes assume a little-endian host without padding. That byte layout is written out explicitly rather than derived from a memory model.
