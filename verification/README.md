# ngl_utils core, modelled in Dafny

ngl_utils converts images and fonts into integer arrays and C source text for
the NGL embedded graphics library. This project models the parts of it that
compute, as pure functions, and proves what they do:

- `rle.dfy` (`Rle`): the word-level run-length codec `rlem_encode` /
  `rlem_decode`. It has the two-state match/mismatch scanner, its tokens and
  the decoder. It also states exactly when decode∘encode is the identity.
- `color.dfy` (`Color`): `NColor.fromARGB` / `fromRGB` on 32-bit
  bit-vectors.
- `bitmap.dfy` (`Bitmap`): `NGL_Bitmap` and the bitmap pipeline of
  `NBitmapsConverter.convertQImage`. That covers column-major flattening, the
  `compressData` dispatch, the byte-length rule and `formatedData`.
- `glyph.dfy` (`Glyph`): monochrome glyph images. `font_bmpCode` packs rows
  MSB-first into bytes, and `_constructQImage` unpacks them.
- `fontparser.dfy` (`FontParser`): `NFontParser`. It parses the glyph
  header lines, the hex data lines, the start/end characters and the name,
  builds glyph images, and runs the offset loop of `parseFile`.
- `nfont.dfy` (`Nfont`): `NGL_Font`. This covers:
  - `add_char`, `get_char`, `get_chars_list` and `clear_char_set`;
  - `code_size_calc` and `formatName`;
  - the offset accumulation of `NFontConverter.convertQFont`, whose final
    code generation is `Codegen.ConvertQFontCode`.
- `codegen.dfy` (`Codegen`): the C text generators, mainly
  `NFontCodeGen._nchar_code`, `_nchars_desc` and `font`. It also covers
  `NCodeGen._generatePointersCode` and `_removeDuplicateObjects`. It proves
  that the generated glyph text parses back to the glyphs.
- `editor.dfy` (`Editor`): the glyph editor:
  - `BitmapManipulator`'s add, remove and shift of columns and rows;
  - `ImageModel.invertData`;
  - the character-map cell key and `_chr`;
  - `NFontEditWidget._reGenerateFont`.
- `stylesheet.dfy` (`Stylesheet`): `QStyleParser.getColor` and
  `getColorStyleSheet`.
- `messages.dfy` (`Messages`): the greedy word wrapper `_format`.
- `legacy.dfy` (`Legacy`): the superseded copies in `nconverts.py`, only
  where they behave differently. Its `NColor.fromARGB` / `fromRGB`
  (`nconverts.py` lines 18-31) use the same formulas as the bitmap
  converter's, and its `_constructQImage` (lines 265-282) unpacks bits as
  the parser's does. `Color` and `Glyph.Unpack` therefore model them too.
- `results.dfy` (`Results`) and `pytext.dfy` (`PyText`) are shared support.
  `Results` holds `Option`, `Result` and the Python exceptions the code can
  raise. `PyText` holds the Python string built-ins the code relies on:
  - `find`/`rfind`, slicing with negative indices;
  - `replace`, `split`, `splitlines`;
  - `int()` and `hex()`.

Qt images are replaced by data:
- monochrome images (`Glyph.Mono`) are rows of booleans, and keep Qt's
  null-image rule;
- ARGB images (`Bitmap.Image`) are rows of 32-bit pixels;
- colours are integer triples.

A pixel counts as lit when `pixel & 0xFFFFFF != 0` (or `qGray != 0` in the
editor), and that is exactly what the boolean records. Python exceptions
become `Failure` values that carry the exception kind.

The model follows the code, not descriptions of what it should do:
- There is no automatic choice of the smallest encoding; `compressData`
  dispatches on an exact string.
- There is no alpha compositing.
- Run counts are neither capped nor split: a match run of 0x8000 or more
  words produces a count the decoder misreads (`Rle.LongRunMisread`).
- A token that runs past the end of the stream raises `IndexError`; there is
  no separate malformed-stream error.
- `[5,5,5,5,2,2,9,9,9]` encodes to two match tokens followed by the
  obligatory final literal of the last three words (`Rle.ThreeRuns`). It is
  not three match tokens.
- `[1,2,3,4]` loses its first word (`Rle.DropsFirstOfFour`).
- `[0x8002,11,22,3,99]` decodes to `[11,22]`, because tokens that start in
  the last three positions are ignored (`Rle.TrailingTokenIgnored`).

## Model

| member | source | states |
|---|---|---|
| Rle.WithFlag | ngl_utils/rle.py:42 | `0x8000 \| c` always has bit 15 set, and equals `c + 0x8000` for counts below 0x8000 |
| Rle.ClearFlag | ngl_utils/rle.py:77 | clearing bit 15 of a flagged header gives the count that, with the flag, makes the header |
| Rle.Copies | ngl_utils/rle.py:84-85 | a match token expands to exactly `count` copies of its value |
| Rle.EncodeTokens | ngl_utils/rle.py:13-16 | the encoder fails with IndexError exactly when the input has fewer than two words, since `data[0]` and `data[1]` are read unconditionally |
| Rle.Encode | ngl_utils/rle.py:6-61 | encoding fails exactly on inputs shorter than two words |
| Rle.Decode | ngl_utils/rle.py:66-91 | a successful decode has at least two words, because `out_list[1]` is read after the loop |
| Rle.DecodeShort | ngl_utils/rle.py:72-88 | an input of three words or fewer decodes to nothing and then raises IndexError at `out_list[1]` |
| Rle.EncodeShort | ngl_utils/rle.py:19-59 | for 2 or 3 words the loop never runs and the output is `[0x8000\|n]` followed by the input verbatim |
| Rle.EncodeEnding | ngl_utils/rle.py:19-59 | for n ≥ 4 words the output always ends with `0x8003` and the last three input words |
| Rle.FinalStart | ngl_utils/rle.py:23-56 | after the last iteration `start_index` is n−3 |
| Rle.InvAt | ngl_utils/rle.py:19-56 | at every loop index the emitted tokens expand to the input before the pending run or literal, except for a lone word the scan has given up on |
| Rle.InvStep | ngl_utils/rle.py:21-56 | one iteration of the match/mismatch loop body preserves that scanner invariant |
| Rle.StepMismatchLast | ngl_utils/rle.py:48-55 | at the final iteration a pending literal of count 1 is discarded by the `count > 1` guard, and a longer one is emitted |
| Rle.ScanPrefix | ngl_utils/rle.py:19-56 | the scanned tokens expand to the input minus its last three words, with the word at n−4 missing exactly when it was dropped |
| Rle.ScanExpand | ngl_utils/rle.py:19-59 | the tokens plus the final literal expand to the input with the dropped word removed |
| Rle.ScanDecodable | ngl_utils/rle.py:26-51 | every scanned token fits the decoder's reading when the input is shorter than 0x8003 words |
| Rle.DecodeHead | ngl_utils/rle.py:74-86 | a flagged header copies the next `count` words and advances count+1; an unflagged one repeats the next word `count` times and advances 2 |
| Rle.DecodeSerialized | ngl_utils/rle.py:66-91 | decoding the serialised tokens that end in the three-word literal gives their expansion |
| Rle.RoundTrip | ngl_utils/rle.py:6-91 | for 3 ≤ n < 0x8003 words, decode(encode(d)) is d with the dropped word removed |
| Rle.RoundTripIdentity | ngl_utils/rle.py:48-55 | for 3 ≤ n < 0x8003 words, decode(encode(d)) == d if and only if the encoder does not drop the word at n−4 |
| Rle.EncodeConstant | ngl_utils/rle.py:13-59 | n ≥ 4 copies of v encode to exactly `[n−3, v, 0x8003, v, v, v]` |
| Rle.DecodeConstant | ngl_utils/rle.py:72-86 | `[n−3, v, 0x8003, v, v, v]` decodes back to n copies of v when n−3 < 0x8000 |
| Rle.LongRunMisread | ngl_utils/rle.py:26-27 | a run of 0x8003 equal words encodes with the raw count 0x8000, which the decoder reads as a literal header, so decoding does not give the run back |
| Rle.MisreadRun | ngl_utils/rle.py:76-86 | the stream the encoder writes for a run of 0x8003 equal words does not decode back to that run |
| Rle.DropsFirstOfFour | ngl_utils/rle.py:48-55 | `[1,2,3,4]` encodes to `[0x8003,2,3,4]`, which decodes to `[2,3,4]` |
| Rle.DropsAfterRun | ngl_utils/rle.py:48-55 | `[7,7,1,2,3,4]` encodes to `[2,7,0x8003,2,3,4]`, losing the 1 |
| Rle.ThreeRuns | ngl_utils/rle.py:13-59 | `[5,5,5,5,2,2,9,9,9]` encodes to `[4,5,2,2,0x8003,9,9,9]` |
| Rle.TrailingTokenIgnored | ngl_utils/rle.py:72 | tokens starting in the last three positions are not read: `[0x8002,11,22,3,99]` decodes to `[11,22]` |
| Rle.LiteralOverrun | ngl_utils/rle.py:76-80 | a literal header whose count runs past the end raises IndexError |
| Color.FromArgb | ngl_utils/nbitmap/converter.py:22-27 | the result is below 0x10000; bits 0–4 come from input bits 0–4, bits 6–10 from 10–14, bits 12–15 from 20–23; bit 5 is always 0; bit 11 is input bit 15 or bit 19 |
| Color.AlphaIgnored | ngl_utils/nbitmap/converter.py:24-27 | the alpha byte never affects the colour word |
| Color.FromRgb | ngl_utils/nbitmap/converter.py:30-35 | for every channel triple, the result is below 0x10000. Bits 0–4 are blue's bits 0–4, bit 5 is 0, and bits 6–10 are green's bits 0–4. Bit 11 is red's bit 0 or green's bit 5. Bits 12–15 are red's bits 1–4. Higher channel bits are dropped |
| Color.SmallChannels | ngl_utils/nbitmap/converter.py:32-35 | channels that fit their fields, with green below 32 or red even, pack to r·2048 + g·64 + b |
| Color.FullChannels | ngl_utils/nbitmap/converter.py:32-35 | full-scale 8-bit channels keep their low bits: (255,0,0) ↦ 0xF800, (0,255,0) ↦ 0x0FC0, (0,0,255) ↦ 0x001F |
| Color.ArgbIsRgb | ngl_utils/nbitmap/converter.py:22-35 | `fromARGB(x)` equals `fromRGB` of the red channel shifted by 3, the green shifted by 2 and the blue channel |
| Color.GreenOverlapsRed | ngl_utils/nbitmap/converter.py:32-33 | the green field overlaps the red one at bit 11: green 32 and red 1 give the same word |
| Bitmap.NewBitmap | ngl_utils/nbitmap/nbitmap.py:8-18 | a fresh bitmap has colour depth 16, word size 16, type `uint16_t`, empty data and code, and the given name, size and compression |
| Bitmap.Name | ngl_utils/nbitmap/nbitmap.py:21-22 | the name getter turns every space into `_` and changes nothing else |
| Bitmap.Flatten | ngl_utils/nbitmap/converter.py:56-60 | flattening is column-major: the word at x·height + y is the colour word of pixel (x, y), and there are width·height words |
| Bitmap.ColumnsIndex | ngl_utils/nbitmap/converter.py:56-60 | the column-major sequence of the first n columns has n·height words, each at its x·height + y position |
| Bitmap.AnyWide | ngl_utils/nbitmap/converter.py:68 | the list test is true exactly when some word exceeds 0xFF |
| Bitmap.ByteLength | ngl_utils/nbitmap/converter.py:66-69 | the byte length is the word count, doubled exactly when some word exceeds 0xFF |
| Bitmap.CompressData | ngl_utils/nbitmap/converter.py:77-100 | `'RLE'` stores the encoder's output and fails on fewer than two words. `'JPG'` stores the JPEG bytes (each ≤ 0xFF) with word size 8 and colour depth 0. For `'JPG'` nothing else in the bitmap changes. Any other string keeps the bitmap unchanged |
| Bitmap.CompressRoundTrip | ngl_utils/nbitmap/converter.py:79-81 | RLE-compressed bitmap data decodes back to the column-major words, minus the word the encoder may drop |
| Bitmap.ConvertImage | ngl_utils/nbitmap/converter.py:53-69 | conversion fails only for RLE on fewer than two pixels. The result keeps the image's width and height, the name, the compression choice, data type `uint16_t` and empty code; colour depth and word size stay 16 unless `'JPG'` is chosen. It records the length in words and the byte-length rule. Without compression the data are the column-major colour words. With `'RLE'` they are the encoding of those words. With `'JPG'` conversion always succeeds and the data are the JPEG bytes, with word size 8 and colour depth 0 |
| Bitmap.FormatData | ngl_utils/nbitmap/nbitmap.py:83-100 | the formatted data are the `'\t'`-prefixed, `'\n'`-terminated lines of consecutive groups of `width` words (at least 1), the last group possibly shorter |
| Bitmap.ChunkCount | ngl_utils/nbitmap/nbitmap.py:97-100 | there are ceil(n/width) lines, and none for empty data |
| Bitmap.ChunkWords | ngl_utils/nbitmap/nbitmap.py:89-91 | without tabs and line breaks the text is every word as `0x%x, `, in order |
| Glyph.Blank | ngl_utils/nfont/cparser.py:115-116 | a new filled image has all pixels unlit, and is Qt's null image when a side is not positive |
| Glyph.PackRow | ngl_utils/nfont/converter.py:132-145 | a row packs into ceil(width/8) bytes, each at most 0xFF |
| Glyph.PackRowBit | ngl_utils/nfont/converter.py:135-136 | bit 7 − (c mod 8) of byte c div 8 is set exactly when pixel c is lit |
| Glyph.PackRowPadding | ngl_utils/nfont/converter.py:141-145 | the unused low bits of a row's last byte are 0 |
| Glyph.BmpCodeOf | ngl_utils/nfont/converter.py:120-150 | `font_bmpCode` gives one packed row per image row, in order, each ceil(width/8) bytes |
| Glyph.BmpSize | ngl_utils/nfont/converter.py:150 | the reported size height·((width+8) div 8) exceeds the packed byte count by `height` exactly when width is a multiple of 8 |
| Glyph.Unpack | ngl_utils/nfont/cparser.py:114-131 | unpacking gives a valid image of the given size, Qt's null image for a non-positive side, and fails exactly when there are fewer than height·ceil(width/8) bytes |
| Glyph.UnpackPixel | ngl_utils/nfont/cparser.py:118-128 | pixel (c, y) is lit exactly when bit 7 − (c mod 8) of byte y·ceil(width/8) + c div 8 is set |
| Glyph.UnpackPack | ngl_utils/nfont/cparser.py:114-131 | unpacking the flattened `font_bmpCode` rows with the same width and height gives back every glyph image |
| FontParser.IntOfText | ngl_utils/nfont/cparser.py:89-99 | `int(str(i))` gives back `i` for every integer, negative ones included |
| FontParser.IntOfRejects | ngl_utils/nfont/cparser.py:89-99 | `int()` raises ValueError on a field holding an ASCII character other than whitespace, a sign, a decimal digit or `_` |
| FontParser.HeaderHeight | ngl_utils/nfont/cparser.py:90-94 | without `l@` the height stays 0; a failure is a ValueError |
| FontParser.HeaderWidth | ngl_utils/nfont/cparser.py:96-100 | without ` (` or `bits wide` at a positive index the width stays 0; a failure is a ValueError |
| FontParser.ParseCharInfoSpec | ngl_utils/nfont/cparser.py:81-104 | a line gives no header exactly when the last `' ` is at an index ≤ 0. Otherwise the character is the text from the first ` '` (+2) to the last `' `, with the parsed height and width |
| FontParser.NoQuoteNoHeader | ngl_utils/nfont/cparser.py:70-77 | a line without a quote is never a header, which is why the ineffective `i += height` does no harm |
| FontParser.ColumnsSkipAll | ngl_utils/nfont/cparser.py:70-77 | lines that are not headers are passed over by the loop |
| FontParser.HexOfHex | ngl_utils/nfont/cparser.py:108-111 | `int(hex(n), 16)` gives back `n` for every non-negative `n` |
| FontParser.HexOfRejects | ngl_utils/nfont/cparser.py:108-111 | `int(tok, 16)` raises ValueError on a token holding an ASCII character other than whitespace, a sign, a hex digit, `x`/`X` or `_` |
| FontParser.TokenBytes | ngl_utils/nfont/cparser.py:109-111 | every token containing `0x` gives one value, in order |
| FontParser.ParseCharData | ngl_utils/nfont/cparser.py:106-112 | an empty range gives no data. Line indices outside the list raise IndexError and bad tokens raise ValueError |
| FontParser.PaintByte | ngl_utils/nfont/cparser.py:122-128 | painting one byte lights pixel 8x+i of row y, for i < 8 inside the width, exactly when bit 7−i is set, and changes no other pixel |
| FontParser.PaintRow | ngl_utils/nfont/cparser.py:118-128 | painting a row fails with IndexError exactly when the data run out before that row ends |
| FontParser.ConstructQImage | ngl_utils/nfont/cparser.py:114-131 | the pixel loops build exactly the image `Glyph.Unpack` describes |
| FontParser.ParseGlyph | ngl_utils/nfont/cparser.py:73-74 | a parsed glyph keeps the header's character, width and height, and its image is valid |
| FontParser.ParseColumnsCount | ngl_utils/nfont/cparser.py:70-79 | a successful parse finds exactly one glyph per header line |
| FontParser.GlyphThenRest | ngl_utils/nfont/cparser.py:70-77 | a header line contributes its glyph, read from the following `height` lines, ahead of the glyphs parsed from the next line on |
| FontParser.Description | ngl_utils/nfont/cparser.py:41-43 | the description is the text from `// Font information` on |
| FontParser.ParseName | ngl_utils/nfont/cparser.py:45-48 | the name is the text between `NGL_Font`+9 and one before the last `= {` |
| FontParser.ParseStartEndChars | ngl_utils/nfont/cparser.py:50-59 | the pair is (index after the last `    '`, the character there), not (start character, end character) |
| FontParser.StartEndPair | ngl_utils/nfont/cparser.py:50-59 | for a description listing `'a'` then `'z'` the result is (index of `z`, `"z"`) |
| FontParser.Entries | ngl_utils/nfont/cparser.py:33-37 | each parsed glyph becomes an entry with no code and the size `font_bmpCode` reports for its image |
| FontParser.ParseFile | ngl_utils/nfont/cparser.py:19-39 | parsing fails exactly when the glyph parse fails. Otherwise the font has the parsed name and adds the glyphs in parse order at running offsets |
| FontParser.EntriesRecords | ngl_utils/nfont/cparser.py:33-37 | every character of a parsed file has code None, and its offset is the sum of the sizes of the glyphs before its last occurrence |
| Nfont.NewFont | ngl_utils/nfont/nfont.py:8-12 | a new font has the given name and no characters |
| Nfont.AddChar | ngl_utils/nfont/nfont.py:14-18 | `add_char` stores the record under its key, replacing any earlier one, and adds only that key |
| Nfont.AddCharFrame | ngl_utils/nfont/nfont.py:14-18 | `add_char` leaves every other key's record unchanged |
| Nfont.GetChar | ngl_utils/nfont/nfont.py:20-22 | `get_char` returns a record exactly when the key is present, and that record is the key's |
| Nfont.ClearCharSet | ngl_utils/nfont/nfont.py:30-31 | after `clear_char_set` no character is present |
| Nfont.LessTotal | ngl_utils/nfont/nfont.py:27-28 | Python's string order used by `sorted` is total on distinct keys |
| Nfont.LessTransitive | ngl_utils/nfont/nfont.py:27-28 | and transitive |
| Nfont.Insert | ngl_utils/nfont/nfont.py:27-28 | inserting a fresh record into a sorted duplicate-free list keeps it sorted and duplicate-free, and adds exactly that record |
| Nfont.CharsList | ngl_utils/nfont/nfont.py:27-28 | `get_chars_list` returns every stored record once, in ascending key order |
| Nfont.CharsListUnique | ngl_utils/nfont/nfont.py:27-28 | two sorted listings of the same records are equal, so the listing is determined by the font |
| Nfont.ListsFontUnique | ngl_utils/nfont/nfont.py:27-28 | a font has exactly one sorted, duplicate-free listing of its records |
| Nfont.CodeSize | ngl_utils/nfont/nfont.py:43-44 | a record's size term is rows·len(first row) + 3, and fails when the code is None or empty |
| Nfont.CodeSizeSumValue | ngl_utils/nfont/nfont.py:43-44 | summing over a duplicate-free listing gives the sum over its keys |
| Nfont.CodeSizeCalc | ngl_utils/nfont/nfont.py:40-47 | `code_size_calc` is 40 plus the sum of the per-character terms, and fails exactly when some character has no usable code |
| Nfont.FormatName | ngl_utils/nfont/nfont.py:50-55 | a formatted font name never contains a space |
| Nfont.FormatNameParts | ngl_utils/nfont/nfont.py:50-55 | the name is the family, with A–Z lower-cased and spaces as `_`, then `_size`, then `_bold` or `_normal` |
| Nfont.FormatNameWeight | ngl_utils/nfont/nfont.py:50-55 | the name ends in `_bold` exactly when `bold` is true |
| Nfont.AddEntries | ngl_utils/nfont/converter.py:55-61 | the offset loop adds each character at the running sum of the sizes before it; the keys are the old ones plus the entries' |
| Nfont.AddAllKeys | ngl_utils/nfont/converter.py:55-61 | after the loop the font's keys are its old keys and the added characters |
| Nfont.AddAllUntouched | ngl_utils/nfont/converter.py:55-61 | a character not among the entries keeps its record |
| Nfont.AddAllOffsets | ngl_utils/nfont/converter.py:55-61 | the last entry for a character is what the font keeps, at the sum of the sizes of all entries before it |
| Nfont.GlyphEntries | ngl_utils/nfont/converter.py:56-58 | each character gets its image, its `font_bmpCode` rows as code, and the reported size |
| Nfont.ConvertQFont | ngl_utils/nfont/converter.py:53-61 | the font built by `convertQFont`'s loop has the given name and exactly one key per distinct character of `chars_sets` |
| Nfont.ConvertQFontCoded | ngl_utils/nfont/converter.py:53-61 | every converted record holds code, and the font is empty exactly when `chars_sets` is |
| Nfont.ConvertQFontOffsets | ngl_utils/nfont/converter.py:55-61 | a character's offset is the sum of the sizes of the characters processed before its last occurrence |
| Codegen.HeaderRoundTrip | ngl_utils/ncodegenerator.py:208-212 | for any single character and non-negative rows and width, parsing the header `_nchar_code` writes gives back that character, the rows as height, and the width |
| Codegen.HeaderHeightOf | ngl_utils/ncodegenerator.py:208-212 | the header's `l@` field parses back to the row count |
| Codegen.HeaderWidthOf | ngl_utils/ncodegenerator.py:208-212 | the header's `( … bits wide` field parses back to the width |
| Codegen.VisList | ngl_utils/ncodegenerator.py:221-228 | the visualisation has 8 characters per byte, each `*` or a space |
| Codegen.NcharCode | ngl_utils/ncodegenerator.py:207-232 | `_nchar_code` fails with TypeError exactly when the record has no code. Otherwise it is the header and one line per code row |
| Codegen.RowLineBytes | ngl_utils/ncodegenerator.py:214-230 | splitting an emitted row line at commas and parsing its `0x` tokens gives back the row's bytes, because the visualisation never contains `0x` |
| Codegen.CodeLinesData | ngl_utils/ncodegenerator.py:214-230 | parsing the emitted row lines with `_parseCharData` gives the concatenated row bytes |
| Codegen.BlockShape | ngl_utils/ncodegenerator.py:207-232 | a generated glyph block has height+2 lines: a header that parses to the record's character and size, then lines without quotes |
| Codegen.BlockGlyph | ngl_utils/ncodegenerator.py:207-232 | parsing a generated block gives the record's character, size, packed data and image |
| Codegen.NcharsCodeFails | ngl_utils/ncodegenerator.py:202-204 | the glyph code fails exactly when some record has no code |
| Codegen.NcharsRoundTrip | ngl_utils/ncodegenerator.py:202-232 | parsing the text `_nchars_code` generates, split into lines, gives every converted glyph back, in order |
| Codegen.DescSplit | ngl_utils/ncodegenerator.py:235-243 | `_nchars_desc` writes one `{width, height, offset},` line per record, in list order, then nothing |
| Codegen.FontFields | ngl_utils/ncodegenerator.py:184-191 | `font` substitutes six distinct `{…}` placeholders |
| Codegen.FillAbsent | ngl_utils/ncodegenerator.py:196-197 | a template without placeholders passes through the substitutions unchanged |
| Codegen.FillKey | ngl_utils/ncodegenerator.py:196-197 | a placeholder becomes its value when no later value contains a later placeholder |
| Codegen.FontTextEnds | ngl_utils/ncodegenerator.py:188-189 | the start and end characters are those of the first and last records of the sorted list |
| Codegen.FontTextFails | ngl_utils/ncodegenerator.py:183-199 | `font` fails exactly for an empty font (IndexError) or a record without code (TypeError) |
| Codegen.FontCode | ngl_utils/ncodegenerator.py:183-199 | the result is `font()`'s text for the font's unique sorted listing. It fails exactly when the font is empty or a record has no code, with TypeError exactly in the second case and IndexError otherwise |
| Codegen.ConvertQFontCode | ngl_utils/nfont/converter.py:46-66 | `convertQFont` builds the font of its loop, then generates `font()`'s text for it. That text fails, with IndexError, exactly when `chars_sets` is empty |
| Codegen.PointersCode | ngl_utils/ncodegenerator.py:95-106 | the loop writes ` &name,` per name in order, with a break after the names at positions 5, 11, 17, … |
| Codegen.PointersBreaks | ngl_utils/ncodegenerator.py:95-106 | for names without carriage returns the text holds exactly n div 6 breaks |
| Codegen.RemoveDuplicates | ngl_utils/ncodegenerator.py:109-111 | the result has the same elements and no duplicates |
| Editor.AddX | ngl_utils/nfont/editwidget.py:294-309 | the result is one column wider. With `'left'` every pixel moves one column right and column 0 is blank; otherwise positions are kept and the new last column is blank |
| Editor.RemoveX | ngl_utils/nfont/editwidget.py:312-319 | with width > 1 it drops column 0 for `'left'` and the last column otherwise; with width ≤ 1 it returns None |
| Editor.RemoveAddX | ngl_utils/nfont/editwidget.py:294-319 | removing the column just added on the same side gives the image back |
| Editor.AddY | ngl_utils/nfont/editwidget.py:322-331 | a blank bottom row is appended and every other pixel kept |
| Editor.RemoveY | ngl_utils/nfont/editwidget.py:334-335 | the bottom row is dropped, and a one-row image becomes the null image |
| Editor.RemoveAddY | ngl_utils/nfont/editwidget.py:322-335 | removing the row just added gives the image back |
| Editor.Shift | ngl_utils/nfont/editwidget.py:338-358 | `shift` keeps the size, and an unknown direction ends the program |
| Editor.ShiftPixels | ngl_utils/nfont/editwidget.py:345-357 | each pixel moves one step in the direction, pixels pushed off the edge are lost, and the vacated edge is blank |
| Editor.ShiftLeftRight | ngl_utils/nfont/editwidget.py:345-357 | shifting left then right loses exactly column 0 |
| Editor.Invert | ngl_utils/nfont/editwidget.py:113-121 | `invertData` flips the chosen pixel and no other |
| Editor.InvertTwice | ngl_utils/nfont/editwidget.py:113-121 | inverting the same pixel twice gives the image back |
| Editor.CellKeyParts | ngl_utils/nfont/editwidget.py:218 | the key of a point inside the grid is row·columns + column of its cell |
| Editor.Chr | ngl_utils/nfont/editwidget.py:274-278 | `_chr(k)` is None without a character set or for k past its end, the k-th character otherwise (Python's indexing for negative k) |
| Editor.ClickSelects | ngl_utils/nfont/editwidget.py:226-227 | a click inside the grid selects the character of its cell, or None past the end of the set |
| Editor.RegenEntries | ngl_utils/nfont/editwidget.py:563-566 | each listed character gets its `font_bmpCode` rows and reported size |
| Editor.RegenerateFont | ngl_utils/nfont/editwidget.py:560-570 | the font keeps its name and keys, and each character in ascending order gets its new code at the running sum of the sizes before it. The font code is `font()`'s text for the regenerated records in that order, which list the new font, and it fails exactly for an empty font |
| Editor.RegenPlaced | ngl_utils/nfont/editwidget.py:562-566 | the offsets are running sums in the listing's order |
| Stylesheet.Components | ngl_utils/nplugins/widgets/qstyle_parser.py:15-17 | the components are split at commas with spaces removed, so none holds a space or comma |
| Stylesheet.LineColor | ngl_utils/nplugins/widgets/qstyle_parser.py:15-18 | a matching line gives a colour exactly when it has three integer components, otherwise ValueError |
| Stylesheet.FirstColor | ngl_utils/nplugins/widgets/qstyle_parser.py:13-20 | the first line starting with `cid` decides; without one the colour is black |
| Stylesheet.GetColor | ngl_utils/nplugins/widgets/qstyle_parser.py:9-20 | `getColor` only ever fails with ValueError |
| Stylesheet.BackgroundNotColor | ngl_utils/nplugins/widgets/qstyle_parser.py:14 | a `background-color: rgb` line never matches `color: rgb`, since `cid` must start at column 0 |
| Stylesheet.NoMatchBlack | ngl_utils/nplugins/widgets/qstyle_parser.py:20 | with no matching line the result is (0, 0, 0), never a missing colour |
| Stylesheet.SheetShape | ngl_utils/nplugins/widgets/qstyle_parser.py:23-27 | `getColorStyleSheet` writes `{name}: rgb(R, G, B);` |
| Stylesheet.SheetRoundTrip | ngl_utils/nplugins/widgets/qstyle_parser.py:9-27 | reading the colour back from `getColorStyleSheet(c, n)` with `n + ': rgb'` gives c, for channels 0..255 and a one-line name without `(` |
| Messages.Pad | ngl_utils/messages.py:14 | the margin is `left` spaces, none when `left` ≤ 0 |
| Messages.RunRenders | ngl_utils/messages.py:16-27 | the loop's text and cursor are those of rendering the greedy line layout |
| Messages.FormatLayout | ngl_utils/messages.py:6-29 | the output renders a greedy layout whose lines hold exactly the input's words, in order |
| Messages.LayoutGreedy | ngl_utils/messages.py:18-20 | every line is non-empty, a word joins a line exactly when it fits, and every break was forced |
| Messages.FormatWords | ngl_utils/messages.py:16-27 | the whitespace-split words of the output equal those of the input, in order |
| Messages.FormatMargins | ngl_utils/messages.py:13-19 | the output starts with the margin, and so does every line after a `'\n'` |
| Messages.FormatBlank | ngl_utils/messages.py:13-16 | an empty or all-whitespace message gives exactly the margin |
| Messages.FormatWidth | ngl_utils/messages.py:18-27 | every output line fits in right_margin+1 characters or holds a single word |
| Messages.FormatBreaks | ngl_utils/messages.py:18-20 | a break comes before a word only if it would not have fit on the line before |
| Messages.LineBound | ngl_utils/messages.py:18-24 | a line with two or more words ends at most at right_margin+1, because the separating space is not counted |
| Messages.FormatOverhang | ngl_utils/messages.py:18-27 | `"ab cd"` with margins 0 and 4 stays on one line of 5 characters |
| Legacy.FontBmpCode | ngl_utils/nconverts.py:125-156 | the superseded `font_bmpCode` packs the same rows, and fails with NameError for a zero-height image (`row_code` unbound) |
| Legacy.FontBmpCodeSize | ngl_utils/nconverts.py:156 | its size is rows·len(last row) = height·ceil(width/8), the exact packed count, which is `height` less than the newer formula when width is a multiple of 8 |
| Legacy.CompressedCodes | ngl_utils/nconverts.py:412-413 | the three compression choices read back as `'0'`, `'1'` and `'2'` |
| Legacy.CompressedOther | ngl_utils/nconverts.py:412-413 | a stored value containing none of the three names reads back unchanged |
| Legacy.ConvertQImage | ngl_utils/nconverts.py:358-373 | data are kept, column-major, only for `'compressed_None'`. Any other choice leaves no data, because `compressData` is a stub, and stores the choice without its `compressed_` prefix |
| Legacy.FormatData | ngl_utils/nconverts.py:459-473 | the text is one line per full group of 20 words, written `0x%04x, `, and a trailing partial group is dropped |
| Legacy.FullRowsCount | ngl_utils/nconverts.py:459-473 | the text has floor(n/20) lines |
| Legacy.FullRowsDropsTail | ngl_utils/nconverts.py:468-473 | it has one line fewer than the newer `formatedData` would write for 20 per line, exactly when n is not a multiple of 20 |
| Legacy.Hex4Value | ngl_utils/nconverts.py:466 | each `%04x` word reads back as its value |
| Legacy.Hex4Width | ngl_utils/nconverts.py:466 | words below 0x10000 are written with exactly four digits |

## Left out

- Qt painting, widgets, Designer plugins, dialogs and file I/O are left out. Images arrive as data.
- Template loading (`getResourceTemplate`) is a parameter. `NBitmapCodeGen.bitmap`'s template formatting is left out.
- `font_charBmp` is left out: it renders text with QPainter and crops by pixel sums. `Nfont.ConvertQFont` takes the renderer as a function.
- The JPEG encoder, temp file and `os.remove` of the `'JPG'` branch are left out. The JPEG bytes are an input of `Bitmap.CompressData`.
- `convertParsedBitmap`'s scaling and `convertParsedQFont`'s QFont construction are left out, because they are Qt.
- `error`, `inform` and `newline` are left out. They print and exit; `Editor.Shift` reports the exit as `SystemExit`.
- The `NGL_Bitmap` getters and setters are left out, since the bitmap is an immutable datatype whose fields are those properties. `codeSize` is left out because it returns the constant 0.
- The superseded `NGL_Bitmap` has no `data_len_in_words`, so `NBitmapCodeGen.bitmap` would fail on it. That call is not modelled.
- Qt's colour range check is left out. `QColor(r, g, b)` rejects channels outside 0..255, but `Stylesheet.LineColor` returns the integers as parsed.
- `PyText.IsSpace` treats only the ASCII whitespace characters (space, `\t`, `\n`, `\r`, `\v`, `\f`) as whitespace. Python's `str.split()` also splits at `\x1c`–`\x1f`, `\x85` and Unicode spaces.
- Pixels are booleans. The binarisation `addX`, `addY` and `shift` perform (`qGray != 0` becomes 1) is implicit in that choice, so grey levels are not modelled.
- Rle.RoundTrip: stated only for inputs shorter than 0x8003 words, because longer runs overflow the 15-bit count (see `Rle.LongRunMisread`).
- Stylesheet.SheetRoundTrip: stated only for names without `(` and without line breaks, since such names change where the component text is cut or how the sheet splits into lines.
- Codegen.NcharsRoundTrip: stated for records the converter makes (one character, not a line break, code equal to the packed image). The generator runs on any record, but only those parse back.
- Messages.FormatWidth: the bound is stated for a non-negative left margin; with a negative margin Python's `" " * left` is empty while the cursor starts below zero.
- Messages.FormatBreaks: stated for a non-negative left margin, for the same reason.
- `PyText.ParseIntBase` does not accept the underscores between digits that Python's `int()` allows (`'1_0'`). It also does not accept non-ASCII decimal digits such as `int('١٢') == 12`. Text this library generates contains neither. `FontParser.IntOfRejects` and `FontParser.HexOfRejects` are therefore stated only for ASCII characters other than `_`.
- Nfont.FormatNameParts: `PyText.Lower` lower-cases only `A`–`Z`, while Python's `str.lower()` folds every Unicode letter. For family `"Éa"` the source gives `"éa_12_normal"` and the model `"Éa_12_normal"`, and letters such as `'İ'` even change length. Full Unicode case mapping is outside the model. `Nfont.FormatName` (no spaces) and `Nfont.FormatNameWeight` (the `_bold`/`_normal` suffix) do not depend on it.
