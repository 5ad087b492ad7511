/** The C font-file parser `NFontParser` (`nfont/cparser.py`): it finds each
    glyph's header comment, reads the hex bytes on the lines below it,
    rebuilds the image from them, and adds the glyphs to a new font at
    running offsets. The file is given as its text. */
module FontParser {
  import opened Results
  import opened PyText
  import opened Glyph
  import Nfont

  // ---------------------------------------------------------------------------
  // Header lines
  // ---------------------------------------------------------------------------

  /** `_parseCharInfo`'s dictionary for a header line. */
  datatype CharInfo = CharInfo(ch: string, width: int, height: int)

  /** `int(text)`, with `ValueError` as the failure. */
  function IntOf(text: string): (r: Result<int>)
    ensures r.Failure? ==> r.error == ValueError
  {
    match ParseInt(text)
    case Some(v) => Success(v)
    case None => Failure(ValueError)
  }

  /** `int(str(i))` gives `i` back, for negative `i` too. */
  lemma IntOfText(i: int)
    ensures IntOf(IntText(i)) == Success(i)
  {
    ParseIntText(i);
  }

  /** `int(text)` raises `ValueError` when the text holds an ASCII
      character other than whitespace, a sign, a decimal digit or the `_`
      Python allows between digits (Python's `strip()` also counts
      `\x1c`-`\x1f` as whitespace). */
  lemma IntOfRejects(text: string, k: nat)
    requires k < |text| && !IntChar(text[k], 10)
    requires text[k] as int < 0x80 && !(0x1C <= text[k] as int <= 0x1F) && text[k] != '_'
    ensures IntOf(text) == Failure(ValueError)
  {
    ParseIntBaseRejects(text, 10, k);
  }

  /** The height field: the text between `l@` and the first ` '`, spaces
      removed, read as an integer; 0 when the line has no `l@`. */
  function HeaderHeight(line: string): (r: Result<int>)
    ensures Find(line, "l@") < 0 ==> r == Success(0)
    ensures r.Failure? ==> r.error == ValueError
  {
    var i := Find(line, "l@");
    if i >= 0 then IntOf(ReplaceChar(Slice(line, i + 2, Find(line, " '")), ' ', ""))
    else Success(0)
  }

  /** The width field: the text from two past ` (` to one before
      `bits wide`, read as an integer; 0 unless both markers occur after
      index 0. */
  function HeaderWidth(line: string): (r: Result<int>)
    ensures Find(line, " (") <= 0 || Find(line, "bits wide") <= 0 ==> r == Success(0)
    ensures r.Failure? ==> r.error == ValueError
  {
    var i := Find(line, " (");
    var i1 := Find(line, "bits wide");
    if i > 0 && i1 > 0 then IntOf(Slice(line, i + 2, i1 - 1)) else Success(0)
  }

  /** `_parseCharInfo(line)`: a line is a glyph header exactly when its last
      `' ` starts after index 0 (the first ` '` plus two is always
      positive). The character is the text between the first ` '` and the
      last `' `; a malformed number raises `ValueError`. */
  function ParseCharInfo(line: string): (r: Result<Option<CharInfo>>)
    ensures r.Failure? ==> r.error == ValueError
  {
    var start := Find(line, " '") + 2;
    var end := RFind(line, "' ");
    if start > 0 && end > 0 then
      var height :- HeaderHeight(line);
      var width :- HeaderWidth(line);
      Success(Some(CharInfo(Slice(line, start, end), width, height)))
    else Success(None)
  }

  /** A line is skipped exactly when it has no `' ` after index 0; a
      header's fields are the quoted text and the two numbers. */
  lemma ParseCharInfoSpec(line: string)
    ensures ParseCharInfo(line) == Success(None) <==> RFind(line, "' ") <= 0
    ensures ParseCharInfo(line).Success? && ParseCharInfo(line).value.Some? ==>
      var ci := ParseCharInfo(line).value.value;
      && ci.ch == Slice(line, Find(line, " '") + 2, RFind(line, "' "))
      && HeaderHeight(line) == Success(ci.height)
      && HeaderWidth(line) == Success(ci.width)
  {
  }

  /** A line without a quote character is never a header. */
  lemma NoQuoteNoHeader(line: string)
    requires '\'' !in line
    ensures ParseCharInfo(line) == Success(None)
  {
    Absent(line, "' ");
    ParseCharInfoSpec(line);
  }

  // ---------------------------------------------------------------------------
  // Data lines
  // ---------------------------------------------------------------------------

  /** `int(text, 16)`, with `ValueError` as the failure. */
  function HexOf(text: string): (r: Result<int>)
    ensures r.Failure? ==> r.error == ValueError
  {
    match ParseHex(text)
    case Some(v) => Success(v)
    case None => Failure(ValueError)
  }

  /** `int(hex(n), 16)` gives `n` back. */
  lemma HexOfHex(n: nat)
    ensures HexOf(Hex(n)) == Success(n)
  {
    ParseHexOfHex(n);
  }

  /** `int(text, 16)` raises `ValueError` when the text holds an ASCII
      character other than whitespace, a sign, a hexadecimal digit, the
      prefix's `x` or `_`. */
  lemma HexOfRejects(text: string, k: nat)
    requires k < |text| && !IntChar(text[k], 16)
    requires text[k] as int < 0x80 && !(0x1C <= text[k] as int <= 0x1F) && text[k] != '_'
    ensures HexOf(text) == Failure(ValueError)
  {
    ParseIntBaseRejects(text, 16, k);
  }

  /** The number of tokens containing `0x`. */
  function HexTokenCount(tokens: seq<string>): nat {
    if |tokens| == 0 then 0
    else (if Find(tokens[0], "0x") >= 0 then 1 else 0) + HexTokenCount(tokens[1..])
  }

  /** The inner loop of `_parseCharData`: every token that contains `0x`,
      with its tabs removed, read in base 16; other tokens are skipped. */
  function TokenBytes(tokens: seq<string>): (r: Result<seq<int>>)
    ensures r.Failure? ==> r.error == ValueError
    ensures r.Success? ==> |r.value| == HexTokenCount(tokens)
  {
    if |tokens| == 0 then Success([])
    else if Find(tokens[0], "0x") >= 0 then
      var v :- HexOf(ReplaceChar(tokens[0], '\t', ""));
      var rest :- TokenBytes(tokens[1..]);
      Success([v] + rest)
    else TokenBytes(tokens[1..])
  }

  /** `_parseCharData(lines, start, end)`: the bytes of lines `start` up to
      `end`, in order. A line index Python cannot read raises `IndexError`. */
  function ParseCharData(lines: seq<string>, start: int, end: int): (r: Result<seq<int>>)
    ensures start >= end ==> r == Success([])
    ensures r.Success? && start < end ==> -|lines| <= start && end <= |lines|
    ensures r.Failure? ==> r.error == IndexError || r.error == ValueError
    decreases end - start
  {
    if start >= end then Success([])
    else
      var line :- At(lines, start);
      var here :- TokenBytes(Split(line, ','));
      var rest :- ParseCharData(lines, start + 1, end);
      Success(here + rest)
  }

  // ---------------------------------------------------------------------------
  // Rebuilding the image
  // ---------------------------------------------------------------------------

  /** The bit `_constructQImage` reads for pixel `(c, y)`: bit `c mod 8`,
      counted from the top, of byte `y * ceil(width / 8) + c div 8`, or
      nothing when that byte does not exist. */
  predicate DataBit(data: seq<int>, width: int, y: int, c: int) {
    var idx := y * ((width + 7) / 8) + c / 8;
    0 <= idx < |data| && Lit(Byte(data[idx]), c % 8)
  }

  /** Pixel `8 * x + i` is bit `i` of byte `x` of its row. */
  lemma DataBitAt(data: seq<int>, width: int, y: nat, x: nat, i: nat)
    requires width > 0 && i < 8 && y * ((width + 7) / 8) + x < |data|
    ensures DataBit(data, width, y, 8 * x + i) == Lit(Byte(data[y * ((width + 7) / 8) + x]), i)
  {
    assert (8 * x + i) / 8 == x && (8 * x + i) % 8 == i;
  }

  /** `mask >> 1` walks the masks from the top bit down, then stays 0. */
  lemma MaskShift(i: nat)
    requires i < 8
    ensures Mask(i) >> 1 == if i < 7 then Mask(i + 1) else 0
  {
  }

  lemma MulMono(a: int, b: int, k: nat)
    requires a <= b
    ensures a * k <= b * k
  {
  }

  /** The innermost loop of `_constructQImage` for byte `b`, the `x`-th of
      row `y`: a mask starting at 0x80 is shifted right once per column of
      the image, and pixel `8 * x + i` is set where the byte and the mask
      share a bit. Only the low eight bits of `b` can meet the mask, so at
      most the eight pixels `8 * x ..` are set, and `setPixel` ignores
      columns past the edge. */
  method PaintByte(img0: Mono, width: int, y: int, x: nat, b: int) returns (img: Mono)
    requires img0.Valid()
    ensures img.Valid() && img.width == img0.width && img.height == img0.height
    ensures forall yy, c :: 0 <= yy < img.height && 0 <= c < img.width ==>
      img.rows[yy][c] == (img0.rows[yy][c] ||
        (yy == y && 8 * x <= c < 8 * x + 8 && c < 8 * x + width && Lit(Byte(b), c - 8 * x)))
  {
    img := img0;
    var mask: bv8 := 0x80;
    var i := 0;
    while i < width
      invariant 0 <= i <= (if width > 0 then width else 0)
      invariant mask == if i < 8 then Mask(i) else 0
      invariant img.Valid() && img.width == img0.width && img.height == img0.height
      invariant forall yy, c :: 0 <= yy < img.height && 0 <= c < img.width ==>
        img.rows[yy][c] == (img0.rows[yy][c] ||
          (yy == y && 8 * x <= c < 8 * x + 8 && c < 8 * x + i && Lit(Byte(b), c - 8 * x)))
    {
      if i < 8 {
        MaskShift(i);
      }
      if Byte(b) & mask != 0 {
        img := SetPixel(img, x * 8 + i, y, true);
      }
      mask := mask >> 1;
      i := i + 1;
    }
  }

  /** The pixels of row `y` at or past column `8 * x` are still unlit, and
      every other pixel is the bit `_constructQImage` reads for it, up to row
      `y`. */
  predicate PaintedUpTo(img: Mono, data: seq<int>, width: int, y: int, x: int)
    requires img.Valid()
  {
    forall yy, c :: 0 <= yy < img.height && 0 <= c < img.width ==>
      img.rows[yy][c] == ((yy < y || (yy == y && c < 8 * x)) && DataBit(data, width, yy, c))
  }

  /** The middle loop of `_constructQImage` for row `y`: byte `x` of the row
      is read and painted, for each `x` below `ceil(width / 8)`. It fails
      exactly when the row's bytes run past the data. */
  method PaintRow(img0: Mono, width: int, y: nat, data: seq<int>) returns (r: Result<Mono>)
    requires img0.Valid() && PaintedUpTo(img0, data, width, y, 0)
    requires img0.width > 0 ==> img0.width == width
    requires width > 0 ==> y * ((width + 7) / 8) <= |data|
    ensures r.Failure? <==> width > 0 && |data| < (y + 1) * ((width + 7) / 8)
    ensures r.Failure? ==> r.error == IndexError
    ensures r.Success? ==>
      && r.value.Valid() && r.value.width == img0.width && r.value.height == img0.height
      && PaintedUpTo(r.value, data, width, y + 1, 0)
  {
    var img := img0;
    var byteWidth := (width + 7) / 8;
    var x := 0;
    while x < byteWidth
      invariant 0 <= x && (byteWidth <= 0 || x <= byteWidth)
      invariant img.Valid() && img.width == img0.width && img.height == img0.height
      invariant byteWidth > 0 ==> y * byteWidth + x <= |data|
      invariant PaintedUpTo(img, data, width, y, x)
    {
      var idx := y * byteWidth + x;
      if idx >= |data| {
        return Failure(IndexError);
      }
      var prev := img;
      img := PaintByte(img, width, y, x, data[idx]);
      forall yy, c | 0 <= yy < img.height && 0 <= c < img.width
        ensures img.rows[yy][c] == ((yy < y || (yy == y && c < 8 * (x + 1))) && DataBit(data, width, yy, c))
      {
        if yy == y && 8 * x <= c < 8 * x + 8 {
          DataBitAt(data, width, y, x, c - 8 * x);
        }
      }
      x := x + 1;
    }
    forall yy, c | 0 <= yy < img.height && 0 <= c < img.width
      ensures img.rows[yy][c] == (yy < y + 1 && DataBit(data, width, yy, c))
    {
      if yy == y {
        assert c < width <= 8 * byteWidth;
      }
    }
    return Success(img);
  }

  /** An unpacked pixel is the bit `_constructQImage` reads for it. */
  lemma UnpackDataBit(data: seq<int>, width: nat, height: nat, y: nat, c: nat)
    requires |data| >= Needed(width, height) && y < height && c < width
    ensures UnpackRows(data, width, height)[y][c] == DataBit(data, width, y, c)
  {
    UnpackPixel(data, width, height, y, c);
    PixelIndex(width, y, c);
  }

  /** An image painted in every row is the unpacked image. */
  lemma PaintedImage(img: Mono, data: seq<int>, width: nat, height: nat)
    requires img.Valid() && img.width == width > 0 && img.height == height > 0
    requires |data| >= height * ((width + 7) / 8)
    requires PaintedUpTo(img, data, width, height, 0)
    ensures |data| >= Needed(width, height)
    ensures img == Mono(width, height, UnpackRows(data, width, height))
  {
    NeededProduct(width, height);
    var rows := UnpackRows(data, width, height);
    forall y | 0 <= y < height
      ensures img.rows[y] == rows[y]
    {
      forall c | 0 <= c < width
        ensures img.rows[y][c] == rows[y][c]
      {
        assert img.rows[y][c] == DataBit(data, width, y, c);
        UnpackDataBit(data, width, height, y, c);
      }
    }
    assert img.rows == rows;
  }

  /** `_constructQImage`: a blank `width` by `height` image, painted row by
      row from `ceil(width / 8)` bytes per row. The bytes are read in order,
      so the first missing one raises `IndexError`. The result is the image
      `Unpack` describes. */
  method ConstructQImage(width: int, height: int, data: seq<int>) returns (r: Result<Mono>)
    ensures r == Unpack(data, width, height)
  {
    var blank := Blank(width, height);
    var img := blank;
    var y := 0;
    while y < height
      invariant 0 <= y && (height <= 0 || y <= height)
      invariant img.Valid() && img.width == blank.width && img.height == blank.height
      invariant width > 0 ==> y * ((width + 7) / 8) <= |data|
      invariant PaintedUpTo(img, data, width, y, 0)
    {
      var row := PaintRow(img, width, y, data);
      if row.Failure? {
        MulMono(y + 1, height, (width + 7) / 8);
        NeededProduct(width, height);
        return Failure(IndexError);
      }
      img := row.value;
      y := y + 1;
    }
    if width > 0 && height > 0 {
      PaintedImage(img, data, width, height);
    }
    return Success(img);
  }

  // ---------------------------------------------------------------------------
  // Glyphs and files
  // ---------------------------------------------------------------------------

  /** A glyph found by `_parseChars`: its header fields, the bytes read
      below the header, and the image rebuilt from them. */
  datatype ParsedChar = ParsedChar(ch: string, width: int, height: int, data: seq<int>, bitmap: Mono)

  /** The number of header lines from index `i` on. */
  function HeaderCount(cols: seq<string>, i: nat): nat
    requires i <= |cols|
    decreases |cols| - i
  {
    if i == |cols| then 0
    else (if RFind(cols[i], "' ") > 0 then 1 else 0) + HeaderCount(cols, i + 1)
  }

  /** The glyph whose header `ci` sits on line `i`: the `height` lines
      after it read as data, and the image rebuilt from that data. */
  function ParseGlyph(cols: seq<string>, i: nat, ci: CharInfo): (r: Result<ParsedChar>)
    ensures r.Success? ==> r.value.bitmap.Valid()
    ensures r.Success? ==> r.value.ch == ci.ch && r.value.width == ci.width && r.value.height == ci.height
  {
    var data :- ParseCharData(cols, i + 1, i + 1 + ci.height);
    var bitmap :- Unpack(data, ci.width, ci.height);
    Success(ParsedChar(ci.ch, ci.width, ci.height, data, bitmap))
  }

  /** The loop of `_parseChars` from line `i`: every line is tried as a
      header, and a header's `height` lines after it are read as its
      data. The `i += height` in the loop body is overwritten by the next
      iteration, so data lines are tried as headers too. */
  function ParseColumns(cols: seq<string>, i: nat): (r: Result<seq<ParsedChar>>)
    requires i <= |cols|
    ensures r.Success? ==> forall k :: 0 <= k < |r.value| ==> r.value[k].bitmap.Valid()
    decreases |cols| - i
  {
    if i == |cols| then Success([])
    else
      var info :- ParseCharInfo(cols[i]);
      if info.None? then ParseColumns(cols, i + 1)
      else
        var glyph :- ParseGlyph(cols, i, info.value);
        var rest :- ParseColumns(cols, i + 1);
        Success([glyph] + rest)
  }

  /** A line that is not a header is skipped. */
  lemma ColumnsSkip(cols: seq<string>, i: nat)
    requires i < |cols|
    requires ParseCharInfo(cols[i]) == Success(None)
    ensures ParseColumns(cols, i) == ParseColumns(cols, i + 1)
  {
  }

  /** Lines `i` to `j`, none of them a header, leave the loop's result
      unchanged. */
  lemma {:induction false} ColumnsSkipAll(cols: seq<string>, i: nat, j: nat)
    requires i <= j <= |cols|
    requires forall k :: i <= k < j ==> ParseCharInfo(cols[k]) == Success(None)
    ensures ParseColumns(cols, i) == ParseColumns(cols, j)
    decreases j - i
  {
    if i < j {
      assert ParseCharInfo(cols[i]) == Success(None);
      ColumnsSkip(cols, i);
      ColumnsSkipAll(cols, i + 1, j);
    }
  }

  /** A header whose data lines and image both parse gives that glyph. */
  lemma GlyphOf(cols: seq<string>, i: nat, ci: CharInfo, data: seq<int>, bitmap: Mono)
    requires ParseCharData(cols, i + 1, i + 1 + ci.height) == Success(data)
    requires Unpack(data, ci.width, ci.height) == Success(bitmap)
    ensures ParseGlyph(cols, i, ci) == Success(ParsedChar(ci.ch, ci.width, ci.height, data, bitmap))
  {
  }

  /** `GlyphOf` for a header at line 0 that states an image's own size. */
  lemma GlyphBelow(cols: seq<string>, ch: string, bitmap: Mono, data: seq<int>)
    requires ParseCharData(cols, 1, 1 + bitmap.height) == Success(data)
    requires Unpack(data, bitmap.width, bitmap.height) == Success(bitmap)
    ensures ParseGlyph(cols, 0, CharInfo(ch, bitmap.width, bitmap.height))
      == Success(ParsedChar(ch, bitmap.width, bitmap.height, data, bitmap))
  {
    GlyphOf(cols, 0, CharInfo(ch, bitmap.width, bitmap.height), data, bitmap);
  }

  /** One step of the loop over a header line whose glyph parses. */
  lemma ColumnsHeaderStep(cols: seq<string>, i: nat, ci: CharInfo, glyph: ParsedChar, rest: seq<ParsedChar>)
    requires i < |cols|
    requires ParseCharInfo(cols[i]) == Success(Some(ci))
    requires ParseGlyph(cols, i, ci) == Success(glyph)
    requires ParseColumns(cols, i + 1) == Success(rest)
    ensures ParseColumns(cols, i) == Success([glyph] + rest)
  {
  }

  /** A header at line `i` whose glyph parses, followed by no further
      header, gives exactly that glyph. */
  lemma OneGlyph(cols: seq<string>, i: nat, ci: CharInfo, data: seq<int>, bitmap: Mono)
    requires i < |cols|
    requires ParseCharInfo(cols[i]) == Success(Some(ci))
    requires ParseCharData(cols, i + 1, i + 1 + ci.height) == Success(data)
    requires Unpack(data, ci.width, ci.height) == Success(bitmap)
    requires ParseColumns(cols, i + 1) == Success([])
    ensures ParseColumns(cols, i) == Success([ParsedChar(ci.ch, ci.width, ci.height, data, bitmap)])
  {
    var glyph := ParsedChar(ci.ch, ci.width, ci.height, data, bitmap);
    assert ParseGlyph(cols, i, ci) == Success(glyph) by {
      GlyphOf(cols, i, ci, data, bitmap);
    }
    ColumnsHeaderStep(cols, i, ci, glyph, []);
    assert [glyph] + [] == [glyph];
  }

  /** A header at line `i` whose glyph parses gives that glyph and then
      what the loop finds from line `i + 1` on. */
  lemma GlyphThenRest(cols: seq<string>, i: nat, ci: CharInfo, data: seq<int>, bitmap: Mono, rest: seq<ParsedChar>)
    requires i < |cols|
    requires ParseCharInfo(cols[i]) == Success(Some(ci))
    requires ParseCharData(cols, i + 1, i + 1 + ci.height) == Success(data)
    requires Unpack(data, ci.width, ci.height) == Success(bitmap)
    requires ParseColumns(cols, i + 1) == Success(rest)
    ensures ParseColumns(cols, i) == Success([ParsedChar(ci.ch, ci.width, ci.height, data, bitmap)] + rest)
  {
    GlyphOf(cols, i, ci, data, bitmap);
    ColumnsHeaderStep(cols, i, ci, ParsedChar(ci.ch, ci.width, ci.height, data, bitmap), rest);
  }

  /** `_parseCharData` reads lines of `b` the same after any lines `a`. */
  lemma {:induction false} DataShift(a: seq<string>, b: seq<string>, s: nat, e: int)
    ensures ParseCharData(a + b, |a| + s, |a| + e) == ParseCharData(b, s, e)
    decreases e - s
  {
    if s < e {
      if s < |b| {
        assert (a + b)[|a| + s] == b[s];
      }
      assert At(a + b, |a| + s) == At(b, s);
      DataShift(a, b, s + 1, e);
    }
  }

  /** A glyph of `b` reads the same after any lines `a`. */
  lemma GlyphShift(a: seq<string>, b: seq<string>, i: nat, ci: CharInfo)
    ensures ParseGlyph(a + b, |a| + i, ci) == ParseGlyph(b, i, ci)
  {
    DataShift(a, b, i + 1, i + 1 + ci.height);
  }

  /** The loop over `b` from line `i` reads the same after any lines `a`. */
  lemma {:induction false} ColumnsShift(a: seq<string>, b: seq<string>, i: nat)
    requires i <= |b|
    ensures ShiftsAt(a, b, i)
    decreases |b| - i, 1
  {
    if i < |b| {
      ColumnsShiftStep(a, b, i);
    }
  }

  predicate ShiftsAt(a: seq<string>, b: seq<string>, i: nat)
    requires i <= |b|
  {
    ParseColumns(a + b, |a| + i) == ParseColumns(b, i)
  }

  lemma {:induction false} ColumnsShiftStep(a: seq<string>, b: seq<string>, i: nat)
    requires i < |b|
    ensures ShiftsAt(a, b, i)
    decreases |b| - i, 0
  {
    ColumnsShift(a, b, i + 1);
    ShiftFrom(a, b, i);
  }

  /** One iteration of the loop reads line `i` of `b` in both places. */
  lemma ShiftFrom(a: seq<string>, b: seq<string>, i: nat)
    requires i < |b| && ShiftsAt(a, b, i + 1)
    ensures ShiftsAt(a, b, i)
  {
    assert (a + b)[|a| + i] == b[i];
    var info := ParseCharInfo(b[i]);
    if info.Success? && info.value.Some? {
      GlyphShift(a, b, i, info.value.value);
    }
  }

  /** Every header line yields one glyph, data lines included: skipping is
      never needed because a data line has no header shape. */
  lemma {:induction false} ParseColumnsCount(cols: seq<string>, i: nat)
    requires i <= |cols|
    ensures CountsHeaders(cols, i)
    decreases |cols| - i, 1
  {
    if i < |cols| {
      ColumnsCountStep(cols, i);
    }
  }

  /** A successful loop from line `i` finds one glyph per header line. */
  predicate CountsHeaders(cols: seq<string>, i: nat)
    requires i <= |cols|
  {
    ParseColumns(cols, i).Success? ==> |ParseColumns(cols, i).value| == HeaderCount(cols, i)
  }

  lemma {:induction false} ColumnsCountStep(cols: seq<string>, i: nat)
    requires i < |cols|
    ensures CountsHeaders(cols, i)
    decreases |cols| - i, 0
  {
    ParseColumnsCount(cols, i + 1);
    ColumnsCountFrom(cols, i);
  }

  /** The count at line `i` follows from the count at line `i + 1`. */
  lemma ColumnsCountFrom(cols: seq<string>, i: nat)
    requires i < |cols| && CountsHeaders(cols, i + 1)
    ensures CountsHeaders(cols, i)
  {
    ParseCharInfoSpec(cols[i]);
  }

  /** `_parseChars(text)`: the lines between `Character bitmaps` and
      `Character descriptors` (Python slice bounds, so a missing marker
      counts from the end). */
  function ParseChars(text: string): (r: Result<seq<ParsedChar>>)
    ensures r.Success? ==> forall k :: 0 <= k < |r.value| ==> r.value[k].bitmap.Valid()
  {
    var code := Slice(text, Find(text, "Character bitmaps"), Find(text, "Character descriptors"));
    ParseColumns(Split(code, '\n'), 0)
  }

  /** `_getFontDescription(text)`: from `// Font information` on. */
  function Description(text: string): (r: string)
    ensures Find(text, "// Font information") >= 0 ==>
      r == text[Find(text, "// Font information")..]
  {
    Slice(text, Find(text, "// Font information"), |text|)
  }

  /** `_parseName(desc)`: from one past the end of `NGL_Font` to two before
      the last `= {`. */
  function ParseName(desc: string): (r: string)
    ensures var i := Find(desc, "NGL_Font") + 9; var j := RFind(desc, "= {") - 1;
      0 <= i <= j <= |desc| ==> r == desc[i..j]
  {
    Slice(desc, Find(desc, "NGL_Font") + 9, RFind(desc, "= {") - 1)
  }

  /** The font's name: the parsed name with every `Info` removed. */
  function FontName(text: string): string {
    Replace(ParseName(Description(text)), "Info", "")
  }

  /** `_parseStartEndChars(desc)`: the index just past the last `    '`
      and the one-character text there. The first character is computed and
      then dropped, so the pair is not (first, last) character. Nothing in
      it can raise, and `parseFile` discards the result. */
  function ParseStartEndChars(desc: string): (r: (int, string))
    ensures r.0 == RFind(desc, "    '") + 5
    ensures 0 <= r.0 < |desc| ==> r.1 == [desc[r.0]]
  {
    var last := RFind(desc, "    '") + 5;
    (last, Slice(desc, last, last + 1))
  }

  /** With an entry for `'a'` followed by one for `'z'`, the pair is the
      position of `z` and `"z"`, never mentioning `a`. */
  lemma StartEndPair(pre: string, post: string)
    requires '\'' !in post && '\'' !in pre
    ensures var desc := pre + "    'a'," + "    'z'" + post;
      ParseStartEndChars(desc) == (|pre| + 13, "z")
  {
    var a := pre + "    'a',";
    var desc := a + "    'z'" + post;
    assert desc == pre + "    'a'," + "    'z'" + post;
    assert OccursAt(desc, "    '", |a|) by {
      assert desc[|a|..|a| + 5] == "    '";
    }
    forall j | |a| < j
      ensures !OccursAt(desc, "    '", j)
    {
      if j == |a| + 2 {
        NotAt(desc, "    '", j, 2);
      } else if j + 4 < |desc| {
        assert desc[j + 4] == 'z' || desc[j + 4] in post;
        NotAt(desc, "    '", j, 4);
      }
    }
    RFindAt(desc, "    '", |a|);
    assert desc[|a| + 5] == 'z';
  }

  /** The entries `parseFile` adds: each glyph's character and image, no
      code, and the size `font_bmpCode` reports for the image. */
  function Entries(chars: seq<ParsedChar>): (es: seq<Nfont.Entry>)
    requires forall k :: 0 <= k < |chars| ==> chars[k].bitmap.Valid()
    ensures |es| == |chars| && Nfont.ValidEntries(es)
    ensures forall k :: 0 <= k < |chars| ==>
      && es[k].ch == chars[k].ch && es[k].code == None
      && es[k].bitmap == chars[k].bitmap && es[k].size == BmpCodeOf(chars[k].bitmap).size
  {
    seq(|chars|, k requires 0 <= k < |chars| =>
      Nfont.Entry(chars[k].ch, None, chars[k].bitmap, BmpCodeOf(chars[k].bitmap).size))
  }

  /** `parseFile` on the file's text: a font named after the description,
      holding every parsed glyph at running offsets with no code. It fails
      exactly when parsing the glyphs fails. */
  method ParseFile(text: string) returns (r: Result<Nfont.Font>)
    ensures r.Failure? <==> ParseChars(text).Failure?
    ensures r.Success? ==>
      && r.value.Valid()
      && r.value.name == FontName(text)
      && r.value == Nfont.AddAll(Nfont.NewFont(FontName(text)), Entries(ParseChars(text).value), 0)
  {
    var name := FontName(text);
    var chars :- ParseChars(text);
    var font := Nfont.AddEntries(Nfont.NewFont(name), Entries(chars));
    return Success(font);
  }

  /** No record of the font has code. */
  predicate NoCode(f: Nfont.Font) {
    forall k :: k in f.chars ==> f.chars[k].code == None
  }

  /** Adding entries without code to a font without code gives a font
      without code. */
  lemma {:induction false} AddAllNoCode(f: Nfont.Font, es: seq<Nfont.Entry>, offset: int)
    requires NoCode(f)
    requires forall i :: 0 <= i < |es| ==> es[i].code == None
    ensures NoCode(Nfont.AddAll(f, es, offset))
    decreases |es|
  {
    if |es| > 0 {
      var n := |es| - 1;
      var pre := es[..n];
      AddAllNoCode(f, pre, offset);
      var g := Nfont.AddAll(f, pre, offset);
      var e := es[n];
      var h := Nfont.AddChar(g, e.ch, e.code, offset + Nfont.Sizes(pre), e.bitmap);
      assert Nfont.AddAll(f, es, offset) == h;
      forall k | k in h.chars ensures h.chars[k].code == None {
        assert e.code == None;
        if k != e.ch {
          assert k in g.chars;
          Nfont.AddCharFrame(g, e.ch, e.code, offset + Nfont.Sizes(pre), e.bitmap, k);
          assert Nfont.GetChar(h, k) == Nfont.GetChar(g, k);
          assert h.chars[k] == g.chars[k];
          assert g.chars[k].code == None;
        } else {
          assert Nfont.GetChar(h, k) == Some(Nfont.CharRecord(e.ch, e.code, offset + Nfont.Sizes(pre), e.bitmap));
          assert h.chars[k].code == e.code;
        }
      }
    }
  }

  /** In the font `parseFile` builds from parsed glyphs, no character has
      code, and the glyph last parsed for a character sits at the sum of the
      sizes `font_bmpCode` reports for every glyph parsed before it. */
  lemma EntriesRecords(name: string, chars: seq<ParsedChar>, j: nat)
    requires forall k :: 0 <= k < |chars| ==> chars[k].bitmap.Valid()
    requires j < |chars| && forall i :: j < i < |chars| ==> chars[i].ch != chars[j].ch
    ensures var es := Entries(chars);
      var font := Nfont.AddAll(Nfont.NewFont(name), es, 0);
      && NoCode(font)
      && Nfont.GetChar(font, chars[j].ch) ==
           Some(Nfont.CharRecord(chars[j].ch, None, Nfont.Sizes(es[..j]), chars[j].bitmap))
  {
    var es := Entries(chars);
    AddAllNoCode(Nfont.NewFont(name), es, 0);
    Nfont.AddAllOffsets(Nfont.NewFont(name), es, 0, j);
  }
}
