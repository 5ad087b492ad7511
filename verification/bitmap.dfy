/** The bitmap word pipeline (`NBitmapsConverter.convertQImage` and
    `NGL_Bitmap`): an image becomes a column-major array of colour words,
    optionally compressed, and the words are formatted as C initialiser
    lines. */
module Bitmap {
  import opened Results
  import PyText
  import Color
  import Rle

  /** A decoded image: `pixels[y][x]` is `QImage.pixel(x, y)`. */
  datatype Image = Image(width: nat, height: nat, pixels: seq<seq<Color.Argb>>) {
    /** Every row has `width` pixels and there are `height` rows. */
    predicate Valid() {
      && |pixels| == height
      && forall y :: 0 <= y < |pixels| ==> |pixels[y]| == width
    }
  }

  /** The colour word of pixel `(x, y)`. */
  function WordAt(img: Image, x: nat, y: nat): nat
    requires img.Valid() && x < img.width && y < img.height
  {
    Color.FromArgb(img.pixels[y][x]) as nat
  }

  /** `NGL_Bitmap`'s attributes. `dataLenInWords` is created by the converter;
      it is 0 until then. */
  datatype NglBitmap = NglBitmap(
    rawName: string,
    width: int,
    height: int,
    compressed: string,
    colorBit: int,
    dataWordSize: int,
    dataLenInWords: nat,
    dataLenInBytes: nat,
    dataType: string,
    data: seq<nat>,
    code: string)

  /** `NGL_Bitmap(name, width, height, compress)`. */
  function NewBitmap(name: string, width: int, height: int, compress: string): (b: NglBitmap)
    ensures b.rawName == name && b.width == width && b.height == height && b.compressed == compress
    ensures b.colorBit == 16 && b.dataWordSize == 16 && b.dataType == "uint16_t"
    ensures b.data == [] && b.code == "" && b.dataLenInBytes == 0
  {
    NglBitmap(name, width, height, compress, 16, 16, 0, 0, "uint16_t", [], "")
  }

  /** The `name` getter: the stored name with every space turned into `_`. */
  function Name(b: NglBitmap): (s: string)
    ensures |s| == |b.rawName|
    ensures forall i :: 0 <= i < |s| ==> s[i] == (if b.rawName[i] == ' ' then '_' else b.rawName[i])
    ensures ' ' !in s
  {
    PyText.ReplaceCharEach(b.rawName, ' ', "_");
    PyText.ReplaceChar(b.rawName, ' ', "_")
  }

  // ---------------------------------------------------------------------------
  // Flattening and sizes
  // ---------------------------------------------------------------------------

  /** Position of pixel `(x, y)` in the column-major array. */
  function Pos(x: nat, y: nat, height: nat): nat {
    x * height + y
  }

  /** The words of column `x`, top to bottom. */
  function Column(img: Image, x: nat): (col: seq<nat>)
    requires img.Valid() && x < img.width
    ensures |col| == img.height
  {
    seq(img.height, y requires 0 <= y < img.height => WordAt(img, x, y))
  }

  /** The words of the first `x` columns, column after column. */
  function Columns(img: Image, x: nat): (ws: seq<nat>)
    requires img.Valid() && x <= img.width
  {
    if x == 0 then [] else Columns(img, x - 1) + Column(img, x - 1)
  }

  /** The first `n` columns hold `n * height` words. */
  lemma {:induction false} ColumnsLength(img: Image, n: nat)
    requires img.Valid() && n <= img.width
    ensures |Columns(img, n)| == n * img.height
  {
    if n > 0 {
      ColumnsLength(img, n - 1);
      MulSucc(n - 1, img.height);
    }
  }

  /** The word of pixel `(x, y)` sits at `Pos(x, y, height)` once column `x` is in. */
  lemma {:induction false} ColumnsAt(img: Image, n: nat, x: nat, y: nat)
    requires img.Valid() && x < n <= img.width && y < img.height
    ensures Pos(x, y, img.height) < |Columns(img, n)|
    ensures Columns(img, n)[Pos(x, y, img.height)] == WordAt(img, x, y)
  {
    var h := img.height;
    ColumnsLength(img, n - 1);
    ColumnsLength(img, n);
    if x < n - 1 {
      ColumnsAt(img, n - 1, x, y);
    } else {
      assert Pos(x, y, h) == |Columns(img, n - 1)| + y;
    }
  }

  /** Column-major order puts pixel `(x, y)` at `x * height + y`. */
  lemma ColumnsIndex(img: Image, n: nat)
    requires img.Valid() && n <= img.width
    ensures |Columns(img, n)| == n * img.height
    ensures forall x, y :: 0 <= x < n && 0 <= y < img.height ==>
      Pos(x, y, img.height) < |Columns(img, n)| &&
      Columns(img, n)[Pos(x, y, img.height)] == WordAt(img, x, y)
  {
    ColumnsLength(img, n);
    forall x, y | 0 <= x < n && 0 <= y < img.height
      ensures Pos(x, y, img.height) < |Columns(img, n)|
      ensures Columns(img, n)[Pos(x, y, img.height)] == WordAt(img, x, y)
    {
      ColumnsAt(img, n, x, y);
    }
  }

  lemma PosBelow(x: nat, y: nat, x': nat, height: nat)
    requires x < x' && y < height
    ensures Pos(x, y, height) < x' * height
  {
    MulLe(x + 1, x', height);
    assert (x + 1) * height == x * height + height;
  }

  lemma {:induction false} MulLe(a: nat, b: nat, h: nat)
    requires a <= b
    ensures a * h <= b * h
    decreases b - a
  {
    if a < b {
      MulLe(a, b - 1, h);
      assert (b - 1) * h + h == b * h;
    }
  }

  /** The nested `for x` / `for y` loops: one colour word per pixel, column by
      column, so the word of pixel `(x, y)` lands at `x * height + y`. */
  method Flatten(img: Image) returns (data: seq<nat>)
    requires img.Valid()
    ensures data == Columns(img, img.width)
    ensures |data| == img.width * img.height
    ensures forall x, y :: 0 <= x < img.width && 0 <= y < img.height ==>
      data[Pos(x, y, img.height)] == WordAt(img, x, y)
  {
    data := [];
    var x := 0;
    while x < img.width
      invariant 0 <= x <= img.width
      invariant data == Columns(img, x)
    {
      var y := 0;
      while y < img.height
        invariant 0 <= y <= img.height
        invariant data == Columns(img, x) + Column(img, x)[..y]
      {
        data := data + [WordAt(img, x, y)];
        y := y + 1;
      }
      x := x + 1;
    }
    ColumnsIndex(img, img.width);
  }

  /** Some word needs more than one byte. */
  predicate HasWideWord(data: seq<nat>) {
    exists i :: 0 <= i < |data| && data[i] > 0xFF
  }

  /** `True in [True for x in data if x > 0xFF]`, scanned from the front. */
  function AnyWide(data: seq<nat>): (b: bool)
    ensures b <==> HasWideWord(data)
  {
    if |data| == 0 then false
    else data[0] > 0xFF || (assert forall i :: 0 < i < |data| ==> data[i] == data[1..][i - 1]; AnyWide(data[1..]))
  }

  /** `data_len_in_bytes`: one byte per word, or two as soon as one word
      exceeds 0xFF. */
  function ByteLength(data: seq<nat>): (n: nat)
    ensures n == |data| || n == 2 * |data|
    ensures |data| > 0 ==> (n == 2 * |data| <==> HasWideWord(data))
  {
    if AnyWide(data) then 2 * |data| else |data|
  }

  // ---------------------------------------------------------------------------
  // Compression
  // ---------------------------------------------------------------------------

  /** `compressData`: `'RLE'` run-length encodes the words, `'JPG'` replaces
      them by the bytes of the image saved as a JPEG file (given here as
      `jpeg`, since the encoder is outside the model) and switches to 8-bit
      words without colour depth, and any other string keeps the words. */
  function CompressData(b: NglBitmap, compress: string, jpeg: seq<bv8>): (r: Result<NglBitmap>)
    ensures compress == "RLE" ==> (r.Failure? <==> |b.data| < 2)
    ensures compress == "RLE" && r.Success? ==> Rle.Encode(b.data) == Success(r.value.data)
    ensures compress == "JPG" ==> r.Success? && |r.value.data| == |jpeg|
    ensures compress == "JPG" ==> forall i :: 0 <= i < |jpeg| ==> r.value.data[i] == jpeg[i] as nat <= 0xFF
    ensures compress == "JPG" ==> r.value.dataWordSize == 8 && r.value.colorBit == 0
    ensures compress == "JPG" ==> r.value == b.(data := r.value.data, dataWordSize := 8, colorBit := 0)
    ensures compress != "RLE" && compress != "JPG" ==> r == Success(b)
    ensures compress != "JPG" && r.Success? ==> r.value == b.(data := r.value.data)
  {
    if compress == "RLE" then
      var words :- Rle.Encode(b.data);
      Success(b.(data := words))
    else if compress == "JPG" then
      Success(b.(data := seq(|jpeg|, i requires 0 <= i < |jpeg| => jpeg[i] as nat),
                 dataWordSize := 8, colorBit := 0))
    else Success(b)
  }

  /** A run-length compressed bitmap decodes back to its column-major words,
      up to the word the encoder may drop. */
  lemma CompressRoundTrip(b: NglBitmap, jpeg: seq<bv8>)
    requires 3 <= |b.data| < Rle.Flag + 3
    ensures CompressData(b, "RLE", jpeg).Success?
    ensures Rle.Decode(CompressData(b, "RLE", jpeg).value.data) == Success(Rle.Expected(b.data))
  {
    Rle.RoundTrip(b.data);
  }

  /** `convertQImage` up to the code generation: flatten, compress, then
      record the length in words and bytes. */
  method ConvertImage(img: Image, name: string, compress: string, jpeg: seq<bv8>)
    returns (r: Result<NglBitmap>)
    requires img.Valid()
    ensures r.Failure? <==> compress == "RLE" && img.width * img.height < 2
    ensures r.Success? ==> r.value.dataLenInWords == |r.value.data|
    ensures r.Success? ==> r.value.dataLenInBytes == ByteLength(r.value.data)
    ensures r.Success? ==> r.value.rawName == name && r.value.compressed == compress
    ensures r.Success? ==>
      && r.value.width == img.width && r.value.height == img.height
      && r.value.dataType == "uint16_t" && r.value.code == ""
    ensures r.Success? && compress != "JPG" ==> r.value.colorBit == 16 && r.value.dataWordSize == 16
    ensures r.Success? && compress != "RLE" && compress != "JPG" ==>
      && r.value.colorBit == 16 && r.value.dataWordSize == 16
      && r.value.data == Columns(img, img.width)
    ensures r.Success? && compress == "RLE" ==> Rle.Encode(Columns(img, img.width)) == Success(r.value.data)
    ensures compress == "JPG" ==>
      && r.Success? && r.value.dataWordSize == 8 && r.value.colorBit == 0
      && |r.value.data| == |jpeg|
      && forall i :: 0 <= i < |jpeg| ==> r.value.data[i] == jpeg[i] as nat
  {
    var words := Flatten(img);
    var b := NewBitmap(name, img.width, img.height, compress).(data := words);
    var c := CompressData(b, compress, jpeg);
    if c.Failure? {
      return Failure(c.error);
    }
    b := c.value;
    b := b.(dataLenInWords := |b.data|, dataLenInBytes := ByteLength(b.data));
    return Success(b);
  }

  // ---------------------------------------------------------------------------
  // Formatting
  // ---------------------------------------------------------------------------

  /** `'0x%x, ' % word`. */
  function WordText(w: nat): string {
    PyText.Hex(w) + ", "
  }

  lemma WordTextChars(w: nat)
    ensures '\t' !in WordText(w) && '\n' !in WordText(w)
  {
    PyText.HexChars(w);
  }

  /** The words of one line, each as `WordText`. */
  function WordsText(ws: seq<nat>): string {
    if |ws| == 0 then "" else WordText(ws[0]) + WordsText(ws[1..])
  }

  /** One output line: a tab, the words, a newline. */
  function Line(ws: seq<nat>): string {
    "\t" + WordsText(ws) + "\n"
  }

  /** Words per line: `crop >= width` closes a line after `width` words, and
      after every word when `width` is 1 or less. */
  function PerLine(width: int): nat {
    if width <= 1 then 1 else width
  }

  /** The reference layout: consecutive groups of `k` words, the last one
      possibly shorter, one line each. */
  function Chunks(data: seq<nat>, k: nat): string
    requires k >= 1
  {
    if |data| == 0 then ""
    else if |data| <= k then Line(data)
    else Line(data[..k]) + Chunks(data[k..], k)
  }

  lemma {:induction false} WordsTextAppend(a: seq<nat>, w: nat)
    ensures WordsText(a + [w]) == WordsText(a) + WordText(w)
  {
    if |a| == 0 {
      assert a + [w] == [w];
    } else {
      var rest := a[1..];
      assert (a + [w])[1..] == rest + [w];
      WordsTextAppend(rest, w);
      assert WordsText(a + [w]) == WordText(a[0]) + (WordsText(rest) + WordText(w));
    }
  }

  /** Appending a group of at most `k` words to a whole number of full groups
      appends one line. */
  lemma {:induction false} ChunksAppend(a: seq<nat>, b: seq<nat>, k: nat, groups: nat)
    requires k >= 1 && |a| == groups * k && 1 <= |b| <= k
    ensures Chunks(a + b, k) == Chunks(a, k) + Line(b)
    decreases groups
  {
    if groups == 0 {
      assert a + b == b;
    } else {
      MulSucc(groups - 1, k);
      assert (a + b)[..k] == a[..k];
      assert (a + b)[k..] == a[k..] + b;
      ChunksAppend(a[k..], b, k, groups - 1);
      if |a| == k {
        assert a[k..] + b == b;
        assert a[..k] == a;
      }
    }
  }

  /** `formatedData`, the loop as written: `'0x%x, '` per word into the
      current line, which is closed after every `width` words; a trailing
      partial line is flushed. */
  method FormatData(data: seq<nat>, width: int) returns (s: string)
    ensures s == Chunks(data, PerLine(width))
  {
    var k := PerLine(width);
    var crop := 0;
    var line: seq<nat> := [];
    s := "";
    var i := 0;
    ghost var groups := 0;
    ghost var done: seq<nat> := [];
    while i < |data|
      invariant 0 <= i <= |data|
      invariant 0 <= crop < k && crop == |line| && crop <= i
      invariant |done| == groups * k && done + line == data[..i]
      invariant s == Chunks(done, k)
    {
      PrefixGrows(data, i, done, line);
      line := line + [data[i]];
      crop := crop + 1;
      if crop >= width {
        FlushLine(done, line, k, groups);
        groups := groups + 1;
        done := done + line;
        s := s + Line(line);
        line := [];
        crop := 0;
      }
      i := i + 1;
    }
    assert data[..i] == data;
    if crop != 0 {
      ChunksAppend(done, line, k, groups);
      s := s + Line(line);
    }
  }

  /** The words read so far grow by the next one. */
  lemma PrefixGrows(data: seq<nat>, i: nat, done: seq<nat>, line: seq<nat>)
    requires i < |data| && done + line == data[..i]
    ensures done + (line + [data[i]]) == data[..i + 1]
  {
    assert data[..i + 1] == data[..i] + [data[i]];
  }

  /** A full line closes: one more whole group, one more line of text. */
  lemma FlushLine(done: seq<nat>, line: seq<nat>, k: nat, groups: nat)
    requires k >= 1 && |done| == groups * k && |line| == k
    ensures |done + line| == (groups + 1) * k
    ensures Chunks(done + line, k) == Chunks(done, k) + Line(line)
  {
    ChunksAppend(done, line, k, groups);
    MulSucc(groups, k);
  }

  /** The number of newlines in a string. */
  function Newlines(s: string): nat {
    if |s| == 0 then 0 else (if s[0] == '\n' then 1 else 0) + Newlines(s[1..])
  }

  lemma {:induction false} NewlinesAppend(a: string, b: string)
    ensures Newlines(a + b) == Newlines(a) + Newlines(b)
  {
    if |a| == 0 {
      assert a + b == b;
    } else {
      assert (a + b)[1..] == a[1..] + b;
      NewlinesAppend(a[1..], b);
    }
  }

  lemma {:induction false} NoNewlineInWords(ws: seq<nat>)
    ensures Newlines(WordsText(ws)) == 0
  {
    if |ws| > 0 {
      NoNewlineInWords(ws[1..]);
      NewlinesAppend(WordText(ws[0]), WordsText(ws[1..]));
      WordTextChars(ws[0]);
      NoNewlineInHex(WordText(ws[0]));
    }
  }

  lemma {:induction false} NoNewlineInHex(s: string)
    requires '\n' !in s
    ensures Newlines(s) == 0
  {
    if |s| > 0 {
      NoNewlineInHex(s[1..]);
    }
  }

  /** A line holds exactly one newline, at its end. */
  lemma LineNewlines(ws: seq<nat>)
    ensures Newlines(Line(ws)) == 1
  {
    NoNewlineInWords(ws);
    NewlinesAppend("\t" + WordsText(ws), "\n");
    NewlinesAppend("\t", WordsText(ws));
  }

  /** `formatedData` writes ceil(n / width) lines: enough lines of `k` words
      to hold every word, and one line fewer would not; no words give no
      lines. */
  lemma {:induction false} ChunkCount(data: seq<nat>, k: nat)
    requires k >= 1
    ensures var lines := Newlines(Chunks(data, k));
      && (lines == 0 <==> |data| == 0)
      && |data| <= lines * k
      && (lines >= 1 ==> (lines - 1) * k < |data|)
    decreases |data|
  {
    if |data| == 0 {
    } else if |data| <= k {
      LineNewlines(data);
    } else {
      var tail := data[k..];
      LineNewlines(data[..k]);
      ChunkCount(tail, k);
      NewlinesAppend(Line(data[..k]), Chunks(tail, k));
      var rest := Newlines(Chunks(tail, k));
      assert Newlines(Chunks(data, k)) == rest + 1;
      assert |data| == k + |tail|;
      MulSucc(rest, k);
      MulSucc(rest - 1, k);
      assert |tail| <= rest * k && (rest - 1) * k < |tail|;
    }
  }

  lemma MulSucc(x: int, h: nat)
    ensures (x + 1) * h == x * h + h
  {
  }

  /** The words come out in order: the lines, put together without their tabs
      and newlines, are the words of the input. */
  lemma {:induction false} ChunkWords(data: seq<nat>, k: nat)
    requires k >= 1
    ensures Strip(Chunks(data, k)) == WordsText(data)
    decreases |data|
  {
    if |data| == 0 {
    } else if |data| <= k {
      StripLine(data);
    } else {
      StripLine(data[..k]);
      ChunkWords(data[k..], k);
      StripAppend(Line(data[..k]), Chunks(data[k..], k));
      WordsTextConcat(data[..k], data[k..]);
      assert data[..k] + data[k..] == data;
    }
  }

  /** A string with its tabs and newlines removed. */
  function Strip(s: string): string {
    if |s| == 0 then ""
    else (if s[0] == '\t' || s[0] == '\n' then "" else [s[0]]) + Strip(s[1..])
  }

  lemma {:induction false} StripAppend(a: string, b: string)
    ensures Strip(a + b) == Strip(a) + Strip(b)
  {
    if |a| == 0 {
      assert a + b == b;
    } else {
      assert (a + b)[1..] == a[1..] + b;
      StripAppend(a[1..], b);
    }
  }

  lemma {:induction false} StripPlain(s: string)
    requires '\t' !in s && '\n' !in s
    ensures Strip(s) == s
  {
    if |s| > 0 {
      StripPlain(s[1..]);
    }
  }

  lemma {:induction false} StripWords(ws: seq<nat>)
    ensures Strip(WordsText(ws)) == WordsText(ws)
  {
    if |ws| > 0 {
      StripWords(ws[1..]);
      StripAppend(WordText(ws[0]), WordsText(ws[1..]));
      WordTextChars(ws[0]);
      StripPlain(WordText(ws[0]));
    }
  }

  lemma StripLine(ws: seq<nat>)
    ensures Strip(Line(ws)) == WordsText(ws)
  {
    StripAppend("\t" + WordsText(ws), "\n");
    StripAppend("\t", WordsText(ws));
    StripWords(ws);
  }

  lemma {:induction false} WordsTextConcat(a: seq<nat>, b: seq<nat>)
    ensures WordsText(a + b) == WordsText(a) + WordsText(b)
  {
    if |a| == 0 {
      assert a + b == b;
    } else {
      assert (a + b)[1..] == a[1..] + b;
      WordsTextConcat(a[1..], b);
    }
  }
}
