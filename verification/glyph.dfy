/** Monochrome glyph bitmaps and their byte rows: `NFontConverter.font_bmpCode`
    packs each pixel row MSB-first into bytes, and `_constructQImage` (in the
    C-file parser) unpacks a flat byte list back into an image. */
module Glyph {
  import opened Results

  /** A `QImage.Format_Mono` image: `rows[y][x]` is pixel `(x, y)`, lit when
      its colour is non-zero. Qt makes every image with a zero side the null
      image, whose width and height are both 0. */
  datatype Mono = Mono(width: nat, height: nat, rows: seq<seq<bool>>) {
    predicate Valid() {
      && |rows| == height
      && (forall y :: 0 <= y < |rows| ==> |rows[y]| == width)
      && (width == 0 <==> height == 0)
    }
  }

  /** The null image. */
  const Null: Mono := Mono(0, 0, [])

  /** `QImage(w, h, Format_Mono)` followed by `fill(0)`: all pixels unlit, or
      the null image when a side is not positive. */
  function Blank(w: int, h: int): (img: Mono)
    ensures img.Valid()
    ensures w > 0 && h > 0 ==> img.width == w && img.height == h
    ensures w <= 0 || h <= 0 ==> img == Null
    ensures forall y, x :: 0 <= y < img.height && 0 <= x < img.width ==> !img.rows[y][x]
  {
    if w <= 0 || h <= 0 then Null
    else Mono(w, h, seq(h, _ => seq(w, _ => false)))
  }

  /** `QImage.setPixel(x, y, v)`: pixel `(x, y)` becomes `v`; coordinates
      outside the image are ignored. */
  function SetPixel(img: Mono, x: int, y: int, v: bool): (r: Mono)
    requires img.Valid()
    ensures r.Valid() && r.width == img.width && r.height == img.height
    ensures forall yy, c :: 0 <= yy < r.height && 0 <= c < r.width ==>
      r.rows[yy][c] == if yy == y && c == x then v else img.rows[yy][c]
  {
    if 0 <= y < img.height && 0 <= x < img.width then
      img.(rows := img.rows[y := img.rows[y][x := v]])
    else img
  }

  // ---------------------------------------------------------------------------
  // Bytes and bits
  // ---------------------------------------------------------------------------

  /** Bit `i` of a byte counted from the most significant end: `byte & mask`
      where `mask` is 0x80 shifted right `i` times. */
  predicate Lit(b: bv8, i: nat)
    requires i < 8
  {
    b & Mask(i) != 0
  }

  /** `0x80 >> i`, the mask of bit `i` from the top. */
  function Mask(i: nat): (m: bv8)
    requires i < 8
  {
    if i == 0 then 0x80 else if i == 1 then 0x40 else if i == 2 then 0x20
    else if i == 3 then 0x10 else if i == 4 then 0x08 else if i == 5 then 0x04
    else if i == 6 then 0x02 else 0x01
  }

  /** The low eight bits of a Python integer, which are all that `& mask`
      reads when the mask is below 0x100. */
  function Byte(v: int): bv8 {
    (v % 256) as bv8
  }

  lemma ByteOfNat(b: bv8)
    ensures Byte(b as nat) == b
  {
    var v := b as nat;
    assert v < 256;
    assert v % 256 == v;
  }

  /** The value `val` the packing loop accumulates over at most eight
      pixels: `val |= 1 << (7 - bitsRead)` for each lit one. */
  function ByteOf(bits: seq<bool>): (b: bv8)
    requires |bits| <= 8
  {
    if |bits| == 0 then 0
    else
      var i := |bits| - 1;
      ByteOf(bits[..i]) | (if bits[i] then Mask(i) else 0)
  }

  /** Bit `i` of the packed byte is pixel `i`, and the bits past the last
      pixel are clear. */
  lemma {:induction false} ByteOfLit(bits: seq<bool>, i: nat)
    requires |bits| <= 8 && i < 8
    ensures Lit(ByteOf(bits), i) <==> i < |bits| && bits[i]
  {
    if |bits| > 0 {
      var k := |bits| - 1;
      ByteOfLit(bits[..k], i);
      MaskOr(ByteOf(bits[..k]), bits[k], k, i);
    }
  }

  /** Setting bit `k` leaves the other bits as they were. */
  lemma MaskOr(a: bv8, set_: bool, k: nat, i: nat)
    requires k < 8 && i < 8
    ensures Lit(a | (if set_ then Mask(k) else 0), i) <==> Lit(a, i) || (i == k && set_)
  {
    if i == 0 {} else if i == 1 {} else if i == 2 {} else if i == 3 {}
    else if i == 4 {} else if i == 5 {} else if i == 6 {} else {}
  }

  /** One row of `font_bmpCode`: a byte is emitted after every eighth pixel
      and after the last one, so a row of `w` pixels gives ceil(w / 8) bytes. */
  function PackRow(row: seq<bool>): (bytes: seq<nat>)
    ensures |bytes| == (|row| + 7) / 8
    ensures forall j :: 0 <= j < |bytes| ==> bytes[j] <= 0xFF
    decreases |row|
  {
    if |row| == 0 then []
    else if |row| <= 8 then [ByteOf(row) as nat]
    else [ByteOf(row[..8]) as nat] + PackRow(row[8..])
  }

  /** Bit `c mod 8` of byte `c div 8` is pixel `c`. */
  lemma {:induction false} PackRowBit(row: seq<bool>, c: nat)
    requires c < |row|
    ensures Lit(Byte(PackRow(row)[c / 8]), c % 8) == row[c]
    decreases |row|
  {
    if c < 8 {
      PackRowBitHead(row, c);
    } else {
      PackRowBit(row[8..], c - 8);
      PackRowBitStep(row, c);
    }
  }

  /** Pixel `c >= 8` is read where pixel `c - 8` of the rest of the row is. */
  lemma PackRowBitStep(row: seq<bool>, c: nat)
    requires 8 <= c < |row|
    requires Lit(Byte(PackRow(row[8..])[(c - 8) / 8]), (c - 8) % 8) == row[8..][c - 8]
    ensures Lit(Byte(PackRow(row)[c / 8]), c % 8) == row[c]
  {
    assert c / 8 == (c - 8) / 8 + 1 && c % 8 == (c - 8) % 8;
    PackRowTail(row, c / 8);
  }

  /** The first byte holds the first eight pixels. */
  lemma PackRowBitHead(row: seq<bool>, c: nat)
    requires c < |row| && c < 8
    ensures Lit(Byte(PackRow(row)[c / 8]), c % 8) == row[c]
  {
    var k := if |row| <= 8 then |row| else 8;
    if |row| <= 8 {
      assert row[..k] == row;
    }
    var b := ByteOf(row[..k]);
    assert PackRow(row)[0] == b as nat;
    assert c / 8 == 0 && c % 8 == c;
    ByteOfNat(b);
    ByteOfLit(row[..k], c);
  }

  /** Past the first eight pixels, the bytes are those of the rest of the row. */
  lemma PackRowTail(row: seq<bool>, j: nat)
    requires |row| > 8 && 0 < j < |PackRow(row)|
    ensures j - 1 < |PackRow(row[8..])| && PackRow(row)[j] == PackRow(row[8..])[j - 1]
  {
  }

  /** The bits after the last pixel of a row are 0. */
  lemma {:induction false} PackRowPadding(row: seq<bool>, i: nat)
    requires |row| % 8 != 0 && |row| % 8 <= i < 8
    ensures Lit(Byte(PackRow(row)[|PackRow(row)| - 1]), i) == false
    decreases |row|
  {
    if |row| < 8 {
      PaddingShort(row, i);
    } else {
      assert |row[8..]| % 8 == |row| % 8;
      PackRowPadding(row[8..], i);
      PackRowLast(row);
    }
  }

  /** A row longer than eight pixels ends with the last byte of its rest. */
  lemma PackRowLast(row: seq<bool>)
    requires |row| > 8
    ensures |PackRow(row[8..])| > 0
    ensures PackRow(row)[|PackRow(row)| - 1] == PackRow(row[8..])[|PackRow(row[8..])| - 1]
  {
  }

  lemma PaddingShort(row: seq<bool>, i: nat)
    requires 0 < |row| <= i < 8
    ensures PackRow(row) == [ByteOf(row) as nat]
    ensures Lit(Byte(PackRow(row)[0]), i) == false
  {
    ByteOfNat(ByteOf(row));
    ByteOfLit(row, i);
  }

  /** `font_bmpCode`'s result: the byte rows, and the size it reports. */
  datatype BmpCode = BmpCode(rows: seq<seq<nat>>, size: nat)

  /** `font_bmpCode(bmp)`: one byte row per pixel row, in row order, and the
      size `len(rows) * ((width + 8) // 8)`. */
  function BmpCodeOf(img: Mono): (r: BmpCode)
    requires img.Valid()
    ensures |r.rows| == img.height
    ensures forall y :: 0 <= y < img.height ==> r.rows[y] == PackRow(img.rows[y])
    ensures forall y :: 0 <= y < img.height ==> |r.rows[y]| == (img.width + 7) / 8
  {
    BmpCode(seq(img.height, y requires 0 <= y < img.height => PackRow(img.rows[y])),
            img.height * ((img.width + 8) / 8))
  }

  /** The concatenation of byte rows. */
  function Concat(rows: seq<seq<nat>>): seq<nat> {
    if |rows| == 0 then [] else rows[0] + Concat(rows[1..])
  }

  lemma {:induction false} ConcatLength(rows: seq<seq<nat>>, n: nat)
    requires forall y :: 0 <= y < |rows| ==> |rows[y]| == n
    ensures |Concat(rows)| == |rows| * n
  {
    if |rows| > 0 {
      ConcatLength(rows[1..], n);
      MulSucc(|rows| - 1, n);
    }
  }

  lemma MulSucc(x: int, h: nat)
    ensures (x + 1) * h == x * h + h
  {
  }

  /** The reported size overstates the packed bytes by one byte per row
      exactly when the width is a multiple of 8. */
  lemma BmpSize(img: Mono)
    requires img.Valid()
    ensures var packed := |Concat(BmpCodeOf(img).rows)|;
      && packed == img.height * ((img.width + 7) / 8)
      && (img.width % 8 == 0 ==> BmpCodeOf(img).size == packed + img.height)
      && (img.width % 8 != 0 ==> BmpCodeOf(img).size == packed)
  {
    var n := (img.width + 7) / 8;
    ConcatLength(BmpCodeOf(img).rows, n);
    RowBytesPlusOne(img.width, img.height);
  }

  /** `(width + 8) // 8` is one more than `ceil(width / 8)` exactly when
      `width` is a multiple of 8. */
  lemma RowBytesPlusOne(width: nat, height: nat)
    ensures width % 8 == 0 ==> height * ((width + 8) / 8) == height * ((width + 7) / 8) + height
    ensures width % 8 != 0 ==> height * ((width + 8) / 8) == height * ((width + 7) / 8)
  {
    var n := (width + 7) / 8;
    if width % 8 == 0 {
      assert (width + 8) / 8 == n + 1;
      assert height * (n + 1) == height * n + height;
    } else {
      assert (width + 8) / 8 == n;
    }
  }

  // ---------------------------------------------------------------------------
  // Unpacking
  // ---------------------------------------------------------------------------

  /** The `width` pixels of a row whose bytes start `n` words into `data`. */
  function RowBits(data: seq<int>, n: nat, width: nat): (row: seq<bool>)
    ensures |row| == width
  {
    seq(width, c => BitAt(data, n, c))
  }

  /** Pixel `c` of a row starting `n` words in: bit `c mod 8` of the row's
      byte `c div 8`. */
  predicate BitAt(data: seq<int>, n: nat, c: int) {
    0 <= c && n + c / 8 < |data| && Lit(Byte(data[n + c / 8]), c % 8)
  }

  /** The bytes `height` rows of `width` pixels take, `ceil(width / 8)` per
      row; equal to `height * ceil(width / 8)` (`NeededProduct`). */
  function Needed(width: nat, height: nat): nat {
    if height == 0 then 0 else Needed(width, height - 1) + (width + 7) / 8
  }

  lemma {:induction false} NeededProduct(width: nat, height: nat)
    ensures Needed(width, height) == height * ((width + 7) / 8)
  {
    if height > 0 {
      NeededProduct(width, height - 1);
      MulSucc(height - 1, (width + 7) / 8);
    }
  }

  /** `Needed` grows with the number of rows. */
  lemma {:induction false} NeededMono(width: nat, a: nat, b: nat)
    requires a <= b
    ensures Needed(width, a) <= Needed(width, b)
    decreases b
  {
    if a < b {
      NeededMono(width, a, b - 1);
    }
  }

  /** The rows of an image from consecutive groups of `ceil(width / 8)` bytes. */
  function UnpackRows(data: seq<int>, width: nat, height: nat): (rows: seq<seq<bool>>)
    requires |data| >= Needed(width, height)
    ensures |rows| == height
  {
    seq(height, y => RowAt(data, width, y))
  }

  /** Row `y` of `UnpackRows`: its bytes start `Needed(width, y)` words in. */
  function RowAt(data: seq<int>, width: nat, y: int): (row: seq<bool>)
    ensures y >= 0 ==> |row| == width
  {
    if y < 0 then [] else RowBits(data, Needed(width, y), width)
  }

  /** `_constructQImage(width, height, data)`: a blank image of that size with
      pixel `(c, y)` lit, for `c < width`, when bit `c mod 8` of byte
      `y * ceil(width / 8) + c div 8` is set (`UnpackPixel`). Reading past
      the data raises `IndexError`; a non-positive side gives the null image
      without reading anything. */
  function Unpack(data: seq<int>, width: int, height: int): (r: Result<Mono>)
    ensures r.Success? ==> r.value.Valid()
    ensures width <= 0 || height <= 0 ==> r == Success(Null)
    ensures width > 0 && height > 0 ==> (r.Failure? <==> |data| < Needed(width, height))
    ensures r.Success? && width > 0 && height > 0 ==> r.value.width == width && r.value.height == height
  {
    if width <= 0 || height <= 0 then Success(Null)
    else if |data| < Needed(width, height) then Failure(IndexError)
    else Success(Mono(width, height, UnpackRows(data, width, height)))
  }

  /** `Unpack` fails exactly when the data is shorter than
      `height * ceil(width / 8)` bytes. */
  lemma UnpackFails(data: seq<int>, width: int, height: int)
    requires width > 0 && height > 0
    ensures Unpack(data, width, height).Failure? <==> |data| < height * ((width + 7) / 8)
  {
    NeededProduct(width, height);
  }

  /** The unpacked pixel is the bit the source's index arithmetic reads. */
  lemma UnpackPixel(data: seq<int>, width: nat, height: nat, y: nat, c: nat)
    requires |data| >= Needed(width, height)
    requires y < height && c < width
    ensures Needed(width, y) + c / 8 < |data|
    ensures UnpackRows(data, width, height)[y][c] == Lit(Byte(data[Needed(width, y) + c / 8]), c % 8)
  {
    NeededMono(width, y + 1, height);
    ByteOfPixel(width, c);
    assert UnpackRows(data, width, height)[y][c] == BitAt(data, Needed(width, y), c);
  }

  /** Pixel `c < width` lies in one of the row's `ceil(width / 8)` bytes. */
  lemma ByteOfPixel(width: nat, c: nat)
    requires c < width
    ensures c / 8 < (width + 7) / 8
  {
  }

  /** The source's index arithmetic agrees with `Needed`. */
  lemma PixelIndex(width: nat, y: nat, c: nat)
    ensures y * ((width + 7) / 8) + c / 8 == Needed(width, y) + c / 8
  {
    NeededProduct(width, y);
  }

  /** Packing then unpacking with the same width and height gives back the
      image. */
  lemma UnpackPack(img: Mono)
    requires img.Valid()
    ensures Unpack(Concat(BmpCodeOf(img).rows), img.width, img.height) == Success(img)
  {
    UnpackRowsPacked(img.rows, BmpCodeOf(img).rows, img.width);
    if img.width == 0 {
      assert img == Null;
    } else {
      UnpackOf(Concat(BmpCodeOf(img).rows), img.width, img.height);
    }
  }

  /** Enough data for a non-empty image unpacks row by row. */
  lemma UnpackOf(data: seq<int>, width: nat, height: nat)
    requires width > 0 && height > 0 && |data| >= Needed(width, height)
    ensures Unpack(data, width, height) == Success(Mono(width, height, UnpackRows(data, width, height)))
  {
  }

  lemma UnpackRowsPacked(pixels: seq<seq<bool>>, packed: seq<seq<nat>>, width: nat)
    requires forall y :: 0 <= y < |pixels| ==> |pixels[y]| == width
    requires |packed| == |pixels|
    requires forall y :: 0 <= y < |pixels| ==> packed[y] == PackRow(pixels[y])
    ensures |Concat(packed)| == Needed(width, |pixels|)
    ensures UnpackRows(Concat(packed), width, |pixels|) == pixels
  {
    var bw := (width + 7) / 8;
    assert forall j :: 0 <= j < |packed| ==> |packed[j]| == bw by {
      forall j | 0 <= j < |packed| ensures |packed[j]| == bw {
        RowBitsPacked(pixels[j], width);
      }
    }
    ConcatLength(packed, bw);
    NeededProduct(width, |pixels|);
    var rows := UnpackRows(Concat(packed), width, |pixels|);
    forall y | 0 <= y < |pixels|
      ensures rows[y] == pixels[y]
    {
      RowOfPacked(packed, width, y, pixels[y]);
    }
  }

  /** Row `y` unpacked from concatenated packed rows is the row packed there. */
  lemma RowOfPacked(packed: seq<seq<nat>>, width: nat, y: nat, row: seq<bool>)
    requires forall j :: 0 <= j < |packed| ==> |packed[j]| == (width + 7) / 8
    requires y < |packed| && |row| == width && packed[y] == PackRow(row)
    ensures RowAt(Concat(packed), width, y) == row
  {
    ConcatRowAt(packed, width, y);
    RowBitsShift(Concat(packed), Needed(width, y), packed[y], width);
    RowBitsPacked(row, width);
  }

  /** Row `y` of a concatenation of `ceil(width / 8)`-word rows sits
      `Needed(width, y)` words in. */
  lemma {:induction false} ConcatRowAt(rows: seq<seq<nat>>, width: nat, y: nat)
    requires forall j :: 0 <= j < |rows| ==> |rows[j]| == (width + 7) / 8
    requires y < |rows|
    ensures Needed(width, y + 1) <= |Concat(rows)|
    ensures Concat(rows)[Needed(width, y)..Needed(width, y + 1)] == rows[y]
    decreases y
  {
    var bw := (width + 7) / 8;
    ConcatFirst(rows, bw);
    if y > 0 {
      var rest := rows[1..];
      ConcatRowAt(rest, width, y - 1);
      var m := Needed(width, y - 1);
      assert Concat(rows)[m + bw..m + bw + bw] == Concat(rest)[m..m + bw];
      assert rest[y - 1] == rows[y];
    }
  }

  /** The first `n` words of a concatenation of `n`-word rows are its first
      row, and the rest are the concatenation of the other rows. */
  lemma ConcatFirst(rows: seq<seq<nat>>, n: nat)
    requires |rows| > 0 && |rows[0]| == n
    ensures |Concat(rows)| == n + |Concat(rows[1..])|
    ensures Concat(rows)[..n] == rows[0] && Concat(rows)[n..] == Concat(rows[1..])
  {
    assert Concat(rows) == rows[0] + Concat(rows[1..]);
  }

  /** A row reads the same from its bytes inside a longer sequence. */
  lemma RowBitsShift(data: seq<int>, n: nat, bytes: seq<int>, width: nat)
    requires |bytes| == (width + 7) / 8 && n + |bytes| <= |data|
    requires data[n..n + |bytes|] == bytes
    ensures RowBits(data, n, width) == RowBits(bytes, 0, width)
  {
    forall c | 0 <= c < width
      ensures BitAt(data, n, c) == BitAt(bytes, 0, c)
    {
      ByteOfPixel(width, c);
      assert data[n + c / 8] == bytes[c / 8];
    }
  }

  /** Unpacking a packed row gives the row back. */
  lemma RowBitsPacked(row: seq<bool>, width: nat)
    requires |row| == width
    ensures |PackRow(row)| == (width + 7) / 8
    ensures RowBits(PackRow(row), 0, width) == row
  {
    forall c | 0 <= c < width
      ensures RowBits(PackRow(row), 0, width)[c] == row[c]
    {
      ByteOfPixel(width, c);
      PackRowBit(row, c);
    }
  }
}
