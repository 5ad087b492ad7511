/** `nconverts`: an older copy of the font and bitmap converters. Its colour
    packing and its `_constructQImage` are the procedures `Color` and
    `FontParser` model; what differs is modelled here: the size
    `font_bmpCode` reports, the `compressed` getter of its `NGL_Bitmap`,
    the `compressData` stub, and `formatedData`, which only writes full
    lines of twenty words. */
module Legacy {
  import opened Results
  import opened PyText
  import opened Glyph
  import Bitmap

  // ---------------------------------------------------------------------------
  // font_bmpCode
  // ---------------------------------------------------------------------------

  /** `font_bmpCode(bmp)` of the older copy: the same byte rows, with the
      size `len(row_code) * len(bitmap_code)` taken from the last row's
      bytes. With no rows, `row_code` was never bound and Python raises
      `UnboundLocalError`, a `NameError`. */
  function FontBmpCode(img: Mono): (r: Result<BmpCode>)
    requires img.Valid()
    ensures r.Failure? <==> img.height == 0
    ensures r.Failure? ==> r.error == NameError
    ensures r.Success? ==> r.value.rows == BmpCodeOf(img).rows
  {
    if img.height == 0 then Failure(NameError)
    else
      var rows := BmpCodeOf(img).rows;
      Success(BmpCode(rows, |rows[|rows| - 1]| * |rows|))
  }

  /** The older size is the exact number of packed bytes, `rows *
      ceil(width / 8)`; the newer one reports one byte more per row when the
      width is a multiple of 8. */
  lemma FontBmpCodeSize(img: Mono)
    requires img.Valid() && img.height > 0
    ensures var r := FontBmpCode(img).value;
      && r.size == |Concat(r.rows)| == img.height * ((img.width + 7) / 8)
      && BmpCodeOf(img).size == r.size + (if img.width % 8 == 0 then img.height else 0)
  {
    BmpSize(img);
    LastRowSize(img);
  }

  lemma LastRowSize(img: Mono)
    requires img.Valid() && img.height > 0
    ensures FontBmpCode(img).value.size == img.height * ((img.width + 7) / 8)
  {
    var rows := BmpCodeOf(img).rows;
    var n := (img.width + 7) / 8;
    assert |rows[|rows| - 1]| == n;
    assert n * img.height == img.height * n;
  }

  // ---------------------------------------------------------------------------
  // The `compressed` attribute
  // ---------------------------------------------------------------------------

  /** The `compressed` getter: `'None'`, `'RLE'` and `'JPG'` become `'0'`,
      `'1'` and `'2'` by three successive replacements. */
  function Compressed(stored: string): string {
    Replace(Replace(Replace(stored, "None", "0"), "RLE", "1"), "JPG", "2")
  }

  /** What `convertQImage` stores: `'None'` for `'compressed_None'`,
      otherwise the argument without its `compressed_` prefix. */
  function StoredCompress(compress: string): string {
    if compress == "compressed_None" then "None" else Replace(compress, "compressed_", "")
  }

  /** The three selections the converter offers read back as the digits the
      generated code expects. */
  lemma CompressedCodes()
    ensures Compressed(StoredCompress("compressed_None")) == "0"
    ensures Compressed(StoredCompress("compressed_RLE")) == "1"
    ensures Compressed(StoredCompress("compressed_JPG")) == "2"
  {
    CompressedNone();
    CompressedRle();
    CompressedJpg();
  }

  lemma CompressedNone()
    ensures Compressed("None") == "0"
  {
    ReplaceWhole("None", "0");
    assert Replace("0", "RLE", "1") == "0";
    assert Replace("0", "JPG", "2") == "0";
  }

  lemma CompressedRle()
    ensures Compressed(StoredCompress("compressed_RLE")) == "1"
  {
    PrefixDropped("RLE");
    assert Replace("RLE", "None", "0") == "RLE";
    ReplaceWhole("RLE", "1");
    assert Replace("1", "JPG", "2") == "1";
  }

  lemma CompressedJpg()
    ensures Compressed(StoredCompress("compressed_JPG")) == "2"
  {
    PrefixDropped("JPG");
    assert Replace("JPG", "None", "0") == "JPG";
    assert "JPG"[..3][0] != "RLE"[0];
    assert Replace("PG", "RLE", "1") == "PG";
    assert Replace("JPG", "RLE", "1") == "J" + "PG";
    ReplaceWhole("JPG", "2");
  }

  /** The prefix goes; a short rest stays. */
  lemma PrefixDropped(rest: string)
    requires |rest| < |"compressed_"|
    ensures Replace("compressed_" + rest, "compressed_", "") == rest
  {
    var s := "compressed_" + rest;
    assert s[..11] == "compressed_";
    assert s[11..] == rest;
  }

  /** Any other stored value passes through the getter unchanged, so a
      string holding none of the three names never turns into a digit. */
  lemma CompressedOther(stored: string)
    requires forall j :: !OccursAt(stored, "None", j) && !OccursAt(stored, "RLE", j) && !OccursAt(stored, "JPG", j)
    ensures Compressed(stored) == stored
  {
  }

  // ---------------------------------------------------------------------------
  // convertQImage with the compressData stub
  // ---------------------------------------------------------------------------

  /** `compressData` of the older copy is a stub: it returns `None`. */
  function CompressData(words: seq<nat>): (r: Option<seq<nat>>)
    ensures r.None?
  {
    None
  }

  /** `convertQImage` of the older copy: the colour words column by column,
      as the newer converter flattens them; any compression other than
      `'compressed_None'` replaces them by the stub's `None`. */
  method ConvertQImage(img: Bitmap.Image, compress: string) returns (data: Option<seq<nat>>, stored: string)
    requires img.Valid()
    ensures compress == "compressed_None" <==> data.Some?
    ensures data.Some? ==> data.value == Bitmap.Columns(img, img.width)
    ensures data.Some? ==> |data.value| == img.width * img.height
    ensures stored == StoredCompress(compress)
  {
    var words := Bitmap.Flatten(img);
    data := Some(words);
    stored := "None";
    if compress != "compressed_None" {
      data := CompressData(words);
      stored := Replace(compress, "compressed_", "");
    }
  }

  // ---------------------------------------------------------------------------
  // formatedData
  // ---------------------------------------------------------------------------

  /** `'%04x' % w`: the hexadecimal digits, padded with zeros to four. */
  function Hex4(w: nat): (s: string)
    ensures |s| >= 4
  {
    var d := HexDigits(w);
    if |d| < 4 then Repeat('0', 4 - |d|) + d else d
  }

  /** `'0x%04x, ' % w`. */
  function WordText(w: nat): string {
    "0x" + Hex4(w) + ", "
  }

  /** The words of one line, each as `WordText`. */
  function WordsText(ws: seq<nat>): string {
    if |ws| == 0 then "" else WordText(ws[0]) + WordsText(ws[1..])
  }

  /** One output line: a tab, the words, a newline. */
  function Row(ws: seq<nat>): string {
    "\t" + WordsText(ws) + "\n"
  }

  const Group: nat := 20

  /** The layout the older `formatedData` writes: one line for each full
      group of twenty words, nothing for a trailing partial group. */
  function FullRows(data: seq<nat>): string
    decreases |data|
  {
    if |data| < Group then "" else Row(data[..Group]) + FullRows(data[Group..])
  }

  /** The loop as written: a line is closed after every twenty words, and
      the line still open at the end is never appended. */
  method FormatData(data: seq<nat>) returns (s: string)
    ensures s == FullRows(data)
  {
    var crop := 0;
    var line: seq<nat> := [];
    s := "";
    var i := 0;
    ghost var groups := 0;
    ghost var done: seq<nat> := [];
    while i < |data|
      invariant 0 <= i <= |data|
      invariant 0 <= crop < Group && crop == |line|
      invariant |done| == groups * Group && done + line == data[..i]
      invariant s == FullRows(done)
    {
      Bitmap.PrefixGrows(data, i, done, line);
      line := line + [data[i]];
      crop := crop + 1;
      if crop >= Group {
        FullRowsAppend(done, line, groups);
        groups := groups + 1;
        done := done + line;
        s := s + Row(line);
        line := [];
        crop := 0;
      }
      i := i + 1;
    }
    assert data[..i] == data;
    FullRowsShort(done, line, groups);
  }

  /** Appending a full group to whole groups appends one line. */
  lemma {:induction false} FullRowsAppend(a: seq<nat>, b: seq<nat>, groups: nat)
    requires |a| == groups * Group && |b| == Group
    ensures |a + b| == (groups + 1) * Group
    ensures FullRows(a + b) == FullRows(a) + Row(b)
    decreases groups
  {
    if groups == 0 {
      assert a + b == b;
      assert b[..Group] == b && b[Group..] == [];
    } else {
      assert (a + b)[..Group] == a[..Group];
      assert (a + b)[Group..] == a[Group..] + b;
      FullRowsAppend(a[Group..], b, groups - 1);
    }
  }

  /** A partial group after whole groups adds nothing. */
  lemma {:induction false} FullRowsShort(a: seq<nat>, b: seq<nat>, groups: nat)
    requires |a| == groups * Group && |b| < Group
    ensures FullRows(a + b) == FullRows(a)
    decreases groups
  {
    if groups == 0 {
      assert a + b == b;
    } else {
      assert (a + b)[..Group] == a[..Group];
      assert (a + b)[Group..] == a[Group..] + b;
      FullRowsShort(a[Group..], b, groups - 1);
    }
  }

  /** The older `formatedData` writes floor(n / 20) lines. */
  lemma {:induction false} FullRowsCount(data: seq<nat>)
    ensures Bitmap.Newlines(FullRows(data)) == |data| / Group
    decreases |data|
  {
    if |data| >= Group {
      FullRowsCount(data[Group..]);
      RowNewlines(data[..Group]);
      Bitmap.NewlinesAppend(Row(data[..Group]), FullRows(data[Group..]));
    }
  }

  /** Against the newer layout with twenty words per line, a trailing partial
      group is the one line the older copy loses. */
  lemma FullRowsDropsTail(data: seq<nat>)
    ensures var lines := Bitmap.Newlines(Bitmap.Chunks(data, Group));
      Bitmap.Newlines(FullRows(data)) == (if |data| % Group == 0 then lines else lines - 1)
  {
    FullRowsCount(data);
    Bitmap.ChunkCount(data, Group);
    var lines := Bitmap.Newlines(Bitmap.Chunks(data, Group));
    CeilOfCount(|data|, lines);
  }

  /** The line count `c` with `(c - 1) * 20 < n <= c * 20` is n / 20, rounded up. */
  lemma CeilOfCount(n: nat, c: nat)
    requires (c == 0 <==> n == 0) && n <= c * Group && (c >= 1 ==> (c - 1) * Group < n)
    ensures n / Group == (if n % Group == 0 then c else c - 1)
  {
  }

  /** A line holds exactly one newline, at its end. */
  lemma RowNewlines(ws: seq<nat>)
    ensures Bitmap.Newlines(Row(ws)) == 1
  {
    WordsNoNewline(ws);
    Bitmap.NewlinesAppend("\t" + WordsText(ws), "\n");
    Bitmap.NewlinesAppend("\t", WordsText(ws));
  }

  lemma {:induction false} WordsNoNewline(ws: seq<nat>)
    ensures Bitmap.Newlines(WordsText(ws)) == 0
  {
    if |ws| > 0 {
      WordsNoNewline(ws[1..]);
      Bitmap.NewlinesAppend(WordText(ws[0]), WordsText(ws[1..]));
      WordTextPlain(ws[0]);
      Bitmap.NoNewlineInHex(WordText(ws[0]));
    }
  }

  /** A word's text holds no newline. */
  lemma WordTextPlain(w: nat)
    ensures '\n' !in WordText(w)
  {
    HexDigitsChars(w);
    var d := HexDigits(w);
    var s := WordText(w);
    forall k | 0 <= k < |s| ensures s[k] != '\n' {
      if 2 <= k < 2 + |Hex4(w)| {
        assert s[k] == Hex4(w)[k - 2];
        if |d| < 4 && k - 2 >= 4 - |d| {
          assert Hex4(w)[k - 2] == d[k - 2 - (4 - |d|)];
        }
      }
    }
  }

  /** `int('0x%04x' % w, 16) == w`: the zero padding keeps the value, so
      every word can be read back from its text. */
  lemma Hex4Value(w: nat)
    ensures ParseHex("0x" + Hex4(w)) == Some(w)
  {
    var h := Hex4(w);
    var s := "0x" + h;
    Hex4Digits(w);
    assert s[2..] == h;
    assert NoSpaces(s) by {
      forall k | 0 <= k < |s| ensures !IsSpace(s[k]) {
        if k >= 2 {
          assert s[k] == h[k - 2];
          assert IsHexDigit(h[k - 2]);
        }
      }
    }
    StripNoSpaces(s);
  }

  /** The padded digits are hexadecimal digits worth `w`. */
  lemma Hex4Digits(w: nat)
    ensures AllDigits(Hex4(w), 16) && DigitsValue(Hex4(w), 16) == w
  {
    var d := HexDigits(w);
    var h := Hex4(w);
    HexDigitsChars(w);
    HexDigitsValue(w);
    forall k | 0 <= k < |h| ensures IsHexDigit(h[k]) {
      if |d| < 4 && k >= 4 - |d| {
        assert h[k] == d[k - (4 - |d|)];
      }
    }
    if |d| < 4 {
      ZerosValue(4 - |d|, d);
    }
  }

  /** Leading zeros do not change a hexadecimal value. */
  lemma {:induction false} ZerosValue(z: nat, d: string)
    ensures DigitsValue(Repeat('0', z) + d, 16) == DigitsValue(d, 16)
    decreases |d|
  {
    if |d| == 0 {
      assert Repeat('0', z) + d == Repeat('0', z);
      ZerosOnly(z);
    } else {
      var s := Repeat('0', z) + d;
      assert s[..|s| - 1] == Repeat('0', z) + d[..|d| - 1];
      ZerosValue(z, d[..|d| - 1]);
    }
  }

  lemma {:induction false} ZerosOnly(z: nat)
    ensures DigitsValue(Repeat('0', z), 16) == 0
  {
    if z > 0 {
      var s := Repeat('0', z);
      assert s[..z - 1] == Repeat('0', z - 1);
      ZerosOnly(z - 1);
    }
  }

  /** Words below 0x10000 take exactly four digits. */
  lemma Hex4Width(w: nat)
    requires w < 0x10000
    ensures |Hex4(w)| == 4
  {
    HexDigitsBound(w, 4);
  }

  function Pow16(k: nat): nat {
    if k == 0 then 1 else 16 * Pow16(k - 1)
  }

  lemma {:induction false} HexDigitsBound(n: nat, k: nat)
    requires k >= 1 && n < Pow16(k)
    ensures |HexDigits(n)| <= k
    decreases k
  {
    if n >= 16 {
      assert k >= 2;
      assert n / 16 < Pow16(k - 1);
      HexDigitsBound(n / 16, k - 1);
    }
  }
}
