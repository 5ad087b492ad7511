/** The glyph editor: `BitmapManipulator`'s grid operations on the image of
    the character being edited, the pixel inversion of `ImageModel`, the
    character-map cell arithmetic of `CharactersMapWidget`, and the offsets
    `NFontEditWidget._reGenerateFont` reassigns. */
module Editor {
  import opened Results
  import opened Glyph
  import opened Nfont
  import PyText
  import Codegen

  /** Pixel `(x, y)` of an image, unlit outside it. */
  predicate PixelOf(img: Mono, x: int, y: int)
    requires img.Valid()
  {
    0 <= y < img.height && 0 <= x < img.width && img.rows[y][x]
  }

  /** The image of the given size whose pixel `(x, y)` is `PixelOf(img, x +
      dx, y + dy)`: the picture of `img` moved by `(-dx, -dy)`, blank where
      nothing lands. A size with a zero side gives the null image. */
  function Moved(img: Mono, w: nat, h: nat, dx: int, dy: int): (r: Mono)
    requires img.Valid()
    ensures r.Valid()
    ensures w > 0 && h > 0 ==> r.width == w && r.height == h
    ensures w == 0 || h == 0 ==> r == Null
    ensures forall y, x :: 0 <= y < r.height && 0 <= x < r.width ==>
      r.rows[y][x] == PixelOf(img, x + dx, y + dy)
  {
    if w == 0 || h == 0 then Null
    else Mono(w, h, seq(h, y => seq(w, x => PixelOf(img, x + dx, y + dy))))
  }

  /** Two well-formed images with the same size and pixels are equal. */
  lemma SameImage(a: Mono, b: Mono)
    requires a.Valid() && b.Valid()
    requires a.width == b.width && a.height == b.height
    requires forall y, x :: 0 <= y < a.height && 0 <= x < a.width ==> a.rows[y][x] == b.rows[y][x]
    ensures a == b
  {
    forall y | 0 <= y < a.height
      ensures a.rows[y] == b.rows[y]
    {
    }
  }

  // ---------------------------------------------------------------------------
  // BitmapManipulator
  // ---------------------------------------------------------------------------

  /** The first column `addX` writes to and `removeX` copies from. */
  function FirstColumn(direction: string): (x0: nat)
    ensures x0 == 1 <==> direction == "left"
    ensures x0 <= 1
  {
    if direction == "left" then 1 else 0
  }

  /** `addX(bitmap, direction)`: one column wider. For "left" the picture
      moves one column right and column 0 is blank; for any other direction
      the new last column is blank. */
  function AddX(img: Mono, direction: string): (r: Mono)
    requires img.Valid()
    ensures r.Valid()
    ensures img != Null ==> r.width == img.width + 1 && r.height == img.height
    ensures img == Null ==> r == Null
    ensures forall y, x :: 0 <= y < r.height && 0 <= x < r.width ==>
      r.rows[y][x] == PixelOf(img, x - FirstColumn(direction), y)
  {
    Moved(img, img.width + 1, img.height, -(FirstColumn(direction) as int), 0)
  }

  /** `removeX(bitmap, direction)`: for an image wider than one column, the
      copy without column 0 ("left") or without the last column (any other
      direction); otherwise nothing (`None`). */
  function RemoveX(img: Mono, direction: string): (r: Option<Mono>)
    requires img.Valid()
    ensures r.Some? <==> img.width > 1
    ensures r.Some? ==> r.value.Valid() && r.value.width == img.width - 1 && r.value.height == img.height
    ensures r.Some? ==> forall y, x :: 0 <= y < img.height && 0 <= x < img.width - 1 ==>
      r.value.rows[y][x] == img.rows[y][x + FirstColumn(direction)]
  {
    if img.width > 1 then Some(Moved(img, img.width - 1, img.height, FirstColumn(direction), 0))
    else None
  }

  /** `addY(bitmap)`: one blank row added at the bottom. */
  function AddY(img: Mono): (r: Mono)
    requires img.Valid()
    ensures r.Valid()
    ensures img != Null ==> r.width == img.width && r.height == img.height + 1
    ensures img == Null ==> r == Null
    ensures forall y, x :: 0 <= y < r.height && 0 <= x < r.width ==>
      r.rows[y][x] == (y < img.height && img.rows[y][x])
  {
    Moved(img, img.width, img.height + 1, 0, 0)
  }

  /** `removeY(bitmap)`: the copy without the bottom row; an image of one row
      or none becomes the null image. */
  function RemoveY(img: Mono): (r: Mono)
    requires img.Valid()
    ensures r.Valid()
    ensures img.height > 1 ==> r.width == img.width && r.height == img.height - 1
    ensures img.height <= 1 ==> r == Null
    ensures forall y, x :: 0 <= y < r.height && 0 <= x < r.width ==> r.rows[y][x] == img.rows[y][x]
  {
    if img.height <= 1 then Null else Moved(img, img.width, img.height - 1, 0, 0)
  }

  /** The directions `shift` accepts, and where each one reads from. */
  function ShiftSource(direction: string): (d: Option<(int, int)>)
    ensures d.Some? <==> direction in ["left", "right", "up", "down"]
  {
    if direction == "left" then Some((1, 0))
    else if direction == "right" then Some((-1, 0))
    else if direction == "up" then Some((0, 1))
    else if direction == "down" then Some((0, -1))
    else None
  }

  /** `shift(bitmap, direction)`: the same size, every pixel one step in the
      direction, those pushed over the edge lost and the vacated edge blank.
      Any other direction is reported by `error`, which terminates. */
  function Shift(img: Mono, direction: string): (r: Result<Mono>)
    requires img.Valid()
    ensures r.Failure? <==> direction !in ["left", "right", "up", "down"]
    ensures r.Failure? ==> r.error == SystemExit
    ensures r.Success? ==> r.value.Valid() && r.value.width == img.width && r.value.height == img.height
  {
    match ShiftSource(direction)
    case None => Failure(SystemExit)
    case Some((dx, dy)) =>
      if img == Null then Success(Null) else Success(Moved(img, img.width, img.height, dx, dy))
  }

  /** Where `shift` moves each pixel: "left" moves `(x + 1, y)` to `(x, y)`
      and blanks the last column, "right" blanks column 0, "up" blanks the
      bottom row and "down" the top one. */
  lemma ShiftPixels(img: Mono, direction: string, x: int, y: int)
    requires img.Valid() && Shift(img, direction).Success?
    requires 0 <= y < img.height && 0 <= x < img.width
    ensures var r := Shift(img, direction).value.rows[y][x];
      && (direction == "left" ==> r == (x + 1 < img.width && img.rows[y][x + 1]))
      && (direction == "right" ==> r == (x > 0 && img.rows[y][x - 1]))
      && (direction == "up" ==> r == (y + 1 < img.height && img.rows[y + 1][x]))
      && (direction == "down" ==> r == (y > 0 && img.rows[y - 1][x]))
  {
  }

  /** `removeX` undoes `addX` in the same direction. */
  lemma RemoveAddX(img: Mono, direction: string)
    requires img.Valid() && img != Null
    ensures RemoveX(AddX(img, direction), direction) == Some(img)
  {
    var wide := AddX(img, direction);
    var back := RemoveX(wide, direction).value;
    forall y, x | 0 <= y < img.height && 0 <= x < img.width
      ensures back.rows[y][x] == img.rows[y][x]
    {
      assert back.rows[y][x] == wide.rows[y][x + FirstColumn(direction)];
    }
    SameImage(back, img);
  }

  /** `removeY` undoes `addY`. */
  lemma RemoveAddY(img: Mono)
    requires img.Valid() && img != Null
    ensures RemoveY(AddY(img)) == img
  {
    var tall := AddY(img);
    var back := RemoveY(tall);
    forall y, x | 0 <= y < img.height && 0 <= x < img.width
      ensures back.rows[y][x] == img.rows[y][x]
    {
      assert back.rows[y][x] == tall.rows[y][x];
    }
    SameImage(back, img);
  }

  /** Shifting left and then right restores every pixel except the column
      the first shift pushed over the edge, which comes back blank. */
  lemma ShiftLeftRight(img: Mono)
    requires img.Valid()
    ensures var back := Shift(Shift(img, "left").value, "right").value;
      && back.width == img.width && back.height == img.height
      && forall y, x :: 0 <= y < img.height && 0 <= x < img.width ==>
        back.rows[y][x] == (x > 0 && img.rows[y][x])
  {
    var once := Shift(img, "left").value;
    var back := Shift(once, "right").value;
    forall y, x | 0 <= y < img.height && 0 <= x < img.width
      ensures back.rows[y][x] == (x > 0 && img.rows[y][x])
    {
      ShiftPixels(once, "right", x, y);
      if x > 0 {
        ShiftPixels(img, "left", x - 1, y);
      }
    }
  }

  // ---------------------------------------------------------------------------
  // ImageModel.invertData
  // ---------------------------------------------------------------------------

  /** `invertData(index)`: a lit pixel becomes 0 and an unlit one 1; an
      index outside the image changes nothing. */
  function Invert(img: Mono, x: int, y: int): (r: Mono)
    requires img.Valid()
    ensures r.Valid() && r.width == img.width && r.height == img.height
    ensures 0 <= y < img.height && 0 <= x < img.width ==> r.rows[y][x] == !img.rows[y][x]
    ensures forall yy, xx :: 0 <= yy < img.height && 0 <= xx < img.width && (yy, xx) != (y, x) ==>
      r.rows[yy][xx] == img.rows[yy][xx]
  {
    SetPixel(img, x, y, !PixelOf(img, x, y))
  }

  /** Inverting the same pixel twice restores the image. */
  lemma InvertTwice(img: Mono, x: int, y: int)
    requires img.Valid()
    ensures Invert(Invert(img, x, y), x, y) == img
  {
    SameImage(Invert(Invert(img, x, y), x, y), img);
  }

  // ---------------------------------------------------------------------------
  // CharactersMapWidget
  // ---------------------------------------------------------------------------

  /** The side of a character cell, in pixels, and the cells per row. */
  const CellSize: nat := 24
  const Columns: nat := 16

  /** The key of the cell under widget position `(px, py)`: cells are
      numbered row by row. Python's `//` floors, as Dafny's `/` does for a
      positive divisor. */
  function CellKey(px: int, py: int): int {
    (py / CellSize) * Columns + px / CellSize
  }

  /** A position inside the map's columns gives back its cell's row and
      column from the key. */
  lemma CellKeyParts(px: int, py: int)
    requires 0 <= px < Columns * CellSize && py >= 0
    ensures CellKey(px, py) >= 0
    ensures CellKey(px, py) / Columns == py / CellSize
    ensures CellKey(px, py) % Columns == px / CellSize
  {
    var row := py / CellSize;
    var col := px / CellSize;
    assert 0 <= col < Columns;
    KeyDivMod(row, col);
  }

  lemma KeyDivMod(row: int, col: int)
    requires row >= 0 && 0 <= col < Columns
    ensures (row * Columns + col) / Columns == row
    ensures (row * Columns + col) % Columns == col
  {
  }

  /** `_chr(codepoint)`: the character at that index of the loaded set, by
      Python indexing (a negative index counts from the end and one below
      `-len` raises), or `None` when no set is loaded or the index is past
      its end. */
  function Chr(charSet: Option<string>, k: int): (r: Result<Option<char>>)
    ensures charSet.None? ==> r == Success(None)
    ensures charSet.Some? ==> var s := charSet.value;
      && (0 <= k < |s| ==> r == Success(Some(s[k])))
      && (-|s| <= k < 0 ==> r == Success(Some(s[|s| + k])))
      && (k >= |s| ==> r == Success(None))
      && (k < -|s| ==> r == Failure(IndexError))
  {
    if charSet.Some? && k < |charSet.value| then
      var c :- PyText.At(charSet.value, k);
      Success(Some(c))
    else Success(None)
  }

  /** A click inside the map selects the character of its cell, counted row
      by row, or nothing past the end of the set. */
  lemma ClickSelects(charSet: string, px: int, py: int)
    requires 0 <= px < Columns * CellSize && py >= 0
    ensures var k := (py / CellSize) * Columns + px / CellSize;
      Chr(Some(charSet), CellKey(px, py)) ==
        if k < |charSet| then Success(Some(charSet[k])) else Success(None)
  {
    CellKeyParts(px, py);
  }

  // ---------------------------------------------------------------------------
  // NFontEditWidget._reGenerateFont
  // ---------------------------------------------------------------------------

  /** The entries `_reGenerateFont` adds, one per listed record: its
      character and image with freshly computed `font_bmpCode` rows. */
  function RegenEntries(list: seq<CharRecord>): (es: seq<Entry>)
    requires forall i :: 0 <= i < |list| ==> list[i].bitmap.Valid()
    ensures |es| == |list| && ValidEntries(es)
    ensures forall i :: 0 <= i < |list| ==> es[i] == GlyphEntry(list[i].ch, list[i].bitmap)
  {
    seq(|list|, i requires 0 <= i < |list| => GlyphEntry(list[i].ch, list[i].bitmap))
  }

  /** `_reGenerateFont()`: in ascending character order (`order`), each
      record gets the rows `font_bmpCode` computes for its image and, as
      offset, the sum of the sizes reported for the characters before it;
      then the C code of the font is generated from `template`. */
  method RegenerateFont(f: Font, template: string) returns (r: Font, order: seq<CharRecord>, code: Result<string>)
    requires f.Valid()
    ensures ListsFont(f, order)
    ensures r.Valid() && r.name == f.name && r.chars.Keys == f.chars.Keys
    ensures Regenerated(r, order)
    ensures code.Failure? <==> |f.chars| == 0
    ensures ListsFont(r, Relisted(r, order))
    ensures code == Codegen.FontText(f.name, Relisted(r, order), template)
  {
    order := CharsList(f);
    ListedKeys(f, order);
    var es := RegenEntries(order);
    r := AddEntries(f, es);
    UnionSame(f.chars.Keys, EntryKeys(es));
    RegenPlaced(f, order);
    RegenCodes(r, order);
    CodeOutcome(f, r);
    RelistedLists(f, r, order);
    code := Codegen.FontCode(r, template);
  }

  /** `order`'s keys, each with its record in `r`: the regenerated font's
      listing, in the order the old one had. */
  function Relisted(r: Font, order: seq<CharRecord>): (s: seq<CharRecord>)
    requires forall i :: 0 <= i < |order| ==> order[i].ch in r.chars
    ensures |s| == |order|
    ensures forall i :: 0 <= i < |order| ==> s[i] == r.chars[order[i].ch]
  {
    seq(|order|, i requires 0 <= i < |order| => r.chars[order[i].ch])
  }

  /** A font with the same keys as `f` is listed by `f`'s listing with its
      own records put in. */
  lemma RelistedLists(f: Font, r: Font, order: seq<CharRecord>)
    requires ListsFont(f, order) && r.Valid() && r.chars.Keys == f.chars.Keys
    ensures forall i :: 0 <= i < |order| ==> order[i].ch in r.chars
    ensures ListsFont(r, Relisted(r, order))
  {
    assert forall i :: 0 <= i < |order| ==> order[i].ch in r.chars;
    var s := Relisted(r, order);
    SameKeysAs(r, order, s);
    assert Sorted(s);
    assert Distinct(s);
    forall k | k in r.chars
      ensures exists i :: 0 <= i < |s| && s[i].ch == k
    {
      var i :| 0 <= i < |order| && order[i].ch == k;
      assert s[i].ch == k;
    }
    ListingListsFont(r, s);
  }

  lemma SameKeysAs(r: Font, order: seq<CharRecord>, s: seq<CharRecord>)
    requires r.Valid() && forall i :: 0 <= i < |order| ==> order[i].ch in r.chars
    requires s == Relisted(r, order)
    ensures forall i :: 0 <= i < |s| ==> s[i].ch == order[i].ch && GetChar(r, s[i].ch) == Some(s[i])
  {
  }


  /** With every record holding code, only an empty font fails. */
  lemma CodeOutcome(f: Font, r: Font)
    requires r.chars.Keys == f.chars.Keys
    requires forall k :: k in r.chars ==> r.chars[k].code.Some?
    ensures (|r.chars| == 0 || exists k :: k in r.chars && r.chars[k].code.None?) <==> |f.chars| == 0
  {
    assert |r.chars| == |r.chars.Keys| && |f.chars| == |f.chars.Keys|;
  }

  lemma UnionSame(a: set<string>, b: set<string>)
    requires a == b
    ensures a + b == a
  {
  }

  /** Every listed character holds its new rows, at the running offset. */
  predicate Regenerated(r: Font, order: seq<CharRecord>)
    requires forall i :: 0 <= i < |order| ==> order[i].bitmap.Valid()
  {
    forall i :: 0 <= i < |order| ==> RegeneratedAt(r, order, i)
  }

  predicate RegeneratedAt(r: Font, order: seq<CharRecord>, i: nat)
    requires i < |order| && forall j :: 0 <= j < |order| ==> order[j].bitmap.Valid()
  {
    GetChar(r, order[i].ch) == Some(CharRecord(order[i].ch, Some(BmpCodeOf(order[i].bitmap).rows),
                                               Sizes(RegenEntries(order)[..i]), order[i].bitmap))
  }

  lemma RegenPlaced(f: Font, order: seq<CharRecord>)
    requires Distinct(order)
    requires forall i :: 0 <= i < |order| ==> order[i].bitmap.Valid()
    ensures Regenerated(AddAll(f, RegenEntries(order), 0), order)
  {
    var es := RegenEntries(order);
    forall i | 0 <= i < |order|
      ensures RegeneratedAt(AddAll(f, es, 0), order, i)
    {
      assert IsLast(es, i);
      AddAllOffsets(f, es, 0, i);
      RegenAt(f, order, i);
    }
  }

  lemma RegenAt(f: Font, order: seq<CharRecord>, i: nat)
    requires i < |order| && forall j :: 0 <= j < |order| ==> order[j].bitmap.Valid()
    requires Placed(f, RegenEntries(order), 0, i)
    ensures RegeneratedAt(AddAll(f, RegenEntries(order), 0), order, i)
  {
    var es := RegenEntries(order);
    assert es[i] == GlyphEntry(order[i].ch, order[i].bitmap);
  }

  /** After regeneration every record holds code. */
  lemma RegenCodes(r: Font, order: seq<CharRecord>)
    requires forall i :: 0 <= i < |order| ==> order[i].bitmap.Valid()
    requires Regenerated(r, order)
    requires forall k :: k in r.chars ==> exists i :: 0 <= i < |order| && order[i].ch == k
    ensures forall k :: k in r.chars ==> r.chars[k].code.Some?
  {
    forall k | k in r.chars
      ensures r.chars[k].code.Some?
    {
      var i :| 0 <= i < |order| && order[i].ch == k;
      assert RegeneratedAt(r, order, i);
    }
  }

  /** The sorted listing holds every key once, so it is as long as the
      dictionary, and its entries carry exactly the font's keys. */
  lemma ListedKeys(f: Font, order: seq<CharRecord>)
    requires f.Valid() && Sorted(order) && Distinct(order)
    requires forall i :: 0 <= i < |order| ==> GetChar(f, order[i].ch) == Some(order[i])
    requires forall k :: k in f.chars ==> exists i :: 0 <= i < |order| && order[i].ch == k
    ensures ListsFont(f, order)
    ensures forall i :: 0 <= i < |order| ==> order[i].bitmap.Valid()
    ensures EntryKeys(RegenEntries(order)) == f.chars.Keys
  {
    ListingListsFont(f, order);
    assert ListKeys(order) == f.chars.Keys;
    RegenKeys(order);
  }

  lemma RegenKeys(order: seq<CharRecord>)
    requires forall i :: 0 <= i < |order| ==> order[i].bitmap.Valid()
    ensures EntryKeys(RegenEntries(order)) == set i | 0 <= i < |order| :: order[i].ch
  {
    var es := RegenEntries(order);
    assert forall i :: 0 <= i < |order| ==> es[i].ch == order[i].ch;
  }
}
