/** The C code generator (`ncodegenerator.py`): a font's glyphs become
    commented hex rows (`NFontCodeGen._nchar_code`), its descriptor table
    one line per glyph (`_nchars_desc`), and the font template is filled in
    by successive replacements (`font`). The page helpers
    `_generatePointersCode` and `_removeDuplicateObjects` are here too.
    The glyph text reads back through the C-file parser. */
module Codegen {
  import opened Results
  import opened PyText
  import opened Glyph
  import opened Nfont
  import FontParser

  // ---------------------------------------------------------------------------
  // Glyph headers
  // ---------------------------------------------------------------------------

  /** The header comment `_nchar_code` writes above a glyph's rows, without
      its line break: offset, number of rows, character and pixel width. */
  function HeaderLine(offset: int, rows: nat, ch: string, width: nat): string {
    HeaderText(IntText(offset), Decimal(rows), ch, Decimal(width))
  }

  function HeaderText(io: string, dr: string, ch: string, dw: string): string {
    "\t/* o@" + io + "|l@" + dr + " '" + ch + "' (" + dw + " bits wide) */"
  }

  /** Text made of digits and minus signs, as `str` gives for an integer. */
  predicate Numeric(s: string) {
    forall k :: 0 <= k < |s| ==> s[k] == '-' || IsDigit(s[k])
  }

  /** `str(n)` is numeric. */
  lemma DecimalNumeric(n: nat)
    ensures Numeric(Decimal(n))
  {
    DecimalDigits(n);
  }

  /** `str(i)` is numeric. */
  lemma IntTextNumeric(i: int)
    ensures Numeric(IntText(i))
  {
    IntTextChars(i);
  }

  /** None of the marker characters the parser looks for is numeric. */
  lemma NumericAvoids(s: string)
    requires Numeric(s)
    ensures 'l' !in s && '\'' !in s && '(' !in s && 'b' !in s && ' ' !in s && '\n' !in s
  {
    forall x | x in s ensures x == '-' || IsDigit(x) {
      var k :| 0 <= k < |s| && s[k] == x;
    }
  }

  /** `l@` is found right after the offset field. */
  lemma FindRows(io: string, dr: string, ch: string, dw: string)
    requires Numeric(io)
    ensures Find(HeaderText(io, dr, ch, dw), "l@") == |io| + 7
  {
    NumericAvoids(io);
    var p1 := "\t/* o@" + io + "|";
    assert 'l' !in p1;
    assert HeaderText(io, dr, ch, dw) == p1 + "l@" + (dr + " '" + ch + "' (" + dw + " bits wide) */");
    FindAfter(p1, "l@", dr + " '" + ch + "' (" + dw + " bits wide) */", 0);
  }

  /** The first ` '` is found right after the row count. */
  lemma FindOpenQuote(io: string, dr: string, c: char, dw: string)
    requires Numeric(io) && Numeric(dr)
    ensures Find(HeaderText(io, dr, [c], dw), " '") == |io| + |dr| + 9
  {
    NumericAvoids(io);
    NumericAvoids(dr);
    var a := "\t/* o@" + io + "|l@" + dr;
    assert '\'' !in a + " ";
    assert HeaderText(io, dr, [c], dw) == a + " '" + ([c] + "' (" + dw + " bits wide) */");
    FindAfter(a, " '", [c] + "' (" + dw + " bits wide) */", 1);
  }

  /** The last `' ` is found right after the character. */
  lemma FindCloseQuote(io: string, dr: string, c: char, dw: string)
    requires Numeric(dw)
    ensures RFind(HeaderText(io, dr, [c], dw), "' ") == |io| + |dr| + 12
  {
    NumericAvoids(dw);
    var a := "\t/* o@" + io + "|l@" + dr + " '" + [c];
    var b := "(" + dw + " bits wide) */";
    assert '\'' !in " " + b;
    assert HeaderText(io, dr, [c], dw) == a + "' " + b;
    RFindBefore(a, "' ", b, 0);
  }

  /** ` (` is found after the closing quote, even when the character is
      itself `(`: it follows a quote there, not a space. */
  lemma FindParen(io: string, dr: string, c: char, dw: string)
    requires Numeric(io) && Numeric(dr)
    ensures Find(HeaderText(io, dr, [c], dw), " (") == |io| + |dr| + 13
  {
    NumericAvoids(io);
    NumericAvoids(dr);
    var a := "\t/* o@" + io + "|l@" + dr;
    var a2 := a + " '" + [c] + "'";
    var s := HeaderText(io, dr, [c], dw);
    assert s == a2 + " (" + (dw + " bits wide) */");
    assert '(' !in a;
    forall j | 0 <= j < |a2| ensures !OccursAt(s, " (", j) {
      if j == |a| + 1 {
        assert s[j] == '\'';
        NotAt(s, " (", j, 0);
      } else {
        assert s[j + 1] != '(' by {
          if j + 1 < |a| {
            assert s[j + 1] == a[j + 1];
          }
        }
        NotAt(s, " (", j, 1);
      }
    }
    assert s[|a2|..|a2| + 2] == " (";
    FindAt(s, " (", |a2|);
  }

  /** `bits wide` is found after the width field, even when the character
      is `b`: an `i` never follows it there. */
  lemma FindBitsWide(io: string, dr: string, c: char, dw: string)
    requires Numeric(io) && Numeric(dr) && Numeric(dw)
    ensures Find(HeaderText(io, dr, [c], dw), "bits wide") == |io| + |dr| + |dw| + 16
  {
    NumericAvoids(io);
    NumericAvoids(dr);
    NumericAvoids(dw);
    var a := "\t/* o@" + io + "|l@" + dr;
    var a3 := a + " '" + [c] + "' (" + dw + " ";
    var s := HeaderText(io, dr, [c], dw);
    assert s == a3 + "bits wide" + ") */";
    assert 'b' !in a;
    forall j | 0 <= j < |a3| ensures !OccursAt(s, "bits wide", j) {
      if j == |a| + 2 {
        assert s[j + 1] == '\'';
        NotAt(s, "bits wide", j, 1);
      } else {
        assert s[j] != 'b' by {
          if j < |a| {
            assert s[j] == a[j];
          } else if j >= |a| + 6 && j < |a| + 6 + |dw| {
            assert s[j] == dw[j - |a| - 6];
          }
        }
        NotAt(s, "bits wide", j, 0);
      }
    }
    assert s[|a3|..|a3| + 9] == "bits wide";
    FindAt(s, "bits wide", |a3|);
  }

  /** Where the fields sit in a header. */
  lemma HeaderFields(io: string, dr: string, c: char, dw: string)
    ensures var s := HeaderText(io, dr, [c], dw);
      var a := |io| + |dr| + 9;
      && s[|io| + 9..a] == dr
      && s[a + 2..a + 3] == [c]
      && s[a + 6..a + 6 + |dw|] == dw
  {
    var pre := "\t/* o@" + io + "|l@";
    var s := HeaderText(io, dr, [c], dw);
    assert s == pre + dr + (" '" + [c] + "' (" + dw + " bits wide) */");
    assert s == (pre + dr + " '") + [c] + ("' (" + dw + " bits wide) */");
    assert s == (pre + dr + " '" + [c] + "' (") + dw + " bits wide) */";
  }

  /** A decimal field reads back, with or without its spaces removed. */
  lemma IntOfDecimal(t: string, n: nat)
    requires t == Decimal(n)
    ensures FontParser.IntOf(t) == Success(n)
    ensures FontParser.IntOf(ReplaceChar(t, ' ', "")) == Success(n)
  {
    DecimalNumeric(n);
    NumericAvoids(t);
    ReplaceCharAbsent(t, ' ', "");
    ParseDecimal(n);
  }

  /** The height field reads back once the markers around it are found. */
  lemma HeightBetween(s: string, i: int, j: int, rows: nat)
    requires Find(s, "l@") == i >= 0 && Find(s, " '") == j
    requires i + 2 <= j <= |s| && s[i + 2..j] == Decimal(rows)
    ensures FontParser.HeaderHeight(s) == Success(rows)
  {
    HeightIs(s, i, j);
    IntOfDecimal(Slice(s, i + 2, j), rows);
  }

  lemma HeightIs(s: string, i: int, j: int)
    requires Find(s, "l@") == i >= 0 && Find(s, " '") == j
    ensures FontParser.HeaderHeight(s) == FontParser.IntOf(ReplaceChar(Slice(s, i + 2, j), ' ', ""))
  {
  }

  /** The width field reads back once the markers around it are found. */
  lemma WidthBetween(s: string, i: int, j: int, width: nat)
    requires Find(s, " (") == i > 0 && Find(s, "bits wide") == j > 0
    requires i + 2 <= j - 1 <= |s| && s[i + 2..j - 1] == Decimal(width)
    ensures FontParser.HeaderWidth(s) == Success(width)
  {
    WidthIs(s, i, j);
    IntOfDecimal(Slice(s, i + 2, j - 1), width);
  }

  lemma WidthIs(s: string, i: int, j: int)
    requires Find(s, " (") == i > 0 && Find(s, "bits wide") == j > 0
    ensures FontParser.HeaderWidth(s) == FontParser.IntOf(Slice(s, i + 2, j - 1))
  {
  }

  /** The height field reads back as the row count. */
  lemma HeaderHeightOf(io: string, rows: nat, c: char, dw: string)
    requires Numeric(io)
    ensures FontParser.HeaderHeight(HeaderText(io, Decimal(rows), [c], dw)) == Success(rows)
  {
    var dr := Decimal(rows);
    var s := HeaderText(io, dr, [c], dw);
    DecimalNumeric(rows);
    FindRows(io, dr, [c], dw);
    FindOpenQuote(io, dr, c, dw);
    HeaderFields(io, dr, c, dw);
    HeightBetween(s, |io| + 7, |io| + |dr| + 9, rows);
  }

  /** The width field reads back as the width. */
  lemma HeaderWidthOf(io: string, dr: string, c: char, width: nat)
    requires Numeric(io) && Numeric(dr)
    ensures FontParser.HeaderWidth(HeaderText(io, dr, [c], Decimal(width))) == Success(width)
  {
    var dw := Decimal(width);
    var s := HeaderText(io, dr, [c], dw);
    DecimalNumeric(width);
    FindParen(io, dr, c, dw);
    FindBitsWide(io, dr, c, dw);
    HeaderFields(io, dr, c, dw);
    var a := |io| + |dr| + 9;
    WidthBetween(s, a + 4, a + 7 + |dw|, width);
  }

  /** A header is read as the text between its quotes and the two fields. */
  lemma InfoBetween(s: string, i: int, j: int, height: int, width: int)
    requires Find(s, " '") == i >= 0 && RFind(s, "' ") == j > 0 && i + 2 <= j
    requires FontParser.HeaderHeight(s) == Success(height)
    requires FontParser.HeaderWidth(s) == Success(width)
    ensures FontParser.ParseCharInfo(s) == Success(Some(FontParser.CharInfo(s[i + 2..j], width, height)))
  {
  }

  /** The parser reads back the header of any one-character glyph: the
      character, the number of rows as its height, and the width. */
  lemma HeaderRoundTrip(offset: int, rows: nat, c: char, width: nat)
    ensures FontParser.ParseCharInfo(HeaderLine(offset, rows, [c], width)) ==
      Success(Some(FontParser.CharInfo([c], width, rows)))
  {
    var io, dr, dw := IntText(offset), Decimal(rows), Decimal(width);
    var s := HeaderText(io, dr, [c], dw);
    var a := |io| + |dr| + 9;
    IntTextNumeric(offset);
    DecimalNumeric(rows);
    DecimalNumeric(width);
    assert Find(s, " '") == a by {
      FindOpenQuote(io, dr, c, dw);
    }
    assert RFind(s, "' ") == a + 3 by {
      FindCloseQuote(io, dr, c, dw);
    }
    assert s[a + 2..a + 3] == [c] by {
      HeaderFields(io, dr, c, dw);
    }
    assert FontParser.HeaderHeight(s) == Success(rows) by {
      HeaderHeightOf(io, rows, c, dw);
    }
    assert FontParser.HeaderWidth(s) == Success(width) by {
      HeaderWidthOf(io, dr, c, width);
    }
    InfoBetween(s, a, a + 3, rows, width);
  }

  // ---------------------------------------------------------------------------
  // Glyph rows
  // ---------------------------------------------------------------------------

  /** `hex(x) + ','` for each byte of a row. */
  function HexList(row: seq<nat>): string {
    if |row| == 0 then "" else Hex(row[0]) + "," + HexList(row[1..])
  }

  /** The eight visualisation characters of one byte, from bit 7 down to
      bit 0: `*` where `x & (1 << bit)` is non-zero, a space elsewhere. Only
      the low eight bits of `x` can meet those masks. */
  function VisByte(x: nat): (v: string)
    ensures |v| == 8
  {
    seq(8, i requires 0 <= i < 8 => if Lit(Byte(x), i) then '*' else ' ')
  }

  /** The visualisation of a whole row. */
  function VisList(row: seq<nat>): (v: string)
    ensures |v| == 8 * |row|
    ensures forall k :: 0 <= k < |v| ==> v[k] == '*' || v[k] == ' '
  {
    if |row| == 0 then "" else VisByte(row[0]) + VisList(row[1..])
  }

  /** One code line of `_nchar_code`, without its line break. */
  function RowLine(row: seq<nat>): string {
    "\t" + HexList(row) + ("\t\t// " + VisList(row))
  }

  /** The lines `_nchar_code` writes below the header, each ended by a line
      break. */
  function CodeLines(code: Code): string {
    if |code| == 0 then "" else RowLine(code[0]) + "\n" + CodeLines(code[1..])
  }

  /** `_nchar_code(nchar)`: the header line, then one line per code row.
      A record without code (as the C-file parser makes) raises
      `TypeError` at `len(code)`. */
  function NcharCode(rec: CharRecord): (r: Result<string>)
    ensures r.Failure? <==> rec.code.None?
    ensures r.Failure? ==> r.error == TypeError
    ensures r.Success? ==> r.value == HeaderLine(rec.offset, |rec.code.value|, rec.ch, rec.bitmap.width) + "\n" + CodeLines(rec.code.value)
  {
    match rec.code
    case None => Failure(TypeError)
    case Some(code) => Success(HeaderLine(rec.offset, |code|, rec.ch, rec.bitmap.width) + "\n" + CodeLines(code))
  }

  /** The comma-separated tokens of a hex list between `pre` and `tail`. */
  function HexTokens(pre: string, row: seq<nat>, tail: string): seq<string>
    decreases |row|
  {
    if |row| == 0 then [pre + tail] else [pre + Hex(row[0])] + HexTokens("", row[1..], tail)
  }

  lemma {:induction false} SplitHexList(pre: string, row: seq<nat>, tail: string)
    requires ',' !in pre && ',' !in tail
    ensures Split(pre + HexList(row) + tail, ',') == HexTokens(pre, row, tail)
    decreases |row|
  {
    if |row| == 0 {
      assert pre + HexList(row) + tail == pre + tail;
      SplitNoSep(pre + tail, ',');
    } else {
      var h := Hex(row[0]);
      var more := HexList(row[1..]);
      var rest := more + tail;
      HexChars(row[0]);
      assert HexList(row) == h + "," + more;
      assert pre + HexList(row) + tail == (pre + h) + [','] + rest by {
        assert pre + (h + "," + more) + tail == (pre + h) + [','] + (more + tail);
      }
      SplitCons(pre + h, ',', rest);
      SplitHexList("", row[1..], tail);
      assert "" + more + tail == rest;
    }
  }

  /** Removing tabs leaves the hex text of a token. */
  lemma TokenText(pre: string, x: nat)
    requires pre == "" || pre == "\t"
    ensures ReplaceChar(pre + Hex(x), '\t', "") == Hex(x)
    ensures Find(pre + Hex(x), "0x") >= 0
  {
    TokenClean(pre, x);
    TokenFind(pre, x);
  }

  lemma TokenClean(pre: string, x: nat)
    requires pre == "" || pre == "\t"
    ensures ReplaceChar(pre + Hex(x), '\t', "") == Hex(x)
  {
    ReplaceCharAppend(pre, Hex(x), '\t', "");
    HexChars(x);
    ReplaceCharAbsent(Hex(x), '\t', "");
  }

  lemma TokenFind(pre: string, x: nat)
    requires pre == "" || pre == "\t"
    ensures Find(pre + Hex(x), "0x") >= 0
  {
    HexChars(x);
    var t := pre + Hex(x);
    assert t[|pre|..|pre| + 2] == Hex(x)[..2];
    assert OccursAt(t, "0x", |pre|);
    FindSpec(t, "0x");
  }

  lemma {:induction false} HexTokensBytes(pre: string, row: seq<nat>, tail: string)
    requires pre == "" || pre == "\t"
    requires '0' !in pre + tail
    ensures FontParser.TokenBytes(HexTokens(pre, row, tail)) == Success(row)
    decreases |row|
  {
    var ts := HexTokens(pre, row, tail);
    if |row| == 0 {
      assert ts == [pre + tail];
      assert Find(ts[0], "0x") == -1 by {
        Absent(pre + tail, "0x");
      }
      assert ts[1..] == [];
    } else {
      var x := row[0];
      var t0 := pre + Hex(x);
      var more := HexTokens("", row[1..], tail);
      assert ts == [t0] + more;
      assert ts[0] == t0 && ts[1..] == more;
      assert Find(t0, "0x") >= 0 && FontParser.HexOf(ReplaceChar(t0, '\t', "")) == Success(x) by {
        TokenText(pre, x);
        ParseHexOfHex(x);
      }
      assert FontParser.TokenBytes(more) == Success(row[1..]) by {
        HexTokensBytes("", row[1..], tail);
      }
      assert [x] + row[1..] == row;
    }
  }

  /** The parser's token loop on a code line gives back the row's bytes:
      only the hex tokens contain `0x`, never the visualisation. */
  lemma RowLineBytes(row: seq<nat>)
    ensures FontParser.TokenBytes(Split(RowLine(row), ',')) == Success(row)
  {
    var tail := "\t\t// " + VisList(row);
    assert ',' !in tail && '0' !in "\t" + tail;
    assert RowLine(row) == "\t" + HexList(row) + tail;
    SplitHexList("\t", row, tail);
    HexTokensBytes("\t", row, tail);
  }

  lemma {:induction false} HexListAvoids(row: seq<nat>)
    ensures '\'' !in HexList(row) && '\n' !in HexList(row)
    decreases |row|
  {
    if |row| > 0 {
      HexChars(row[0]);
      HexListAvoids(row[1..]);
    }
  }

  /** A code line holds neither a quote nor a line break, so it never
      reads as a header and stays one line. */
  lemma RowLineAvoids(row: seq<nat>)
    ensures '\'' !in RowLine(row) && '\n' !in RowLine(row)
  {
    HexListAvoids(row);
    var v := VisList(row);
    assert '\'' !in v && '\n' !in v by {
      forall x | x in v ensures x == '*' || x == ' ' {
        var k :| 0 <= k < |v| && v[k] == x;
      }
    }
  }

  /** The code lines, one per row. */
  function RowLines(code: Code): (lines: seq<string>)
    ensures |lines| == |code|
  {
    if |code| == 0 then [] else [RowLine(code[0])] + RowLines(code[1..])
  }

  lemma {:induction false} SplitCodeLines(code: Code, rest: string)
    ensures Split(CodeLines(code) + rest, '\n') == RowLines(code) + Split(rest, '\n')
    decreases |code|
  {
    if |code| > 0 {
      var line := RowLine(code[0]);
      var more := CodeLines(code[1..]);
      RowLineAvoids(code[0]);
      assert CodeLines(code) + rest == line + ['\n'] + (more + rest);
      SplitCons(line, '\n', more + rest);
      SplitCodeLines(code[1..], rest);
    } else {
      assert CodeLines(code) + rest == rest;
    }
  }

  /** `_parseCharData` over the code lines gives back every row's bytes,
      in order. */
  lemma {:induction false} CodeLinesData(lines: seq<string>, start: nat, code: Code)
    requires start + |code| <= |lines|
    requires lines[start..start + |code|] == RowLines(code)
    ensures FontParser.ParseCharData(lines, start, start + |code|) == Success(Concat(code))
    decreases |code|
  {
    if |code| > 0 {
      assert lines[start] == RowLine(code[0]) by {
        assert lines[start] == lines[start..start + |code|][0];
      }
      assert FontParser.TokenBytes(Split(lines[start], ',')) == Success(code[0]) by {
        RowLineBytes(code[0]);
      }
      assert FontParser.ParseCharData(lines, start + 1, start + |code|) == Success(Concat(code[1..])) by {
        assert lines[start + 1..start + 1 + |code[1..]|] == RowLines(code[1..]) by {
          assert lines[start + 1..start + 1 + |code[1..]|] == lines[start..start + |code|][1..];
        }
        CodeLinesData(lines, start + 1, code[1..]);
      }
    }
  }

  /** Lines without quotes are skipped by the parser's loop. */
  lemma SkipPlain(cols: seq<string>, i: nat, j: nat)
    requires i <= j <= |cols|
    requires forall k :: i <= k < j ==> '\'' !in cols[k]
    ensures FontParser.ParseColumns(cols, i) == FontParser.ParseColumns(cols, j)
  {
    forall k | i <= k < j ensures FontParser.ParseCharInfo(cols[k]) == Success(None) {
      FontParser.NoQuoteNoHeader(cols[k]);
    }
    FontParser.ColumnsSkipAll(cols, i, j);
  }

  lemma {:induction false} RowLinesAvoid(code: Code)
    ensures |RowLines(code)| == |code|
    ensures forall k :: 0 <= k < |code| ==> '\'' !in RowLines(code)[k]
    decreases |code|
  {
    if |code| > 0 {
      RowLineAvoids(code[0]);
      RowLinesAvoid(code[1..]);
      var rl := RowLines(code);
      assert rl == [RowLine(code[0])] + RowLines(code[1..]);
      forall k | 0 <= k < |code| ensures '\'' !in rl[k] {
        if k > 0 {
          assert rl[k] == RowLines(code[1..])[k - 1];
        }
      }
    }
  }

  /** A record as the converter makes it: a single character other than a
      line break, a valid image, and that image's `font_bmpCode` rows as
      its code. */
  predicate Generated(rec: CharRecord) {
    && |rec.ch| == 1 && rec.ch[0] != '\n'
    && rec.bitmap.Valid()
    && rec.code == Some(BmpCodeOf(rec.bitmap).rows)
  }

  /** The lines `_nchar_code`'s text splits into, with the empty line
      after it. */
  function GlyphBlock(rec: CharRecord): (block: seq<string>)
    requires Generated(rec)
  {
    [HeaderLine(rec.offset, rec.bitmap.height, rec.ch, rec.bitmap.width)]
      + RowLines(BmpCodeOf(rec.bitmap).rows) + [""]
  }

  /** The glyph the parser is expected to find for a record. */
  function Expected(rec: CharRecord): FontParser.ParsedChar
    requires Generated(rec)
  {
    FontParser.ParsedChar(rec.ch, rec.bitmap.width, rec.bitmap.height,
      Concat(BmpCodeOf(rec.bitmap).rows), rec.bitmap)
  }

  /** The shape of a glyph's block: a header that reads back as the
      record's character, width and height, and no quote below the
      header. */
  lemma BlockShape(rec: CharRecord)
    requires Generated(rec)
    ensures |GlyphBlock(rec)| == rec.bitmap.height + 2
    ensures FontParser.ParseCharInfo(GlyphBlock(rec)[0]) ==
      Success(Some(FontParser.CharInfo(rec.ch, rec.bitmap.width, rec.bitmap.height)))
    ensures forall k :: 1 <= k < |GlyphBlock(rec)| ==> '\'' !in GlyphBlock(rec)[k]
  {
    var code := BmpCodeOf(rec.bitmap).rows;
    var rl := RowLines(code);
    var block := GlyphBlock(rec);
    RowLinesAvoid(code);
    assert block[0] == HeaderLine(rec.offset, rec.bitmap.height, [rec.ch[0]], rec.bitmap.width) by {
      assert [rec.ch[0]] == rec.ch;
    }
    HeaderRoundTrip(rec.offset, rec.bitmap.height, rec.ch[0], rec.bitmap.width);
    assert [rec.ch[0]] == rec.ch;
    forall k | 1 <= k < |block| ensures '\'' !in block[k] {
      if k <= rec.bitmap.height {
        assert block[k] == rl[k - 1];
      }
    }
  }

  /** The code lines sit between a block's header and its empty line. */
  lemma BlockRows(rec: CharRecord)
    requires Generated(rec)
    ensures |GlyphBlock(rec)| == rec.bitmap.height + 2
    ensures GlyphBlock(rec)[1..1 + rec.bitmap.height] == RowLines(BmpCodeOf(rec.bitmap).rows)
  {
  }

  /** The code lines of a glyph's block read back as its image's bytes. */
  lemma BlockData(rec: CharRecord)
    requires Generated(rec)
    ensures |GlyphBlock(rec)| == rec.bitmap.height + 2
    ensures FontParser.ParseCharData(GlyphBlock(rec), 1, 1 + rec.bitmap.height) ==
      Success(Concat(BmpCodeOf(rec.bitmap).rows))
  {
    var code := BmpCodeOf(rec.bitmap).rows;
    BlockRows(rec);
    CodeLinesData(GlyphBlock(rec), 1, code);
    assert 1 + |code| == 1 + rec.bitmap.height;
  }

  /** Any lines whose data rows read back as a record's code give the
      record's glyph below a header at line 0. */
  lemma RecordGlyph(cols: seq<string>, rec: CharRecord)
    requires Generated(rec)
    requires FontParser.ParseCharData(cols, 1, 1 + rec.bitmap.height) ==
      Success(Concat(BmpCodeOf(rec.bitmap).rows))
    ensures FontParser.ParseGlyph(cols, 0,
      FontParser.CharInfo(rec.ch, rec.bitmap.width, rec.bitmap.height)) == Success(Expected(rec))
  {
    UnpackPack(rec.bitmap);
    FontParser.GlyphBelow(cols, rec.ch, rec.bitmap, Concat(BmpCodeOf(rec.bitmap).rows));
  }

  /** The glyph below a block's header is the record's. */
  lemma BlockGlyph(rec: CharRecord)
    requires Generated(rec)
    ensures FontParser.ParseGlyph(GlyphBlock(rec), 0,
      FontParser.CharInfo(rec.ch, rec.bitmap.width, rec.bitmap.height)) == Success(Expected(rec))
  {
    BlockData(rec);
    RecordGlyph(GlyphBlock(rec), rec);
  }

  /** `_parseCharData` reads the same from a block as from any list of
      lines that starts with it. */
  lemma {:induction false} DataPrefix(cols: seq<string>, block: seq<string>, start: nat, end: nat)
    requires |block| <= |cols| && cols[..|block|] == block
    requires start <= end <= |block|
    ensures FontParser.ParseCharData(cols, start, end) == FontParser.ParseCharData(block, start, end)
    decreases end - start
  {
    if start < end {
      assert cols[start] == block[start];
      DataPrefix(cols, block, start + 1, end);
    }
  }

  /** A glyph whose lines lie within a block reads the same from any list of
      lines that starts with the block. */
  lemma GlyphPrefix(cols: seq<string>, block: seq<string>, ci: FontParser.CharInfo)
    requires |block| <= |cols| && cols[..|block|] == block
    requires 1 + ci.height <= |block|
    ensures FontParser.ParseGlyph(cols, 0, ci) == FontParser.ParseGlyph(block, 0, ci)
  {
    if ci.height >= 0 {
      DataPrefix(cols, block, 1, 1 + ci.height);
    }
  }

  /** The quote-free lines after a block's first line are skipped in any
      list of lines that starts with the block. */
  lemma PrefixSkip(cols: seq<string>, block: seq<string>)
    requires 1 <= |block| <= |cols| && cols[..|block|] == block
    requires forall k :: 1 <= k < |block| ==> '\'' !in block[k]
    ensures cols[0] == block[0]
    ensures FontParser.ParseColumns(cols, 1) == FontParser.ParseColumns(cols, |block|)
  {
    forall k | 1 <= k < |block| ensures '\'' !in cols[k] {
      assert cols[k] == block[k];
    }
    SkipPlain(cols, 1, |block|);
  }

  /** A block that starts with a header whose glyph parses reads as that
      glyph followed by what the parser finds from the block's second line
      on. */
  lemma WindowGlyph(cols: seq<string>, block: seq<string>, ci: FontParser.CharInfo,
                    glyph: FontParser.ParsedChar, rest: seq<FontParser.ParsedChar>)
    requires 1 <= |block| <= |cols| && cols[..|block|] == block
    requires FontParser.ParseCharInfo(block[0]) == Success(Some(ci)) && 1 + ci.height <= |block|
    requires FontParser.ParseGlyph(block, 0, ci) == Success(glyph)
    requires FontParser.ParseColumns(cols, 1) == Success(rest)
    ensures FontParser.ParseColumns(cols, 0) == Success([glyph] + rest)
  {
    GlyphPrefix(cols, block, ci);
    assert cols[0] == block[0];
    FontParser.ColumnsHeaderStep(cols, 0, ci, glyph, rest);
  }

  /** Where a list of lines starts with a glyph's block, the parser reads
      the block's glyph and goes on after the block. */
  lemma BlockAt(cols: seq<string>, rec: CharRecord, rest: seq<FontParser.ParsedChar>)
    requires Generated(rec)
    requires |GlyphBlock(rec)| <= |cols| && cols[..|GlyphBlock(rec)|] == GlyphBlock(rec)
    requires FontParser.ParseColumns(cols, |GlyphBlock(rec)|) == Success(rest)
    ensures FontParser.ParseColumns(cols, 0) == Success([Expected(rec)] + rest)
  {
    BlockShape(rec);
    PrefixSkip(cols, GlyphBlock(rec));
    BlockGlyph(rec);
    WindowGlyph(cols, GlyphBlock(rec), FontParser.CharInfo(rec.ch, rec.bitmap.width, rec.bitmap.height),
      Expected(rec), rest);
  }

  // ---------------------------------------------------------------------------
  // All glyphs
  // ---------------------------------------------------------------------------

  /** The `_nchar_code` texts of the records in order, failing at the
      first record without code. */
  function NcharTexts(recs: seq<CharRecord>): (r: Result<seq<string>>)
    ensures r.Success? ==> |r.value| == |recs|
    ensures r.Failure? ==> r.error == TypeError
  {
    if |recs| == 0 then Success([])
    else
      var t :- NcharCode(recs[0]);
      var rest :- NcharTexts(recs[1..]);
      Success([t] + rest)
  }

  /** `_nchars_code` over the sorted record list: the glyph texts joined by
      line breaks. */
  function NcharsCode(recs: seq<CharRecord>): (r: Result<string>)
    ensures r.Failure? ==> r.error == TypeError
  {
    var ts :- NcharTexts(recs);
    Success(Join(ts, '\n'))
  }

  /** The text fails exactly when some record has no code. */
  lemma {:induction false} NcharsCodeFails(recs: seq<CharRecord>)
    ensures NcharTexts(recs).Failure? <==> exists k :: 0 <= k < |recs| && recs[k].code.None?
    decreases |recs|
  {
    if |recs| > 0 {
      NcharsCodeFails(recs[1..]);
      if recs[0].code.Some? {
        forall k | 1 <= k < |recs| ensures recs[k] == recs[1..][k - 1] {
        }
      }
    }
  }

  predicate AllGenerated(recs: seq<CharRecord>) {
    forall k :: 0 <= k < |recs| ==> Generated(recs[k])
  }

  /** The lines of all glyph blocks, one after another. */
  function Blocks(recs: seq<CharRecord>): seq<string>
    requires AllGenerated(recs)
  {
    if |recs| == 0 then [] else GlyphBlock(recs[0]) + Blocks(recs[1..])
  }

  /** The glyphs the parser is expected to find for records, in order. */
  function ExpectedAll(recs: seq<CharRecord>): (ps: seq<FontParser.ParsedChar>)
    requires AllGenerated(recs)
    ensures |ps| == |recs|
  {
    if |recs| == 0 then [] else [Expected(recs[0])] + ExpectedAll(recs[1..])
  }

  /** A header never holds a line break. */
  lemma HeaderNoBreak(offset: int, rows: nat, c: char, width: nat)
    requires c != '\n'
    ensures '\n' !in HeaderLine(offset, rows, [c], width)
  {
    IntTextNumeric(offset);
    DecimalNumeric(rows);
    DecimalNumeric(width);
    NumericAvoids(IntText(offset));
    NumericAvoids(Decimal(rows));
    NumericAvoids(Decimal(width));
  }

  /** A glyph's text, followed by anything, splits into its header, its
      code lines and the pieces of what follows. */
  lemma BlockSplit(rec: CharRecord, tail: string)
    requires Generated(rec)
    ensures NcharCode(rec).Success?
    ensures Split(NcharCode(rec).value + tail, '\n') ==
      [HeaderLine(rec.offset, rec.bitmap.height, rec.ch, rec.bitmap.width)]
        + RowLines(BmpCodeOf(rec.bitmap).rows) + Split(tail, '\n')
  {
    assert [rec.ch[0]] == rec.ch;
    HeaderNoBreak(rec.offset, rec.bitmap.height, rec.ch[0], rec.bitmap.width);
    TextSplit(HeaderLine(rec.offset, rec.bitmap.height, rec.ch, rec.bitmap.width),
      BmpCodeOf(rec.bitmap).rows, tail);
  }

  lemma TextSplit(header: string, code: Code, tail: string)
    requires '\n' !in header
    ensures Split(header + "\n" + CodeLines(code) + tail, '\n') == [header] + RowLines(code) + Split(tail, '\n')
  {
    var lines := CodeLines(code);
    Assoc(header + "\n", lines, tail);
    assert header + "\n" == header + ['\n'];
    SplitCons(header, '\n', lines + tail);
    SplitCodeLines(code, tail);
  }

  lemma Assoc(a: string, b: string, c: string)
    ensures a + b + c == a + (b + c)
  {
  }

  /** The joined texts of all records split into their blocks. */
  predicate SplitsInto(recs: seq<CharRecord>)
    requires AllGenerated(recs)
  {
    NcharsCode(recs).Success? && Split(NcharsCode(recs).value, '\n') == Blocks(recs)
  }

  /** The joined glyph texts split into the glyphs' blocks. */
  lemma {:induction false} NcharsSplit(recs: seq<CharRecord>)
    requires AllGenerated(recs) && |recs| > 0
    ensures SplitsInto(recs)
    decreases |recs|, 1
  {
    if |recs| == 1 {
      SplitOne(recs);
    } else {
      NcharsSplitStep(recs);
    }
  }

  lemma {:induction false} NcharsSplitStep(recs: seq<CharRecord>)
    requires AllGenerated(recs) && |recs| > 1
    ensures SplitsInto(recs)
    decreases |recs|, 0
  {
    NcharsSplit(recs[1..]);
    SplitMore(recs);
  }

  lemma SplitOne(recs: seq<CharRecord>)
    requires AllGenerated(recs) && |recs| == 1
    ensures SplitsInto(recs)
  {
    var rec := recs[0];
    BlockSplit(rec, "");
    var t := NcharCode(rec).value;
    assert NcharTexts(recs) == Success([t]) by {
      assert NcharTexts(recs[1..]) == Success([]);
      assert [t] + [] == [t];
    }
    assert t + "" == t;
    assert Blocks(recs) == GlyphBlock(rec) + [];
  }

  lemma SplitMore(recs: seq<CharRecord>)
    requires AllGenerated(recs) && |recs| > 1 && SplitsInto(recs[1..])
    ensures SplitsInto(recs)
  {
    var rec := recs[0];
    var more := recs[1..];
    var j := NcharsCode(more).value;
    NcharsCodeCons(recs);
    BlockBreakSplit(rec, j);
    assert Blocks(recs) == GlyphBlock(rec) + Blocks(more);
  }

  /** A glyph's text and a line break before more text split into the
      glyph's block and the pieces of that text. */
  lemma BlockBreakSplit(rec: CharRecord, j: string)
    requires Generated(rec)
    ensures NcharCode(rec).Success?
    ensures Split(NcharCode(rec).value + ("\n" + j), '\n') == GlyphBlock(rec) + Split(j, '\n')
  {
    BlockSplit(rec, "\n" + j);
    assert "\n" + j == "" + ['\n'] + j;
    SplitCons("", '\n', j);
  }

  /** The text of several records is the first one's, a line break, and the
      rest's. */
  lemma NcharsCodeCons(recs: seq<CharRecord>)
    requires |recs| > 1 && NcharCode(recs[0]).Success? && NcharsCode(recs[1..]).Success?
    ensures NcharsCode(recs) == Success(NcharCode(recs[0]).value + ("\n" + NcharsCode(recs[1..]).value))
  {
    var ts := NcharTexts(recs[1..]).value;
    var t := NcharCode(recs[0]).value;
    var parts := [t] + ts;
    assert NcharTexts(recs) == Success(parts);
    assert |parts| > 1 && parts[0] == t && parts[1..] == ts;
    assert Join(parts, '\n') == t + ['\n'] + Join(ts, '\n');
    Assoc(t, "\n", Join(ts, '\n'));
  }

  /** The parser's loop over all glyph blocks finds every record's glyph,
      in order. */
  lemma {:induction false} BlocksParse(recs: seq<CharRecord>)
    requires AllGenerated(recs)
    ensures FontParser.ParseColumns(Blocks(recs), 0) == Success(ExpectedAll(recs))
    decreases |recs|
  {
    if |recs| > 0 {
      var block := GlyphBlock(recs[0]);
      var more := Blocks(recs[1..]);
      BlocksParse(recs[1..]);
      FontParser.ColumnsShift(block, more, 0);
      assert (block + more)[..|block|] == block;
      BlockAt(block + more, recs[0], ExpectedAll(recs[1..]));
    }
  }

  /** Round trip of the glyph section: the text `_nchars_code` writes for
      converter-made records parses back, through `_parseChars`' loop, to
      each record's character, size, data bytes and image, in order. */
  lemma NcharsRoundTrip(recs: seq<CharRecord>)
    requires AllGenerated(recs)
    ensures NcharsCode(recs).Success?
    ensures FontParser.ParseColumns(Split(NcharsCode(recs).value, '\n'), 0) == Success(ExpectedAll(recs))
  {
    if |recs| == 0 {
      assert Split("", '\n') == [""];
      FontParser.NoQuoteNoHeader("");
    } else {
      NcharsSplit(recs);
      BlocksParse(recs);
    }
  }

  // ---------------------------------------------------------------------------
  // Descriptors
  // ---------------------------------------------------------------------------

  /** One descriptor line of `_nchars_desc` without its line break:
      width, height and offset in braces, then the character in a comment. */
  function DescText(rec: CharRecord): string {
    "\t{" + Decimal(rec.bitmap.width) + ", " + Decimal(rec.bitmap.height) + ", " + IntText(rec.offset)
      + "},\t\t/* " + rec.ch + " */"
  }

  /** `_nchars_desc` over the sorted record list. */
  function NcharsDesc(recs: seq<CharRecord>): string {
    if |recs| == 0 then "" else DescText(recs[0]) + "\n" + NcharsDesc(recs[1..])
  }

  /** The descriptor lines, one per record. */
  function DescLines(recs: seq<CharRecord>): (lines: seq<string>)
    ensures |lines| == |recs|
  {
    if |recs| == 0 then [] else [DescText(recs[0])] + DescLines(recs[1..])
  }

  /** A descriptor line holds no line break when its character holds none. */
  lemma DescNoBreak(rec: CharRecord)
    requires '\n' !in rec.ch
    ensures '\n' !in DescText(rec)
  {
    DecimalNumeric(rec.bitmap.width);
    DecimalNumeric(rec.bitmap.height);
    IntTextNumeric(rec.offset);
    NumericAvoids(Decimal(rec.bitmap.width));
    NumericAvoids(Decimal(rec.bitmap.height));
    NumericAvoids(IntText(rec.offset));
  }

  /** `_nchars_desc` writes exactly one line per record, in list order, the
      `k`-th holding record `k`'s width, height, offset and character, and
      ends with a line break. */
  lemma DescSplit(recs: seq<CharRecord>)
    requires forall k :: 0 <= k < |recs| ==> '\n' !in recs[k].ch
    ensures |Split(NcharsDesc(recs), '\n')| == |recs| + 1
    ensures Split(NcharsDesc(recs), '\n')[|recs|] == ""
    ensures forall k :: 0 <= k < |recs| ==> Split(NcharsDesc(recs), '\n')[k] == DescText(recs[k])
  {
    DescSplitLines(recs);
  }

  lemma {:induction false} DescSplitLines(recs: seq<CharRecord>)
    requires forall k :: 0 <= k < |recs| ==> '\n' !in recs[k].ch
    ensures Split(NcharsDesc(recs), '\n') == DescLines(recs) + [""]
    ensures forall k :: 0 <= k < |recs| ==> DescLines(recs)[k] == DescText(recs[k])
    decreases |recs|
  {
    if |recs| == 0 {
      assert Split("", '\n') == [""];
    } else {
      var t := DescText(recs[0]);
      var more := recs[1..];
      DescNoBreak(recs[0]);
      DescSplitLines(more);
      assert t + "\n" + NcharsDesc(more) == t + ['\n'] + NcharsDesc(more);
      SplitCons(t, '\n', NcharsDesc(more));
      assert DescLines(recs) + [""] == [t] + (DescLines(more) + [""]);
      forall k | 1 <= k < |recs| ensures DescLines(recs)[k] == DescText(recs[k]) {
        assert DescLines(recs)[k] == DescLines(more)[k - 1];
        assert recs[k] == more[k - 1];
      }
    }
  }

  // ---------------------------------------------------------------------------
  // The font template
  // ---------------------------------------------------------------------------

  /** A template key: text in braces with no brace inside. */
  predicate Placeholder(k: string) {
    && |k| >= 2 && k[0] == '{' && k[|k| - 1] == '}'
    && '{' !in k[1..] && '}' !in k[..|k| - 1]
  }

  /** The key `{word}`. */
  function Key(word: string): string {
    "{" + word + "}"
  }

  /** A brace-free word in braces is a key. */
  lemma KeyPlaceholder(word: string)
    requires '{' !in word && '}' !in word
    ensures Placeholder(Key(word))
  {
    var k := Key(word);
    assert k[1..] == word + "}";
    assert k[..|k| - 1] == "{" + word;
  }

  /** The six keys of the font template are keys. */
  lemma FontKeys()
    ensures Placeholder(Key("name"))
    ensures Placeholder(Key("bitmaps_data"))
    ensures Placeholder(Key("descriptors_data"))
    ensures Placeholder(Key("font_start_char"))
    ensures Placeholder(Key("font_end_char"))
    ensures Placeholder(Key("space_width"))
  {
    NameKey();
    BitmapsKey();
    DescriptorsKey();
    StartKey();
    EndKey();
    SpaceKey();
  }

  lemma NameKey()
    ensures Placeholder(Key("name"))
  {
    KeyPlaceholder("name");
  }

  lemma BitmapsKey()
    ensures Placeholder(Key("bitmaps_data"))
  {
    KeyPlaceholder("bitmaps_data");
  }

  lemma DescriptorsKey()
    ensures Placeholder(Key("descriptors_data"))
  {
    KeyPlaceholder("descriptors_data");
  }

  lemma StartKey()
    ensures Placeholder(Key("font_start_char"))
  {
    KeyPlaceholder("font_start_char");
  }

  lemma EndKey()
    ensures Placeholder(Key("font_end_char"))
  {
    KeyPlaceholder("font_end_char");
  }

  lemma SpaceKey()
    ensures Placeholder(Key("space_width"))
  {
    KeyPlaceholder("space_width");
  }

  /** The replacements of `NFontCodeGen.font`, in the order of its
      dictionary. */
  function FontFields(name: string, bitmaps: string, descs: string, first: string, last: string): (fields: seq<(string, string)>)
    ensures |fields| == 6
    ensures forall i :: 0 <= i < 6 ==> Placeholder(fields[i].0)
  {
    FontKeys();
    [(Key("name"), name), (Key("bitmaps_data"), bitmaps), (Key("descriptors_data"), descs),
      (Key("font_start_char"), first), (Key("font_end_char"), last), (Key("space_width"), "2")]
  }

  /** `template.replace(key, value)` for each field in turn. */
  function Fill(template: string, fields: seq<(string, string)>): string
    requires forall i :: 0 <= i < |fields| ==> Placeholder(fields[i].0)
    decreases |fields|
  {
    if |fields| == 0 then template
    else
      assert Placeholder(fields[0].0);
      Fill(Replace(template, fields[0].0, fields[0].1), fields[1..])
  }

  /** `NFontCodeGen.font(font)` given its sorted record list and the font
      template: `_nchars_code` raises `TypeError` before an empty list
      raises `IndexError` at `[0]`. */
  function FontText(name: string, recs: seq<CharRecord>, template: string): (r: Result<string>)
    ensures r.Failure? ==> r.error == TypeError || r.error == IndexError
  {
    var bitmaps :- NcharsCode(recs);
    if |recs| == 0 then Failure(IndexError)
    else
      var fields := FontFields(name, bitmaps, NcharsDesc(recs), recs[0].ch, recs[|recs| - 1].ch);
      Success(Fill(template, fields))
  }

  /** One key never occurs inside another. */
  lemma PlaceholderAbsent(s: string, k: string)
    requires Placeholder(s) && Placeholder(k) && s != k
    ensures forall j :: !OccursAt(s, k, j)
  {
    forall j ensures OccursAt(s, k, j) ==> s == k {
      if OccursAt(s, k, j) {
        OccursSame(s, k, j);
      }
    }
  }

  /** A key found inside a key starts at its opening brace and ends at its
      closing one, so it is the whole key. */
  lemma OccursSame(s: string, k: string, j: int)
    requires Placeholder(s) && Placeholder(k) && OccursAt(s, k, j)
    ensures s == k
  {
    BracesAtEnds(s);
    assert s[j] == k[0];
    var e := |k| - 1;
    assert s[e] == k[e];
    assert s == s[j..j + |k|];
  }

  /** A key's braces are its first and last characters only. */
  lemma BracesAtEnds(s: string)
    requires Placeholder(s)
    ensures forall i :: 0 < i < |s| ==> s[i] != '{'
    ensures forall i :: 0 <= i < |s| - 1 ==> s[i] != '}'
  {
    forall i | 0 < i < |s| ensures s[i] != '{' {
      assert s[i] == s[1..][i - 1];
    }
    forall i | 0 <= i < |s| - 1 ensures s[i] != '}' {
      assert s[i] == s[..|s| - 1][i];
    }
  }

  /** A template that is just the key `fields[i].0` comes out as that
      field's value, once no later key occurs in the value. */
  lemma {:induction false} FillKey(fields: seq<(string, string)>, i: nat)
    requires i < |fields|
    requires forall n :: 0 <= n < |fields| ==> Placeholder(fields[n].0)
    requires forall n :: 0 <= n < |fields| && n != i ==> fields[n].0 != fields[i].0
    requires forall n, j :: i < n < |fields| ==> !OccursAt(fields[i].1, fields[n].0, j)
    ensures Fill(fields[i].0, fields) == fields[i].1
    decreases i
  {
    var k := fields[i].0;
    if i == 0 {
      ReplaceWhole(k, fields[0].1);
      FillAbsent(fields[0].1, fields[1..]);
    } else {
      PlaceholderAbsent(k, fields[0].0);
      FillKey(fields[1..], i - 1);
    }
  }

  /** Keys that do not occur leave a text unchanged. */
  lemma {:induction false} FillAbsent(s: string, fields: seq<(string, string)>)
    requires forall n :: 0 <= n < |fields| ==> Placeholder(fields[n].0)
    requires forall n, j :: 0 <= n < |fields| ==> !OccursAt(s, fields[n].0, j)
    ensures Fill(s, fields) == s
    decreases |fields|
  {
    if |fields| > 0 {
      FillAbsent(s, fields[1..]);
    }
  }

  /** Text shorter than a key never contains it. */
  lemma ShortAbsent(s: string, k: string)
    requires |s| < |k|
    ensures forall j :: !OccursAt(s, k, j)
  {
  }

  /** `{font_start_char}` and `{font_end_char}` become the first and last
      characters of the sorted list, for one-character keys. */
  lemma FontTextEnds(name: string, recs: seq<CharRecord>)
    requires |recs| > 0 && NcharsCode(recs).Success?
    requires |recs[0].ch| == 1 && |recs[|recs| - 1].ch| == 1
    ensures FontText(name, recs, Key("font_start_char")) == Success(recs[0].ch)
    ensures FontText(name, recs, Key("font_end_char")) == Success(recs[|recs| - 1].ch)
  {
    var fields := FontFields(name, NcharsCode(recs).value, NcharsDesc(recs), recs[0].ch, recs[|recs| - 1].ch);
    forall n, j | 3 < n < 6 ensures !OccursAt(fields[3].1, fields[n].0, j) {
      ShortAbsent(fields[3].1, fields[n].0);
    }
    forall n, j | 4 < n < 6 ensures !OccursAt(fields[4].1, fields[n].0, j) {
      ShortAbsent(fields[4].1, fields[n].0);
    }
    FillKey(fields, 3);
    FillKey(fields, 4);
  }

  /** `font()` fails with `TypeError` exactly when a record has no code,
      and otherwise with `IndexError` exactly when the font is empty. */
  lemma FontTextFails(name: string, recs: seq<CharRecord>, template: string)
    ensures FontText(name, recs, template).Failure? <==>
      |recs| == 0 || exists k :: 0 <= k < |recs| && recs[k].code.None?
    ensures FontText(name, recs, template).Failure? ==>
      (FontText(name, recs, template).error == TypeError <==> exists k :: 0 <= k < |recs| && recs[k].code.None?)
  {
    NcharsCodeFails(recs);
  }

  /** `NFontCodeGen.font(font)` with the template text as a parameter. */
  method FontCode(f: Font, template: string) returns (r: Result<string>)
    requires f.Valid()
    ensures forall recs :: ListsFont(f, recs) ==> r == FontText(f.name, recs, template)
    ensures r.Failure? <==> |f.chars| == 0 || exists k :: k in f.chars && f.chars[k].code.None?
    ensures r.Failure? ==> (r.error == TypeError <==> exists k :: k in f.chars && f.chars[k].code.None?)
    ensures r.Failure? ==> r.error == TypeError || r.error == IndexError
  {
    var recs := CharsList(f);
    ListingListsFont(f, recs);
    r := FontText(f.name, recs, template);
    FontTextFails(f.name, recs, template);
    ListedCodes(f, recs);
    forall other | ListsFont(f, other)
      ensures r == FontText(f.name, other, template)
    {
      ListsFontUnique(f, recs, other);
    }
  }

  /** `NFontConverter.convertQFont(chars_sets, name, font)`: the characters
      are rendered and added at running offsets (`Nfont.ConvertQFont`, with
      the renderer as a parameter), then `nfont.code = font(nfont)`. Every
      converted record holds code, so generating it fails, with
      `IndexError`, exactly when `chars_sets` is empty. */
  method ConvertQFontCode(chars: string, name: string, render: char -> Mono, template: string)
    returns (f: Font, code: Result<string>)
    requires forall c :: render(c).Valid()
    ensures f == AddAll(NewFont(name), GlyphEntries(chars, render), 0)
    ensures f.Valid() && f.name == name
    ensures forall recs :: ListsFont(f, recs) ==> code == FontText(name, recs, template)
    ensures code.Failure? <==> |chars| == 0
    ensures code.Failure? ==> code.error == IndexError
  {
    f := Nfont.ConvertQFont(chars, name, render);
    ConvertQFontCoded(chars, name, render);
    code := FontCode(f, template);
  }

  /** The sorted list holds a record without code exactly when the font
      does, and is empty exactly when the font is. */
  lemma ListedCodes(f: Font, recs: seq<CharRecord>)
    requires forall i :: 0 <= i < |recs| ==> GetChar(f, recs[i].ch) == Some(recs[i])
    requires forall k :: k in f.chars ==> exists i :: 0 <= i < |recs| && recs[i].ch == k
    ensures |recs| == 0 <==> |f.chars| == 0
    ensures (exists i :: 0 <= i < |recs| && recs[i].code.None?) <==> exists k :: k in f.chars && f.chars[k].code.None?
  {
    if |recs| > 0 {
      assert recs[0].ch in f.chars;
    }
    if |f.chars| > 0 {
      var k :| k in f.chars;
    }
    if exists k :: k in f.chars && f.chars[k].code.None? {
      var k :| k in f.chars && f.chars[k].code.None?;
      var i :| 0 <= i < |recs| && recs[i].ch == k;
      assert recs[i].code.None?;
    }
  }

  // ---------------------------------------------------------------------------
  // Page helpers
  // ---------------------------------------------------------------------------

  /** The text `_generatePointersCode` writes for one object name. */
  function PointerEntry(name: string): string {
    " &" + name + ","
  }

  /** The break written after every sixth name. */
  const PointerBreak: string := "\r\n\t\t\t"

  /** The pointer list of the first `n` names: each name's entry, and a
      break after the names at positions 5, 11, 17, ... */
  function PointersUpTo(names: seq<string>, n: nat): string
    requires n <= |names|
  {
    if n == 0 then ""
    else PointersUpTo(names, n - 1) + PointerEntry(names[n - 1]) + BreakAfter(n - 1)
  }

  /** What follows the entry of the name at position `m`. */
  function BreakAfter(m: nat): string {
    if m % 6 == 5 then PointerBreak else ""
  }

  /** `_generatePointersCode(objects)`: the loop keeps a counter that is
      reset after it reaches 5. */
  method PointersCode(names: seq<string>) returns (text: string)
    ensures text == PointersUpTo(names, |names|)
  {
    text := "";
    var cnt := 0;
    var i := 0;
    while i < |names|
      invariant 0 <= i <= |names|
      invariant cnt == i % 6
      invariant text == PointersUpTo(names, i)
    {
      text := text + PointerEntry(names[i]);
      if cnt >= 5 {
        text := text + PointerBreak;
        cnt := 0;
      } else {
        cnt := cnt + 1;
      }
      i := i + 1;
    }
  }

  /** With names free of carriage returns, the pointer list of `n` names
      holds exactly `n div 6` breaks. */
  lemma PointersBreaks(names: seq<string>, n: nat)
    requires n <= |names| && NoReturns(names)
    ensures multiset(PointersUpTo(names, n))['\r'] == n / 6
  {
    BreaksCount(names, n);
    BreaksSixths(n);
    ReturnsCounted(PointersUpTo(names, n));
  }

  /** No name holds a carriage return. */
  predicate NoReturns(names: seq<string>) {
    forall k :: 0 <= k < |names| ==> '\r' !in names[k]
  }

  /** The number of carriage returns in `s`. */
  function Returns(s: string): nat {
    if s == [] then 0 else (if s[0] == '\r' then 1 else 0) + Returns(s[1..])
  }

  lemma {:induction false} ReturnsAppend(a: string, b: string)
    ensures Returns(a + b) == Returns(a) + Returns(b)
  {
    if a == [] {
      assert a + b == b;
    } else {
      assert (a + b)[0] == a[0];
      assert (a + b)[1..] == a[1..] + b;
      ReturnsAppend(a[1..], b);
    }
  }

  lemma {:induction false} ReturnsNone(s: string)
    requires '\r' !in s
    ensures Returns(s) == 0
  {
    if s != [] {
      assert '\r' !in s[1..];
      ReturnsNone(s[1..]);
    }
  }

  lemma {:induction false} ReturnsCounted(s: string)
    ensures Returns(s) == multiset(s)['\r']
  {
    if s != [] {
      assert s == [s[0]] + s[1..];
      ReturnsCounted(s[1..]);
    }
  }

  /** The number of positions below `n` that are 5 more than a multiple of 6. */
  function Breaks(n: nat): nat {
    if n == 0 then 0 else Breaks(n - 1) + if (n - 1) % 6 == 5 then 1 else 0
  }

  lemma {:induction false} BreaksSixths(n: nat)
    ensures Breaks(n) == n / 6
  {
    if n > 0 {
      BreaksSixths(n - 1);
      SixStep(n - 1);
    }
  }

  lemma {:induction false} BreaksCount(names: seq<string>, n: nat)
    requires n <= |names| && NoReturns(names)
    ensures Returns(PointersUpTo(names, n)) == Breaks(n)
  {
    if n > 0 {
      BreaksCount(names, n - 1);
      BreaksStep(names, n);
    }
  }

  /** One more name adds a break exactly after the names at positions 5, 11, ... */
  lemma BreaksStep(names: seq<string>, n: nat)
    requires 0 < n <= |names| && NoReturns(names)
    requires Returns(PointersUpTo(names, n - 1)) == Breaks(n - 1)
    ensures Returns(PointersUpTo(names, n)) == Breaks(n)
  {
    var m := n - 1;
    assert '\r' !in names[m];
    ReturnsNone(names[m]);
    ReturnsAppend(PointersUpTo(names, m), PointerEntry(names[m]));
    ReturnsAppend(PointersUpTo(names, m) + PointerEntry(names[m]), BreakAfter(m));
    EntryReturns(names[m]);
    BreakReturns(m);
  }

  lemma EntryReturns(name: string)
    ensures Returns(PointerEntry(name)) == Returns(name)
  {
    ReturnsAppend(" &" + name, ",");
    ReturnsAppend(" &", name);
  }

  lemma BreakReturns(m: nat)
    ensures Returns(BreakAfter(m)) == if m % 6 == 5 then 1 else 0
  {
  }

  lemma SixStep(m: nat)
    ensures (m + 1) / 6 == m / 6 + if m % 6 == 5 then 1 else 0
  {
  }

  /** `_removeDuplicateObjects(objects)`: `list(set(objects))`, in an
      order the model leaves open. */
  method RemoveDuplicates(objects: seq<string>) returns (r: seq<string>)
    ensures forall x :: x in r <==> x in objects
    ensures forall i, j :: 0 <= i < j < |r| ==> r[i] != r[j]
  {
    r := [];
    var rest := set x | x in objects;
    while rest != {}
      invariant forall x :: x in r ==> x in objects && x !in rest
      invariant forall x :: x in objects ==> x in r || x in rest
      invariant forall x :: x in rest ==> x in objects
      invariant forall i, j :: 0 <= i < j < |r| ==> r[i] != r[j]
      decreases |rest|
    {
      var x :| x in rest;
      r := r + [x];
      rest := rest - {x};
    }
  }
}
