/** `QStyleParser`: the widgets keep their colours in Qt style sheets as
    lines `name: rgb(R, G, B);`. `getColor` reads a colour back from the
    first line that starts with a given prefix, and `getColorStyleSheet`
    writes one such line. */
module Stylesheet {
  import opened Results
  import opened PyText

  /** A `QColor` as built from three integers. Qt's own check that each
      component lies in 0..255 is not part of this model. */
  datatype Rgb = Rgb(red: int, green: int, blue: int)

  const Black: Rgb := Rgb(0, 0, 0)

  /** `line.find(cid) == 0`: the line starts with `cid`. */
  predicate Starts(line: string, cid: string) {
    Find(line, cid) == 0
  }

  /** `getColor(styleSheet, cid)`: the colour of the first line of the
      sheet that starts with `cid`, or black when none does. */
  function GetColor(sheet: string, cid: string): (r: Result<Rgb>)
    ensures r.Failure? ==> r.error == ValueError
  {
    FirstColor(SplitLines(sheet), cid)
  }

  /** The loop over the lines: the first one that starts with `cid` decides;
      later matching lines are never looked at. */
  function FirstColor(lines: seq<string>, cid: string): (r: Result<Rgb>)
    ensures (forall i :: 0 <= i < |lines| ==> !Starts(lines[i], cid)) ==> r == Success(Black)
    ensures forall i :: 0 <= i < |lines| && Starts(lines[i], cid) && (forall j :: 0 <= j < i ==> !Starts(lines[j], cid)) ==>
      r == LineColor(lines[i])
    ensures r.Failure? ==> r.error == ValueError
  {
    if |lines| == 0 then Success(Black)
    else if Starts(lines[0], cid) then LineColor(lines[0])
    else
      var r := FirstColor(lines[1..], cid);
      assert forall i :: 1 <= i < |lines| ==> lines[i] == lines[1..][i - 1];
      r
  }

  /** The three components of a matching line: the text between the first
      `(` and the last `)`, spaces removed, split at commas. Anything but
      exactly three integers raises `ValueError`. */
  function LineColor(line: string): (r: Result<Rgb>)
    ensures var parts := Components(line);
      r.Success? <==> |parts| == 3 && ParseInt(parts[0]).Some? && ParseInt(parts[1]).Some? && ParseInt(parts[2]).Some?
    ensures r.Success? ==> var parts := Components(line);
      r.value == Rgb(ParseInt(parts[0]).value, ParseInt(parts[1]).value, ParseInt(parts[2]).value)
    ensures r.Failure? ==> r.error == ValueError
  {
    var parts := Components(line);
    if |parts| != 3 then Failure(ValueError)
    else
      match (ParseInt(parts[0]), ParseInt(parts[1]), ParseInt(parts[2]))
      case (Some(red), Some(green), Some(blue)) => Success(Rgb(red, green, blue))
      case _ => Failure(ValueError)
  }

  /** `line[line.find('(') + 1 : line.rfind(')')].replace(' ', '').split(',')`.
      A missing `(` starts at 0 and a missing `)` ends one before the end,
      as Python's -1 does. */
  function Components(line: string): (parts: seq<string>)
    ensures forall i :: 0 <= i < |parts| ==> ' ' !in parts[i] && ',' !in parts[i]
  {
    var inner := ReplaceChar(Slice(line, Find(line, "(") + 1, RFind(line, ")")), ' ', "");
    ReplaceCharRemoves(Slice(line, Find(line, "(") + 1, RFind(line, ")")), ' ');
    SplitPieces(inner, ',');
    SplitKeeps(inner, ',', ' ');
    Split(inner, ',')
  }

  /** Splitting introduces no character that was not there. */
  lemma {:induction false} SplitKeeps(s: string, sep: char, c: char)
    requires c !in s
    ensures forall i :: 0 <= i < |Split(s, sep)| ==> c !in Split(s, sep)[i]
  {
    if |s| > 0 {
      SplitKeeps(s[1..], sep, c);
      var rest := Split(s[1..], sep);
      if s[0] != sep {
        assert forall i :: 1 <= i < |Split(s, sep)| ==> Split(s, sep)[i] == rest[i];
      } else {
        assert forall i :: 1 <= i < |Split(s, sep)| ==> Split(s, sep)[i] == rest[i - 1];
      }
    }
  }

  /** `getColorStyleSheet(qcolor, name)`: `'{name}: rgb({R}, {G}, {B});'`. */
  function ColorSheet(c: Rgb, name: string): (s: string)
    ensures |s| >= |name| + 15
  {
    name + ": rgb(" + IntText(c.red) + ", " + IntText(c.green) + ", " + IntText(c.blue) + ");"
  }

  // ---------------------------------------------------------------------------
  // Properties
  // ---------------------------------------------------------------------------

  /** A `background-color: rgb` line never matches the prefix `color: rgb`,
      because the prefix must start at column 0. */
  lemma BackgroundNotColor(line: string)
    requires |line| >= 1 && line[0] == 'b'
    ensures !Starts(line, "color: rgb")
  {
    NotAt(line, "color: rgb", 0, 0);
    FindSpec(line, "color: rgb");
  }

  /** A sheet without any line starting with `cid` reads as black, never
      as an error. */
  lemma NoMatchBlack(sheet: string, cid: string)
    requires forall line :: line in SplitLines(sheet) ==> !Starts(line, cid)
    ensures GetColor(sheet, cid) == Success(Black)
  {
    var lines := SplitLines(sheet);
    assert forall i :: 0 <= i < |lines| ==> lines[i] in lines;
  }

  /** Reading back what `getColorStyleSheet` wrote, with the prefix
      `name + ': rgb'`, gives the colour, for components in 0..255 and a
      name without `(` or line boundaries. */
  lemma SheetRoundTrip(c: Rgb, name: string)
    requires 0 <= c.red < 256 && 0 <= c.green < 256 && 0 <= c.blue < 256
    requires '(' !in name && OneLine(name)
    ensures GetColor(ColorSheet(c, name), name + ": rgb") == Success(c)
  {
    var s := ColorSheet(c, name);
    SheetLine(c, name);
    SheetComponents(c, name);
    ParseDecimal(c.red);
    ParseDecimal(c.green);
    ParseDecimal(c.blue);
    assert LineColor(s) == Success(c);
    assert FirstColor([s], name + ": rgb") == LineColor(s);
  }

  /** The written sheet is one line, and that line starts with the prefix. */
  lemma SheetLine(c: Rgb, name: string)
    requires 0 <= c.red && 0 <= c.green && 0 <= c.blue
    requires OneLine(name)
    ensures var s := ColorSheet(c, name); SplitLines(s) == [s] && Starts(s, name + ": rgb")
  {
    var body := Decimal(c.red) + ", " + Decimal(c.green) + ", " + Decimal(c.blue);
    SheetShape(c, name);
    BodyOneLine(c.red, c.green, c.blue);
    SheetOneLine(name, body);
    SheetStarts(name, body);
  }

  /** The components read from the written line are the three numbers. */
  lemma SheetComponents(c: Rgb, name: string)
    requires 0 <= c.red && 0 <= c.green && 0 <= c.blue
    requires '(' !in name
    ensures Components(ColorSheet(c, name)) == [Decimal(c.red), Decimal(c.green), Decimal(c.blue)]
  {
    var body := Decimal(c.red) + ", " + Decimal(c.green) + ", " + Decimal(c.blue);
    SheetShape(c, name);
    SheetInner(name, body);
    BodyParts(c.red, c.green, c.blue);
  }

  lemma SheetShape(c: Rgb, name: string)
    requires 0 <= c.red && 0 <= c.green && 0 <= c.blue
    ensures ColorSheet(c, name) ==
      (name + ": rgb") + "(" + (Decimal(c.red) + ", " + Decimal(c.green) + ", " + Decimal(c.blue)) + ");"
  {
  }

  /** The written line has no line boundary. */
  lemma SheetOneLine(name: string, body: string)
    requires OneLine(name) && OneLine(body)
    ensures SplitLines((name + ": rgb") + "(" + body + ");") == [(name + ": rgb") + "(" + body + ");"]
  {
    assert OneLine(": rgb") && OneLine("(") && OneLine(");");
    OneLineAppend(name, ": rgb");
    OneLineAppend(name + ": rgb", "(");
    OneLineAppend((name + ": rgb") + "(", body);
    OneLineAppend((name + ": rgb") + "(" + body, ");");
    SplitLinesNone((name + ": rgb") + "(" + body + ");");
  }

  /** The written line starts with the prefix. */
  lemma SheetStarts(name: string, body: string)
    ensures Starts((name + ": rgb") + "(" + body + ");", name + ": rgb")
  {
    var s := (name + ": rgb") + "(" + body + ");";
    assert s[..|name| + 5] == name + ": rgb";
    FindAt(s, name + ": rgb", 0);
  }

  /** Between the first `(` and the last `)` lies the body. */
  lemma SheetInner(name: string, body: string)
    requires '(' !in name
    ensures var s := (name + ": rgb") + "(" + body + ");";
      Slice(s, Find(s, "(") + 1, RFind(s, ")")) == body
  {
    var a := name + ": rgb";
    var s := a + "(" + body + ");";
    assert '(' !in a + "(" [..0];
    FindAfter(a, "(", body + ");", 0);
    assert a + "(" + (body + ");") == s;
    RFindBefore(a + "(" + body, ")", ";", 0);
    assert a + "(" + body + ")" + ";" == s;
    assert s[|a| + 1..|a| + 1 + |body|] == body;
  }

  /** The body without spaces splits into the three numbers. */
  lemma BodyParts(r: nat, g: nat, b: nat)
    ensures var body := Decimal(r) + ", " + Decimal(g) + ", " + Decimal(b);
      Split(ReplaceChar(body, ' ', ""), ',') == [Decimal(r), Decimal(g), Decimal(b)]
  {
    DecimalPlain(r);
    DecimalPlain(g);
    DecimalPlain(b);
    BodySpaces(Decimal(r), Decimal(g), Decimal(b));
    ThreeParts(Decimal(r), Decimal(g), Decimal(b));
  }

  lemma BodySpaces(x: string, y: string, z: string)
    requires ' ' !in x && ' ' !in y && ReplaceChar(z, ' ', "") == z
    ensures ReplaceChar(x + ", " + y + ", " + z, ' ', "") == x + [','] + (y + [','] + z)
  {
    assert x + ", " + y + ", " + z == x + ", " + (y + ", " + z);
    DropSpace(y, z);
    DropSpace(x, y + ", " + z);
  }

  lemma ThreeParts(x: string, y: string, z: string)
    requires ',' !in x && ',' !in y && ',' !in z
    ensures Split(x + [','] + (y + [','] + z), ',') == [x, y, z]
  {
    SplitCons(x, ',', y + [','] + z);
    SplitCons(y, ',', z);
    SplitNoSep(z, ',');
  }

  /** Removing the spaces of `x + ", " + y`, for `x` without spaces. */
  lemma DropSpace(x: string, y: string)
    requires ' ' !in x
    ensures ReplaceChar(x + ", " + y, ' ', "") == x + [','] + ReplaceChar(y, ' ', "")
  {
    ReplaceCharAppend(x + ", ", y, ' ', "");
    ReplaceCharAppend(x, ", ", ' ', "");
    ReplaceCharAbsent(x, ' ', "");
    assert ReplaceChar(", ", ' ', "") == ",";
  }

  lemma BodyOneLine(r: nat, g: nat, b: nat)
    ensures OneLine(Decimal(r) + ", " + Decimal(g) + ", " + Decimal(b))
  {
    DecimalPlain(r);
    DecimalPlain(g);
    DecimalPlain(b);
    assert OneLine(", ");
    OneLineAppend(Decimal(r), ", ");
    OneLineAppend(Decimal(r) + ", ", Decimal(g));
    OneLineAppend(Decimal(r) + ", " + Decimal(g), ", ");
    OneLineAppend(Decimal(r) + ", " + Decimal(g) + ", ", Decimal(b));
  }

  /** `str(n)` holds no space, comma or line boundary. */
  lemma DecimalPlain(n: nat)
    ensures ' ' !in Decimal(n) && ',' !in Decimal(n)
    ensures ReplaceChar(Decimal(n), ' ', "") == Decimal(n)
    ensures OneLine(Decimal(n))
  {
    DecimalDigits(n);
    ReplaceCharAbsent(Decimal(n), ' ', "");
  }
}
