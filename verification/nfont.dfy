/** The font container `NGL_Font`: a dictionary from character to glyph
    record, listed in ascending character order, and the running glyph offsets
    that `NFontConverter.convertQFont` and the C-file parser assign. */
module Nfont {
  import opened Results
  import opened PyText
  import opened Glyph

  /** The byte rows of a glyph, as `font_bmpCode` returns them. */
  type Code = seq<seq<nat>>

  /** The dictionary stored by `add_char`: `{'char', 'code', 'offset',
      'bitmap'}`. Fonts parsed back from C files carry no code (`None`). */
  datatype CharRecord = CharRecord(ch: string, code: Option<Code>, offset: int, bitmap: Mono)

  /** `NGL_Font`: its name and the `nchars` dictionary. The dictionary's
      insertion order is never observed: every listing goes through
      `get_chars_list`, which sorts. */
  datatype Font = Font(name: string, chars: map<string, CharRecord>) {
    /** Every record sits under its own character and holds a well-formed
        image. */
    predicate Valid() {
      forall k :: k in chars ==> chars[k].ch == k && chars[k].bitmap.Valid()
    }
  }

  /** `NGL_Font(name)`: no characters yet. */
  function NewFont(name: string): (f: Font)
    ensures f.Valid() && f.name == name
    ensures forall k :: GetChar(f, k).None?
  {
    Font(name, map[])
  }

  /** `get_char(ch)`: the stored record, or `None` when the key is absent. */
  function GetChar(f: Font, ch: string): (r: Option<CharRecord>)
    ensures r.Some? <==> ch in f.chars
    ensures f.Valid() && r.Some? ==> r.value.ch == ch
  {
    if ch in f.chars then Some(f.chars[ch]) else None
  }

  /** `add_char(ch, code, offset, bitmap)`: stores a new record under `ch`,
      replacing any old one. */
  function AddChar(f: Font, ch: string, code: Option<Code>, offset: int, bitmap: Mono): (r: Font)
    ensures r.name == f.name
    ensures GetChar(r, ch) == Some(CharRecord(ch, code, offset, bitmap))
    ensures r.chars.Keys == f.chars.Keys + {ch}
  {
    Font(f.name, f.chars[ch := CharRecord(ch, code, offset, bitmap)])
  }

  /** `add_char` leaves every other character's record as it was. */
  lemma AddCharFrame(f: Font, ch: string, code: Option<Code>, offset: int, bitmap: Mono, k: string)
    requires k != ch
    ensures GetChar(AddChar(f, ch, code, offset, bitmap), k) == GetChar(f, k)
  {
  }

  /** Adding a well-formed image keeps the font well formed. */
  lemma AddCharValid(f: Font, ch: string, code: Option<Code>, offset: int, bitmap: Mono)
    requires f.Valid() && bitmap.Valid()
    ensures AddChar(f, ch, code, offset, bitmap).Valid()
  {
  }

  /** `clear_char_set()`: every key is gone; the name stays. */
  function ClearCharSet(f: Font): (r: Font)
    ensures r.Valid() && r.name == f.name
    ensures forall k :: GetChar(r, k).None?
  {
    Font(f.name, map[])
  }

  // ---------------------------------------------------------------------------
  // Ascending key order
  // ---------------------------------------------------------------------------

  /** Python's `<` on strings: code point by code point, a proper prefix
      first. */
  predicate Less(a: string, b: string) {
    if |a| == 0 then |b| > 0
    else |b| > 0 && (a[0] < b[0] || (a[0] == b[0] && Less(a[1..], b[1..])))
  }

  lemma {:induction false} LessTotal(a: string, b: string)
    requires a != b
    ensures Less(a, b) || Less(b, a)
  {
    if |a| > 0 && |b| > 0 && a[0] == b[0] {
      assert a == [a[0]] + a[1..] && b == [b[0]] + b[1..];
      LessTotal(a[1..], b[1..]);
    }
  }

  lemma {:induction false} LessAsymmetric(a: string, b: string)
    ensures !(Less(a, b) && Less(b, a))
  {
    if |a| > 0 && |b| > 0 && a[0] == b[0] {
      LessAsymmetric(a[1..], b[1..]);
    }
  }

  lemma {:induction false} LessTransitive(a: string, b: string, c: string)
    requires Less(a, b) && Less(b, c)
    ensures Less(a, c)
  {
    if |a| > 0 && a[0] == b[0] && b[0] == c[0] {
      LessTransitive(a[1..], b[1..], c[1..]);
    }
  }

  /** Records in strictly ascending key order. */
  predicate Sorted(s: seq<CharRecord>) {
    forall i :: 0 < i < |s| ==> Less(s[i - 1].ch, s[i].ch)
  }

  /** No two records share a key. */
  predicate Distinct(s: seq<CharRecord>) {
    forall i, j :: 0 <= i < j < |s| ==> s[i].ch != s[j].ch
  }

  /** No record of `s` has key `k`. */
  predicate Fresh(s: seq<CharRecord>, k: string) {
    forall i :: 0 <= i < |s| ==> s[i].ch != k
  }

  /** How many leading records of `s` have keys below `k`. */
  function Position(k: string, s: seq<CharRecord>): (p: nat)
    ensures p <= |s|
    ensures forall i :: 0 <= i < p ==> Less(s[i].ch, k)
    ensures p < |s| ==> !Less(s[p].ch, k)
  {
    if |s| == 0 || !Less(s[0].ch, k) then 0 else 1 + Position(k, s[1..])
  }

  /** `x` placed after the records with smaller keys. */
  function Insert(x: CharRecord, s: seq<CharRecord>): (r: seq<CharRecord>)
    requires Sorted(s) && Distinct(s) && Fresh(s, x.ch)
    ensures Sorted(r) && Distinct(r)
    ensures |r| == |s| + 1
    ensures forall i :: 0 <= i < |r| ==> r[i] == x || r[i] in s
    ensures x in r && forall i :: 0 <= i < |s| ==> s[i] in r
  {
    var p := Position(x.ch, s);
    var r := s[..p] + [x] + s[p..];
    InsertShape(x, s, p, r);
    InsertSorted(x, s, p, r);
    InsertDistinct(x, s, p, r);
    InsertMembers(x, s, p, r);
    r
  }

  /** Where each record lands when `x` goes in at position `p`. */
  lemma InsertShape(x: CharRecord, s: seq<CharRecord>, p: nat, r: seq<CharRecord>)
    requires p <= |s| && r == s[..p] + [x] + s[p..]
    ensures |r| == |s| + 1 && r[p] == x
    ensures forall i :: 0 <= i < p ==> r[i] == s[i]
    ensures forall i :: p < i < |r| ==> r[i] == s[i - 1]
  {
  }

  lemma {:induction false} InsertSorted(x: CharRecord, s: seq<CharRecord>, p: nat, r: seq<CharRecord>)
    requires Sorted(s) && Fresh(s, x.ch) && p == Position(x.ch, s)
    requires |r| == |s| + 1 && r[p] == x
    requires forall i :: 0 <= i < p ==> r[i] == s[i]
    requires forall i :: p < i < |r| ==> r[i] == s[i - 1]
    ensures Sorted(r)
  {
    forall i | 0 < i < |r| ensures Less(r[i - 1].ch, r[i].ch) {
      if i < p {
        assert r[i - 1] == s[i - 1] && r[i] == s[i];
      } else if i == p {
        assert r[i - 1] == s[p - 1];
      } else if i == p + 1 {
        assert r[i] == s[p];
        LessTotal(x.ch, s[p].ch);
      } else {
        assert r[i - 1] == s[i - 2] && r[i] == s[i - 1];
      }
    }
  }

  lemma {:induction false} InsertDistinct(x: CharRecord, s: seq<CharRecord>, p: nat, r: seq<CharRecord>)
    requires Distinct(s) && Fresh(s, x.ch)
    requires p <= |s| && |r| == |s| + 1 && r[p] == x
    requires forall i :: 0 <= i < p ==> r[i] == s[i]
    requires forall i :: p < i < |r| ==> r[i] == s[i - 1]
    ensures Distinct(r)
  {
    forall i, j | 0 <= i < j < |r| ensures r[i].ch != r[j].ch {
      var i' := if i < p then i else i - 1;
      var j' := if j < p then j else j - 1;
      if i == p {
        assert r[j] == s[j'];
      } else if j == p {
        assert r[i] == s[i'];
      } else {
        assert r[i] == s[i'] && r[j] == s[j'] && i' < j';
      }
    }
  }

  lemma {:induction false} InsertMembers(x: CharRecord, s: seq<CharRecord>, p: nat, r: seq<CharRecord>)
    requires p <= |s| && |r| == |s| + 1 && r[p] == x
    requires forall i :: 0 <= i < p ==> r[i] == s[i]
    requires forall i :: p < i < |r| ==> r[i] == s[i - 1]
    ensures forall i :: 0 <= i < |r| ==> r[i] == x || r[i] in s
    ensures x in r && forall i :: 0 <= i < |s| ==> s[i] in r
  {
    forall i | 0 <= i < |r| ensures r[i] == x || r[i] in s {
      if i < p { assert r[i] == s[i]; } else if i > p { assert r[i] == s[i - 1]; }
    }
    forall i | 0 <= i < |s| ensures s[i] in r {
      if i < p { assert r[i] == s[i]; } else { assert r[i + 1] == s[i]; }
    }
  }

  /** `get_chars_list()`: one record per key, in ascending key order. */
  method CharsList(f: Font) returns (list: seq<CharRecord>)
    requires f.Valid()
    ensures Sorted(list) && Distinct(list)
    ensures forall i :: 0 <= i < |list| ==> GetChar(f, list[i].ch) == Some(list[i])
    ensures forall k :: k in f.chars ==> exists i :: 0 <= i < |list| && list[i].ch == k
  {
    list := [];
    var rest := f.chars.Keys;
    while rest != {}
      invariant Listing(f, list, rest)
      decreases |rest|
    {
      var k :| k in rest;
      ListingStep(f, list, rest, k);
      list := Insert(f.chars[k], list);
      rest := rest - {k};
    }
    ListingDone(f, list);
  }

  /** The loop's state: `list` holds, sorted and once each, the records of
      the keys not in `rest`. */
  predicate Listing(f: Font, list: seq<CharRecord>, rest: set<string>) {
    && rest <= f.chars.Keys
    && Sorted(list) && Distinct(list)
    && (forall i :: 0 <= i < |list| ==> list[i].ch in f.chars && f.chars[list[i].ch] == list[i])
    && (forall k :: k in f.chars ==> (k in rest <==> Fresh(list, k)))
  }

  /** With no key left, every key has its record in the list. */
  lemma ListingDone(f: Font, list: seq<CharRecord>)
    requires Listing(f, list, {})
    ensures forall i :: 0 <= i < |list| ==> GetChar(f, list[i].ch) == Some(list[i])
    ensures forall k :: k in f.chars ==> exists i :: 0 <= i < |list| && list[i].ch == k
  {
    forall k | k in f.chars
      ensures exists i :: 0 <= i < |list| && list[i].ch == k
    {
      assert !Fresh(list, k);
    }
  }

  /** Inserting the record of one remaining key keeps `Listing`. */
  lemma ListingStep(f: Font, list: seq<CharRecord>, rest: set<string>, k: string)
    requires f.Valid() && Listing(f, list, rest) && k in rest
    ensures Fresh(list, f.chars[k].ch)
    ensures Listing(f, Insert(f.chars[k], list), rest - {k})
  {
    var r := Insert(f.chars[k], list);
    ListingRecords(f, list, k, r);
    ListingFresh(f, list, rest, k, r);
  }

  lemma ListingRecords(f: Font, list: seq<CharRecord>, k: string, r: seq<CharRecord>)
    requires k in f.chars
    requires forall i :: 0 <= i < |list| ==> list[i].ch in f.chars && f.chars[list[i].ch] == list[i]
    requires f.chars[k].ch == k
    requires forall i :: 0 <= i < |r| ==> r[i] == f.chars[k] || r[i] in list
    ensures forall i :: 0 <= i < |r| ==> r[i].ch in f.chars && f.chars[r[i].ch] == r[i]
  {
  }

  lemma ListingFresh(f: Font, list: seq<CharRecord>, rest: set<string>, k: string, r: seq<CharRecord>)
    requires k in rest && k in f.chars && f.chars[k].ch == k
    requires forall j :: j in f.chars ==> (j in rest <==> Fresh(list, j))
    requires forall i :: 0 <= i < |r| ==> r[i] == f.chars[k] || r[i] in list
    requires f.chars[k] in r && forall i :: 0 <= i < |list| ==> list[i] in r
    ensures forall j :: j in f.chars ==> (j in rest - {k} <==> Fresh(r, j))
  {
    forall j | j in f.chars
      ensures j in rest - {k} <==> Fresh(r, j)
    {
      if j == k {
        assert f.chars[k] in r;
      } else if !Fresh(list, j) {
        var i :| 0 <= i < |list| && list[i].ch == j;
        assert list[i] in r;
      }
    }
  }

  /** Two sorted lists of a font's records that name the same keys are
      equal, so `get_chars_list` has exactly one possible result. */
  lemma {:induction false} CharsListUnique(f: Font, a: seq<CharRecord>, b: seq<CharRecord>)
    requires Sorted(a) && Sorted(b)
    requires forall i :: 0 <= i < |a| ==> a[i].ch in f.chars && f.chars[a[i].ch] == a[i]
    requires forall i :: 0 <= i < |b| ==> b[i].ch in f.chars && f.chars[b[i].ch] == b[i]
    requires ListKeys(a) == ListKeys(b)
    ensures a == b
    decreases |a|
  {
    NoKeys(a);
    NoKeys(b);
    if |a| > 0 {
      SameFirstKey(a, b);
      TailKeys(a);
      TailKeys(b);
      var a', b' := a[1..], b[1..];
      assert forall i :: 0 <= i < |a'| ==> a'[i] == a[i + 1];
      assert forall i :: 0 <= i < |b'| ==> b'[i] == b[i + 1];
      CharsListUnique(f, a', b');
      assert a == [a[0]] + a' && b == [b[0]] + b';
    }
  }

  /** `order` holds the font's records, once each, in ascending key order:
      what `get_chars_list` returns. */
  predicate ListsFont(f: Font, order: seq<CharRecord>) {
    && Sorted(order) && Distinct(order) && |order| == |f.chars|
    && (forall i :: 0 <= i < |order| ==> order[i].ch in f.chars && f.chars[order[i].ch] == order[i])
    && (forall k :: k in f.chars ==> exists i :: 0 <= i < |order| && order[i].ch == k)
  }

  /** A sorted, duplicate-free list of the font's records that names every
      key lists the font. */
  lemma ListingListsFont(f: Font, order: seq<CharRecord>)
    requires f.Valid() && Sorted(order) && Distinct(order)
    requires forall i :: 0 <= i < |order| ==> GetChar(f, order[i].ch) == Some(order[i])
    requires forall k :: k in f.chars ==> exists i :: 0 <= i < |order| && order[i].ch == k
    ensures ListsFont(f, order)
  {
    assert ListKeys(order) == f.chars.Keys;
    DistinctKeys(order);
  }

  /** A font has exactly one sorted listing. */
  lemma ListsFontUnique(f: Font, a: seq<CharRecord>, b: seq<CharRecord>)
    requires ListsFont(f, a) && ListsFont(f, b)
    ensures a == b
  {
    assert ListKeys(a) == f.chars.Keys;
    assert ListKeys(b) == f.chars.Keys;
    CharsListUnique(f, a, b);
  }

  /** Distinct keys: as many keys as records. */
  lemma {:induction false} DistinctKeys(s: seq<CharRecord>)
    requires Distinct(s)
    ensures |ListKeys(s)| == |s|
  {
    if |s| > 0 {
      var n := |s| - 1;
      DistinctKeys(s[..n]);
      var front := ListKeys(s[..n]);
      assert ListKeys(s) == front + {s[n].ch};
      assert s[n].ch !in front;
    }
  }

  /** Only the empty list names no key. */
  lemma NoKeys(s: seq<CharRecord>)
    ensures ListKeys(s) == {} <==> |s| == 0
  {
    if |s| > 0 {
      assert s[0].ch in ListKeys(s);
    }
  }

  /** Sorted lists with the same keys start with the same key. */
  lemma SameFirstKey(a: seq<CharRecord>, b: seq<CharRecord>)
    requires Sorted(a) && Sorted(b) && |a| > 0 && |b| > 0
    requires ListKeys(a) == ListKeys(b)
    ensures a[0].ch == b[0].ch
  {
    SortedFirst(a);
    SortedFirst(b);
    assert a[0].ch in ListKeys(b) && b[0].ch in ListKeys(a);
    var j :| 0 <= j < |b| && b[j].ch == a[0].ch;
    var i :| 0 <= i < |a| && a[i].ch == b[0].ch;
    LessAsymmetric(a[0].ch, b[0].ch);
  }

  /** Dropping the first record of a sorted list drops exactly its key. */
  lemma TailKeys(s: seq<CharRecord>)
    requires Sorted(s) && |s| > 0
    ensures ListKeys(s[1..]) == ListKeys(s) - {s[0].ch}
  {
    SortedFirst(s);
    LessAsymmetric(s[0].ch, s[0].ch);
    forall i | 0 <= i < |s| - 1 ensures s[1..][i].ch in ListKeys(s) - {s[0].ch} {
      assert s[1..][i] == s[i + 1];
    }
    forall i | 0 < i < |s| ensures s[i].ch in ListKeys(s[1..]) {
      assert s[1..][i - 1] == s[i];
    }
  }

  /** In a sorted list the first key is below every other. */
  lemma {:induction false} SortedFirst(s: seq<CharRecord>)
    requires Sorted(s)
    ensures forall i :: 0 < i < |s| ==> Less(s[0].ch, s[i].ch)
  {
    forall i | 0 < i < |s| ensures Less(s[0].ch, s[i].ch) {
      SortedPrefix(s, i);
    }
  }

  lemma {:induction false} SortedPrefix(s: seq<CharRecord>, i: nat)
    requires Sorted(s) && 0 < i < |s|
    ensures Less(s[0].ch, s[i].ch)
  {
    if i > 1 {
      SortedPrefix(s, i - 1);
      LessTransitive(s[0].ch, s[i - 1].ch, s[i].ch);
    }
  }

  // ---------------------------------------------------------------------------
  // Code size estimate
  // ---------------------------------------------------------------------------

  /** One character's term of `code_size_calc`: rows times the length of the
      first row, plus 3. A parsed glyph has no code (`len(None)` raises
      `TypeError`), and a glyph of height 0 has no first row (`IndexError`). */
  function CodeSize(r: CharRecord): (n: Result<nat>)
    ensures n.Failure? <==> r.code.None? || |r.code.value| == 0
    ensures n.Success? ==> n.value == |r.code.value| * |r.code.value[0]| + 3
  {
    match r.code
      case None => Failure(TypeError)
      case Some(rows) => if |rows| == 0 then Failure(IndexError) else Success(|rows| * |rows[0]| + 3)
  }

  /** The terms summed in list order, stopping at the first one that
      raises. */
  function CodeSizeSum(s: seq<CharRecord>): Result<nat> {
    if |s| == 0 then Success(0)
    else
      var a :- CodeSize(s[0]);
      var b :- CodeSizeSum(s[1..]);
      Success(a + b)
  }

  /** Every character of the font has a term. */
  predicate AllSized(f: Font) {
    forall k :: k in f.chars ==> CodeSize(f.chars[k]).Success?
  }

  /** The sum of the terms of the given keys, in no particular order. */
  ghost function SizeTotal(f: Font, keys: set<string>): nat
    requires keys <= f.chars.Keys && AllSized(f)
  {
    if keys == {} then 0
    else
      var k :| k in keys;
      CodeSize(f.chars[k]).value + SizeTotal(f, keys - {k})
  }

  lemma {:induction false} SizeTotalRemove(f: Font, keys: set<string>, x: string)
    requires keys <= f.chars.Keys && AllSized(f)
    requires x in keys
    ensures SizeTotal(f, keys) == CodeSize(f.chars[x]).value + SizeTotal(f, keys - {x})
    decreases |keys|
  {
    var k :| k in keys && SizeTotal(f, keys) == CodeSize(f.chars[k]).value + SizeTotal(f, keys - {k});
    if k != x {
      SizeTotalRemove(f, keys - {k}, x);
      SizeTotalRemove(f, keys - {x}, k);
      assert keys - {k} - {x} == keys - {x} - {k};
    }
  }

  /** The keys of a list of records. */
  function ListKeys(s: seq<CharRecord>): set<string> {
    set i | 0 <= i < |s| :: s[i].ch
  }

  lemma {:induction false} CodeSizeSumValue(f: Font, s: seq<CharRecord>)
    requires Distinct(s)
    requires forall i :: 0 <= i < |s| ==> s[i].ch in f.chars && f.chars[s[i].ch] == s[i]
    ensures AllSized(f) ==> CodeSizeSum(s).Success? && CodeSizeSum(s).value == SizeTotal(f, ListKeys(s))
    ensures CodeSizeSum(s).Success? ==> forall i :: 0 <= i < |s| ==> CodeSize(s[i]).Success?
  {
    if |s| > 0 {
      var t := s[1..];
      assert forall i :: 0 <= i < |t| ==> t[i] == s[i + 1];
      CodeSizeSumValue(f, t);
      if CodeSizeSum(s).Success? {
        forall i | 0 <= i < |s| ensures CodeSize(s[i]).Success? {
          if i > 0 { assert t[i - 1] == s[i]; }
        }
      }
      if AllSized(f) {
        assert ListKeys(s) - {s[0].ch} == ListKeys(t) by {
          forall i | 0 <= i < |s| ensures s[i].ch in ListKeys(t) + {s[0].ch} {
            if i > 0 { assert t[i - 1] == s[i]; }
          }
        }
        SizeTotalRemove(f, ListKeys(s), s[0].ch);
      }
    }
  }

  /** `code_size_calc()`: 40 plus one term per character, summed over the
      sorted list. The estimate is 40 plus the sum of every character's term
      whatever the order, and it raises exactly when some character has no
      code or no rows. */
  method CodeSizeCalc(f: Font) returns (n: Result<nat>)
    requires f.Valid()
    ensures n.Success? <==> AllSized(f)
    ensures n.Success? ==> n.value == 40 + SizeTotal(f, f.chars.Keys)
  {
    var list := CharsList(f);
    CodeSizeSumValue(f, list);
    assert ListKeys(list) == f.chars.Keys;
    match CodeSizeSum(list)
    case Failure(e) =>
      n := Failure(e);
    case Success(total) =>
      assert AllSized(f) by {
        forall k | k in f.chars ensures CodeSize(f.chars[k]).Success? {
          var i :| 0 <= i < |list| && list[i].ch == k;
        }
      }
      n := Success(total + 40);
  }

  // ---------------------------------------------------------------------------
  // Names
  // ---------------------------------------------------------------------------

  /** `formatName(family, pointSize, bold)`: `'%s_%s_%s'` of the family, the
      point size and `bold`/`normal`, spaces turned into `_`, lower-cased. */
  function FormatName(family: string, pointSize: int, bold: bool): (name: string)
    ensures ' ' !in name
  {
    var raw := family + ("_" + IntText(pointSize) + (if bold then "_bold" else "_normal"));
    var r := ReplaceChar(raw, ' ', "_");
    ReplaceCharEach(raw, ' ', "_");
    assert ' ' !in r;
    Lower(r)
  }

  /** Only the family is rewritten: the size and the weight come through as
      printed. */
  lemma FormatNameParts(family: string, pointSize: int, bold: bool)
    ensures FormatName(family, pointSize, bold) ==
      Lower(ReplaceChar(family, ' ', "_")) + ("_" + IntText(pointSize) + (if bold then "_bold" else "_normal"))
  {
    var size := IntText(pointSize);
    var tail := if bold then "_bold" else "_normal";
    IntTextChars(pointSize);
    PlainRest(size, tail);
    RewriteFront(family, "_" + size + tail);
    assert FormatName(family, pointSize, bold) == Lower(ReplaceChar(family + ("_" + size + tail), ' ', "_"));
  }

  /** The name ends in `_bold` exactly for bold fonts. */
  lemma FormatNameWeight(family: string, pointSize: int, bold: bool)
    ensures var name := FormatName(family, pointSize, bold);
      |name| >= 5 && (name[|name| - 5..] == "_bold" <==> bold)
  {
    FormatNameParts(family, pointSize, bold);
    WeightSuffix(Lower(ReplaceChar(family, ' ', "_")), IntText(pointSize), bold);
  }

  lemma WeightSuffix(front: string, size: string, bold: bool)
    ensures var name := front + ("_" + size + (if bold then "_bold" else "_normal"));
      |name| >= 5 && (name[|name| - 5..] == "_bold" <==> bold)
  {
    var tail := if bold then "_bold" else "_normal";
    var rest := "_" + size + tail;
    var name := front + rest;
    EndOf(front, rest);
    EndOf("_" + size, tail);
    var end := name[|name| - 5..];
    assert end == tail[|tail| - 5..];
    if !bold {
      assert end[0] == 'o';
    }
  }

  lemma PlainRest(size: string, tail: string)
    requires forall k :: 0 <= k < |size| ==> size[k] == '-' || IsDigit(size[k])
    requires tail == "_bold" || tail == "_normal"
    ensures Plain("_" + size + tail)
  {
    PlainAppend("_", size);
    PlainAppend("_" + size, tail);
  }

  lemma RewriteFront(front: string, rest: string)
    requires Plain(rest)
    ensures Lower(ReplaceChar(front + rest, ' ', "_")) == Lower(ReplaceChar(front, ' ', "_")) + rest
  {
    ReplaceCharAppend(front, rest, ' ', "_");
    PlainUnchanged(rest, "_");
    LowerAppend(ReplaceChar(front, ' ', "_"), rest);
  }

  /** The last five characters of `x + t`, for a `t` of at least five. */
  lemma EndOf(x: string, t: string)
    requires |t| >= 5
    ensures (x + t)[|x + t| - 5..] == t[|t| - 5..]
  {
  }

  // ---------------------------------------------------------------------------
  // Running offsets
  // ---------------------------------------------------------------------------

  /** A glyph to add: character, stored code, image, and the size
      `font_bmpCode` reports for the image. */
  datatype Entry = Entry(ch: string, code: Option<Code>, bitmap: Mono, size: nat)

  predicate ValidEntries(es: seq<Entry>) {
    forall i :: 0 <= i < |es| ==> es[i].bitmap.Valid()
  }

  /** The sizes `font_bmpCode` reports for the entries, summed. */
  function Sizes(es: seq<Entry>): nat {
    if |es| == 0 then 0 else Sizes(es[..|es| - 1]) + es[|es| - 1].size
  }

  /** The font after adding the entries one by one, each at `offset` plus
      the sizes of the entries before it. */
  function AddAll(f: Font, es: seq<Entry>, offset: int): (r: Font)
    ensures r.name == f.name
    decreases |es|
  {
    if |es| == 0 then f
    else
      var n := |es| - 1;
      AddChar(AddAll(f, es[..n], offset), es[n].ch, es[n].code, offset + Sizes(es[..n]), es[n].bitmap)
  }

  /** Adding entries that all hold code to a font whose records all hold
      code leaves every record with code. */
  lemma {:induction false} AddAllCoded(f: Font, es: seq<Entry>, offset: int)
    requires forall k :: k in f.chars ==> f.chars[k].code.Some?
    requires forall i :: 0 <= i < |es| ==> es[i].code.Some?
    ensures forall k :: k in AddAll(f, es, offset).chars ==> AddAll(f, es, offset).chars[k].code.Some?
    decreases |es|
  {
    if |es| > 0 {
      AddAllCoded(f, es[..|es| - 1], offset);
    }
  }

  /** The loop shared by `convertQFont`, `parseFile` and `_reGenerateFont`:
      add each entry at the current offset, then advance the offset by the
      size `font_bmpCode` reports for its image. */
  method AddEntries(f: Font, es: seq<Entry>) returns (r: Font)
    ensures r == AddAll(f, es, 0)
    ensures r.name == f.name && r.chars.Keys == f.chars.Keys + EntryKeys(es)
    ensures f.Valid() && ValidEntries(es) ==> r.Valid()
  {
    r := f;
    var offset := 0;
    var i := 0;
    while i < |es|
      invariant 0 <= i <= |es|
      invariant r == AddAll(f, es[..i], 0)
      invariant offset == Sizes(es[..i])
    {
      var e := es[i];
      assert es[..i + 1][..i] == es[..i];
      r := AddChar(r, e.ch, e.code, offset, e.bitmap);
      offset := offset + e.size;
      i := i + 1;
    }
    assert es[..i] == es;
    AddAllKeys(f, es, 0);
    if f.Valid() && ValidEntries(es) {
      AddAllValid(f, es, 0);
    }
  }

  /** The characters of the entries. */
  function EntryKeys(es: seq<Entry>): set<string> {
    set i | 0 <= i < |es| :: es[i].ch
  }

  lemma EntryKeysSnoc(es: seq<Entry>)
    requires |es| > 0
    ensures EntryKeys(es) == EntryKeys(es[..|es| - 1]) + {es[|es| - 1].ch}
  {
    var n := |es| - 1;
    forall i | 0 <= i < n ensures es[..n][i].ch in EntryKeys(es) {
      assert es[..n][i] == es[i];
    }
    forall i | 0 <= i < |es| ensures es[i].ch in EntryKeys(es[..n]) + {es[n].ch} {
      if i < n { assert es[..n][i] == es[i]; }
    }
  }

  /** Entry `j` is the last one with its character. */
  predicate IsLast(es: seq<Entry>, j: nat)
    requires j < |es|
  {
    forall i :: j < i < |es| ==> es[i].ch != es[j].ch
  }

  /** The font's characters afterwards are the old ones and those of the
      entries. */
  lemma {:induction false} AddAllKeys(f: Font, es: seq<Entry>, offset: int)
    ensures AddAll(f, es, offset).chars.Keys == f.chars.Keys + EntryKeys(es)
    decreases |es|
  {
    if |es| > 0 {
      var n := |es| - 1;
      AddAllKeys(f, es[..n], offset);
      EntryKeysSnoc(es);
    }
  }

  /** Well-formed images keep the font well formed. */
  lemma {:induction false} AddAllValid(f: Font, es: seq<Entry>, offset: int)
    requires f.Valid() && ValidEntries(es)
    ensures AddAll(f, es, offset).Valid()
    decreases |es|
  {
    if |es| > 0 {
      var n := |es| - 1;
      AddAllValid(f, es[..n], offset);
      AddCharValid(AddAll(f, es[..n], offset), es[n].ch, es[n].code, offset + Sizes(es[..n]), es[n].bitmap);
    }
  }

  /** Characters without an entry keep their old record. */
  lemma {:induction false} AddAllUntouched(f: Font, es: seq<Entry>, offset: int, k: string)
    requires forall i :: 0 <= i < |es| ==> es[i].ch != k
    ensures GetChar(AddAll(f, es, offset), k) == GetChar(f, k)
    decreases |es|
  {
    if |es| > 0 {
      AddAllUntouched(f, es[..|es| - 1], offset, k);
    }
  }

  /** After the loop, each character's record is the one from its last entry,
      at the starting offset plus the sizes of all entries before that one. */
  lemma {:induction false} AddAllOffsets(f: Font, es: seq<Entry>, offset: int, j: nat)
    requires j < |es| && IsLast(es, j)
    ensures Placed(f, es, offset, j)
    decreases |es|, 1
  {
    if j < |es| - 1 {
      AddAllOffsetsStep(f, es, offset, j);
    } else {
      AddAllSnoc(f, es, offset);
    }
  }

  /** Entry `j`'s character ends with entry `j`'s record at its offset. */
  predicate Placed(f: Font, es: seq<Entry>, offset: int, j: nat)
    requires j < |es|
  {
    GetChar(AddAll(f, es, offset), es[j].ch) ==
      Some(CharRecord(es[j].ch, es[j].code, offset + Sizes(es[..j]), es[j].bitmap))
  }

  lemma {:induction false} AddAllOffsetsStep(f: Font, es: seq<Entry>, offset: int, j: nat)
    requires j < |es| - 1 && IsLast(es, j)
    ensures Placed(f, es, offset, j)
    decreases |es|, 0
  {
    var pre := es[..|es| - 1];
    assert pre[j] == es[j] && pre[..j] == es[..j];
    AddAllOffsets(f, pre, offset, j);
    PlacedSnoc(f, es, offset, j);
  }

  /** The last entry, another character, leaves entry `j`'s record alone. */
  lemma PlacedSnoc(f: Font, es: seq<Entry>, offset: int, j: nat)
    requires j < |es| - 1 && IsLast(es, j)
    requires Placed(f, es[..|es| - 1], offset, j)
    ensures Placed(f, es, offset, j)
  {
    var n := |es| - 1;
    var pre := es[..n];
    var e := es[j];
    assert pre[j] == e;
    assert pre[..j] == es[..j];
    var rec := CharRecord(e.ch, e.code, offset + Sizes(es[..j]), e.bitmap);
    var g := AddAll(f, pre, offset);
    assert GetChar(g, e.ch) == Some(rec);
    AddAllSnoc(f, es, offset);
    AddCharFrame(g, es[n].ch, es[n].code, offset + Sizes(pre), es[n].bitmap, e.ch);
  }

  /** The loop's last iteration adds the last entry. */
  lemma AddAllSnoc(f: Font, es: seq<Entry>, offset: int)
    requires |es| > 0
    ensures var pre := es[..|es| - 1]; var e := es[|es| - 1];
      AddAll(f, es, offset) == AddChar(AddAll(f, pre, offset), e.ch, e.code, offset + Sizes(pre), e.bitmap)
  {
  }

  /** `convertQFont(chars_sets, name, font)`: each character of `chars` is
      rendered by `render` (which stands for `font_charBmp`) and added with
      its `font_bmpCode` rows at the running offset. */
  method ConvertQFont(chars: string, name: string, render: char -> Mono) returns (f: Font)
    requires forall c :: render(c).Valid()
    ensures f == AddAll(NewFont(name), GlyphEntries(chars, render), 0)
    ensures f.Valid() && f.name == name
    ensures f.chars.Keys == set i | 0 <= i < |chars| :: [chars[i]]
  {
    var es := GlyphEntries(chars, render);
    f := AddEntries(NewFont(name), es);
    GlyphEntryKeys(chars, render);
  }

  /** Every converted record holds code, and the converted font is empty
      exactly when `chars` is. */
  lemma ConvertQFontCoded(chars: string, name: string, render: char -> Mono)
    requires forall c :: render(c).Valid()
    ensures var f := AddAll(NewFont(name), GlyphEntries(chars, render), 0);
      && (forall k :: k in f.chars ==> f.chars[k].code.Some?)
      && (|f.chars| == 0 <==> |chars| == 0)
  {
    var es := GlyphEntries(chars, render);
    var f := AddAll(NewFont(name), es, 0);
    AddAllCoded(NewFont(name), es, 0);
    AddAllKeys(NewFont(name), es, 0);
    GlyphEntryKeys(chars, render);
    if |chars| > 0 {
      assert [chars[0]] in f.chars.Keys;
    }
  }

  /** The converted entries are keyed by the characters of `chars`. */
  lemma GlyphEntryKeys(chars: string, render: char -> Mono)
    requires forall c :: render(c).Valid()
    ensures EntryKeys(GlyphEntries(chars, render)) == set i | 0 <= i < |chars| :: [chars[i]]
  {
    var es := GlyphEntries(chars, render);
    forall i | 0 <= i < |chars| ensures es[i].ch == [chars[i]] {
    }
  }

  function GlyphEntries(chars: string, render: char -> Mono): (es: seq<Entry>)
    requires forall c :: render(c).Valid()
    ensures |es| == |chars| && ValidEntries(es)
    ensures forall i :: 0 <= i < |chars| ==>
      es[i] == GlyphEntry([chars[i]], render(chars[i]))
  {
    seq(|chars|, i requires 0 <= i < |chars| => GlyphEntry([chars[i]], render(chars[i])))
  }

  /** `ch_code, ch_offset = font_bmpCode(ch_bmp)` for one character. */
  function GlyphEntry(ch: string, bmp: Mono): (e: Entry)
    requires bmp.Valid()
  {
    var code := BmpCodeOf(bmp);
    Entry(ch, Some(code.rows), bmp, code.size)
  }

  /** A converted character's record holds the code and image of its last
      occurrence in `chars`, at the sum of the sizes of every character
      processed before that occurrence. */
  lemma ConvertQFontOffsets(chars: string, name: string, render: char -> Mono, j: nat)
    requires forall c :: render(c).Valid()
    requires j < |chars| && forall i :: j < i < |chars| ==> chars[i] != chars[j]
    ensures var es := GlyphEntries(chars, render);
      GetChar(AddAll(NewFont(name), es, 0), [chars[j]]) ==
        Some(CharRecord([chars[j]], Some(BmpCodeOf(render(chars[j])).rows), Sizes(es[..j]), render(chars[j])))
  {
    var es := GlyphEntries(chars, render);
    AddAllOffsets(NewFont(name), es, 0, j);
  }
}
