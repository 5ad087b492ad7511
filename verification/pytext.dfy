/** The fragment of Python's `str` and `int` built-ins that the modelled code
    relies on: `find`, `rfind`, slicing with negative and out-of-range bounds,
    `replace`, `split(sep)`, `split()`, `splitlines()`, `lower()`, `str(n)`,
    `hex(n)`, `'%x'`, `int(s)` and `int(s, 16)`.

    Characters are Dafny `char`s; whitespace, digits and case are the ASCII
    ones (see the README for what that leaves out). */
module PyText {
  import opened Results

  // ---------------------------------------------------------------------------
  // Character classes
  // ---------------------------------------------------------------------------

  /** Whitespace as `str.split()`, `str.strip()` and `int()` understand it. */
  predicate IsSpace(c: char) {
    c == ' ' || c == '\t' || c == '\n' || c == '\r' || c as int == 11 || c as int == 12
  }

  predicate IsDigit(c: char) {
    '0' <= c <= '9'
  }

  predicate IsHexDigit(c: char) {
    IsDigit(c) || 'a' <= c <= 'f' || 'A' <= c <= 'F'
  }

  predicate AllSpaces(s: string) {
    forall i :: 0 <= i < |s| ==> IsSpace(s[i])
  }

  predicate NoSpaces(s: string) {
    forall i :: 0 <= i < |s| ==> !IsSpace(s[i])
  }

  /** The value of a hexadecimal digit (0 for any other character, which
      the parser never asks about). */
  function DigitValue(c: char): (v: nat)
    ensures v < 16
    ensures IsDigit(c) ==> v < 10
  {
    if IsDigit(c) then c as int - '0' as int
    else if 'a' <= c <= 'f' then c as int - 'a' as int + 10
    else if 'A' <= c <= 'F' then c as int - 'A' as int + 10
    else 0
  }

  function DigitChar(v: nat): (c: char)
    requires v < 16
    ensures IsHexDigit(c) && DigitValue(c) == v
    ensures v < 10 <==> IsDigit(c)
    ensures !IsSpace(c) && c != '\'' && c != '(' && c != ')' && c != ',' && c != '@'
  {
    if v < 10 then ('0' as int + v) as char else ('a' as int + v - 10) as char
  }

  /** `n` copies of the character `c` (Python's `c * n`). */
  function Repeat(c: char, n: nat): (r: string)
    ensures |r| == n
    ensures forall i :: 0 <= i < n ==> r[i] == c
  {
    if n == 0 then [] else [c] + Repeat(c, n - 1)
  }

  // ---------------------------------------------------------------------------
  // Searching and slicing
  // ---------------------------------------------------------------------------

  /** `p` occurs in `s` starting at index `i`. */
  predicate OccursAt(s: string, p: string, i: int) {
    0 <= i && i + |p| <= |s| && s[i..i + |p|] == p
  }

  /** Python's `s.find(p)`: the lowest index where `p` occurs, or -1
      (`FindSpec`). */
  function Find(s: string, p: string): (r: int)
    ensures -1 <= r <= |s|
  {
    FindFrom(s, p, 0)
  }

  /** The scan of `find` from index `from` on. */
  function FindFrom(s: string, p: string, from: nat): (r: int)
    requires from <= |s| + 1
    ensures -1 <= r <= |s|
    decreases |s| + 1 - from
  {
    if from + |p| > |s| then -1
    else if s[from..from + |p|] == p then from
    else FindFrom(s, p, from + 1)
  }

  lemma {:induction false} FindFromSpec(s: string, p: string, from: nat)
    requires from <= |s| + 1
    requires forall j :: 0 <= j < from ==> !OccursAt(s, p, j)
    ensures var r := FindFrom(s, p, from);
      && (r == -1 <==> forall j :: !OccursAt(s, p, j))
      && (r >= 0 ==> OccursAt(s, p, r) && forall j :: 0 <= j < r ==> !OccursAt(s, p, j))
    decreases |s| + 1 - from
  {
    if from + |p| > |s| {
      assert forall j :: !OccursAt(s, p, j);
    } else if s[from..from + |p|] == p {
      assert OccursAt(s, p, from);
    } else {
      FindFromSpec(s, p, from + 1);
    }
  }

  /** `find` returns the first occurrence, and -1 exactly when there is none. */
  lemma FindSpec(s: string, p: string)
    ensures Find(s, p) == -1 <==> forall j :: !OccursAt(s, p, j)
    ensures Find(s, p) >= 0 ==> OccursAt(s, p, Find(s, p)) && forall j :: 0 <= j < Find(s, p) ==> !OccursAt(s, p, j)
  {
    FindFromSpec(s, p, 0);
  }

  /** Python's `s.rfind(p)`: the highest index where `p` occurs, or -1
      (`RFindSpec`). */
  function RFind(s: string, p: string): (r: int)
    ensures -1 <= r <= |s|
  {
    if |p| > |s| then -1 else RFindFrom(s, p, |s| - |p|)
  }

  /** The backward scan of `rfind` from index `from` down. */
  function RFindFrom(s: string, p: string, from: int): (r: int)
    requires -1 <= from && from + |p| <= |s|
    ensures -1 <= r <= from
    decreases from + 1
  {
    if from < 0 then -1
    else if s[from..from + |p|] == p then from
    else RFindFrom(s, p, from - 1)
  }

  lemma {:induction false} RFindFromSpec(s: string, p: string, from: int)
    requires -1 <= from && from + |p| <= |s|
    requires forall j :: from < j ==> !OccursAt(s, p, j)
    ensures var r := RFindFrom(s, p, from);
      && (r == -1 <==> forall j :: !OccursAt(s, p, j))
      && (r >= 0 ==> OccursAt(s, p, r) && forall j :: r < j ==> !OccursAt(s, p, j))
    decreases from + 1
  {
    if from < 0 {
    } else if s[from..from + |p|] == p {
      assert OccursAt(s, p, from);
    } else {
      RFindFromSpec(s, p, from - 1);
    }
  }

  /** `rfind` returns the last occurrence, and -1 exactly when there is none. */
  lemma RFindSpec(s: string, p: string)
    ensures RFind(s, p) == -1 <==> forall j :: !OccursAt(s, p, j)
    ensures RFind(s, p) >= 0 ==> OccursAt(s, p, RFind(s, p)) && forall j :: RFind(s, p) < j ==> !OccursAt(s, p, j)
  {
    if |p| <= |s| {
      RFindFromSpec(s, p, |s| - |p|);
    }
  }

  /** A mismatch at offset `k` rules out an occurrence at `j`. */
  lemma NotAt(s: string, p: string, j: int, k: nat)
    requires 0 <= j && k < |p| && j + k < |s| && s[j + k] != p[k]
    ensures !OccursAt(s, p, j)
  {
    if j + |p| <= |s| {
      assert s[j..j + |p|][k] == s[j + k];
    }
  }

  /** An occurrence with none before it is what `find` returns. */
  lemma FindAt(s: string, p: string, i: int)
    requires OccursAt(s, p, i)
    requires forall j :: 0 <= j < i ==> !OccursAt(s, p, j)
    ensures Find(s, p) == i
  {
    FindSpec(s, p);
  }

  /** An occurrence with none after it is what `rfind` returns. */
  lemma RFindAt(s: string, p: string, i: int)
    requires OccursAt(s, p, i)
    requires forall j :: i < j ==> !OccursAt(s, p, j)
    ensures RFind(s, p) == i
  {
    RFindSpec(s, p);
  }

  /** `p` is first found right after `a` when its `k`-th character occurs
      nowhere in `a + p[..k]`, so no earlier start can match. */
  lemma FindAfter(a: string, p: string, b: string, k: nat)
    requires k < |p| && p[k] !in a + p[..k]
    ensures Find(a + p + b, p) == |a|
  {
    var s := a + p + b;
    assert s[|a|..|a| + |p|] == p;
    forall j | 0 <= j < |a| ensures !OccursAt(s, p, j) {
      assert s[j + k] == (a + p[..k])[j + k];
      NotAt(s, p, j, k);
    }
    FindAt(s, p, |a|);
  }

  /** `p` is last found right after `a` when its `k`-th character occurs
      nowhere in `p[k + 1..] + b`, so no later start can match. */
  lemma RFindBefore(a: string, p: string, b: string, k: nat)
    requires k < |p| && p[k] !in p[k + 1..] + b
    ensures RFind(a + p + b, p) == |a|
  {
    var s := a + p + b;
    assert s[|a|..|a| + |p|] == p;
    forall j | |a| < j ensures !OccursAt(s, p, j) {
      if j + k < |s| {
        assert s[j + k] == (p[k + 1..] + b)[j - |a| - 1];
        NotAt(s, p, j, k);
      }
    }
    RFindAt(s, p, |a|);
  }

  /** A string without the pattern's first character has no occurrence. */
  lemma Absent(s: string, p: string)
    requires |p| > 0 && p[0] !in s
    ensures Find(s, p) == -1 && RFind(s, p) == -1
  {
    forall j | 0 <= j < |s| ensures !OccursAt(s, p, j) {
      NotAt(s, p, j, 0);
    }
    FindSpec(s, p);
    RFindSpec(s, p);
  }

  /** Python's `s[i]`: a negative index counts from the end, and an index
      outside `-len(s)..len(s)-1` raises `IndexError`. */
  function At<T>(s: seq<T>, i: int): (r: Result<T>)
    ensures r.Success? <==> -|s| <= i < |s|
    ensures r.Failure? ==> r.error == IndexError
    ensures 0 <= i < |s| ==> r == Success(s[i])
  {
    if 0 <= i < |s| then Success(s[i])
    else if -|s| <= i < 0 then Success(s[|s| + i])
    else Failure(IndexError)
  }

  /** Python's normalisation of a slice bound: negative bounds count from the
      end, and the result is clamped to `0..len`. */
  function SliceBound(i: int, len: nat): (b: nat)
    ensures b <= len
  {
    if i < 0 then (if i + len < 0 then 0 else i + len)
    else if i > len then len
    else i
  }

  /** Python's `s[lo:hi]`. */
  function Slice<T>(s: seq<T>, lo: int, hi: int): (r: seq<T>)
    ensures 0 <= lo <= hi <= |s| ==> r == s[lo..hi]
    ensures |r| <= |s|
  {
    var a := SliceBound(lo, |s|);
    var b := SliceBound(hi, |s|);
    if a < b then s[a..b] else []
  }

  // ---------------------------------------------------------------------------
  // Rewriting
  // ---------------------------------------------------------------------------

  /** Python's `s.replace(pat, rep)` for a non-empty `pat`: every
      non-overlapping occurrence, scanned left to right, is replaced. */
  function Replace(s: string, pat: string, rep: string): (r: string)
    requires |pat| > 0
    ensures (forall j :: !OccursAt(s, pat, j)) ==> r == s
    decreases |s|
  {
    if |s| < |pat| then
      assert forall j :: !OccursAt(s, pat, j);
      s
    else if s[..|pat|] == pat then
      assert OccursAt(s, pat, 0);
      rep + Replace(s[|pat|..], pat, rep)
    else
      var rest := Replace(s[1..], pat, rep);
      assert (forall j :: !OccursAt(s, pat, j)) ==> forall j :: !OccursAt(s[1..], pat, j) by {
        if forall j :: !OccursAt(s, pat, j) {
          forall j | OccursAt(s[1..], pat, j) ensures false {
            assert s[j + 1..j + 1 + |pat|] == s[1..][j..j + |pat|];
            assert OccursAt(s, pat, j + 1);
          }
        }
      }
      [s[0]] + rest
  }

  /** Replacing a whole string by `rep` gives `rep`. */
  lemma ReplaceWhole(pat: string, rep: string)
    requires |pat| > 0
    ensures Replace(pat, pat, rep) == rep
  {
    assert pat[..|pat|] == pat;
    assert Replace(pat[|pat|..], pat, rep) == "";
    assert rep + "" == rep;
  }

  /** `s.replace(c, by)` for a single character: every `c` becomes `by`. */
  function ReplaceChar(s: string, c: char, rep: string): (r: string)
    ensures |rep| == 0 ==> |r| <= |s|
    ensures |rep| == 1 ==> |r| == |s|
  {
    if |s| == 0 then []
    else (if s[0] == c then rep else [s[0]]) + ReplaceChar(s[1..], c, rep)
  }

  /** A string without `c` is left as it is. */
  lemma {:induction false} ReplaceCharAbsent(s: string, c: char, rep: string)
    requires c !in s
    ensures ReplaceChar(s, c, rep) == s
  {
    if |s| > 0 {
      ReplaceCharAbsent(s[1..], c, rep);
      assert [s[0]] + s[1..] == s;
    }
  }

  /** Replacing `c` by nothing removes every `c`. */
  lemma {:induction false} ReplaceCharRemoves(s: string, c: char)
    ensures c !in ReplaceChar(s, c, "")
  {
    if |s| > 0 {
      ReplaceCharRemoves(s[1..], c);
    }
  }

  /** Replacing `c` by one character rewrites each position on its own. */
  lemma {:induction false} ReplaceCharEach(s: string, c: char, rep: string)
    requires |rep| == 1
    ensures forall i :: 0 <= i < |s| ==> ReplaceChar(s, c, rep)[i] == (if s[i] == c then rep[0] else s[i])
  {
    if |s| > 0 {
      ReplaceCharEach(s[1..], c, rep);
      var r := ReplaceChar(s, c, rep);
      forall i | 0 <= i < |s| ensures r[i] == (if s[i] == c then rep[0] else s[i]) {
        if i > 0 {
          assert r[i] == ReplaceChar(s[1..], c, rep)[i - 1];
        }
      }
    }
  }

  /** Python's `s.lower()` on the ASCII letters. */
  function Lower(s: string): (r: string)
    ensures |r| == |s|
    ensures forall i :: 0 <= i < |s| ==> (s[i] == ' ' <==> r[i] == ' ')
    ensures forall i :: 0 <= i < |s| ==> ('A' <= s[i] <= 'Z' ==> r[i] == (s[i] as int + 32) as char)
    ensures forall i :: 0 <= i < |s| ==> (!('A' <= s[i] <= 'Z') ==> r[i] == s[i])
  {
    if |s| == 0 then []
    else [if 'A' <= s[0] <= 'Z' then (s[0] as int + 32) as char else s[0]] + Lower(s[1..])
  }

  /** `replace` works piece by piece. */
  lemma {:induction false} ReplaceCharAppend(a: string, b: string, c: char, rep: string)
    ensures ReplaceChar(a + b, c, rep) == ReplaceChar(a, c, rep) + ReplaceChar(b, c, rep)
  {
    if |a| > 0 {
      assert (a + b)[1..] == a[1..] + b;
      ReplaceCharAppend(a[1..], b, c, rep);
    } else {
      assert a + b == b;
    }
  }

  /** Text that neither `replace(' ', ...)` nor `lower()` touches. */
  predicate Plain(s: string) {
    forall i :: 0 <= i < |s| ==> s[i] != ' ' && !('A' <= s[i] <= 'Z')
  }

  lemma PlainUnchanged(s: string, rep: string)
    requires Plain(s)
    ensures ReplaceChar(s, ' ', rep) == s && Lower(s) == s
  {
  }

  lemma PlainAppend(a: string, b: string)
    requires Plain(a) && Plain(b)
    ensures Plain(a + b)
  {
    assert forall i :: 0 <= i < |a + b| ==> (a + b)[i] == if i < |a| then a[i] else b[i - |a|];
  }

  /** `lower` works piece by piece. */
  lemma {:induction false} LowerAppend(a: string, b: string)
    ensures Lower(a + b) == Lower(a) + Lower(b)
  {
    if |a| > 0 {
      assert (a + b)[1..] == a[1..] + b;
      LowerAppend(a[1..], b);
    } else {
      assert a + b == b;
    }
  }

  // ---------------------------------------------------------------------------
  // Splitting
  // ---------------------------------------------------------------------------

  /** Python's `s.split(sep)` for a one-character separator. */
  function Split(s: string, sep: char): (parts: seq<string>)
    ensures |parts| >= 1
  {
    if |s| == 0 then [""]
    else
      var rest := Split(s[1..], sep);
      if s[0] == sep then [""] + rest
      else [[s[0]] + rest[0]] + rest[1..]
  }

  /** No piece of a split contains the separator. */
  lemma {:induction false} SplitPieces(s: string, sep: char)
    ensures forall i :: 0 <= i < |Split(s, sep)| ==> sep !in Split(s, sep)[i]
  {
    if |s| > 0 {
      SplitPieces(s[1..], sep);
      var rest := Split(s[1..], sep);
      if s[0] != sep {
        assert sep !in rest[0];
        assert forall i :: 1 <= i < |Split(s, sep)| ==> Split(s, sep)[i] == rest[i];
      } else {
        assert forall i :: 1 <= i < |Split(s, sep)| ==> Split(s, sep)[i] == rest[i - 1];
      }
    }
  }

  /** `sep.join(parts)`. */
  function Join(parts: seq<string>, sep: char): string {
    if |parts| == 0 then ""
    else if |parts| == 1 then parts[0]
    else parts[0] + [sep] + Join(parts[1..], sep)
  }

  /** A separator-free string splits into itself. */
  lemma {:induction false} SplitNoSep(s: string, sep: char)
    requires sep !in s
    ensures Split(s, sep) == [s]
  {
    if |s| > 0 {
      SplitNoSep(s[1..], sep);
      assert [s[0]] + s[1..] == s;
    }
  }

  /** A separator ends the first piece: `(a + sep + b).split(sep)` is `a`
      followed by the pieces of `b`. */
  lemma {:induction false} SplitCons(a: string, sep: char, b: string)
    requires sep !in a
    ensures Split(a + [sep] + b, sep) == [a] + Split(b, sep)
  {
    if |a| == 0 {
      assert a + [sep] + b == [sep] + b;
      assert ([sep] + b)[1..] == b;
    } else {
      SplitCons(a[1..], sep, b);
      assert (a + [sep] + b)[1..] == a[1..] + [sep] + b;
      assert [a[0]] + a[1..] == a;
    }
  }

  /** Splitting and joining are inverse: joining the pieces of `s` with the
      separator gives back `s`. */
  lemma {:induction false} JoinSplit(s: string, sep: char)
    ensures Join(Split(s, sep), sep) == s
  {
    if |s| > 0 {
      JoinSplit(s[1..], sep);
      var rest := Split(s[1..], sep);
      if s[0] == sep {
        assert Split(s, sep) == [""] + rest;
        assert ([""] + rest)[1..] == rest;
        assert [s[0]] + s[1..] == s;
      } else {
        var parts := [[s[0]] + rest[0]] + rest[1..];
        if |rest| == 1 {
          assert Join(parts, sep) == [s[0]] + rest[0];
          assert [s[0]] + s[1..] == s;
        } else {
          assert parts[1..] == rest[1..];
          assert Join(rest, sep) == rest[0] + [sep] + Join(rest[1..], sep);
          assert [s[0]] + s[1..] == s;
        }
      }
    }
  }

  /** The line boundaries of `str.splitlines()`. */
  predicate IsLineBreak(c: char) {
    || c == '\n' || c == '\r' || c as int == 0x0B || c as int == 0x0C
    || 0x1C <= c as int <= 0x1E || c as int == 0x85 || c as int == 0x2028 || c as int == 0x2029
  }

  /** Python's `s.splitlines()`: the pieces exclude the boundaries (`\r\n`
      counts as one), and a trailing boundary does not start an extra empty
      line. */
  function SplitLines(s: string): (lines: seq<string>)
    ensures |s| == 0 <==> |lines| == 0
    ensures forall i :: 0 <= i < |lines| ==> forall k :: 0 <= k < |lines[i]| ==> !IsLineBreak(lines[i][k])
  {
    if |s| == 0 then []
    else if s[0] == '\r' && |s| > 1 && s[1] == '\n' then [""] + SplitLines(s[2..])
    else if IsLineBreak(s[0]) then [""] + SplitLines(s[1..])
    else
      var rest := SplitLines(s[1..]);
      if |rest| == 0 then [[s[0]]]
      else if |s| > 1 && IsLineBreak(s[1]) then [[s[0]]] + rest[1..]
      else [[s[0]] + rest[0]] + rest[1..]
  }

  /** Text without line boundaries. */
  predicate OneLine(s: string) {
    forall k :: 0 <= k < |s| ==> !IsLineBreak(s[k])
  }

  lemma OneLineAppend(a: string, b: string)
    requires OneLine(a) && OneLine(b)
    ensures OneLine(a + b)
  {
    forall k | 0 <= k < |a + b| ensures !IsLineBreak((a + b)[k]) {
      if k >= |a| {
        assert (a + b)[k] == b[k - |a|];
      }
    }
  }

  /** Text without line boundaries is a single line. */
  lemma {:induction false} SplitLinesNone(s: string)
    requires |s| > 0 && OneLine(s)
    ensures SplitLines(s) == [s]
  {
    assert !IsLineBreak(s[0]);
    if |s| > 1 {
      assert OneLine(s[1..]) by {
        forall k | 0 <= k < |s[1..]| ensures !IsLineBreak(s[1..][k]) {
          assert s[1..][k] == s[k + 1];
        }
      }
      SplitLinesNone(s[1..]);
      assert !IsLineBreak(s[1]);
      assert [s[0]] + s[1..] == s;
    } else {
      assert [s[0]] == s;
    }
  }

  /** Words as `s.split()` yields them: maximal runs of non-whitespace. */
  function Words(s: string): (ws: seq<string>)
    ensures forall i :: 0 <= i < |ws| ==> |ws[i]| > 0 && NoSpaces(ws[i])
    decreases |s|
  {
    if |s| == 0 then []
    else if IsSpace(s[0]) then Words(s[1..])
    else
      var k := WordEnd(s, 0);
      [s[..k]] + Words(s[k..])
  }

  /** The end of the run of non-whitespace that starts at `i`. */
  function WordEnd(s: string, i: nat): (k: nat)
    requires i <= |s|
    ensures i <= k <= |s|
    ensures forall j :: i <= j < k ==> !IsSpace(s[j])
    ensures k < |s| ==> IsSpace(s[k])
    decreases |s| - i
  {
    if i == |s| || IsSpace(s[i]) then i else WordEnd(s, i + 1)
  }

  lemma {:induction false} WordEndPrefix(a: string, b: string, i: nat)
    requires i <= |a|
    requires |a| == 0 || |b| == 0 || IsSpace(a[|a| - 1]) || IsSpace(b[0])
    requires i < |a| || |b| == 0 || IsSpace(b[0])
    ensures WordEnd(a + b, i) == WordEnd(a, i)
    decreases |a| - i
  {
    if i < |a| && !IsSpace(a[i]) {
      assert (a + b)[i] == a[i];
      WordEndPrefix(a, b, i + 1);
    } else if i == |a| && |b| > 0 {
      assert (a + b)[i] == b[0];
    }
  }

  /** Whitespace between two strings keeps their words apart: the words of
      the concatenation are the words of each part. */
  lemma {:induction false} WordsAppend(a: string, b: string)
    requires |a| == 0 || |b| == 0 || IsSpace(a[|a| - 1]) || IsSpace(b[0])
    ensures Words(a + b) == Words(a) + Words(b)
    decreases |a|
  {
    if |a| == 0 {
      assert a + b == b;
    } else if IsSpace(a[0]) {
      assert (a + b)[1..] == a[1..] + b;
      WordsAppend(a[1..], b);
    } else {
      var k := WordEnd(a, 0);
      WordEndPrefix(a, b, 0);
      assert k >= 1;
      assert (a + b)[..k] == a[..k];
      assert (a + b)[k..] == a[k..] + b;
      WordsAppend(a[k..], b);
    }
  }

  /** A run of whitespace has no words. */
  lemma {:induction false} WordsOfSpaces(s: string)
    requires AllSpaces(s)
    ensures Words(s) == []
  {
    if |s| > 0 {
      WordsOfSpaces(s[1..]);
    }
  }

  /** A non-empty string without whitespace is one word. */
  lemma WordsOfWord(w: string)
    requires |w| > 0 && NoSpaces(w)
    ensures Words(w) == [w]
  {
    var k := WordEnd(w, 0);
    assert !IsSpace(w[0]);
    assert k == |w|;
    assert w[..k] == w;
    assert w[k..] == [];
  }

  // ---------------------------------------------------------------------------
  // Integers as text
  // ---------------------------------------------------------------------------

  /** Python's `str(n)` for a non-negative integer. */
  function Decimal(n: nat): (s: string)
    ensures |s| >= 1
    decreases n
  {
    if n < 10 then [DigitChar(n)] else Decimal(n / 10) + [DigitChar(n % 10)]
  }

  /** `str(n)` is made of decimal digits. */
  lemma {:induction false} DecimalDigits(n: nat)
    ensures forall i :: 0 <= i < |Decimal(n)| ==> IsDigit(Decimal(n)[i])
    decreases n
  {
    if n >= 10 {
      DecimalDigits(n / 10);
    }
  }

  /** Python's `str(i)` for any integer. */
  function IntText(i: int): (s: string)
    ensures |s| >= 1
  {
    if i < 0 then "-" + Decimal(-i) else Decimal(i)
  }

  /** `str(i)` is made of digits and a leading minus sign. */
  lemma IntTextChars(i: int)
    ensures forall k :: 0 <= k < |IntText(i)| ==> IntText(i)[k] == '-' || IsDigit(IntText(i)[k])
  {
    if i < 0 {
      DecimalDigits(-i);
      assert forall k :: 1 <= k < |IntText(i)| ==> IntText(i)[k] == Decimal(-i)[k - 1];
    } else {
      DecimalDigits(i);
    }
  }

  /** Python's `'%x' % n`: lower-case hexadecimal digits without prefix. */
  function HexDigits(n: nat): (s: string)
    ensures |s| >= 1
    decreases n
  {
    if n < 16 then [DigitChar(n)] else HexDigits(n / 16) + [DigitChar(n % 16)]
  }

  /** `'%x' % n` is made of hexadecimal digits, none of them a space, comma,
      tab or `x`. */
  lemma {:induction false} HexDigitsChars(n: nat)
    ensures forall i :: 0 <= i < |HexDigits(n)| ==> IsHexDigit(HexDigits(n)[i]) && !IsSpace(HexDigits(n)[i])
    ensures forall i :: 0 <= i < |HexDigits(n)| ==>
      HexDigits(n)[i] != ',' && HexDigits(n)[i] != '\t' && HexDigits(n)[i] != 'x'
    decreases n
  {
    if n >= 16 {
      HexDigitsChars(n / 16);
    }
  }

  /** Python's `hex(n)`, which is also `'0x%x' % n`. */
  function Hex(n: nat): (s: string)
    ensures |s| >= 3 && s[..2] == "0x"
  {
    "0x" + HexDigits(n)
  }

  /** `hex(n)` holds none of the separators the generated code uses. */
  lemma HexChars(n: nat)
    ensures ',' !in Hex(n) && '\t' !in Hex(n) && '\n' !in Hex(n) && '\'' !in Hex(n)
  {
    HexDigitsChars(n);
    var s := Hex(n);
    forall i | 2 <= i < |s| ensures s[i] == HexDigits(n)[i - 2] {}
  }

  /** The value of a string of digits in the given base. */
  function DigitsValue(s: string, base: nat): nat
    requires base == 10 || base == 16
  {
    if |s| == 0 then 0
    else
      var high := DigitsValue(s[..|s| - 1], base);
      (if base == 10 then high * 10 else high * 16) + DigitValue(s[|s| - 1])
  }

  /** Python's `s.strip()`. */
  function Strip(s: string): (r: string)
    ensures |r| <= |s|
    decreases |s|
  {
    if |s| > 0 && IsSpace(s[0]) then Strip(s[1..])
    else if |s| > 0 && IsSpace(s[|s| - 1]) then Strip(s[..|s| - 1])
    else s
  }

  /** Text without whitespace is left as it is. */
  lemma StripNoSpaces(s: string)
    requires NoSpaces(s)
    ensures Strip(s) == s
  {
  }

  /** `t` is a non-empty string of digits of the given base. */
  predicate AllDigits(t: string, base: nat) {
    |t| > 0 && forall i :: 0 <= i < |t| ==>
      (if base == 10 then IsDigit(t[i]) else IsHexDigit(t[i]))
  }

  /** Python's `int(s, base)` for base 10 and 16: surrounding whitespace,
      an optional sign, for base 16 an optional `0x`/`0X` prefix, and at least
      one digit of the base; anything else raises `ValueError` (None). */
  function ParseIntBase(s: string, base: nat): Option<int>
    requires base == 10 || base == 16
  {
    var t := Strip(s);
    var signed := |t| > 0 && (t[0] == '-' || t[0] == '+');
    var u := if signed then t[1..] else t;
    var d := if base == 16 && |u| >= 2 && u[0] == '0' && (u[1] == 'x' || u[1] == 'X') then u[2..] else u;
    if AllDigits(d, base) then
      var v: int := DigitsValue(d, base);
      Some(if signed && t[0] == '-' then -v else v)
    else None
  }

  /** Python's `int(s)`. */
  function ParseInt(s: string): Option<int> {
    ParseIntBase(s, 10)
  }

  /** Python's `int(s, 16)`. */
  function ParseHex(s: string): Option<int> {
    ParseIntBase(s, 16)
  }

  lemma {:induction false} DecimalValue(n: nat)
    ensures DigitsValue(Decimal(n), 10) == n
    decreases n
  {
    if n >= 10 {
      DecimalValue(n / 10);
      var s := Decimal(n);
      assert s[..|s| - 1] == Decimal(n / 10);
    }
  }

  lemma {:induction false} HexDigitsValue(n: nat)
    ensures DigitsValue(HexDigits(n), 16) == n
    decreases n
  {
    if n >= 16 {
      HexDigitsValue(n / 16);
      var s := HexDigits(n);
      assert s[..|s| - 1] == HexDigits(n / 16);
    }
  }

  /** `int(str(n)) == n`. */
  lemma ParseDecimal(n: nat)
    ensures ParseInt(Decimal(n)) == Some(n)
  {
    var s := Decimal(n);
    DecimalDigits(n);
    StripNoSpaces(s);
    assert s[0] != '-' && s[0] != '+';
    DecimalValue(n);
  }

  /** `int(str(i)) == i` for every integer, negative ones included. */
  lemma ParseIntText(i: int)
    ensures ParseInt(IntText(i)) == Some(i)
  {
    if i >= 0 {
      ParseDecimal(i);
    } else {
      var d := Decimal(-i);
      var s := IntText(i);
      DecimalDigits(-i);
      assert forall k :: 1 <= k < |s| ==> s[k] == d[k - 1];
      assert NoSpaces(s);
      StripNoSpaces(s);
      assert s[1..] == d;
      assert d[0] != '-' && d[0] != '+';
      DecimalValue(-i);
    }
  }

  /** A character `int(s, base)` can accept somewhere: whitespace, a sign,
      a digit of the base, and for base 16 the `x`/`X` of the prefix. */
  predicate IntChar(c: char, base: nat) {
    || IsSpace(c) || c == '-' || c == '+'
    || (if base == 10 then IsDigit(c) else IsHexDigit(c) || c == 'x' || c == 'X')
  }

  /** A character that is not whitespace survives `strip()`. */
  lemma {:induction false} StripKeeps(s: string, k: nat)
    requires k < |s| && !IsSpace(s[k])
    ensures exists j :: 0 <= j < |Strip(s)| && Strip(s)[j] == s[k]
    decreases |s|
  {
    if |s| > 0 && IsSpace(s[0]) {
      assert s[1..][k - 1] == s[k];
      StripKeeps(s[1..], k - 1);
      assert Strip(s) == Strip(s[1..]);
    } else if |s| > 0 && IsSpace(s[|s| - 1]) {
      assert s[..|s| - 1][k] == s[k];
      StripKeeps(s[..|s| - 1], k);
      assert Strip(s) == Strip(s[..|s| - 1]);
    } else {
      assert Strip(s) == s;
      assert Strip(s)[k] == s[k];
    }
  }

  /** `int(s, base)` raises `ValueError` whenever `s` holds a character it
      can accept nowhere. */
  lemma ParseIntBaseRejects(s: string, base: nat, k: nat)
    requires base == 10 || base == 16
    requires k < |s| && !IntChar(s[k], base)
    ensures ParseIntBase(s, base) == None
  {
    StripKeeps(s, k);
    var t := Strip(s);
    var j :| 0 <= j < |t| && t[j] == s[k];
    var signed := |t| > 0 && (t[0] == '-' || t[0] == '+');
    var u := if signed then t[1..] else t;
    var d := if base == 16 && |u| >= 2 && u[0] == '0' && (u[1] == 'x' || u[1] == 'X') then u[2..] else u;
    var ju := if signed then j - 1 else j;
    assert u[ju] == s[k];
    var jd := if d == u then ju else ju - 2;
    assert d[jd] == s[k];
  }

  /** `int(hex(n), 16) == n`. */
  lemma ParseHexOfHex(n: nat)
    ensures ParseHex(Hex(n)) == Some(n)
  {
    var s := Hex(n);
    var d := HexDigits(n);
    HexDigitsChars(n);
    assert s[2..] == d;
    assert forall i :: 0 <= i < |s| ==> !IsSpace(s[i]) by {
      forall i | 0 <= i < |s| ensures !IsSpace(s[i]) {
        if i >= 2 { assert s[i] == d[i - 2]; }
      }
    }
    StripNoSpaces(s);
    assert d[0] != '-' && d[0] != '+';
    HexDigitsValue(n);
  }
}
