/** The word-level run-length codec (`rlem_encode` / `rlem_decode`).

    The encoder is a two-state scanner over the input words. It emits
    match tokens `[count, value]` and literal tokens `[0x8000|count, words...]`,
    then always flushes the words from `start_index` to the end as one final
    literal token. The decoder expands those tokens again.

    The scanner is modelled as the `for` loop it is: `Step` is one iteration
    of the loop body and `StateAt(data, i)` is the scanner state when the loop
    reaches index `i`. Emitted tokens are kept as `Token` values, and `Encode`
    serialises them to the words the source appends. */
module Rle {
  import opened Results
  import PyText

  /** A word of the stream (a Python `int`, non-negative in every use). */
  type Word = nat

  /** The literal-token flag, bit 15. */
  const Flag: nat := 0x8000

  /** `w & 0x8000 != 0`. */
  predicate HasFlag(w: Word) {
    (w / Flag) % 2 == 1
  }

  /** `0x8000 | c`: sets bit 15, which leaves `c` unchanged if it is already set. */
  function WithFlag(c: nat): (h: Word)
    ensures HasFlag(h)
    ensures c < Flag ==> h == c + Flag
  {
    if HasFlag(c) then c else c + Flag
  }

  /** `w & ~0x8000` for a word whose bit 15 is set. */
  function ClearFlag(w: Word): (c: nat)
    requires HasFlag(w)
    ensures c + Flag == w
  {
    w - Flag
  }

  /** `n` copies of `v`. */
  function Copies(v: Word, n: nat): (r: seq<Word>)
    ensures |r| == n
    ensures forall k :: 0 <= k < n ==> r[k] == v
  {
    seq(n, _ => v)
  }

  // ---------------------------------------------------------------------------
  // Tokens
  // ---------------------------------------------------------------------------

  /** A token the encoder emits: `Run(count, value)` is written as
      `[count, value]`, `Literal(count, words)` as `[0x8000|count] + words`. */
  datatype Token = Run(count: nat, value: Word) | Literal(count: nat, words: seq<Word>)

  /** The words a token is written as. */
  function TokenWords(t: Token): seq<Word> {
    match t
    case Run(c, v) => [c, v]
    case Literal(c, ws) => [WithFlag(c)] + ws
  }

  /** The words of a token stream, in order. */
  function Serialize(ts: seq<Token>): seq<Word> {
    if |ts| == 0 then [] else TokenWords(ts[0]) + Serialize(ts[1..])
  }

  /** What a token stands for: `count` copies of the value, or the literal words. */
  function Meaning(t: Token): seq<Word> {
    match t
    case Run(c, v) => Copies(v, c)
    case Literal(_, ws) => ws
  }

  /** What a token stream stands for. */
  function Expand(ts: seq<Token>): seq<Word> {
    if |ts| == 0 then [] else Meaning(ts[0]) + Expand(ts[1..])
  }

  /** A token whose count agrees with its content and that the decoder can
      tell apart from the other kind: a count between 1 and 0x7FFF. */
  predicate Decodable(t: Token) {
    && 1 <= t.count < Flag
    && (t.Literal? ==> |t.words| == t.count)
  }

  /** Every token but the last is decodable. */
  predicate DecodableFront(ts: seq<Token>) {
    |ts| <= 1 || (Decodable(ts[0]) && DecodableFront(ts[1..]))
  }

  lemma {:induction false} DecodableFrontOf(ts: seq<Token>, t: Token)
    requires forall j :: 0 <= j < |ts| ==> Decodable(ts[j])
    ensures DecodableFront(ts + [t])
    decreases |ts|
  {
    if |ts| > 0 {
      assert (ts + [t])[1..] == ts[1..] + [t];
      DecodableFrontOf(ts[1..], t);
    }
  }

  lemma {:induction false} ExpandAppend(ts: seq<Token>, t: Token)
    ensures Expand(ts + [t]) == Expand(ts) + Meaning(t)
  {
    if |ts| == 0 {
      assert ts + [t] == [t];
    } else {
      assert (ts + [t])[1..] == ts[1..] + [t];
      ExpandAppend(ts[1..], t);
    }
  }

  // ---------------------------------------------------------------------------
  // Encoder
  // ---------------------------------------------------------------------------

  datatype Mode = Match | Mismatch

  /** The encoder's local variables between two loop iterations: `state`,
      `count`, `start_index` and `out_list` (as tokens). */
  datatype Scanner = Scanner(mode: Mode, count: nat, start: nat, out: seq<Token>)

  /** The state before the loop: `count = 1`, `start_index = 0`, and the mode
      chosen by comparing the first two words. */
  function Init(data: seq<Word>): Scanner
    requires |data| >= 2
  {
    Scanner(if data[0] != data[1] then Mismatch else Match, 1, 0, [])
  }

  /** One iteration of the scan loop at index `i`. */
  function Step(data: seq<Word>, s: Scanner, i: nat): Scanner
    requires i + 2 < |data|
  {
    var last := !(i < |data| - 4);
    match s.mode
    case Match =>
      if data[i] == data[i + 1] && !last then s.(count := s.count + 1)
      else
        Scanner(if data[i + 1] != data[i + 2] then Mismatch else Match, 1, i + 1,
                s.out + [Run(s.count, data[i])])
    case Mismatch =>
      var pending := PyText.Slice(data, s.start, i + 1);
      if data[i] != data[i + 1] && !last then
        if data[i + 1] == data[i + 2] then
          Scanner(Match, 1, s.start, s.out + [Literal(s.count, pending)])
        else s.(count := s.count + 1)
      else
        Scanner(if data[i + 1] == data[i + 2] then Match else Mismatch, 1, i + 1,
                if s.count > 1 then s.out + [Literal(s.count, pending)] else s.out)
  }

  /** The number of iterations of `for index in range(len(data) - 3)`. */
  function Iterations(n: nat): nat {
    if n >= 3 then n - 3 else 0
  }

  /** The scanner state when the loop reaches index `i` (after `i` iterations). */
  function StateAt(data: seq<Word>, i: nat): Scanner
    requires |data| >= 2 && i <= Iterations(|data|)
  {
    if i == 0 then Init(data) else Step(data, StateAt(data, i - 1), i - 1)
  }

  /** The tokens `rlem_encode` emits: those of the scan, then the tail from
      `start_index` as a literal. Reading `data[0]` and `data[1]` raises for
      shorter inputs. */
  function EncodeTokens(data: seq<Word>): (r: Result<seq<Token>>)
    ensures r.Failure? <==> |data| < 2
    ensures r.Failure? ==> r.error == IndexError
  {
    if |data| < 2 then Failure(IndexError)
    else
      var s := StateAt(data, Iterations(|data|));
      var tail := PyText.Slice(data, s.start, |data|);
      Success(s.out + [Literal(|tail|, tail)])
  }

  /** `rlem_encode(data)`. */
  function Encode(data: seq<Word>): (r: Result<seq<Word>>)
    ensures r.Failure? <==> |data| < 2
  {
    var ts :- EncodeTokens(data);
    Success(Serialize(ts))
  }

  // ---------------------------------------------------------------------------
  // Decoder
  // ---------------------------------------------------------------------------

  /** The decode loop from `index` on: `while index < len(data) - 3`. A
      header with bit 15 set copies the next `header & ~0x8000` words and
      raises `IndexError` if they run past the end; any other header repeats
      the following word `header` times. */
  function DecodeFrom(data: seq<Word>, index: nat): Result<seq<Word>>
    decreases |data| - index
  {
    if !(index + 3 < |data|) then Success([])
    else
      var word := data[index];
      if HasFlag(word) then
        var cnt := ClearFlag(word);
        if index + cnt >= |data| then Failure(IndexError)
        else
          var rest :- DecodeFrom(data, index + cnt + 1);
          Success(data[index + 1..index + cnt + 1] + rest)
      else
        var rest :- DecodeFrom(data, index + 2);
        Success(Copies(data[index + 1], word) + rest)
  }

  /** `rlem_decode(data)`: the decode loop, then the `out_list[1]` type test,
      which raises `IndexError` when fewer than two words came out (the test
      itself never matches a list of integers). */
  function Decode(data: seq<Word>): (r: Result<seq<Word>>)
    ensures r.Success? ==> |r.value| >= 2
  {
    var out :- DecodeFrom(data, 0);
    if |out| < 2 then Failure(IndexError) else Success(out)
  }

  // ---------------------------------------------------------------------------
  // Decoding a token stream
  // ---------------------------------------------------------------------------

  /** Decoding the words of decodable tokens that end in a three-word literal
      (the encoder's final flush) yields what the tokens stand for. The final
      four-word token starts exactly at `len - 4`, the last position the loop
      guard `index < len - 3` still reads. */
  /** `data` from `k` on holds the words of `ts`, whose last token is the
      final flush of `tail` and whose other tokens are decodable. */
  predicate TokensAt(data: seq<Word>, k: nat, ts: seq<Token>, tail: seq<Word>) {
    && k <= |data| && |tail| == 3
    && |ts| > 0 && ts[|ts| - 1] == Literal(3, tail)
    && data[k..] == Serialize(ts)
    && DecodableFront(ts)
  }

  /** Decoding from `k` gives what `ts` stands for. */
  predicate DecodesTo(data: seq<Word>, k: nat, ts: seq<Token>) {
    DecodeFrom(data, k) == Success(Expand(ts))
  }

  lemma {:induction false} DecodeTokens(data: seq<Word>, k: nat, ts: seq<Token>, tail: seq<Word>)
    requires TokensAt(data, k, ts, tail)
    ensures DecodesTo(data, k, ts)
    decreases |ts|, 1
  {
    if |ts| == 1 {
      DecodeLast(data, k, ts, tail);
    } else {
      DecodeTokensStep(data, k, ts, tail);
    }
  }

  /** The induction step: the first token, then the rest by induction. */
  lemma {:induction false} DecodeTokensStep(data: seq<Word>, k: nat, ts: seq<Token>, tail: seq<Word>)
    requires TokensAt(data, k, ts, tail) && |ts| > 1
    ensures DecodesTo(data, k, ts)
    decreases |ts|, 0
  {
    DecodeTokensRest(data, k, ts, tail);
    DecodeTokens(data, k + |TokenWords(ts[0])|, ts[1..], tail);
    DecodeTokensCons(data, k, ts);
  }

  /** The tokens after the first meet `DecodeTokens`'s requirements at the
      word after the first token. */
  lemma DecodeTokensRest(data: seq<Word>, k: nat, ts: seq<Token>, tail: seq<Word>)
    requires TokensAt(data, k, ts, tail) && |ts| > 1
    ensures Decodable(ts[0])
    ensures k + |TokenWords(ts[0])| + 4 <= |data|
    ensures data[k..k + |TokenWords(ts[0])|] == TokenWords(ts[0])
    ensures TokensAt(data, k + |TokenWords(ts[0])|, ts[1..], tail)
  {
    SplitFirst(data, k, ts);
  }

  /** A decodable first token in front of tokens that decode. */
  lemma DecodeTokensCons(data: seq<Word>, k: nat, ts: seq<Token>)
    requires |ts| > 1 && Decodable(ts[0])
    requires k + |TokenWords(ts[0])| + 4 <= |data|
    requires data[k..k + |TokenWords(ts[0])|] == TokenWords(ts[0])
    requires DecodesTo(data, k + |TokenWords(ts[0])|, ts[1..])
    ensures DecodesTo(data, k, ts)
  {
    DecodeHead(data, k, ts[0], Expand(ts[1..]));
  }

  /** Words that serialise two or more tokens start with the first token's
      words, and the rest serialise the remaining tokens, at least as many
      words as the last token has. */
  lemma SplitFirst(data: seq<Word>, k: nat, ts: seq<Token>)
    requires k <= |data| && |ts| > 1
    requires data[k..] == Serialize(ts)
    ensures SplitAt(data, k, TokenWords(ts[0]), Serialize(ts[1..]))
    ensures |Serialize(ts[1..])| >= |TokenWords(ts[|ts| - 1])|
  {
    assert Serialize(ts) == TokenWords(ts[0]) + Serialize(ts[1..]);
    SliceConcat(data, k, TokenWords(ts[0]), Serialize(ts[1..]));
    SerializeLast(ts[1..]);
    assert ts[1..][|ts| - 2] == ts[|ts| - 1];
  }

  /** A token stream serialises to at least as many words as its last token. */
  lemma {:induction false} SerializeLast(ts: seq<Token>)
    requires |ts| > 0
    ensures |Serialize(ts)| >= |TokenWords(ts[|ts| - 1])|
    decreases |ts|
  {
    if |ts| > 1 {
      SerializeLast(ts[1..]);
      assert ts[1..][|ts| - 2] == ts[|ts| - 1];
    }
  }

  /** The words of `x` from `k` on are `a` followed by `b`, split at `|a|`. */
  predicate SplitAt(x: seq<Word>, k: nat, a: seq<Word>, b: seq<Word>) {
    && k + |a| + |b| == |x|
    && x[k..k + |a|] == a && x[k + |a|..] == b
  }

  /** A suffix that is the concatenation of `a` and `b` splits at `|a|`. */
  lemma SliceConcat(x: seq<Word>, k: nat, a: seq<Word>, b: seq<Word>)
    requires k <= |x| && x[k..] == a + b
    ensures SplitAt(x, k, a, b)
  {
    assert x[k..k + |a|] == x[k..][..|a|];
    assert x[k + |a|..] == x[k..][|a|..];
  }

  /** The final flush token `[0x8003, a, b, c]` decodes to its three words. */
  lemma DecodeLast(data: seq<Word>, k: nat, ts: seq<Token>, tail: seq<Word>)
    requires k <= |data| && |tail| == 3
    requires ts == [Literal(3, tail)]
    requires data[k..] == Serialize(ts)
    ensures DecodesTo(data, k, ts)
  {
    assert Serialize(ts) == [WithFlag(3)] + tail;
    assert |data| == k + 4;
    assert data[k] == Flag + 3;
    assert HasFlag(data[k]) && ClearFlag(data[k]) == 3;
    assert data[k + 1..k + 4] == tail;
    assert DecodeFrom(data, k + 4) == Success([]);
    assert Expand(ts) == tail;
  }

  /** One decodable token followed by at least four more words decodes to
      its meaning, then whatever the rest decodes to. */
  lemma DecodeHead(data: seq<Word>, k: nat, t: Token, rest: seq<Word>)
    requires Decodable(t)
    requires k + |TokenWords(t)| + 4 <= |data|
    requires data[k..k + |TokenWords(t)|] == TokenWords(t)
    requires DecodeFrom(data, k + |TokenWords(t)|) == Success(rest)
    ensures DecodeFrom(data, k) == Success(Meaning(t) + rest)
  {
    match t
    case Run(c, v) =>
      assert data[k] == c && data[k + 1] == v;
      assert !HasFlag(c);
    case Literal(c, ws) =>
      assert data[k] == c + Flag;
      assert HasFlag(data[k]) && ClearFlag(data[k]) == c;
      assert data[k + 1..k + c + 1] == ws by {
        assert data[k + 1..k + c + 1] == data[k..k + c + 1][1..];
      }
  }

  // ---------------------------------------------------------------------------
  // The scan invariant
  // ---------------------------------------------------------------------------

  /** The word at `i` is a one-word literal the scan holds when it reaches
      index `i`: either the first two words differ (`i == 0`), or a match
      run ends at `i - 1` and the word at `i` differs from both neighbours. */
  predicate LoneAt(data: seq<Word>, i: nat)
    requires i + 1 < |data|
  {
    || (i == 0 && data[0] != data[1])
    || (i >= 2 && data[i - 2] == data[i - 1] && data[i - 1] != data[i] && data[i] != data[i + 1])
  }

  /** The encoder silently drops the word at `len - 4`: the scan still holds
      it as a one-word literal at the final iteration, where the
      `count > 1` guard discards it. */
  predicate Drops(data: seq<Word>) {
    |data| >= 4 && LoneAt(data, |data| - 4)
  }

  /** What decoding the encoder's output gives back, when no count overflows. */
  function Expected(data: seq<Word>): seq<Word>
    requires |data| >= 3
  {
    if Drops(data) then data[..|data| - 4] + data[|data| - 3..] else data
  }

  /** What holds of the scanner when the loop reaches index `i`. The pending
      run starts at `i - count + 1`; everything before it has been emitted. */
  predicate Inv(data: seq<Word>, i: nat, s: Scanner)
    requires i + 1 < |data|
  {
    && 1 <= s.count <= i + 1
    && Emitted(data, i - s.count + 1, s.out, i)
    && (s.mode == Match ==> PendingRun(data, i - s.count + 1, i, s.count))
    && (s.mode == Mismatch ==> s.start == i - s.count + 1 && PendingLiteral(data, s.start, i))
    && (s.mode == Mismatch && s.count == 1 <==> LoneAt(data, i))
  }

  /** The tokens emitted so far stand for the words before `p`, and each
      has a count between 1 and `bound` that agrees with its content. */
  predicate Emitted(data: seq<Word>, p: nat, out: seq<Token>, bound: nat)
    requires p <= |data|
  {
    && Expand(out) == data[..p]
    && forall j :: 0 <= j < |out| ==> Sized(out[j], bound)
  }

  /** A token of the scan so far: its count lies between 1 and `bound`, and
      a literal's count equals its length. */
  predicate Sized(t: Token, bound: nat) {
    && 1 <= t.count <= bound
    && (t.Literal? ==> |t.words| == t.count)
  }

  /** In match mode the words from `p` to `i` are equal, and a fresh run of
      one word is equal to the next word. */
  predicate PendingRun(data: seq<Word>, p: nat, i: nat, count: nat)
    requires p <= i + 1 < |data|
  {
    && (forall k :: p <= k <= i ==> data[k] == data[i])
    && (count == 1 ==> data[i] == data[i + 1])
  }

  /** In mismatch mode every word from `p` to `i` differs from its successor. */
  predicate PendingLiteral(data: seq<Word>, p: nat, i: nat)
    requires i + 1 < |data|
  {
    forall k :: p <= k <= i ==> data[k] != data[k + 1]
  }

  lemma InvInit(data: seq<Word>)
    requires |data| >= 4
    ensures Inv(data, 0, Init(data))
  {
    assert data[..0] == [];
  }

  /** A run of equal words means `count` copies of its last word. */
  lemma RunMeaning(data: seq<Word>, p: nat, i: nat)
    requires p <= i < |data|
    requires forall k :: p <= k <= i ==> data[k] == data[i]
    ensures data[p..i + 1] == Copies(data[i], i + 1 - p)
  {
  }

  /** Emitting the pending words from `p` to `i` as token `t` moves the
      emitted prefix to `i + 1`. */
  lemma EmitPending(data: seq<Word>, p: nat, i: nat, out: seq<Token>, t: Token)
    requires p <= i && i + 1 < |data|
    requires Emitted(data, p, out, i)
    requires Meaning(t) == data[p..i + 1] && Sized(t, i + 1)
    ensures Emitted(data, i + 1, out + [t], i + 1)
  {
    ExpandAppend(out, t);
    assert data[..i + 1] == data[..p] + data[p..i + 1];
    forall j | 0 <= j < |out + [t]|
      ensures Sized((out + [t])[j], i + 1)
    {
      if j < |out| {
        assert (out + [t])[j] == out[j];
      }
    }
  }

  lemma EmittedWeaken(data: seq<Word>, p: nat, out: seq<Token>, b: nat, b': nat)
    requires p <= |data| && b <= b'
    requires Emitted(data, p, out, b)
    ensures Emitted(data, p, out, b')
  {
  }

  /** Match mode, next word equal, not the last iteration: the run grows. */
  lemma StepMatchGrow(data: seq<Word>, i: nat, s: Scanner)
    requires i + 5 <= |data| && Inv(data, i, s) && s.mode == Match
    requires data[i] == data[i + 1]
    ensures Inv(data, i + 1, s.(count := s.count + 1))
  {
    EmittedWeaken(data, i - s.count + 1, s.out, i, i + 1);
  }

  /** Match mode, run ends (or the last iteration): the run is emitted. */
  lemma StepMatchEnd(data: seq<Word>, i: nat, s: Scanner)
    requires i + 4 <= |data| && Inv(data, i, s) && s.mode == Match
    requires data[i] != data[i + 1] || i + 4 == |data|
    ensures var s' := Scanner(if data[i + 1] != data[i + 2] then Mismatch else Match, 1, i + 1,
                              s.out + [Run(s.count, data[i])]);
      && Emitted(data, i + 1, s'.out, i + 1)
      && (i + 5 <= |data| ==> Inv(data, i + 1, s'))
  {
    var p := i - s.count + 1;
    RunMeaning(data, p, i);
    EmitPending(data, p, i, s.out, Run(s.count, data[i]));
    if i + 5 <= |data| {
      MatchEndLone(data, i, s);
    }
  }

  /** A run that ends before the last iteration holds at least two words,
      so the word after it is lone exactly when it differs from its
      successor. */
  lemma MatchEndLone(data: seq<Word>, i: nat, s: Scanner)
    requires i + 5 <= |data| && Inv(data, i, s) && s.mode == Match
    requires data[i] != data[i + 1]
    ensures LoneAt(data, i + 1) <==> data[i + 1] != data[i + 2]
  {
    assert s.count >= 2;
    assert data[i - 1] == data[i];
  }

  /** Mismatch mode, the next two words differ: the literal grows. */
  lemma StepMismatchGrow(data: seq<Word>, i: nat, s: Scanner)
    requires i + 5 <= |data| && Inv(data, i, s) && s.mode == Mismatch
    requires data[i + 1] != data[i + 2]
    ensures Inv(data, i + 1, s.(count := s.count + 1))
  {
    assert s.count >= 2 ==> data[i - 1] != data[i];
    EmittedWeaken(data, i - s.count + 1, s.out, i, i + 1);
  }

  /** Mismatch mode, a match starts next: the literal is emitted (whatever its
      count) and `start_index` is left where it was. */
  lemma StepMismatchToMatch(data: seq<Word>, i: nat, s: Scanner)
    requires i + 5 <= |data| && Inv(data, i, s) && s.mode == Mismatch
    requires data[i + 1] == data[i + 2]
    ensures Inv(data, i + 1, Scanner(Match, 1, s.start, s.out + [Literal(s.count, data[s.start..i + 1])]))
  {
    EmitPending(data, s.start, i, s.out, Literal(s.count, data[s.start..i + 1]));
  }

  /** Mismatch mode at the last iteration: the literal is emitted only if it
      holds more than one word. */
  lemma StepMismatchLast(data: seq<Word>, i: nat, s: Scanner)
    requires i + 4 == |data| && Inv(data, i, s) && s.mode == Mismatch
    ensures s.count > 1 ==>
      Emitted(data, i + 1, s.out + [Literal(s.count, data[s.start..i + 1])], i + 1) && !LoneAt(data, i)
    ensures s.count == 1 ==> Emitted(data, i, s.out, i + 1) && LoneAt(data, i)
  {
    if s.count > 1 {
      EmitPending(data, s.start, i, s.out, Literal(s.count, data[s.start..i + 1]));
    } else {
      EmittedWeaken(data, i, s.out, i, i + 1);
    }
  }

  /** Every iteration but the last keeps the invariant. */
  lemma InvStep(data: seq<Word>, i: nat, s: Scanner)
    requires i + 5 <= |data|
    requires Inv(data, i, s)
    ensures Inv(data, i + 1, Step(data, s, i))
  {
    match s.mode
    case Match =>
      if data[i] == data[i + 1] {
        StepMatchGrow(data, i, s);
      } else {
        StepMatchEnd(data, i, s);
      }
    case Mismatch =>
      assert data[i] != data[i + 1];
      assert PyText.Slice(data, s.start, i + 1) == data[s.start..i + 1];
      if data[i + 1] == data[i + 2] {
        StepMismatchToMatch(data, i, s);
      } else {
        StepMismatchGrow(data, i, s);
      }
  }

  lemma {:induction false} InvAt(data: seq<Word>, i: nat)
    requires |data| >= 4 && i <= |data| - 4
    ensures Inv(data, i, StateAt(data, i))
  {
    if i == 0 {
      InvInit(data);
    } else {
      InvAt(data, i - 1);
      var s := StateAt(data, i - 1);
      InvStep(data, i - 1, s);
      assert StateAt(data, i) == Step(data, s, i - 1);
    }
  }

  /** What the final iteration leaves: `start_index` at `len - 3`, and every
      word before it emitted except a lone word at `len - 4`. */
  predicate Final(data: seq<Word>, s: Scanner)
    requires |data| >= 4
  {
    && s.start == |data| - 3
    && Emitted(data, if Drops(data) then |data| - 4 else |data| - 3, s.out, |data| - 3)
  }

  lemma FinalMatch(data: seq<Word>, s: Scanner)
    requires |data| >= 4 && Inv(data, |data| - 4, s) && s.mode == Match
    ensures Final(data, Step(data, s, |data| - 4))
  {
    StepMatchEnd(data, |data| - 4, s);
  }

  lemma FinalMismatch(data: seq<Word>, s: Scanner)
    requires |data| >= 4 && Inv(data, |data| - 4, s) && s.mode == Mismatch
    ensures Final(data, Step(data, s, |data| - 4))
  {
    var i := |data| - 4;
    var pending := data[s.start..i + 1];
    assert PyText.Slice(data, s.start, i + 1) == pending;
    StepMismatchLast(data, i, s);
    var t := Step(data, s, i);
    if s.count > 1 {
      assert t.start == i + 1 && t.out == s.out + [Literal(s.count, pending)];
      FinalOf(data, t, i + 1);
    } else {
      assert t.start == i + 1 && t.out == s.out;
      FinalOf(data, t, i);
    }
  }

  /** A state with `start_index` at `len - 3` whose tokens stand for the
      words before `p` is final when `p` skips exactly the dropped word. */
  lemma FinalOf(data: seq<Word>, t: Scanner, p: nat)
    requires |data| >= 4 && t.start == |data| - 3
    requires p == |data| - 4 || p == |data| - 3
    requires p == |data| - 4 <==> Drops(data)
    requires Emitted(data, p, t.out, |data| - 3)
    ensures Final(data, t)
  {
  }

  /** After the final iteration the scan has moved `start_index` to
      `len - 3` and emitted every word before it, except a lone word at
      `len - 4`. */
  lemma FinalState(data: seq<Word>)
    requires |data| >= 4
    ensures Final(data, StateAt(data, |data| - 3))
  {
    var i := |data| - 4;
    InvAt(data, i);
    StateAtStep(data, i);
    if StateAt(data, i).mode == Match {
      FinalMatch(data, StateAt(data, i));
    } else {
      FinalMismatch(data, StateAt(data, i));
    }
  }

  lemma StateAtStep(data: seq<Word>, i: nat)
    requires |data| >= 2 && i < Iterations(|data|)
    ensures StateAt(data, i + 1) == Step(data, StateAt(data, i), i)
  {
  }

  /** The scan always ends with `start_index` at `len - 3`. */
  lemma FinalStart(data: seq<Word>)
    requires |data| >= 3
    ensures StateAt(data, |data| - 3).start == |data| - 3
  {
    if |data| > 3 {
      FinalState(data);
    }
  }

  /** The tokens of an input of three or more words: the scan's, then the
      last three words. */
  lemma EncodeTokensLong(data: seq<Word>)
    requires |data| >= 3
    ensures var s := StateAt(data, |data| - 3);
      EncodeTokens(data) == Success(s.out + [Literal(3, data[|data| - 3..])])
  {
    FinalStart(data);
    assert Iterations(|data|) == |data| - 3;
    assert PyText.Slice(data, |data| - 3, |data|) == data[|data| - 3..];
  }

  /** Every token of the scan is decodable when no count reaches bit 15. */
  lemma ScanDecodable(data: seq<Word>)
    requires 3 <= |data| < Flag + 3
    ensures var ts := StateAt(data, |data| - 3).out;
      forall j :: 0 <= j < |ts| ==> Decodable(ts[j])
  {
    var ts := StateAt(data, |data| - 3).out;
    if |data| > 3 {
      FinalState(data);
      forall j | 0 <= j < |ts| ensures Decodable(ts[j]) {
        assert Sized(ts[j], |data| - 3);
      }
    }
  }

  /** The scan's tokens stand for the input before its last three words,
      less the dropped word. */
  lemma ScanPrefix(data: seq<Word>)
    requires |data| >= 4
    ensures Drops(data) ==> Expand(StateAt(data, |data| - 3).out) == data[..|data| - 4]
    ensures !Drops(data) ==> Expand(StateAt(data, |data| - 3).out) == data[..|data| - 3]
  {
    FinalState(data);
  }

  lemma ScanExpandDrops(data: seq<Word>)
    requires |data| >= 4 && Drops(data)
    ensures Expand(StateAt(data, |data| - 3).out) + data[|data| - 3..] == Expected(data)
  {
    ScanPrefix(data);
  }

  lemma ScanExpandKeeps(data: seq<Word>)
    requires |data| >= 4 && !Drops(data)
    ensures Expand(StateAt(data, |data| - 3).out) + data[|data| - 3..] == Expected(data)
  {
    ScanPrefix(data);
    PrefixThenRest(data, |data| - 3, Expand(StateAt(data, |data| - 3).out));
  }

  lemma PrefixThenRest(data: seq<Word>, m: nat, x: seq<Word>)
    requires m <= |data| && x == data[..m]
    ensures x + data[m..] == data
  {
  }

  /** The scan's tokens and the final three words stand for the input, less
      the dropped word. */
  lemma ScanExpand(data: seq<Word>)
    requires |data| >= 3
    ensures Expand(StateAt(data, |data| - 3).out) + data[|data| - 3..] == Expected(data)
  {
    if |data| == 3 {
      assert StateAt(data, 0).out == [];
      assert data[0..] == data;
    } else if Drops(data) {
      ScanExpandDrops(data);
    } else {
      ScanExpandKeeps(data);
    }
  }

  // ---------------------------------------------------------------------------
  // Properties of the codec
  // ---------------------------------------------------------------------------

  /** Two or three words: the loop never runs, and the output is one literal
      token holding the input verbatim. */
  lemma EncodeShort(data: seq<Word>)
    requires 2 <= |data| <= 3
    ensures Encode(data) == Success([Flag + |data|] + data)
  {
    assert Iterations(|data|) == 0;
    assert StateAt(data, 0) == Init(data);
    assert PyText.Slice(data, 0, |data|) == data;
    var t := Literal(|data|, data);
    var s := StateAt(data, Iterations(|data|));
    assert s.start == 0 && s.out == [];
    assert PyText.Slice(data, s.start, |data|) == data;
    assert s.out + [t] == [t];
    assert EncodeTokens(data) == Success(s.out + [t]);
    assert [t][1..] == [];
    assert Serialize([t]) == TokenWords(t);
  }

  /** Four or more words: the last iteration always fails the
      `index < len - 4` guard, so the output always ends with `0x8003` and the
      last three input words. */
  lemma EncodeEnding(data: seq<Word>)
    requires |data| >= 4
    ensures Encode(data).Success?
    ensures var e := Encode(data).value;
      |e| >= 4 && e[|e| - 4..] == [0x8003] + data[|data| - 3..]
  {
    EncodeTokensLong(data);
    var s := StateAt(data, |data| - 3);
    SerializeAppend(s.out, Literal(3, data[|data| - 3..]));
  }

  lemma {:induction false} SerializeAppend(ts: seq<Token>, t: Token)
    ensures Serialize(ts + [t]) == Serialize(ts) + TokenWords(t)
  {
    if |ts| == 0 {
      assert ts + [t] == [t];
    } else {
      assert (ts + [t])[1..] == ts[1..] + [t];
      SerializeAppend(ts[1..], t);
    }
  }

  /** The round trip, for every input of 3 to 0x8002 words (so that no count
      reaches bit 15): decoding the encoding gives back the input, except
      that the word the encoder drops stays dropped. */
  lemma RoundTrip(data: seq<Word>)
    requires 3 <= |data| < Flag + 3
    ensures Encode(data).Success?
    ensures Decode(Encode(data).value) == Success(Expected(data))
  {
    var n := |data|;
    var ts := StateAt(data, n - 3).out;
    var last := Literal(3, data[n - 3..]);
    EncodeTokensLong(data);
    ScanDecodable(data);
    DecodableFrontOf(ts, last);
    DecodeSerialized(ts + [last], data[n - 3..]);
    ScanTokensExpand(data);
  }

  /** The words of tokens that end in the final flush decode to what the
      tokens stand for. */
  lemma DecodeSerialized(ts: seq<Token>, tail: seq<Word>)
    requires |tail| == 3 && |ts| > 0 && ts[|ts| - 1] == Literal(3, tail)
    requires DecodableFront(ts)
    ensures DecodeFrom(Serialize(ts), 0) == Success(Expand(ts))
  {
    var e := Serialize(ts);
    assert e[0..] == e;
    DecodeTokens(e, 0, ts, tail);
  }

  /** The scan's tokens and the final flush stand for the expected output. */
  lemma ScanTokensExpand(data: seq<Word>)
    requires |data| >= 3
    ensures Expand(StateAt(data, |data| - 3).out + [Literal(3, data[|data| - 3..])]) == Expected(data)
    ensures |Expected(data)| >= 2
  {
    var last := Literal(3, data[|data| - 3..]);
    ExpandAppend(StateAt(data, |data| - 3).out, last);
    assert Expand([last]) == data[|data| - 3..];
    ScanExpand(data);
  }

  /** Exactly the inputs whose word at `len - 4` is not lone survive the round
      trip unchanged. */
  lemma RoundTripIdentity(data: seq<Word>)
    requires 3 <= |data| < Flag + 3
    ensures Encode(data).Success?
    ensures Decode(Encode(data).value) == Success(data) <==> !Drops(data)
  {
    RoundTrip(data);
  }

  /** Fewer than four words never decode: the loop body never runs and the
      final `out_list[1]` raises. In particular the three-word encoding of a
      two-word input does not decode. */
  lemma DecodeShort(data: seq<Word>)
    requires |data| <= 3
    ensures Decode(data) == Failure(IndexError)
  {
  }

  /** A constant input of `n >= 4` words encodes to one match token for the
      first `n - 3` words and a literal for the last three. */
  lemma EncodeConstant(v: Word, n: nat)
    requires n >= 4
    ensures Encode(Copies(v, n)) == Success([n - 3, v, 0x8003, v, v, v])
  {
    ConstantTokens(v, n);
    TwoTokens(Run(n - 3, v), Literal(3, [v, v, v]));
    assert [n - 3, v] + ([WithFlag(3)] + [v, v, v]) == [n - 3, v, 0x8003, v, v, v];
  }

  lemma ConstantTokens(v: Word, n: nat)
    requires n >= 4
    ensures EncodeTokens(Copies(v, n)) == Success([Run(n - 3, v)] + [Literal(3, [v, v, v])])
  {
    ConstantFinal(v, n);
    EncodeTokensLong(Copies(v, n));
    assert Copies(v, n)[n - 3..] == [v, v, v];
  }

  lemma ConstantFinal(v: Word, n: nat)
    requires n >= 4
    ensures StateAt(Copies(v, n), n - 3).out == [Run(n - 3, v)]
  {
    ConstantScan(v, n, n - 4);
    StateAtStep(Copies(v, n), n - 4);
  }

  lemma TwoTokens(a: Token, b: Token)
    ensures Serialize([a] + [b]) == TokenWords(a) + TokenWords(b)
  {
    SerializeAppend([a], b);
    SerializeAppend([], a);
    assert [] + [a] == [a];
  }

  lemma {:induction false} ConstantScan(v: Word, n: nat, i: nat)
    requires n >= 4 && i <= n - 4
    ensures StateAt(Copies(v, n), i) == Scanner(Match, i + 1, 0, [])
  {
    if i > 0 {
      ConstantScan(v, n, i - 1);
    }
  }

  /** A constant run short enough for its count decodes back in full. */
  lemma DecodeConstant(v: Word, n: nat)
    requires 4 <= n < Flag + 3
    ensures Decode([n - 3, v, 0x8003, v, v, v]) == Success(Copies(v, n))
  {
    EncodeConstant(v, n);
    RoundTrip(Copies(v, n));
  }

  /** Match counts are written without a flag and without a cap: a constant
      run of 0x8003 words encodes with the count 0x8000, which the decoder
      reads as a literal header, so the run does not come back. */
  lemma LongRunMisread(v: Word)
    ensures Encode(Copies(v, Flag + 3)) == Success([Flag, v, 0x8003, v, v, v])
    ensures Decode([Flag, v, 0x8003, v, v, v]) != Success(Copies(v, Flag + 3))
  {
    EncodeConstant(v, Flag + 3);
    MisreadRun(v);
  }

  /** `[0x8000, v, 0x8003, v, v, v]` does not decode to `0x8003` copies of `v`:
      whatever it decodes to has another length. */
  lemma MisreadRun(v: Word)
    ensures Decode([Flag, v, 0x8003, v, v, v]) != Success(Copies(v, Flag + 3))
  {
    var e: seq<Word> := [Flag, v, 0x8003, v, v, v];
    assert HasFlag(Flag) && ClearFlag(Flag) == 0;
    assert DecodeFrom(e, 0) == (var r :- DecodeFrom(e, 1); Success(e[1..1] + r));
    if HasFlag(v) {
      MisreadFlagged(v);
    } else {
      MisreadPlain(v);
    }
  }

  /** A flagged second word starts a literal of at most three words, or overruns. */
  lemma MisreadFlagged(v: Word)
    requires HasFlag(v)
    ensures var r := DecodeFrom([Flag, v, 0x8003, v, v, v], 1); r.Success? ==> |r.value| <= 4
  {
    var e: seq<Word> := [Flag, v, 0x8003, v, v, v];
    var c := ClearFlag(v);
    assert e[1] == v;
    if c == 0 {
      assert HasFlag(0x8003) && ClearFlag(0x8003) == 3;
      assert DecodeFrom(e, 6) == Success([]);
      assert DecodeFrom(e, 2) == Success(e[3..6] + []);
    } else if 1 + c < 6 {
      assert DecodeFrom(e, 2 + c) == Success([]);
      assert DecodeFrom(e, 1) == Success(e[2..2 + c] + []);
    }
  }

  /** An unflagged second word repeats `0x8003` that many times, and it cannot
      be `0x8003` itself. */
  lemma MisreadPlain(v: Word)
    requires !HasFlag(v)
    ensures DecodeFrom([Flag, v, 0x8003, v, v, v], 1) == Success(Copies(0x8003, v))
    ensures v != Flag + 3
  {
    var e: seq<Word> := [Flag, v, 0x8003, v, v, v];
    assert e[1] == v && e[2] == 0x8003;
    assert DecodeFrom(e, 3) == Success([]);
    assert DecodeFrom(e, 1) == Success(Copies(0x8003, v) + []);
    assert Copies(0x8003, v) + [] == Copies(0x8003, v);
    assert HasFlag(Flag + 3);
  }

  // ---------------------------------------------------------------------------
  // Concrete cases
  // ---------------------------------------------------------------------------

  /** `[1,2,3,4]` loses its first word: the scan still holds it as a lone
      literal at its only iteration. */
  lemma DropsFirstOfFour()
    ensures Encode([1, 2, 3, 4]) == Success([0x8003, 2, 3, 4])
    ensures Decode([0x8003, 2, 3, 4]) == Success([2, 3, 4])
  {
    var data: seq<Word> := [1, 2, 3, 4];
    EncodeTokensLong(data);
    assert StateAt(data, 1) == Step(data, Init(data), 0);
    assert StateAt(data, 1).out == [];
    assert data[1..] == [2, 3, 4];
    SerializeAppend([], Literal(3, [2, 3, 4]));
    assert [] + [Literal(3, [2, 3, 4])] == [Literal(3, [2, 3, 4])];
    assert Encode(data) == Success(Serialize([Literal(3, [2, 3, 4])]));
    assert Serialize([Literal(3, [2, 3, 4])]) == [WithFlag(3)] + [2, 3, 4];
    assert [WithFlag(3)] + [2, 3, 4] == [0x8003, 2, 3, 4];
    var e: seq<Word> := [0x8003, 2, 3, 4];
    assert e[0..] == e;
    DecodeLast(e, 0, [Literal(3, [2, 3, 4])], [2, 3, 4]);
    assert Expand([Literal(3, [2, 3, 4])]) == [2, 3, 4] + Expand([]);
    assert [2, 3, 4] + [] == [2, 3, 4];
  }

  /** `[7,7,1,2,3,4]` loses the `1` that follows the run of sevens. */
  lemma DropsAfterRun()
    ensures Encode([7, 7, 1, 2, 3, 4]) == Success([2, 7, 0x8003, 2, 3, 4])
  {
    var data: seq<Word> := [7, 7, 1, 2, 3, 4];
    EncodeTokensLong(data);
    assert StateAt(data, 1) == Scanner(Match, 2, 0, []);
    assert StateAt(data, 2) == Scanner(Mismatch, 1, 2, [Run(2, 7)]);
    assert StateAt(data, 3) == Scanner(Mismatch, 1, 3, [Run(2, 7)]);
    assert data[3..] == [2, 3, 4];
    TwoTokens(Run(2, 7), Literal(3, [2, 3, 4]));
    assert Encode(data) == Success(Serialize([Run(2, 7)] + [Literal(3, [2, 3, 4])]));
    assert [2, 7] + ([WithFlag(3)] + [2, 3, 4]) == [2, 7, 0x8003, 2, 3, 4];
  }

  /** Three runs: the last one goes out as the final literal, not as a run. */
  lemma ThreeRuns()
    ensures Encode([5, 5, 5, 5, 2, 2, 9, 9, 9]) == Success([4, 5, 2, 2, 0x8003, 9, 9, 9])
  {
    ThreeRunsTokens();
    TwoTokens(Run(4, 5), Run(2, 2));
    assert [Run(4, 5)] + [Run(2, 2)] == [Run(4, 5), Run(2, 2)];
    SerializeAppend([Run(4, 5), Run(2, 2)], Literal(3, [9, 9, 9]));
    assert [4, 5] + [2, 2] + ([WithFlag(3)] + [9, 9, 9]) == [4, 5, 2, 2, 0x8003, 9, 9, 9];
  }

  lemma ThreeRunsTokens()
    ensures EncodeTokens([5, 5, 5, 5, 2, 2, 9, 9, 9])
         == Success([Run(4, 5), Run(2, 2)] + [Literal(3, [9, 9, 9])])
  {
    var data: seq<Word> := [5, 5, 5, 5, 2, 2, 9, 9, 9];
    EncodeTokensLong(data);
    ThreeRunsScan();
    assert data[6..] == [9, 9, 9];
  }

  lemma ThreeRunsScan()
    ensures StateAt([5, 5, 5, 5, 2, 2, 9, 9, 9], 6) == Scanner(Match, 1, 6, [Run(4, 5), Run(2, 2)])
  {
    var data: seq<Word> := [5, 5, 5, 5, 2, 2, 9, 9, 9];
    assert StateAt(data, 1) == Scanner(Match, 2, 0, []);
    assert StateAt(data, 2) == Scanner(Match, 3, 0, []);
    assert StateAt(data, 3) == Scanner(Match, 4, 0, []);
    assert StateAt(data, 4) == Scanner(Match, 1, 4, [Run(4, 5)]);
    assert StateAt(data, 5) == Scanner(Match, 2, 4, [Run(4, 5)]);
  }

  /** A token that starts in the last three positions is never read. */
  lemma TrailingTokenIgnored()
    ensures Decode([0x8002, 11, 22, 3, 99]) == Success([11, 22])
  {
    var e: seq<Word> := [0x8002, 11, 22, 3, 99];
    assert HasFlag(0x8002) && ClearFlag(0x8002) == 2;
    assert e[1..3] == [11, 22];
    assert DecodeFrom(e, 3) == Success([]);
    assert DecodeFrom(e, 0) == Success(e[1..3] + []);
    assert e[1..3] + [] == [11, 22];
  }

  /** A literal count running past the end raises instead of truncating. */
  lemma LiteralOverrun()
    ensures Decode([0x8005, 1, 2, 3]) == Failure(IndexError)
  {
    assert HasFlag(0x8005) && ClearFlag(0x8005) == 5;
  }
}
