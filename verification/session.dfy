/**
 * Sequences of reads and writes on the `data` attribute, as the one
 * registered device sees them, and what a reader can conclude from the
 * texts the reads return.
 */
module Session {
  import opened Wrappers
  import opened Hex
  import opened Device
  import opened Attribute

  /** One access to the attribute file: a read, or a write whose text parsed to `req`. */
  datatype Op = Read | Write(req: Int32, inputLen: nat)

  /** The final state, the texts the reads returned in order, and whether `BUG_ON` halted the run. */
  datatype Trace = Trace(state: State, texts: seq<string>, halted: bool)

  function Run(s: State, ops: seq<Op>, p: PageSize): (t: Trace)
    decreases |ops|
  {
    if |ops| == 0 then Trace(s, [], false)
    else
      match ops[0]
      case Write(req, inputLen) => Run(Store(s, req, inputLen, p).state, ops[1..], p)
      case Read =>
        match ShowSpec(s, p)
        case BugOn(st) => Trace(st, [], true)
        case Returned(st, text, _) =>
          var rest := Run(st, ops[1..], p);
          Trace(rest.state, [text] + rest.texts, rest.halted)
  }

  /** Parses every read text and joins the sample values, in order. */
  function DecodeAll(texts: seq<string>): (r: Option<seq<u32>>)
  {
    if |texts| == 0 then Some([])
    else
      match ParseReply(texts[0])
      case None => None
      case Some(vs) =>
        match DecodeAll(texts[1..])
        case None => None
        case Some(rest) => Some(vs + rest)
  }

  /** A run of no operations changes nothing. */
  lemma RunNothing(s: State, p: PageSize)
    ensures Run(s, [], p) == Trace(s, [], false)
  {
  }

  /** A run starting with a write continues from the state the write leaves. */
  lemma RunWrite(s: State, req: Int32, inputLen: nat, ops: seq<Op>, p: PageSize)
    ensures Run(s, [Write(req, inputLen)] + ops, p) == Run(Store(s, req, inputLen, p).state, ops, p)
  {
    assert ([Write(req, inputLen)] + ops)[1..] == ops;
  }

  /** A run starting with a read that returns records its text and continues from the state it leaves. */
  lemma RunRead(s: State, ops: seq<Op>, p: PageSize)
    requires ShowSpec(s, p).Returned?
    ensures Run(s, [Read] + ops, p)
         == Trace(Run(ShowSpec(s, p).state, ops, p).state,
                  [ShowSpec(s, p).text] + Run(ShowSpec(s, p).state, ops, p).texts,
                  Run(ShowSpec(s, p).state, ops, p).halted)
  {
    assert ([Read] + ops)[1..] == ops;
  }

  /** The samples of several reads are those of the first followed by those of the rest. */
  lemma DecodeAllCons(text: string, rest: seq<string>)
    requires ParseReply(text).Some? && DecodeAll(rest).Some?
    ensures DecodeAll([text] + rest) == Some(ParseReply(text).value + DecodeAll(rest).value)
  {
    assert ([text] + rest)[0] == text;
    assert ([text] + rest)[1..] == rest;
  }

  lemma ConsecutiveAppend(first: nat, n: nat, m: nat)
    ensures Consecutive(first, n) + Consecutive(first + n, m) == Consecutive(first, n + m)
  {
    var a := Consecutive(first, n) + Consecutive(first + n, m);
    var b := Consecutive(first, n + m);
    forall k | 0 <= k < n + m
      ensures a[k] == b[k]
    {
      if k >= n {
        assert a[k] == Consecutive(first + n, m)[k - n];
      }
    }
  }

  /** What a run needs to know of one read from a valid state. */
  lemma ValidRead(s: State, p: PageSize)
    requires Valid(s, p)
    ensures ShowSpec(s, p).Returned?
    ensures Valid(ShowSpec(s, p).state, p)
    ensures ShowSpec(s, p).state.last == s.last + Samples(s)
    ensures ParseReply(ShowSpec(s, p).text) == Some(Consecutive(s.last, Samples(s)))
  {
    NoBugOn(s, p);
    ShowKeepsValid(s, p);
    ShowDecodes(s, p);
    ShowCounts(s, p);
  }

  /**
   * From a valid state, no run of reads and writes ever reaches `BUG_ON`,
   * the invariant holds at the end, and the texts all reads returned decode
   * to the consecutive counter values from the starting counter to the final
   * one: no value is skipped, repeated or reordered, whatever writes come
   * between the reads.
   */
  lemma {:induction false} RunDecodes(s: State, ops: seq<Op>, p: PageSize)
    requires Valid(s, p)
    ensures !Run(s, ops, p).halted
    ensures Valid(Run(s, ops, p).state, p)
    ensures Run(s, ops, p).state.last >= s.last
    ensures DecodeAll(Run(s, ops, p).texts)
         == Some(Consecutive(s.last, Run(s, ops, p).state.last - s.last))
    decreases |ops|
  {
    if |ops| > 0 {
      var rest := ops[1..];
      assert ops == [ops[0]] + rest;
      match ops[0]
      case Write(req, inputLen) =>
        StoreKeepsValid(s, req, inputLen, p);
        RunWrite(s, req, inputLen, rest, p);
        RunDecodes(Store(s, req, inputLen, p).state, rest, p);
      case Read =>
        var r := ShowSpec(s, p);
        ValidRead(s, p);
        RunRead(s, rest, p);
        RunDecodes(r.state, rest, p);
        var t := Run(r.state, rest, p);
        DecodeAllCons(r.text, t.texts);
        ConsecutiveAppend(s.last, Samples(s), t.state.last - r.state.last);
    }
  }

  lemma ConsecutiveIncreasing(first: nat, n: nat, i: nat, j: nat)
    requires first + n <= WORD
    requires i < j < n
    ensures Consecutive(first, n)[i] < Consecutive(first, n)[j]
  {
    assert Consecutive(first, n)[i] == first + i;
    assert Consecutive(first, n)[j] == first + j;
  }

  /**
   * As long as the counter has not passed 2^32, the sample values a reader
   * decodes from successive reads are strictly increasing.
   */
  lemma SamplesIncrease(s: State, ops: seq<Op>, p: PageSize, i: nat, j: nat)
    requires Valid(s, p)
    requires Run(s, ops, p).state.last <= WORD
    requires i < j < Run(s, ops, p).state.last - s.last
    ensures DecodeAll(Run(s, ops, p).texts).Some?
    ensures |DecodeAll(Run(s, ops, p).texts).value| == Run(s, ops, p).state.last - s.last
    ensures DecodeAll(Run(s, ops, p).texts).value[i] < DecodeAll(Run(s, ops, p).texts).value[j]
  {
    RunDecodes(s, ops, p);
    ConsecutiveIncreasing(s.last, Run(s, ops, p).state.last - s.last, i, j);
  }

  /** A read from a valid state with a positive count, in full. */
  lemma ReadWhole(s: State, p: PageSize)
    requires Valid(s, p) && s.ctx.count > 0
    ensures ShowSpec(s, p)
         == Returned(State(Context(s.ctx.count, (s.last + s.ctx.count - 1) % WORD), s.last + s.ctx.count),
                     ShowText(Consecutive(s.last, s.ctx.count)), ReplyLength(s.ctx.count as nat))
  {
    NoBugOn(s, p);
    ShowCounts(s, p);
  }

  /** The walk through, operation by operation: load, read, write 3, read, write 999999, write 0, read. */
  const WalkTailOps: seq<Op> := [Write(999999, 7), Write(0, 2), Read]
  const WalkMiddleOps: seq<Op> := [Write(3, 2), Read] + WalkTailOps
  const WalkOps: seq<Op> := [Read] + WalkMiddleOps

  /** The last three operations of the walk through: a refused write, a write of 0, an empty read. */
  lemma WalkTail(s: State, p: PageSize)
    requires s.ctx.count == 3 && p < 9_000_000
    ensures Store(s, 999999, 7, p) == StoreResult(s, -ERANGE)
    ensures Run(s, WalkTailOps, p) == Trace(s.(ctx := s.ctx.(count := 0)), [""], false)
  {
    var s5 := s.(ctx := s.ctx.(count := 0));
    assert Store(s, 0, 2, p).state == s5;
    ShowEmpty(s5, p);
    RunNothing(s5, p);
    RunRead(s5, [], p);
    assert [Read] + [] == [Read];
    RunWrite(s, 0, 2, [Read], p);
    RunWrite(s, 999999, 7, [Write(0, 2)] + [Read], p);
  }

  /** The walk through from its write of 3 on, with the counter at `last`. */
  lemma WalkMiddle(data: u32, last: nat, p: PageSize)
    requires p < 9_000_000
    ensures Run(State(Context(1, data), last), WalkMiddleOps, p)
         == Trace(State(Context(0, (last + 2) % WORD), last + 3),
                  [ShowText(Consecutive(last, 3)), ""], false)
  {
    var s1 := State(Context(1, data), last);
    var s2 := State(Context(3, data), last);
    var s3 := State(Context(3, (last + 2) % WORD), last + 3);
    assert Store(s1, 3, 2, p).state == s2;
    ReadWhole(s2, p);
    WalkTail(s3, p);
    RunRead(s2, WalkTailOps, p);
    RunWrite(s1, 3, 2, [Read] + WalkTailOps, p);
  }

  /**
   * The walk through from a freshly probed device whose counter is at
   * `last`, with any page size below 9 MB (so that 999999 exceeds
   * `MAX_COUNT`): the first read shows sample `last`; writing 3 makes the
   * next read show the next three samples; writing 999999 is refused with
   * `-ERANGE` (WalkTail) and keeps the count at 3; writing 0 makes the last
   * read empty.
   */
  lemma WalkFrom(last: nat, p: PageSize)
    requires p < 9_000_000
    ensures Run(Probe(last), WalkOps, p)
         == Trace(State(Context(0, (last + 3) % WORD), last + 4),
                  [ShowText(Consecutive(last, 1)), ShowText(Consecutive(last + 1, 3)), ""], false)
  {
    var s0 := Probe(last);
    var s1 := State(Context(1, last % WORD), last + 1);
    ReadWhole(s0, p);
    assert ShowSpec(s0, p).state == s1;
    assert ShowSpec(s0, p).text == ShowText(Consecutive(last, 1));
    WalkMiddle(last % WORD, last + 1, p);
    RunRead(s0, WalkMiddleOps, p);
  }
}
