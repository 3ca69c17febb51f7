/**
 * The per-device `struct context` (without its mutex) together with the
 * module-wide sample counter `last` that `pseudo_read_device` advances.
 */
module Device {
  import opened Hex

  /** A C `int`. */
  type Int32 = x: int | -0x8000_0000 <= x < 0x8000_0000

  /** `struct context`: the configured sample count and the last sampled value. */
  datatype Context = Context(count: Int32, data: u32)

  /**
   * Everything the attribute handlers read or change: the context of the one
   * registered device and the function-static counter `last`, which starts at
   * 0 when the module is loaded.
   */
  datatype State = State(ctx: Context, last: nat)

  /** State right after module load and probe: `kzalloc` zeroes, then count := 1. */
  function Probe(last: nat): (s: State)
    ensures s.ctx.count == 1 && s.ctx.data == 0
    ensures s.last == last
  {
    State(Context(1, 0), last)
  }

  /** The state the show handler first sees: counter at 0, default count. */
  function Loaded(): State
  {
    Probe(0)
  }

  /** Outcome of one simulated device read: the new state and the C return code. */
  datatype ReadResult = ReadResult(state: State, ret: int)

  /**
   * `pseudo_read_device`: stores the current counter in `data` (converted to
   * `unsigned int`), advances the counter by one and reports success.
   */
  function PseudoReadDevice(s: State): (r: ReadResult)
    ensures r.ret == 0
    ensures r.state.ctx.data == s.last % WORD
    ensures r.state.last == s.last + 1
    ensures r.state.ctx.count == s.ctx.count
  {
    ReadResult(State(s.ctx.(data := s.last % WORD), s.last + 1), 0)
  }

  /** Outcome of `n` consecutive draws: the final state and each value drawn, in order. */
  datatype Draws = Draws(state: State, values: seq<u32>)

  /** `n` calls of `pseudo_read_device` in a row, collecting `data` after each. */
  function DrawMany(s: State, n: nat): (d: Draws)
  {
    if n == 0 then Draws(s, [])
    else
      var prev := DrawMany(s, n - 1);
      var r := PseudoReadDevice(prev.state);
      Draws(r.state, prev.values + [r.state.ctx.data])
  }

  /** The values `last, last+1, ..., last+n-1`, each as an `unsigned int`. */
  function Consecutive(first: nat, n: nat): (vs: seq<u32>)
    ensures |vs| == n
  {
    seq(n, k requires 0 <= k => (first + k) % WORD)
  }

  /**
   * `n` draws yield the consecutive counter values starting at `last`, leave
   * the counter `n` further on, keep the count, and leave `data` at the last
   * value drawn (or untouched when nothing was drawn).
   */
  lemma {:induction false} DrawManyConsecutive(s: State, n: nat)
    ensures DrawMany(s, n).values == Consecutive(s.last, n)
    ensures DrawMany(s, n).state.last == s.last + n
    ensures DrawMany(s, n).state.ctx.count == s.ctx.count
    ensures n == 0 ==> DrawMany(s, n).state == s
    ensures n > 0 ==> DrawMany(s, n).state.ctx.data == (s.last + n - 1) % WORD
  {
    if n > 0 {
      DrawManyConsecutive(s, n - 1);
      var prev := DrawMany(s, n - 1);
      var r := PseudoReadDevice(prev.state);
      assert r.state.ctx.data == (s.last + n - 1) % WORD;
      assert DrawMany(s, n).values == Consecutive(s.last, n - 1) + [(s.last + n - 1) % WORD];
    }
  }
}
