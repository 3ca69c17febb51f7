/**
 * The `data` device attribute: its read handler (show), its write handler
 * (store) and the page-derived bound that keeps every read within one page.
 */
module Attribute {
  import opened Wrappers
  import opened Hex
  import opened Device

  /** The kernel's `PAGE_SIZE`; no Linux architecture uses pages below 4 KiB. */
  type PageSize = p: nat | 4096 <= p witness 4096

  /** Characters one sample occupies in a read: eight digits and a space. */
  const TOKEN_WIDTH: nat := 9

  /** Linux's `ERANGE`; store returns its negation. */
  const ERANGE: int := 34

  /**
   * `MAX_COUNT`: the largest count store accepts, derived from the token
   * width so that a full read, its newline and the NUL that `sprintf`
   * writes after it all stay inside one page.
   */
  function MaxCount(p: PageSize): (m: int)
    ensures 1 <= m
    ensures TOKEN_WIDTH * m + 1 < p
  {
    p / TOKEN_WIDTH - 1
  }

  /** The invariant store maintains: the count never exceeds `MAX_COUNT`. */
  predicate Valid(s: State, p: PageSize) {
    s.ctx.count <= MaxCount(p)
  }

  /** Number of samples a read draws: the loop runs `count` times, not at all when `count <= 0`. */
  function Samples(s: State): (n: nat)
    ensures n == 0 <==> s.ctx.count <= 0
    ensures n > 0 ==> n == s.ctx.count
  {
    if s.ctx.count > 0 then s.ctx.count as nat else 0
  }

  /** Length of a read that drew `n` samples: `n` tokens plus a newline when `n > 0`. */
  function ReplyLength(n: nat): nat
  {
    if n == 0 then 0 else TOKEN_WIDTH * n + 1
  }

  /** One sample as `"%08x "`. */
  function Token(v: u32): (t: string)
    ensures |t| == TOKEN_WIDTH
    ensures t[..WIDTH] == Hex8(v) && t[WIDTH] == ' '
  {
    Hex8(v) + " "
  }

  /** The tokens of `vs`, in order, with nothing between them. */
  function Render(vs: seq<u32>): (text: string)
    ensures |text| == TOKEN_WIDTH * |vs|
  {
    if |vs| == 0 then "" else Render(vs[..|vs| - 1]) + Token(vs[|vs| - 1])
  }

  /** Rendering one more value appends its token. */
  lemma RenderSnoc(vs: seq<u32>, v: u32)
    ensures Render(vs + [v]) == Render(vs) + Token(v)
  {
    assert (vs + [v])[..|vs|] == vs;
  }

  /** The whole text of a read that drew `vs`: the tokens, then a newline if there was any. */
  function ShowText(vs: seq<u32>): (text: string)
  {
    Render(vs) + (if |vs| > 0 then "\n" else "")
  }

  /** Reads one 9-character token back; None unless it is eight hex digits and a space. */
  function ParseToken(tok: string): (r: Option<u32>)
    requires |tok| == TOKEN_WIDTH
    ensures r.Some? <==> AllHexDigits(tok[..WIDTH]) && tok[WIDTH] == ' '
  {
    if AllHexDigits(tok[..WIDTH]) && tok[WIDTH] == ' ' then
      Pow16Eight();
      Some(DecodeHex(tok[..WIDTH]).value)
    else None
  }

  /** Splits text into 9-character tokens and reads each; None if any is malformed. */
  function ParseTokens(text: string): (r: Option<seq<u32>>)
    ensures r.Some? ==> |text| == TOKEN_WIDTH * |r.value|
  {
    if |text| == 0 then Some([])
    else if |text| < TOKEN_WIDTH then None
    else
      var cut := |text| - TOKEN_WIDTH;
      match ParseTokens(text[..cut])
      case None => None
      case Some(vs) =>
        match ParseToken(text[cut..])
        case None => None
        case Some(v) => Some(vs + [v])
  }

  /** Reads the text a read returned back into the sample values it shows. */
  function ParseReply(text: string): (r: Option<seq<u32>>)
  {
    if |text| == 0 then Some([])
    else if |text| > 1 && text[|text| - 1] == '\n' then
      match ParseTokens(text[..|text| - 1])
      case None => None
      case Some(vs) => if |vs| > 0 then Some(vs) else None
    else None
  }

  /** Token `k` of a rendering sits at offset `9*k` and shows `vs[k]`. */
  lemma {:induction false} RenderTokenAt(vs: seq<u32>, k: nat)
    requires k < |vs|
    ensures TOKEN_WIDTH * k + TOKEN_WIDTH <= |Render(vs)|
    ensures Render(vs)[TOKEN_WIDTH * k .. TOKEN_WIDTH * k + TOKEN_WIDTH] == Token(vs[k])
  {
    var front := vs[..|vs| - 1];
    if k < |vs| - 1 {
      RenderTokenAt(front, k);
      assert front[k] == vs[k];
    }
  }

  lemma SplitAt(a: string, b: string)
    ensures (a + b)[..|a|] == a && (a + b)[|a|..] == b
  {
  }

  /** A single token reads back as the value it shows. */
  lemma ParseTokenOf(v: u32)
    ensures ParseToken(Token(v)) == Some(v)
  {
    DecodeHex8(v);
  }

  /** A well-formed token is the token of the value it reads as. */
  lemma TokenOfParse(tok: string)
    requires |tok| == TOKEN_WIDTH && ParseToken(tok).Some?
    ensures Token(ParseToken(tok).value) == tok
  {
    Hex8OfDecode(tok[..WIDTH]);
    assert tok == tok[..WIDTH] + [tok[WIDTH]];
  }

  /** Reading a text with one more token appended reads that token last. */
  lemma ParseTokensSnoc(a: string, tok: string)
    requires |tok| == TOKEN_WIDTH
    requires ParseTokens(a).Some? && ParseToken(tok).Some?
    ensures ParseTokens(a + tok) == Some(ParseTokens(a).value + [ParseToken(tok).value])
  {
    SplitAt(a, tok);
  }

  /** Reading back a rendering recovers exactly the rendered values. */
  lemma {:induction false} ParseRender(vs: seq<u32>)
    ensures ParseTokens(Render(vs)) == Some(vs)
  {
    if |vs| > 0 {
      var front := vs[..|vs| - 1];
      var v := vs[|vs| - 1];
      assert vs == front + [v];
      RenderSnoc(front, v);
      ParseRender(front);
      ParseTokenOf(v);
      ParseTokensSnoc(Render(front), Token(v));
    }
  }

  /** Any text that reads back as tokens is exactly the rendering of what it reads as. */
  lemma {:induction false} RenderParse(text: string)
    requires ParseTokens(text).Some?
    ensures Render(ParseTokens(text).value) == text
  {
    if |text| > 0 {
      var cut := |text| - TOKEN_WIDTH;
      var a := text[..cut];
      var tok := text[cut..];
      assert text == a + tok;
      var vs := ParseTokens(a).value;
      var v := ParseToken(tok).value;
      ParseTokensSnoc(a, tok);
      RenderParse(a);
      TokenOfParse(tok);
      RenderSnoc(vs, v);
    }
  }

  /** Round trip of a whole read: parsing its text yields the values it drew. */
  lemma ParseShowText(vs: seq<u32>)
    ensures ParseReply(ShowText(vs)) == Some(vs)
  {
    var text := ShowText(vs);
    if |vs| > 0 {
      assert text[..|text| - 1] == Render(vs);
      ParseRender(vs);
    }
  }

  /** The converse: any text that parses as a reply is the reply for the values it parses to. */
  lemma ShowTextParse(text: string)
    requires ParseReply(text).Some?
    ensures ShowText(ParseReply(text).value) == text
  {
    if |text| > 0 {
      var body := text[..|text| - 1];
      ReplyShape(text);
      var vs := ParseTokens(body).value;
      RenderParse(body);
      assert ShowText(vs) == body + "\n";
      assert text == body + [text[|text| - 1]];
    }
  }

  /** A non-empty text that parses as a reply is tokens followed by a newline, with at least one token. */
  lemma ReplyShape(text: string)
    requires ParseReply(text).Some? && |text| > 0
    ensures text[|text| - 1] == '\n'
    ensures ParseTokens(text[..|text| - 1]).Some?
    ensures ParseReply(text).value == ParseTokens(text[..|text| - 1]).value
    ensures |ParseReply(text).value| > 0
  {
  }

  /** Token `k` of a non-empty read text, and its final newline. */
  lemma ShowTextAt(vs: seq<u32>, k: nat)
    requires k < |vs|
    ensures |ShowText(vs)| == TOKEN_WIDTH * |vs| + 1
    ensures ShowText(vs)[TOKEN_WIDTH * k .. TOKEN_WIDTH * k + WIDTH] == Hex8(vs[k])
    ensures ShowText(vs)[TOKEN_WIDTH * k + WIDTH] == ' '
    ensures ShowText(vs)[TOKEN_WIDTH * |vs|] == '\n'
  {
    var body := Render(vs);
    var text := ShowText(vs);
    assert text == body + "\n";
    RenderTokenAt(vs, k);
    var lo := TOKEN_WIDTH * k;
    assert text[lo .. lo + TOKEN_WIDTH] == body[lo .. lo + TOKEN_WIDTH];
    assert text[lo .. lo + WIDTH] == Token(vs[k])[..WIDTH];
    assert text[lo + WIDTH] == Token(vs[k])[WIDTH];
  }

  /** Result of the read handler: it returns a length, or `BUG_ON` halts it. */
  datatype ShowResult =
    | Returned(state: State, text: string, len: int)
    | BugOn(state: State)

  /**
   * Reference definition of the read handler: draw `Samples(s)` values,
   * render them, and halt if the text would not fit in a page.
   */
  function ShowSpec(s: State, p: PageSize): ShowResult
  {
    var d := DrawMany(s, Samples(s));
    var text := ShowText(d.values);
    if |text| > p then BugOn(d.state) else Returned(d.state, text, |text|)
  }

  /**
   * The sampling loop of `sysfs_sample_show` as written, with its error exit
   * (never taken, since `pseudo_read_device` always succeeds): `count`
   * draws, each rendered as a token onto the text.
   */
  method SampleLoop(s: State) returns (st: State, text: string, len: int, i: int)
    ensures i == Samples(s)
    ensures st == DrawMany(s, i).state
    ensures text == Render(DrawMany(s, i).values)
    ensures len == |text|
  {
    st := s;
    i := 0;
    len := 0;
    text := "";
    while i < st.ctx.count
      invariant 0 <= i <= Samples(s)
      invariant st.ctx.count == s.ctx.count
      invariant DrawMany(s, i) == Draws(st, DrawMany(s, i).values)
      invariant text == Render(DrawMany(s, i).values)
      invariant len == |text|
    {
      var read := PseudoReadDevice(st);
      ghost var before := DrawMany(s, i).values;
      st := read.state;
      if read.ret < 0 {
        break;
      }
      var token := Token(st.ctx.data);
      text := text + token;
      len := len + |token|;
      i := i + 1;
      assert DrawMany(s, i).values == before + [st.ctx.data];
      assert (before + [st.ctx.data])[..|before|] == before;
    }
  }

  /**
   * `sysfs_sample_show` as written: the sampling loop, the newline when the
   * loop ran at least once, then `BUG_ON(len > PAGE_SIZE)`.
   */
  method Show(s: State, p: PageSize) returns (r: ShowResult)
    ensures r == ShowSpec(s, p)
    ensures r.state.last == s.last + Samples(s)
    ensures r.state.ctx.count == s.ctx.count
    ensures r.Returned? <==> ReplyLength(Samples(s)) <= p
    ensures r.Returned? ==> r.len == |r.text| == ReplyLength(Samples(s))
    ensures r.Returned? ==> r.text == ShowText(Consecutive(s.last, Samples(s)))
  {
    var st, text, len, i := SampleLoop(s);
    DrawManyConsecutive(s, i);
    if i > 0 {
      text := text + "\n";
      len := len + 1;
    }
    if len > p {
      r := BugOn(st);
    } else {
      r := Returned(st, text, len);
    }
    ShowCounts(s, p);
  }

  /**
   * What one read does to the state and what it returns: the counter moves
   * on by exactly the number of samples, the count is kept, `data` holds the
   * last sample, and the text is the consecutive counter values, with length
   * `9*n + 1` (or 0), returned unless that exceeds the page.
   */
  lemma ShowCounts(s: State, p: PageSize)
    ensures ShowSpec(s, p).state.last == s.last + Samples(s)
    ensures ShowSpec(s, p).state.ctx.count == s.ctx.count
    ensures Samples(s) == 0 ==> ShowSpec(s, p).state == s
    ensures Samples(s) > 0 ==> ShowSpec(s, p).state.ctx.data == (s.last + Samples(s) - 1) % WORD
    ensures ShowSpec(s, p).Returned? <==> ReplyLength(Samples(s)) <= p
    ensures ShowSpec(s, p).Returned? ==>
      ShowSpec(s, p).len == |ShowSpec(s, p).text| == ReplyLength(Samples(s))
    ensures ShowSpec(s, p).Returned? ==>
      ShowSpec(s, p).text == ShowText(Consecutive(s.last, Samples(s)))
  {
    DrawManyConsecutive(s, Samples(s));
  }

  /**
   * Layout of a returned read that drew at least one sample: token `k` is
   * the `%08x` of the k-th counter value followed by a space, and a newline
   * ends the text (`ShowEmpty` covers a read that draws nothing).
   */
  lemma ShowLayout(s: State, p: PageSize, k: nat)
    requires ShowSpec(s, p).Returned?
    requires k < Samples(s)
    ensures |ShowSpec(s, p).text| == TOKEN_WIDTH * Samples(s) + 1
    ensures ShowSpec(s, p).text[TOKEN_WIDTH * k .. TOKEN_WIDTH * k + WIDTH] == Hex8((s.last + k) % WORD)
    ensures ShowSpec(s, p).text[TOKEN_WIDTH * k + WIDTH] == ' '
    ensures ShowSpec(s, p).text[TOKEN_WIDTH * Samples(s)] == '\n'
  {
    var vs := Consecutive(s.last, Samples(s));
    assert ShowSpec(s, p).text == ShowText(vs) by {
      ShowCounts(s, p);
    }
    ShowTextAt(vs, k);
    assert vs[k] == (s.last + k) % WORD;
  }

  /** A read with a count of zero or below returns the empty text and changes nothing. */
  lemma ShowEmpty(s: State, p: PageSize)
    requires s.ctx.count <= 0
    ensures ShowSpec(s, p) == Returned(s, "", 0)
  {
  }

  /** Decoding every token of a read yields the counter values it drew, modulo 2^32. */
  lemma ShowDecodes(s: State, p: PageSize)
    requires ShowSpec(s, p).Returned?
    ensures ParseReply(ShowSpec(s, p).text) == Some(Consecutive(s.last, Samples(s)))
  {
    ShowCounts(s, p);
    ParseShowText(Consecutive(s.last, Samples(s)));
  }

  /**
   * `BUG_ON(len > PAGE_SIZE)` cannot fire while the count respects
   * `MAX_COUNT`: the read returns, and even the NUL `sprintf` leaves after the
   * text lies inside the page.
   */
  lemma NoBugOn(s: State, p: PageSize)
    requires Valid(s, p)
    ensures ShowSpec(s, p).Returned?
    ensures ShowSpec(s, p).len < p
  {
    ShowCounts(s, p);
    var n := Samples(s);
    if n > 0 {
      assert TOKEN_WIDTH * n <= TOKEN_WIDTH * MaxCount(p);
    }
  }

  /** A read keeps the invariant: it never changes the count. */
  lemma ShowKeepsValid(s: State, p: PageSize)
    requires Valid(s, p)
    ensures Valid(ShowSpec(s, p).state, p)
  {
    ShowCounts(s, p);
  }

  /** Result of the write handler: the new state and the value returned to the writer. */
  datatype StoreResult = StoreResult(state: State, ret: int)

  /**
   * `sysfs_sample_store`, given the integer the input parsed to and the
   * input's length: a request above `MAX_COUNT` is refused with `-ERANGE`
   * and changes nothing; any other request, negative ones included, becomes
   * the count and the whole input is reported consumed.
   */
  function Store(s: State, req: Int32, inputLen: nat, p: PageSize): (r: StoreResult)
    ensures r.ret == -ERANGE <==> req > MaxCount(p)
    ensures req > MaxCount(p) ==> r.state == s
    ensures req <= MaxCount(p) ==> r.ret == inputLen
    ensures req <= MaxCount(p) ==> r.state.ctx.count == req
    ensures r.state.ctx.data == s.ctx.data && r.state.last == s.last
  {
    if req > MaxCount(p) then StoreResult(s, -ERANGE)
    else StoreResult(State(s.ctx.(count := req), s.last), inputLen)
  }

  /** Every accepted write leaves a valid state, and a refused one keeps a valid state valid. */
  lemma StoreKeepsValid(s: State, req: Int32, inputLen: nat, p: PageSize)
    ensures Store(s, req, inputLen, p).ret >= 0 ==> Valid(Store(s, req, inputLen, p).state, p)
    ensures Valid(s, p) ==> Valid(Store(s, req, inputLen, p).state, p)
  {
  }

  /** Writing the same count twice leaves the same state as writing it once. */
  lemma StoreIdempotent(s: State, req: Int32, inputLen: nat, p: PageSize)
    ensures Store(Store(s, req, inputLen, p).state, req, inputLen, p) == Store(s, req, inputLen, p)
  {
  }

  /** After an accepted write of `req`, the next read shows `max(req, 0)` consecutive samples. */
  lemma StoreThenShow(s: State, req: Int32, inputLen: nat, p: PageSize)
    requires req <= MaxCount(p)
    ensures ShowSpec(Store(s, req, inputLen, p).state, p).Returned?
    ensures ShowSpec(Store(s, req, inputLen, p).state, p).text
         == ShowText(Consecutive(s.last, if req > 0 then req as nat else 0))
  {
    var t := Store(s, req, inputLen, p).state;
    NoBugOn(t, p);
    ShowCounts(t, p);
  }

  /** The default state satisfies the invariant. */
  lemma LoadedValid(p: PageSize)
    ensures Valid(Loaded(), p)
  {
  }

  /** The first read after loading shows the single sample 0, then a newline. */
  lemma FirstRead(p: PageSize)
    ensures ShowSpec(Loaded(), p) == Returned(State(Context(1, 0), 1), "00000000 \n", 10)
  {
  }
}
