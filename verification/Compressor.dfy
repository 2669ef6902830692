/** Whole calls of the compressor: the parser's loop, the flushes, and `tdefl_compress` over any
    chunking of the input and of the output. */
module Compressor {
  import opened Bits
  import opened Tokens
  import opened InflateSpec
  import opened Canonical
  import opened SymFreqs
  import opened Settings
  import opened BitWriter
  import opened LzCodes
  import opened Window
  import opened Parsing
  import opened HashChains
  import opened ChainSearch
  import opened LazyParser
  import opened FastParser
  import opened FlushBlock
  import opened StreamRoundTrip
  import MF = MatchFinder
  import HuffTable
  import Adler32

  /** The caller's output buffer, and what still waits for room in it. */
  class Sink {
    var outBuf: seq<Byte>          // what was put into it, m_out_buf_ofs bytes
    var outSize: nat               // its size
    var flushOfs: nat              // m_output_flush_ofs
    var flushRemaining: nat        // m_output_flush_remaining
    ghost var delivered: seq<Byte> // what earlier calls put out

    constructor ()
      ensures outBuf == [] && outSize == 0 && flushOfs == 0 && flushRemaining == 0 && delivered == []
    {
      outBuf, outSize, flushOfs, flushRemaining, delivered := [], 0, 0, 0, [];
    }

    /** Every byte produced was put out once and in order, but for those that still wait in `buf`. */
    ghost predicate Holds(emitted: seq<Byte>, buf: seq<Byte>)
      reads this
    {
      && flushOfs + flushRemaining <= |buf| && |outBuf| <= outSize
      && emitted == delivered + outBuf + buf[flushOfs..flushOfs + flushRemaining]
    }

    /** Bytes wait only when the caller's buffer is full. */
    predicate Full() reads this { flushRemaining > 0 ==> |outBuf| == outSize }

    /** The end of `tdefl_flush_block`: as much as fits goes into the caller's buffer, the rest waits. */
    method PutOut(buf: array<Byte>, n: nat, ghost emitted: seq<Byte>)
      requires n <= buf.Length && |outBuf| <= outSize && emitted == delivered + outBuf
      modifies this`outBuf, this`flushOfs, this`flushRemaining
      ensures Holds(emitted + buf[..n], buf[..]) && Full()
    {
      flushOfs, flushRemaining := 0, 0;
      var room := outSize - |outBuf|;
      var k := if n < room then n else room;
      outBuf := outBuf + buf[..k];
      if n != k {
        flushOfs, flushRemaining := k, n - k;
      }
      assert buf[..k] + buf[k..n] == buf[..n];
    }

    /** `tdefl_flush_output_buffer`: more of what waits goes out. */
    method FlushOutput(buf: array<Byte>, ghost emitted: seq<Byte>)
      requires Holds(emitted, buf[..])
      modifies this`outBuf, this`flushOfs, this`flushRemaining
      ensures Holds(emitted, buf[..]) && Full() && |outBuf| >= old(|outBuf|)
      ensures old(Full()) ==> flushRemaining == old(flushRemaining)
    {
      var room := outSize - |outBuf|;
      var n := if room < flushRemaining then room else flushRemaining;
      assert buf[flushOfs..flushOfs + n] + buf[flushOfs + n..flushOfs + flushRemaining] == buf[flushOfs..flushOfs + flushRemaining];
      outBuf := outBuf + buf[flushOfs..flushOfs + n];
      flushOfs := flushOfs + n;
      flushRemaining := flushRemaining - n;
    }
  }

  // ---------- what the recorded tokens stand for

  /** The source that the recorded tokens stand for. */
  ghost function Unflushed(v: View): seq<Byte> {
    if v.f + TotalLen(v.tokens) <= |v.source| then v.source[v.f..v.f + TotalLen(v.tokens)] else []
  }

  lemma UnflushedFacts(v: View)
    requires Parses(v)
    ensures v.f + TotalLen(v.tokens) <= |v.source| && |Unflushed(v)| == TotalLen(v.tokens)
    ensures Unflushed(v) == v.source[v.f..v.f + TotalLen(v.tokens)]
    ensures AllApply(v.source[..v.f], v.tokens) && Expand(v.source[..v.f], v.tokens) == v.source[..v.f] + Unflushed(v)
  {
    hide AllApply, Expand;
    Flushed(v);
    var x := v.f + TotalLen(v.tokens);
    assert v.source[..x] == v.source[..v.f] + v.source[v.f..x];
  }

  lemma FlushedSource(v: View, data: seq<Byte>)
    requires Parses(v) && data == Unflushed(v)
    ensures v.f + |data| <= |v.source| && v.source[..v.f] + data == v.source[..v.f + |data|]
    ensures v.f + |data| + Unrecorded(v) == v.p && Parses(v.(f := v.f + |data|, tokens := []))
  {
    hide Pending;
    Flushed(v);
  }

  /** The dictionary reaches back as far as `dictSize` says. */
  lemma WindowHolds(dict: seq<Byte>, v: View, lookaheadPos: nat, dictPos: nat, data: seq<Byte>)
    requires Parses(v) && Win(dict, v.source) && lookaheadPos == Wrap32(v.p) && dictPos == Wrap32(v.f)
    requires v.dictSize + v.look <= LZ_DICT_SIZE && AllValid(v.tokens) && |v.tokens| <= LZ_CODE_BUF_SIZE && data == Unflushed(v)
    ensures |dict| == MF.DICT_LENGTH && InWindow(dict, dictPos, lookaheadPos, v.dictSize, data)
  {
    hide Win, Parses, Slot, Wrap32, Span, Unflushed, AllValid;
    TotalBound(v.tokens);
    UnflushedFacts(v);
    FlushedSource(v, data);
    SpanIs(v.p, v.f);
    WinLength(dict, v.source);
    if Span(lookaheadPos, dictPos) <= v.dictSize {
      LookLength(v);
      forall i | 0 <= i < |data| ensures dict[Slot(dictPos, i)] == data[i] {
        DataAt(dict, v, dictPos, i);
      }
    }
  }

  lemma LookLength(v: View)
    requires Parses(v)
    ensures |v.source| == v.p + v.look && v.dictSize <= v.p
  {
  }

  lemma DataAt(dict: seq<Byte>, v: View, dictPos: nat, i: nat)
    requires Win(dict, v.source) && dictPos == Wrap32(v.f) && v.f + i < |v.source| <= v.f + i + LZ_DICT_SIZE
    ensures |dict| == MF.DICT_LENGTH && dict[Slot(dictPos, i)] == v.source[v.f + i]
  {
    hide Wrap32;
    NextSlot(v.f, dictPos, i);
    assert v.source[v.f + i] == dict[(v.f + i) % LZ_DICT_SIZE];
  }

  /** The dictionary still holds the block's data, or they are many and the tokens worth their bits. */
  lemma HeldOrMany(v: View, base: nat, lookaheadPos: nat, dictPos: nat)
    requires Parses(v) && Thrifty(v, base) && AllValid(v.tokens) && |v.tokens| <= LZ_CODE_BUF_SIZE
    requires lookaheadPos == Wrap32(v.p) && dictPos == Wrap32(v.f)
    ensures dictPos < MAX_WORD32 && (Span(lookaheadPos, dictPos) <= v.dictSize || (AllWorth(v.tokens) && TotalLen(v.tokens) >= FAR))
  {
    hide Parses, Wrap32, Span, AllWorth;
    TotalBound(v.tokens);
    Flushed(v);
    SpanIs(v.p, v.f);
    if v.p - v.f > v.dictSize { ManyBytes(v, base); }
  }

  lemma SpanIs(p: nat, f: nat)
    requires f <= p < f + MAX_WORD32
    ensures Span(Wrap32(p), Wrap32(f)) == p - f
  {
    var a, b := p / MAX_WORD32, f / MAX_WORD32;
    assert p % MAX_WORD32 + MAX_WORD32 - f % MAX_WORD32 == p - f + MAX_WORD32 * (1 - a + b);
    if a == b {
      DivUnique(p - f + MAX_WORD32, MAX_WORD32, 1, p - f);
    }
  }

  /** What a flush may cost beyond its data, in tenths of a bit. */
  function Charge(flush: FlushKind, v: View): nat { if flush == NoFlush && TotalLen(v.tokens) >= SOME then 0 else 1000 }

  lemma FlushCharged(before: Bitstring, after: Bitstring, first: bool, plan: Plan, flush: FlushKind, adler: nat, v: View, base: nat, opts: Options,
                     lookaheadPos: nat, dictPos: nat)
    requires Parses(v) && Thrifty(v, base) && AllValid(v.tokens) && |v.tokens| <= LZ_CODE_BUF_SIZE
    requires lookaheadPos == Wrap32(v.p) && dictPos == Wrap32(v.f) && dictPos < MAX_WORD32
    requires FlushSends(before, after, first, plan, flush, opts.zlib, adler, v.tokens, Unflushed(v))
    requires Choice(plan, v.tokens, Unflushed(v), opts, Span(lookaheadPos, dictPos) <= v.dictSize, HeadRoom(before, first))
    ensures 10 * |after| <= 10 * |before| + Rate(opts) * |Unflushed(v)| + Charge(flush, v)
  {
    hide Parses, Thrifty, FlushSends, Choice, AllWorth, TotalLen, Wrap32, Span, HeadRoom, Unflushed, Rate, AllValid;
    UnflushedFacts(v);
    HeldOrMany(v, base, lookaheadPos, dictPos);
    FlushCheap(before, after, first, plan, flush, opts.zlib, adler, v.tokens, Unflushed(v), opts,
               Span(lookaheadPos, dictPos) <= v.dictSize, HeadRoom(before, first));
  }

  // ---------- the compressor

  /** Where a full flush last forgot the window: in bits of the stream, and in bytes of the source. */
  datatype Mark = Mark(cut: nat, base: nat)

  /** The stream decodes to the source that was flushed, and so does by itself what follows a full flush. A zlib
      header goes out whenever the 32-bit block index is 0, which is once in fewer than 2^32 blocks. */
  ghost predicate Tracked(stream: Bitstring, zlib: bool, blocks: nat, body: Bitstring, m: Mark, source: seq<Byte>, f: nat) {
    && m.base <= f <= |source|
    && (OneHeader(zlib, blocks) ==> Streamed(stream, zlib, blocks, body, source[..f]) &&
                                    (m.cut > 0 ==> blocks > 0 && Restarted(stream, m.cut, source[m.base..f])))
  }

  predicate OneHeader(zlib: bool, blocks: nat) { zlib ==> blocks <= MAX_WORD32 }

  lemma TrackFlush(stream: Bitstring, zlib: bool, blocks: nat, body: Bitstring, m: Mark, v: View, plan: Plan, flush: FlushKind, adler: nat,
                   first: bool, all: Bitstring)
    returns (body': Bitstring)
    requires Parses(v) && Thrifty(v, m.base) && Tracked(stream, zlib, blocks, body, m, v.source, v.f) && flush != Finish
    requires first == (zlib && Wrap32(blocks) == 0)
    requires FlushSends(stream, all, first, plan, flush, zlib, adler, v.tokens, Unflushed(v))
    ensures Tracked(all, zlib, blocks + 1, body', m, v.source, v.f + |Unflushed(v)|)
  {
    hide Streamed, Restarted, FlushSends, Parses, AllApply, Expand, Thrifty, Unflushed;
    var data := Unflushed(v);
    UnflushedFacts(v);
    FlushedSource(v, data);
    UnflushedSince(v, m.base);
    body' := body;
    if OneHeader(zlib, blocks + 1) {
      body' := StreamFlush(stream, zlib, blocks, body, v.source[..v.f], plan, flush, adler, v.tokens, data, all);
      if m.cut > 0 {
        RestartFlush(stream, m.cut, v.source[m.base..v.f], plan, flush, zlib, adler, v.tokens, data, all);
      }
    }
  }

  /** What is flushed next, behind a full flush. */
  lemma UnflushedSince(v: View, base: nat)
    requires Parses(v) && Thrifty(v, base)
    ensures base <= v.f && v.f + |Unflushed(v)| <= |v.source|
    ensures var so := v.source[base..v.f]; AllApply(so, v.tokens) && Expand(so, v.tokens) == so + Unflushed(v)
    ensures v.source[base..v.f] + Unflushed(v) == v.source[base..v.f + |Unflushed(v)|]
  {
    hide AllApply, Expand, AllWorth, Parses;
    UnflushedFacts(v);
    var u := Since(v, base);
    UnflushedFacts(u);
    assert u.source[..u.f] == v.source[base..v.f];
    assert Unflushed(u) == Unflushed(v);
  }

  /** A flush of the tokens in mid-stream: the positions, the stream, and where it ends. */
  lemma FlushedOn(stream: Bitstring, zlib: bool, blocks: nat, body: Bitstring, m: Mark, v: View, plan: Plan, flush: FlushKind, adler: nat,
                  first: bool, all: Bitstring)
    returns (body': Bitstring)
    requires Parses(v) && Thrifty(v, m.base) && Tracked(stream, zlib, blocks, body, m, v.source, v.f) && flush != Finish
    requires first == (zlib && Wrap32(blocks) == 0)
    requires FlushSends(stream, all, first, plan, flush, zlib, adler, v.tokens, Unflushed(v))
    ensures Tracked(all, zlib, blocks + 1, body', m, v.source, v.f + |Unflushed(v)|)
    ensures Wrap32(Wrap32(v.f) + |Unflushed(v)|) == Wrap32(v.f + |Unflushed(v)|) && Wrap32(Wrap32(blocks) + 1) == Wrap32(blocks + 1)
    ensures FlushedView(v) == v.(f := v.f + |Unflushed(v)|, tokens := []) && Parses(FlushedView(v))
    ensures (InMid(flush) ==> |all| % 8 == 0) && |all| > 0 && (v.look == 0 ==> v.f + |Unflushed(v)| == |v.source|)
  {
    hide Parses, Tracked, FlushSends, Unflushed, Wrap32, Thrifty;
    FlushedPositions(blocks, v);
    body' := TrackFlush(stream, zlib, blocks, body, m, v, plan, flush, adler, first, all);
    if InMid(flush) { SyncAligned(stream, all, first, plan, flush, zlib, adler, v.tokens, Unflushed(v)); }
    SomethingSent(stream, all, first, plan, flush, zlib, adler, v.tokens, Unflushed(v));
    if v.look == 0 { AllFlushed(v); }
  }

  lemma SomethingSent(before: Bitstring, after: Bitstring, first: bool, plan: Plan, flush: FlushKind, zlib: bool, adler: nat, ts: seq<Token>,
                      data: seq<Byte>)
    requires FlushSends(before, after, first, plan, flush, zlib, adler, ts, data)
    ensures |after| > |before|
  {
    hide Possible, PlanBits, Tail, Head;
    SendsFacts(before, after, first, plan, flush, zlib, adler, ts, data);
  }

  lemma FlushedPositions(blocks: nat, v: View)
    requires Parses(v)
    ensures Wrap32(Wrap32(v.f) + |Unflushed(v)|) == Wrap32(v.f + |Unflushed(v)|) && Wrap32(Wrap32(blocks) + 1) == Wrap32(blocks + 1)
    ensures FlushedView(v) == v.(f := v.f + |Unflushed(v)|, tokens := []) && Parses(FlushedView(v))
  {
    hide Parses, Unflushed, Wrap32;
    PosAdd(v.f, |Unflushed(v)|);
    PosAdd(blocks, 1);
    UnflushedFacts(v);
    FlushedSource(v, Unflushed(v));
  }

  lemma StartsEmpty(zlib: bool)
    ensures Thrifty(View([], 0, 0, 0, 0, 0, 0, 0, []), 0) && Tracked([], zlib, 0, [], Mark(0, 0), [], 0)
  {
    hide Streamed;
    var none: seq<Byte> := [];
    assert none[..0] == none[0..] == [];
    StreamStart(zlib);
  }

  class Deflater {
    const out: Output
    const parser: Parser
    const sink: Sink
    var adler: nat            // m_adler32
    var finished: bool
    var wantsToFinish: bool
    var prevStatus: Status
    ghost var blocks: nat     // the blocks sent so far
    ghost var body: Bitstring // the stream without the zlib header
    ghost var flushes: nat    // how many of the blocks were asked for by the caller
    ghost var mark: Mark      // where the window was last forgotten

    /** `tdefl_init`. The chains and the dictionary may hold anything, as they do when they are not cleared. */
    constructor (opts: Options, platform: Platform, dict: array<Byte>, next: array<Word16>, hash: array<Word16>)
      requires dict.Length == MF.DICT_LENGTH && next.Length == LZ_DICT_SIZE && hash.Length == HASH_SIZE && next != hash
      ensures Running() && parser.TheView() == View([], 0, 0, 0, 0, 0, 0, 0, []) && out.opts == opts
      ensures out.emitted == [] && sink.delivered == [] && sink.outBuf == [] && sink.flushRemaining == 0 && adler == 1
      ensures !finished && !wantsToFinish && prevStatus == Okay && blocks == 0 && flushes == 0 && out.d.pos == 1
      ensures parser.dict == dict && parser.next == next && parser.hash == hash && fresh(out.repr) && fresh(parser) && fresh(sink)
    {
      hide Win, Parses, Written, LitCounted, DistCounted, Recorded, Streamed, Wrap32, ByteBits, Thrifty, Tracked, AllIn, Rate, Output.Valid;
      var o := new Output(opts, WideEmitter(platform));
      OutputFacts(o);
      out := o;
      parser := new Parser(o.d, opts, platform, dict, next, hash);
      sink := new Sink();
      adler, finished, wantsToFinish, prevStatus, blocks, body, flushes, mark := 1, false, false, Okay, 0, [], 0, Mark(0, 0);
      new;
      StartView(dict[..]);
      StartsEmpty(opts.zlib);
      AllInStart(parser.TheChains(), parser.source);
    }

    ghost predicate Wired() {
      && parser.d == out.d && parser.Shape() && parser.opts == out.opts
      && parser.dict !in out.repr && parser.next !in out.repr && parser.hash !in out.repr
      && this !in out.repr && parser !in out.repr && sink !in out.repr
    }

    ghost predicate Linked()
      reads out.w`end
    {
      Wired() && out.Shape()
    }

    lemma WiredShape()
      requires Wired()
      ensures parser.Shape()
    {
    }

    lemma WiredFacts()
      requires Wired()
      ensures parser.d == out.d && parser.dict.Length == DICT_LENGTH && parser.dict != out.d.buf
      ensures parser.dict !in out.repr && this !in out.repr && parser !in out.repr && sink !in out.repr
      ensures parser.next !in out.repr && parser.hash !in out.repr
    {
    }

    /** Between the steps of the parser's loop, but for the caller's buffer. */
    ghost predicate Core()
      reads `adler, `blocks, `body, `flushes, `mark, parser, parser.dict, parser.next, parser.hash, out, out.w, out.w.buf, out.d, out.d.buf, out.d.lit.count, out.d.dist.count
    {
      && Linked() && parser.Valid() && out.Valid() && out.dictPos == Wrap32(parser.f) && out.blockIndex == Wrap32(blocks)
      && Tracked(out.stream, out.opts.zlib, blocks, body, mark, parser.source, parser.f) && adler < MAX_WORD32
      && Thrifty(parser.TheView(), mark.base) && Paid(parser.f) && Chained()
    }

    /** Every position since the window was forgotten is in the chains, but at level 1, which has none. */
    ghost predicate Chained()
      reads `mark, parser`source, parser`origin, parser.next, parser.hash
    {
      && parser.next.Length == LZ_DICT_SIZE && parser.hash.Length == HASH_SIZE
      && (!parser.Fast() ==> AllIn(parser.TheChains(), parser.origin, parser.source, mark.base, |parser.source|))
    }

    /** The stream takes little more room than the `n` bytes of the source that it stands for. */
    ghost predicate Paid(n: nat)
      reads `flushes, out`stream
    {
      10 * |out.stream| <= Rate(out.opts) * n + 1000 * flushes
    }

    /** Between the steps of the parser's loop. */
    ghost predicate Running()
      reads `adler, `blocks, `body, `flushes, `mark, parser, parser.dict, parser.next, parser.hash, sink, out, out.w, out.w.buf, out.d, out.d.buf, out.d.lit.count, out.d.dist.count
    {
      Core() && sink.Holds(out.emitted, out.w.buf[..])
    }

    /** The block goes out, and its bytes into the caller's buffer as far as they fit. */
    method SendTokens(flush: FlushKind, ghost v: View) returns (ghost plan: Plan)
      requires Running() && sink.flushRemaining == 0 && v == parser.TheView()
      modifies sink`outBuf, sink`flushOfs, sink`flushRemaining, out.repr
      ensures out.Valid() && Linked() && out.d.tokens == [] && out.d.pos == 1
      ensures out.dictPos == Wrap32(old(out.dictPos) + |Unflushed(v)|) && out.blockIndex == Wrap32(old(out.blockIndex) + 1)
      ensures sink.Holds(out.emitted, out.w.buf[..]) && sink.Full()
      ensures FlushSends(old(out.stream), out.stream, out.opts.zlib && old(out.blockIndex) == 0, plan, flush, out.opts.zlib, adler,
                         v.tokens, Unflushed(v))
      ensures parser.TheView() == v.(tokens := []) && parser.Windowed()
      ensures 10 * |out.stream| <= 10 * |old(out.stream)| + Rate(out.opts) * |Unflushed(v)| + Charge(flush, v)
    {
      hide Win, Parses, Written, LitCounted, DistCounted, Recorded, InWindow, Tracked, FlushSends, ByteBits, Wrap32, Unflushed,
        Layout, AllValid, Output.Footprint, Output.Valid, Output.Shape, Parser.Windowed, Sink.Holds, Parser.Shape, Wired, Span, Linked, Sink.Full;
      ghost var emitted := out.emitted;
      RunningFacts();
      NothingWaits(sink, emitted, out.w.buf[..]);
      var size;
      size, plan := EmitTokens(flush, v);
      sink.PutOut(out.w.buf, size, emitted);
    }

    lemma RunningFacts()
      requires Running()
      ensures Linked() && sink !in out.repr && sink.Holds(out.emitted, out.w.buf[..])
    {
    }

    method EmitTokens(flush: FlushKind, ghost v: View) returns (size: nat, ghost plan: Plan)
      requires Running() && v == parser.TheView()
      modifies out.repr
      ensures out.Valid() && Linked() && out.d.tokens == [] && out.d.pos == 1
      ensures out.dictPos == Wrap32(old(out.dictPos) + |Unflushed(v)|) && out.blockIndex == Wrap32(old(out.blockIndex) + 1)
      ensures size <= out.w.buf.Length && out.emitted == old(out.emitted) + out.w.buf[..size]
      ensures FlushSends(old(out.stream), out.stream, out.opts.zlib && old(out.blockIndex) == 0, plan, flush, out.opts.zlib, adler,
                         v.tokens, Unflushed(v))
      ensures parser.TheView() == v.(tokens := []) && parser.Windowed()
      ensures 10 * |out.stream| <= 10 * |old(out.stream)| + Rate(out.opts) * |Unflushed(v)| + Charge(flush, v)
    {
      hide Win, Parses, Written, LitCounted, DistCounted, Recorded, InWindow, Tracked, FlushSends, ByteBits, Wrap32, Unflushed,
        Layout, AllValid, Output.Footprint, Output.Valid, Output.Shape, Parser.Windowed, Sink.Holds, Parser.Shape, Wired, Span, Choice, Thrifty,
        Charge, Rate, HeadRoom, Paid, AllWorth, Head, TotalLen;
      WiredFacts();
      OutputFacts(out);
      WindowedFacts(parser);
      ghost var data, was, first := Unflushed(v), out.stream, out.opts.zlib && out.blockIndex == 0;
      assert out.d.tokens == v.tokens;
      TokensFit(out.d.lit.count[..], out.d.buf[..], out.d.pos, out.d.flagPos, out.d.flagsLeft, v.tokens);
      UnflushedFacts(v);
      WindowHolds(parser.dict[..], v, parser.lookaheadPos, out.dictPos, data);
      ghost var dictPos := out.dictPos;
      size, plan := out.FlushBlock(parser.dict, parser.lookaheadPos, parser.dictSize, flush, adler, data);
      assert FlushSends(was, out.stream, first, plan, flush, out.opts.zlib, adler, v.tokens, data);
      FlushCharged(was, out.stream, first, plan, flush, adler, v, mark.base, out.opts, parser.lookaheadPos, dictPos);
      assert out.dictPos == Wrap32(dictPos + |data|);
    }

    /** Everything taken in was flushed, and the stream ends with a whole byte. */
    ghost predicate CaughtUp()
      reads `blocks, parser`f, parser`source, out`stream
    {
      parser.f == |parser.source| && |out.stream| > 0 && |out.stream| % 8 == 0 && blocks > 0
    }

    /** A flush goes out by itself when the tokens stand for many bytes, and else counts as one that the caller asked for. */
    ghost predicate Affords(flush: FlushKind)
      reads `flushes, parser`f, out`stream, out.d`tokens
    {
      if flush == NoFlush then TotalLen(out.d.tokens) >= SOME
      else 10 * |out.stream| + 1000 <= Rate(out.opts) * parser.f + 1000 * flushes
    }

    /** A flush of the tokens in mid-stream; `n` bytes wait for room. */
    method FlushTokens(flush: FlushKind) returns (n: nat)
      requires Running() && sink.flushRemaining == 0 && flush != Finish && Affords(flush)
      modifies this`blocks, this`body, parser`f, sink`outBuf, sink`flushOfs, sink`flushRemaining, out.repr
      ensures Running() && n == sink.flushRemaining && sink.Full() && out.d.pos == 1 && blocks == old(blocks) + 1
      ensures parser.TheView() == FlushedView(old(parser.TheView()))
      ensures InMid(flush) && parser.lookaheadSize == 0 ==> CaughtUp()
    {
      hide Chained, Win, Parses, Written, LitCounted, DistCounted, Recorded, InWindow, Tracked, FlushSends, ByteBits, Wrap32, Unflushed,
        Layout, AllValid, Output.Footprint, Output.Valid, Output.Shape, Parser.Windowed, Sink.Holds, Parser.Shape, Wired, Thrifty, Rate, TotalLen;
      WiredFacts();
      ghost var v, stream, first := parser.TheView(), out.stream, out.opts.zlib && out.blockIndex == 0;
      FlushedThrifty(v, mark.base);
      PaidOn(out.opts, |out.stream|, parser.f, |Unflushed(v)|, flushes);
      ghost var plan := SendTokens(flush, v);
      ghost var next := FlushedOn(stream, out.opts.zlib, blocks, body, mark, v, plan, flush, adler, first, out.stream);
      body, blocks := next, blocks + 1;
      parser.f := parser.f + |Unflushed(v)|;
      assert parser.TheView() == FlushedView(v);
      WiredShape();
      n := sink.flushRemaining;
    }

    /** One round of the parser's loop up to its flush; `more` says that a step was made. */
    method Advance(flush: FlushKind) returns (more: bool)
      requires !parser.Fast() && Running() && out.d.pos <= FULL_BUFFER && (parser.srcPos < |parser.src| || (flush != NoFlush && parser.lookaheadSize > 0))
      modifies parser`savedDist, parser`savedLen, parser`savedLit, parser`lookaheadPos, parser`lookaheadSize, parser`dictSize, parser`p
      modifies parser`srcPos, parser`source, parser.dict, parser.next, parser.hash
      modifies out.d`pos, out.d`flagPos, out.d`flagsLeft, out.d`totalBytes, out.d`tokens, out.d.buf, out.d.lit.count, out.d.dist.count
      ensures Running() && old(parser.srcPos) <= parser.srcPos <= |parser.src|
      ensures parser.source == old(parser.source) + parser.src[old(parser.srcPos)..parser.srcPos]
      ensures more ==> Left() < old(Left())
      ensures !more ==> flush == NoFlush && parser.srcPos == |parser.src| && out.d.pos == old(out.d.pos)
    {
      hide Core, Sink.Holds, Output.Valid, Parser.Valid;
      RunningApart();
      Refill();
      if flush == NoFlush && parser.lookaheadSize < MAX_MATCH_LEN { return false; }
      Parse();
      more := true;
    }

    lemma RunningApart()
      requires Running()
      ensures parser.dict !in out.repr && this !in out.repr && parser !in out.repr && sink !in out.repr
      ensures out.Valid() && out.d in out.repr && out.d.buf in out.repr && out.d.lit.count in out.repr && out.d.dist.count in out.repr
      ensures parser.Windowed() && parser.d == out.d
    {
      hide Sink.Holds, Output.Valid, Tracked, Parser.Windowed, Parses, Wrap32, Parser.Shape;
      WiredFacts();
      Footprints(out);
    }

    method Refill()
      requires !parser.Fast() && Running()
      modifies parser`lookaheadSize, parser`dictSize, parser`srcPos, parser`source, parser.dict, parser.next, parser.hash
      ensures Running() && old(parser.srcPos) <= parser.srcPos <= |parser.src| && Left() == old(Left())
      ensures parser.source == old(parser.source) + parser.src[old(parser.srcPos)..parser.srcPos]
      ensures parser.srcPos == |parser.src| || parser.lookaheadSize == MAX_MATCH_LEN
    {
      hide Win, Parses, Written, LitCounted, DistCounted, Recorded, Tracked, ByteBits, Wrap32, Output.Footprint, Sink.Holds, Thrifty, Hashed,
        Rate, Paid, Output.Valid, AllIn;
      ghost var v, was := parser.TheView(), parser.TheChains();
      parser.Refill();
      FilledIn(was, parser.origin, v, parser.src[old(parser.srcPos)..parser.srcPos], mark.base);
      FillThrifty(v, parser.TheView(), parser.src[old(parser.srcPos)..parser.srcPos], mark.base);
      TrackLater(out.stream, out.opts.zlib, blocks, body, mark, old(parser.source), parser.src[old(parser.srcPos)..parser.srcPos], parser.f);
    }

    method Parse()
      requires !parser.Fast() && Running() && out.d.pos <= FULL_BUFFER && parser.lookaheadSize >= 1
      modifies parser`savedDist, parser`savedLen, parser`savedLit, parser`lookaheadPos, parser`lookaheadSize, parser`dictSize, parser`p
      modifies out.d`pos, out.d`flagPos, out.d`flagsLeft, out.d`totalBytes, out.d`tokens, out.d.buf, out.d.lit.count, out.d.dist.count
      ensures Running() && parser.lookaheadSize < old(parser.lookaheadSize)
    {
      hide Win, Parses, Written, LitCounted, DistCounted, Recorded, Tracked, ByteBits, Wrap32, Output.Footprint, Sink.Holds, Thrifty, Stepped,
        Parser.Offered, Rate;
      ghost var v, best := parser.TheView(), parser.Chosen();
      parser.ParseStep();
      StepThrifty(v, best.dist, best.len, out.opts.greedy || out.opts.rle, parser.TheView(), mark.base);
    }

    /** The match chosen at any time: it is given up only when it is dropped, and of the latest positions that hash like
        this one, as many as there are probes for, none agrees with it any further. */
    lemma LongestChosen() returns (best: MF.Best)
      requires Running() && !parser.Fast() && !out.opts.rle && !out.opts.forceRaw && parser.lookaheadSize >= MIN_MATCH_LEN
      ensures var v := parser.TheView(); mark.base <= v.p && v.p + 2 < |v.source| && parser.Shape() && v.dictSize + v.look <= LZ_DICT_SIZE
      ensures parser.Chosen() == if parser.Dropped(best) then MF.Best(0, 0) else best
      ensures best == parser.Start() || (best.len > parser.Start().len && Found(parser.TheView(), best.dist, best.len))
      ensures forall i :: 1 <= i < parser.MaxProbes(parser.Start().len) ==>
                NoLonger(parser.source, mark.base, parser.p, parser.dictSize, i, best.len)
    {
      hide Tracked, Output.Valid, Sink.Holds, Parses, NoLonger, MF.FindBest, Win, AllIn, Paid, Parser.Dropped, MF.Sound;
      ParsesWithin(parser.TheView());
      if parser.savedLen > 0 { PendingFacts(parser.TheView()); }
      best := parser.Offered();
      var q := MF.Query(parser.dict[..], parser.next[..], parser.lookaheadPos, parser.dictSize, parser.lookaheadSize);
      MF.FindSound(q, parser.Start(), parser.MaxProbes(parser.Start().len));
      if best != parser.Start() { MatchFound(q, parser.TheView(), parser.Start(), best); }
      forall i | 1 <= i < parser.MaxProbes(parser.Start().len)
        ensures NoLonger(parser.source, mark.base, parser.p, parser.dictSize, i, best.len)
      {
        SearchReaches(q, parser.hash[..], parser.origin, parser.source, mark.base, parser.p, parser.Start(),
                      parser.MaxProbes(parser.Start().len), i);
      }
    }

    /** The source bytes not yet parsed. */
    ghost function Left(): nat
      reads parser
    {
      (if parser.srcPos <= |parser.src| then |parser.src| - parser.srcPos else 0) + parser.lookaheadSize
    }

    /** One round of the parser's loop; `go` says that the loop goes on. */
    method Round(flush: FlushKind) returns (go: bool)
      requires !parser.Fast() && Running() && out.d.pos <= FULL_BUFFER && (parser.srcPos < |parser.src| || (flush != NoFlush && parser.lookaheadSize > 0))
      requires sink.flushRemaining == 0
      modifies this`blocks, this`body, sink`outBuf, sink`flushOfs, sink`flushRemaining, out.repr
      modifies parser`savedDist, parser`savedLen, parser`savedLit, parser`lookaheadPos, parser`lookaheadSize, parser`dictSize, parser`p
      modifies parser`srcPos, parser`source, parser`f, parser.dict, parser.next, parser.hash
      ensures Running() && out.d.pos <= FULL_BUFFER && old(parser.srcPos) <= parser.srcPos <= |parser.src|
      ensures parser.source == old(parser.source) + parser.src[old(parser.srcPos)..parser.srcPos]
      ensures go ==> Left() < old(Left()) && sink.flushRemaining == 0
      ensures !go ==> sink.Full() && (sink.flushRemaining > 0 || (flush == NoFlush && parser.srcPos == |parser.src|))
      ensures blocks + old(parser.f) <= old(blocks) + parser.f
    {
      hide Core, Sink.Holds, Output.Valid, TotalLen;
      RunningApart();
      go := Advance(flush);
      if go {
        if DueNow() {
          RunningApart();
          DueData(out);
          var n := FlushTokens(NoFlush);
          go := n == 0;
        }
      }
    }

    /** `tdefl_compress_normal`: all input is parsed, and with a flush the lookahead too, unless bytes
        wait for room. */
    method CompressNormal(flush: FlushKind)
      requires !parser.Fast() && Running() && out.d.pos <= FULL_BUFFER && sink.flushRemaining == 0
      modifies this`blocks, this`body, sink`outBuf, sink`flushOfs, sink`flushRemaining, out.repr
      modifies parser`savedDist, parser`savedLen, parser`savedLit, parser`lookaheadPos, parser`lookaheadSize, parser`dictSize, parser`p
      modifies parser`srcPos, parser`source, parser`f, parser.dict, parser.next, parser.hash
      ensures Running() && out.d.pos <= FULL_BUFFER && parser.srcPos >= old(parser.srcPos)
      ensures parser.source == old(parser.source) + parser.src[old(parser.srcPos)..parser.srcPos]
      ensures sink.flushRemaining > 0 || (parser.srcPos == |parser.src| && (flush != NoFlush ==> parser.lookaheadSize == 0))
      ensures sink.Full() && blocks + old(parser.f) <= old(blocks) + parser.f
    {
      hide Win, Parses, Written, LitCounted, DistCounted, Recorded, Tracked, ByteBits, Wrap32, Output.Footprint, Sink.Holds, Output.Valid,
        Parser.Windowed, TotalLen;
      ghost var base, start := parser.source, parser.srcPos;
      SourceStart(parser);
      while parser.srcPos < |parser.src| || (flush != NoFlush && parser.lookaheadSize > 0)
        invariant Running() && out.d.pos <= FULL_BUFFER && sink.flushRemaining == 0
        invariant start <= parser.srcPos <= |parser.src| && parser.source == base + parser.src[start..parser.srcPos]
        invariant blocks + old(parser.f) <= old(blocks) + parser.f
        decreases Left()
      {
        ghost var at := parser.srcPos;
        var go := Round(flush);
        SliceOn(base, parser.src, start, at, parser.srcPos);
        if !go { return; }
      }
    }

    /** One step of the fast parser: four bytes ahead allow a match. */
    method FastAdvance(four: bool)
      requires parser.Fast() && Running() && out.d.pos <= FULL_BUFFER && parser.lookaheadSize >= (if four then 4 else 1)
      modifies parser`lookaheadPos, parser`lookaheadSize, parser`dictSize, parser`p, parser.hash
      modifies out.d`pos, out.d`flagPos, out.d`flagsLeft, out.d`totalBytes, out.d`tokens, out.d.buf, out.d.lit.count, out.d.dist.count
      ensures Running() && parser.lookaheadSize < old(parser.lookaheadSize)
    {
      hide Win, Parses, Written, LitCounted, DistCounted, Recorded, Tracked, ByteBits, Wrap32, Output.Footprint, Sink.Holds, Thrifty, Stepped,
        Candidate, Rate;
      ghost var v := parser.TheView();
      if four {
        ghost var best := Candidate(parser);
        FastStep(parser);
        StepThrifty(v, best.dist, best.len, true, parser.TheView(), mark.base);
      } else {
        FastLiteral(parser);
        StepThrifty(v, 0, 0, true, parser.TheView(), mark.base);
      }
    }

    /** The same, with the flush of a full code buffer; `go` says that nothing waits for room. */
    method FastOne(four: bool) returns (go: bool)
      requires parser.Fast() && Running() && out.d.pos <= FULL_BUFFER && parser.lookaheadSize >= (if four then 4 else 1)
      requires sink.flushRemaining == 0
      modifies this`blocks, this`body, sink`outBuf, sink`flushOfs, sink`flushRemaining, out.repr
      modifies parser`lookaheadPos, parser`lookaheadSize, parser`dictSize, parser`p, parser`f, parser.hash
      ensures Running() && out.d.pos <= FULL_BUFFER && parser.lookaheadSize < old(parser.lookaheadSize)
      ensures if go then sink.flushRemaining == 0 else sink.Full() && sink.flushRemaining > 0
      ensures blocks + old(parser.f) <= old(blocks) + parser.f
    {
      hide Core, Sink.Holds, Output.Valid, TotalLen;
      RunningApart();
      FastAdvance(four);
      go := true;
      if out.d.pos > FULL_BUFFER {
        RunningApart();
        DueData(out);
        var n := FlushTokens(NoFlush);
        go := n == 0;
      }
    }

    /** The inner loops: matches and literals while four bytes are ahead, or the last bytes as literals. */
    method FastDrain(four: bool) returns (go: bool)
      requires parser.Fast() && Running() && out.d.pos <= FULL_BUFFER && sink.flushRemaining == 0
      modifies this`blocks, this`body, sink`outBuf, sink`flushOfs, sink`flushRemaining, out.repr
      modifies parser`lookaheadPos, parser`lookaheadSize, parser`dictSize, parser`p, parser`f, parser.hash
      ensures Running() && out.d.pos <= FULL_BUFFER && parser.lookaheadSize <= old(parser.lookaheadSize)
      ensures if go then sink.flushRemaining == 0 && parser.lookaheadSize < (if four then 4 else 1) else sink.Full() && sink.flushRemaining > 0
      ensures blocks + old(parser.f) <= old(blocks) + parser.f
    {
      hide Win, Parses, Written, LitCounted, DistCounted, Recorded, Tracked, ByteBits, Wrap32, Output.Footprint, Sink.Holds, Output.Valid,
        Parser.Windowed, TotalLen;
      go := true;
      while parser.lookaheadSize >= if four then 4 else 1
        invariant Running() && out.d.pos <= FULL_BUFFER && sink.flushRemaining == 0 && parser.lookaheadSize <= old(parser.lookaheadSize)
        invariant go && blocks + old(parser.f) <= old(blocks) + parser.f
        decreases parser.lookaheadSize
      {
        go := FastOne(four);
        if !go { return; }
      }
    }

    /** One round of the fast parser: the lookahead is filled, and then drained. */
    method FastRound(flush: FlushKind) returns (go: bool)
      requires parser.Fast() && Running() && out.d.pos <= FULL_BUFFER && sink.flushRemaining == 0
      requires parser.srcPos < |parser.src| || (flush != NoFlush && parser.lookaheadSize > 0)
      modifies this`blocks, this`body, sink`outBuf, sink`flushOfs, sink`flushRemaining, out.repr
      modifies parser`lookaheadPos, parser`lookaheadSize, parser`dictSize, parser`p, parser`srcPos, parser`source, parser`f, parser.dict, parser.hash
      ensures Running() && out.d.pos <= FULL_BUFFER && old(parser.srcPos) <= parser.srcPos <= |parser.src|
      ensures parser.source == old(parser.source) + parser.src[old(parser.srcPos)..parser.srcPos]
      ensures go ==> Left() < old(Left()) && sink.flushRemaining == 0
      ensures !go ==> sink.Full() && (sink.flushRemaining > 0 || (flush == NoFlush && parser.srcPos == |parser.src|))
      ensures blocks + old(parser.f) <= old(blocks) + parser.f
    {
      hide Win, Parses, Written, LitCounted, DistCounted, Recorded, Tracked, ByteBits, Wrap32, Output.Footprint, Sink.Holds, TotalLen;
      FastFill();
      if flush == NoFlush && parser.lookaheadSize < FAST_LOOKAHEAD { return false; }
      go := FastDrain(true);
      if go { go := FastDrain(false); }
    }

    method FastFill()
      requires parser.Fast() && Running() && out.d.pos <= FULL_BUFFER
      modifies parser`lookaheadSize, parser`dictSize, parser`srcPos, parser`source, parser.dict
      ensures Running() && old(parser.srcPos) <= parser.srcPos <= |parser.src| && Left() == old(Left())
      ensures parser.source == old(parser.source) + parser.src[old(parser.srcPos)..parser.srcPos]
      ensures parser.srcPos == |parser.src| || parser.lookaheadSize == FAST_LOOKAHEAD
    {
      hide Win, Parses, Written, LitCounted, DistCounted, Recorded, Tracked, ByteBits, Wrap32, Output.Footprint, Sink.Holds;
      ghost var v := parser.TheView();
      FillFast(parser);
      FillThrifty(v, parser.TheView(), parser.src[old(parser.srcPos)..parser.srcPos], mark.base);
      TrackLater(out.stream, out.opts.zlib, blocks, body, mark, old(parser.source), parser.src[old(parser.srcPos)..parser.srcPos], parser.f);
    }

    /** `tdefl_compress_fast`: the same promise as `CompressNormal`. */
    method CompressFast(flush: FlushKind)
      requires parser.Fast() && Running() && out.d.pos <= FULL_BUFFER && sink.flushRemaining == 0
      modifies this`blocks, this`body, sink`outBuf, sink`flushOfs, sink`flushRemaining, out.repr
      modifies parser`lookaheadPos, parser`lookaheadSize, parser`dictSize, parser`p, parser`srcPos, parser`source, parser`f, parser.dict, parser.hash
      ensures Running() && out.d.pos <= FULL_BUFFER && parser.srcPos >= old(parser.srcPos)
      ensures parser.source == old(parser.source) + parser.src[old(parser.srcPos)..parser.srcPos]
      ensures sink.flushRemaining > 0 || (parser.srcPos == |parser.src| && (flush != NoFlush ==> parser.lookaheadSize == 0))
      ensures sink.Full() && blocks + old(parser.f) <= old(blocks) + parser.f
    {
      hide Win, Parses, Written, LitCounted, DistCounted, Recorded, Tracked, ByteBits, Wrap32, Output.Footprint, Sink.Holds, Output.Valid,
        Parser.Windowed, TotalLen;
      ghost var base, start := parser.source, parser.srcPos;
      SourceStart(parser);
      while parser.srcPos < |parser.src| || (flush != NoFlush && parser.lookaheadSize > 0)
        invariant Running() && out.d.pos <= FULL_BUFFER && sink.flushRemaining == 0
        invariant start <= parser.srcPos <= |parser.src| && parser.source == base + parser.src[start..parser.srcPos]
        invariant blocks + old(parser.f) <= old(blocks) + parser.f
        decreases Left()
      {
        ghost var at := parser.srcPos;
        var go := FastRound(flush);
        SliceOn(base, parser.src, start, at, parser.srcPos);
        if !go { return; }
      }
    }

    /** Time to flush: the code buffer is nearly full, or the tokens do not compress. */
    predicate DueNow()
      reads out.d
    {
      out.d.pos > FULL_BUFFER || (out.d.totalBytes > 31 * 1024 && (out.d.pos * 115 / 128 >= out.d.totalBytes || out.opts.forceRaw))
    }

    // ---------- whole calls

    /** Everything put out so far. */
    ghost function Delivered(): seq<Byte>
      reads sink
    {
      sink.delivered + sink.outBuf
    }

    /** The checksum that is kept of the source taken in. */
    ghost predicate Summed()
      reads `adler, parser`source
    {
      out.opts.zlib || out.opts.computeAdler ==> adler == Adler32.Checksum(1, parser.source)
    }

    /** After the last flush: what was put out decodes to the source, and what follows the last full flush by itself. */
    ghost predicate Complete()
      reads `blocks, `mark, parser`source, out`emitted
    {
      OneHeader(out.opts.zlib, blocks) ==>
        Decompress(ByteBits(out.emitted), out.opts.zlib) == Some(parser.source) && Alone(ByteBits(out.emitted), mark, parser.source)
    }

    /** Between calls, but for the caller's buffer. */
    ghost predicate Settled()
      reads `adler, `blocks, `body, `flushes, `mark, `finished, parser, parser.dict, parser.next, parser.hash, out, out.w, out.w.buf, out.d, out.d.buf, out.d.lit.count, out.d.dist.count
    {
      && Linked() && out.Valid() && parser.f <= |parser.source| && Paid(|parser.source|)
      && (if finished then Complete() else Core() && out.d.pos <= FULL_BUFFER && Summed())
    }

    /** Between calls. */
    ghost predicate Valid()
      reads `adler, `blocks, `body, `flushes, `mark, `finished, parser, parser.dict, parser.next, parser.hash, sink, out, out.w, out.w.buf, out.d, out.d.buf, out.d.lit.count, out.d.dist.count
    {
      Settled() && sink.Holds(out.emitted, out.w.buf[..])
    }

    lemma Apart()
      requires Valid()
      ensures parser.dict !in out.repr && this !in out.repr && parser !in out.repr && sink !in out.repr
    {
      hide Core, Summed, Sink.Holds, Output.Valid, Complete;
      WiredFacts();
    }

    lemma Paused()
      requires Running() && out.d.pos <= FULL_BUFFER && Summed() && !finished
      ensures Valid()
    {
      hide Win, Parses, Written, LitCounted, DistCounted, Recorded, Tracked, ByteBits, Wrap32, Output.Footprint, Output.Valid, Output.Shape,
        Adler32.Checksum, Parser.Windowed, Parser.Shape, Sink.Holds, Parser.Valid;
      TrackedBound(out.stream, out.opts.zlib, blocks, body, mark, parser.source, parser.f);
    }

    lemma Resumed()
      requires Valid() && !finished
      ensures Running() && out.d.pos <= FULL_BUFFER && Summed()
    {
      hide Core, Summed, Sink.Holds, Linked, Output.Valid, Complete;
    }

    /** The last flush, when everything is parsed. */
    method FlushLast()
      requires Running() && sink.flushRemaining == 0 && parser.lookaheadSize == 0 && Summed() && Affords(Finish)
      modifies this`blocks, sink`outBuf, sink`flushOfs, sink`flushRemaining, out.repr
      ensures Linked() && out.Valid() && sink.Holds(out.emitted, out.w.buf[..]) && Complete() && sink.Full()
      ensures blocks == old(blocks) + 1 && Paid(|parser.source|)
    {
      hide Chained, Win, Parses, Written, LitCounted, DistCounted, Recorded, InWindow, Tracked, FlushSends, ByteBits, Wrap32, Unflushed,
        Layout, AllValid, Output.Footprint, Output.Valid, Output.Shape, Parser.Windowed, Sink.Holds, Parser.Shape, Decompress, Adler32.Checksum, Thrifty, Rate;
      ghost var v, stream, first := parser.TheView(), out.stream, out.opts.zlib && out.blockIndex == 0;
      AllFlushed(v);
      PaidOn(out.opts, |out.stream|, parser.f, |Unflushed(v)|, flushes);
      ghost var plan := SendTokens(Finish, v);
      if OneHeader(out.opts.zlib, blocks + 1) {
        TrackEnd(stream, out.opts.zlib, blocks, body, mark, v, plan, adler, first, out.stream);
        WholeBytes(out);
      }
      blocks := blocks + 1;
    }

    /** The caller asked for a flush. */
    ghost method CountFlush(flush: FlushKind)
      requires Running() && flush != NoFlush
      modifies this`flushes
      ensures Running() && Affords(flush) && flushes == old(flushes) + 1
    {
      hide Chained, Win, Parses, Tracked, Wrap32, Sink.Holds, Output.Valid, Parser.Valid, Linked, Thrifty, Rate;
      flushes := flushes + 1;
    }

    /** The flush at the end of a call: the window is forgotten by a full one. */
    method FlushEnd(flush: FlushKind)
      requires Running() && out.d.pos <= FULL_BUFFER && Summed() && sink.flushRemaining == 0
      requires flush != NoFlush && parser.lookaheadSize == 0 && !finished
      modifies this`blocks, this`body, this`finished, this`flushes, this`mark, parser`f, parser`dictSize, parser`origin, parser.next, parser.hash
      modifies sink`outBuf, sink`flushOfs, sink`flushRemaining, out.repr
      ensures Valid() && finished == (flush == Finish) && (flush != Finish ==> CaughtUp()) && sink.Full()
      ensures blocks == old(blocks) + 1 && parser.f >= old(parser.f) && flushes == old(flushes) + 1
      ensures mark == if flush == FullFlush then Mark(|out.stream|, |parser.source|) else old(mark)
    {
      hide Chained, Win, Parses, Written, LitCounted, DistCounted, Recorded, InWindow, Tracked, FlushSends, ByteBits, Wrap32, Unflushed,
        Layout, AllValid, Output.Footprint, Output.Valid, Output.Shape, Sink.Holds, Parser.Shape, Decompress, Adler32.Checksum, Thrifty, Rate,
        Affords;
      CountFlush(flush);
      TrackedBound(out.stream, out.opts.zlib, blocks, body, mark, parser.source, parser.f);
      if flush == Finish {
        FlushLast();
        finished := true;
      } else {
        FlushOn(flush);
      }
    }

    /** A flush that the stream goes on behind: a full one forgets the window. */
    method FlushOn(flush: FlushKind)
      requires Running() && out.d.pos <= FULL_BUFFER && Summed() && sink.flushRemaining == 0
      requires InMid(flush) && parser.lookaheadSize == 0 && !finished && Affords(flush)
      modifies this`blocks, this`body, this`mark, parser`f, parser`dictSize, parser`origin, parser.next, parser.hash
      modifies sink`outBuf, sink`flushOfs, sink`flushRemaining, out.repr
      ensures Valid() && CaughtUp() && sink.Full() && blocks == old(blocks) + 1 && parser.f >= old(parser.f)
      ensures mark == if flush == FullFlush then Mark(|out.stream|, |parser.source|) else old(mark)
    {
      hide Chained, Win, Parses, Written, LitCounted, DistCounted, Recorded, InWindow, Tracked, FlushSends, ByteBits, Wrap32, Unflushed,
        Layout, AllValid, Output.Footprint, Output.Valid, Output.Shape, Sink.Holds, Parser.Shape, Decompress, Adler32.Checksum, Thrifty, Rate,
        Affords;
      var n := FlushTokens(flush);
      if flush == FullFlush {
        ForgetWindow();
      }
      TrackedBound(out.stream, out.opts.zlib, blocks, body, mark, parser.source, parser.f);
    }

    /** The window and the chains are forgotten after a full flush. */
    method ForgetWindow()
      requires Running() && out.d.pos <= FULL_BUFFER && parser.lookaheadSize == 0 && CaughtUp()
      modifies this`mark, parser`dictSize, parser`origin, parser.next, parser.hash
      ensures Running() && mark == Mark(|out.stream|, |parser.source|) && parser.TheChains() == EmptyChains() && parser.dictSize == 0
    {
      hide Win, Parses, Written, LitCounted, DistCounted, Recorded, Tracked, ByteBits, Wrap32, Output.Footprint, Output.Valid, Output.Shape,
        Sink.Holds, Rate, Paid, Thrifty, EmptyChains;
      Shrink(parser.TheView(), 0);
      ForgetThrifty(parser.TheView(), mark.base);
      TrackForget(out.stream, out.opts.zlib, blocks, body, mark, parser.source);
      parser.Forget();
      mark := Mark(|out.stream|, parser.f);
    }

    /** `tdefl_compress`: takes in some of the first `inSize` bytes of `input`, and puts out at most
        `room` bytes. */
    method Compress(input: array?<Byte>, inSize: nat, room: nat, flush: FlushKind) returns (status: Status, consumed: nat, produced: seq<Byte>)
      requires Valid() && (input != null ==> inSize <= input.Length && input != parser.dict && input !in out.repr)
      modifies this, parser, parser.dict, parser.next, parser.hash, sink, out.repr
      ensures Valid() && |produced| <= room && consumed <= inSize
      ensures status == BadParam <==> old(prevStatus) != Okay || (old(wantsToFinish) && flush != Finish) || (inSize > 0 && input == null)
      ensures Delivered() == old(Delivered()) + produced
      ensures input == null ==> consumed == 0
      ensures input != null ==> parser.source == old(parser.source) + input[..consumed]
      ensures status == Done <==> status != BadParam && finished && sink.flushRemaining == 0
      ensures finished && sink.flushRemaining == 0 && OneHeader(out.opts.zlib, blocks) ==>
                Decompress(ByteBits(Delivered()), out.opts.zlib) == Some(parser.source) && Alone(ByteBits(Delivered()), mark, parser.source)
      ensures finished ==> old(finished) || (flush == Finish && consumed == inSize)
      ensures status != BadParam && sink.flushRemaining > 0 ==> |produced| == room
      ensures status != BadParam && flush == Finish && old(sink.flushRemaining) == 0 ==> finished || sink.flushRemaining > 0
      ensures status != BadParam && !old(finished) && old(sink.flushRemaining) == 0 ==> consumed == inSize || sink.flushRemaining > 0
      ensures flushes <= old(flushes) + 1 && 80 * (|Delivered()| + sink.flushRemaining) <= Rate(out.opts) * |parser.source| + 1000 * flushes
      ensures status == Okay && InMid(flush) && !finished && old(sink.flushRemaining) == 0 && sink.flushRemaining == 0 && OneHeader(out.opts.zlib, blocks) ==>
                SoFar(Delivered(), out.opts.zlib, parser.source)
      ensures status == Okay && flush == FullFlush && !finished && old(sink.flushRemaining) == 0 && sink.flushRemaining == 0 ==>
                mark == Mark(8 * |Delivered()|, |parser.source|) && |Delivered()| > 0
      ensures flush != FullFlush ==> mark == old(mark)
      ensures blocks + old(parser.f) <= old(blocks) + parser.f + 1
    {
      hide Valid, SoFar, OneHeader, Rate, Alone;
      Apart();
      BeginCall(if input == null then [] else input[..inSize], room);
      if prevStatus != Okay || (wantsToFinish && flush != Finish) || (inSize > 0 && input == null) {
        prevStatus := BadParam;
        PutOutBound();
        Restorable();
        return BadParam, 0, [];
      }
      wantsToFinish := wantsToFinish || flush == Finish;
      status, consumed := Continue(input, inSize, flush);
      produced := sink.outBuf;
      PutOutBound();
      Restorable();
    }

    /** What was put out and what waits is little more than the source, or less. */
    lemma PutOutBound()
      requires Valid()
      ensures 80 * (|Delivered()| + sink.flushRemaining) <= Rate(out.opts) * |parser.source| + 1000 * flushes
    {
      hide Core, Summed, Linked, Complete, Rate;
      BytesInStream(out);
      Waiting(sink, out.emitted, out.w.buf[..]);
    }

    /** At the end, with nothing waiting, what was delivered decodes to the source, and what follows the last full
        flush by itself. */
    lemma Restorable()
      requires Valid()
      ensures finished && sink.flushRemaining == 0 && OneHeader(out.opts.zlib, blocks) ==>
                Decompress(ByteBits(Delivered()), out.opts.zlib) == Some(parser.source) && Alone(ByteBits(Delivered()), mark, parser.source)
    {
      hide Sink.Holds, Output.Valid, Parser.Valid, Summed, Linked, ByteBits, Decompress, Core, Alone;
      if finished && sink.flushRemaining == 0 {
        AllDelivered(sink, out.emitted, out.w.buf[..]);
      }
    }

    /** With less than 2^32 bytes of source there are no more blocks than that. */
    lemma FewBlocks()
      requires Valid() && blocks <= parser.f + 1 && |parser.source| < MAX_WORD32
      ensures OneHeader(out.opts.zlib, blocks)
    {
      hide Sink.Holds, Output.Valid, Summed, Linked, Core, Complete, Paid;
    }

    /** Caught up and with nothing waiting, what was delivered stands for all of the source. */
    lemma Synced()
      requires Valid() && CaughtUp() && !finished && sink.flushRemaining == 0 && OneHeader(out.opts.zlib, blocks)
      ensures SoFar(Delivered(), out.opts.zlib, parser.source)
    {
      hide Sink.Holds, Output.Valid, Parser.Valid, Summed, Linked, ByteBits, Means;
      AllDelivered(sink, out.emitted, out.w.buf[..]);
      WholeBytes(out);
      assert parser.source[..parser.f] == parser.source;
      StreamSoFar(out.stream, out.opts.zlib, blocks, body, parser.source, out.emitted);
    }

    lemma AllOut()
      requires Valid() && CaughtUp() && sink.flushRemaining == 0
      ensures |out.stream| == 8 * |Delivered()| > 0
    {
      hide Sink.Holds, Core, Summed, Linked, Complete, Paid, Output.Valid, ByteBits;
      AllDelivered(sink, out.emitted, out.w.buf[..]);
      WholeBytes(out);
    }

    /** A call that was accepted: what waits goes out first, before new input is taken. */
    method Continue(input: array?<Byte>, inSize: nat, flush: FlushKind) returns (status: Status, consumed: nat)
      requires Valid() && parser.srcPos == 0 && sink.outBuf == []
      requires input != null ==> inSize <= input.Length && input != parser.dict && input !in out.repr && parser.src == input[..inSize]
      requires input == null ==> parser.src == []
      modifies this`adler, this`blocks, this`body, this`finished, this`prevStatus, this`flushes, this`mark
      modifies sink`outBuf, sink`flushOfs, sink`flushRemaining, out.repr
      modifies parser`savedDist, parser`savedLen, parser`savedLit, parser`lookaheadPos, parser`lookaheadSize, parser`dictSize, parser`p
      modifies parser`srcPos, parser`source, parser`f, parser`origin, parser.dict, parser.next, parser.hash
      ensures Valid() && consumed <= |parser.src| && |sink.outBuf| <= sink.outSize
      ensures parser.source == old(parser.source) + parser.src[..consumed]
      ensures finished ==> old(finished) || (flush == Finish && consumed == |parser.src|)
      ensures status == if finished && sink.flushRemaining == 0 then Done else Okay
      ensures sink.flushRemaining > 0 ==> |sink.outBuf| == sink.outSize
      ensures flush == Finish && old(sink.flushRemaining) == 0 ==> finished || sink.flushRemaining > 0
      ensures !old(finished) && old(sink.flushRemaining) == 0 ==> consumed == |parser.src| || sink.flushRemaining > 0
      ensures flushes <= old(flushes) + 1
      ensures InMid(flush) && !finished && old(sink.flushRemaining) == 0 && sink.flushRemaining == 0 && OneHeader(out.opts.zlib, blocks) ==>
                SoFar(Delivered(), out.opts.zlib, parser.source)
      ensures flush == FullFlush && !finished && old(sink.flushRemaining) == 0 && sink.flushRemaining == 0 ==>
                mark == Mark(8 * |Delivered()|, |parser.source|) && |Delivered()| > 0
      ensures flush != FullFlush ==> mark == old(mark)
      ensures blocks + old(parser.f) <= old(blocks) + parser.f + 1
    {
      hide CaughtUp, Core, Settled, Sink.Holds, SoFar, OneHeader;
      Apart();
      consumed := 0;
      assert parser.source + [] == parser.source;
      if sink.flushRemaining == 0 && !finished {
        consumed := TakeInput(input, inSize, flush);
      }
      Deliver();
      prevStatus := if finished && sink.flushRemaining == 0 then Done else Okay;
      status := prevStatus;
    }

    /** As much of what waits goes out as there is room for. */
    method Deliver()
      requires Valid()
      modifies sink`outBuf, sink`flushOfs, sink`flushRemaining
      ensures Valid() && |sink.outBuf| <= sink.outSize && sink.Full() && (old(sink.Full()) ==> sink.flushRemaining == old(sink.flushRemaining))
      ensures CaughtUp() && !finished && sink.flushRemaining == 0 && OneHeader(out.opts.zlib, blocks) ==>
                SoFar(Delivered(), out.opts.zlib, parser.source)
      ensures CaughtUp() && sink.flushRemaining == 0 ==> |out.stream| == 8 * |Delivered()| > 0
    {
      hide CaughtUp, Core, Settled, Sink.Holds, SoFar, OneHeader;
      Apart();
      sink.FlushOutput(out.w.buf, out.emitted);
      WithinRoom(sink, out.emitted, out.w.buf[..]);
      if CaughtUp() && !finished && sink.flushRemaining == 0 && OneHeader(out.opts.zlib, blocks) { Synced(); }
      if CaughtUp() && sink.flushRemaining == 0 { AllOut(); }
    }

    /** The input is parsed, summed, and flushed if that was asked for. */
    method TakeInput(input: array?<Byte>, inSize: nat, flush: FlushKind) returns (consumed: nat)
      requires Valid() && !finished && sink.flushRemaining == 0 && parser.srcPos == 0
      requires input != null ==> inSize <= input.Length && input != parser.dict && input !in out.repr && parser.src == input[..inSize]
      requires input == null ==> parser.src == []
      modifies this`adler, this`blocks, this`body, this`finished, this`flushes, this`mark, sink`outBuf, sink`flushOfs, sink`flushRemaining, out.repr
      modifies parser`savedDist, parser`savedLen, parser`savedLit, parser`lookaheadPos, parser`lookaheadSize, parser`dictSize, parser`p
      modifies parser`srcPos, parser`source, parser`f, parser`origin, parser.dict, parser.next, parser.hash
      ensures Valid() && consumed <= |parser.src|
      ensures parser.source == old(parser.source) + parser.src[..consumed]
      ensures finished ==> flush == Finish && consumed == |parser.src|
      ensures flush == Finish ==> finished || (sink.flushRemaining > 0 && sink.Full())
      ensures consumed == |parser.src| || (sink.flushRemaining > 0 && sink.Full())
      ensures flushes <= old(flushes) + 1
      ensures InMid(flush) ==> (CaughtUp() || sink.flushRemaining > 0) && sink.Full() && !finished
      ensures flush == FullFlush ==> sink.flushRemaining > 0 || mark == Mark(|out.stream|, |parser.source|)
      ensures flush != FullFlush ==> mark == old(mark)
      ensures blocks + old(parser.f) <= old(blocks) + parser.f + 1
    {
      hide CaughtUp, Core, Running, Valid, Settled, Sink.Holds, Sink.Full, Adler32.Checksum;
      Apart();
      Resumed();
      ghost var base := parser.source;
      ParseInput(flush);
      consumed := parser.srcPos;
      assert parser.src[0..consumed] == parser.src[..consumed];
      UpdateSum(input, consumed, base);
      if flush != NoFlush && parser.lookaheadSize == 0 && parser.srcPos == |parser.src| && sink.flushRemaining == 0 {
        FlushEnd(flush);
      } else {
        Paused();
      }
    }

    /** The parser that the settings ask for. */
    method ParseInput(flush: FlushKind)
      requires Running() && out.d.pos <= FULL_BUFFER && sink.flushRemaining == 0
      modifies this`blocks, this`body, sink`outBuf, sink`flushOfs, sink`flushRemaining, out.repr
      modifies parser`savedDist, parser`savedLen, parser`savedLit, parser`lookaheadPos, parser`lookaheadSize, parser`dictSize, parser`p
      modifies parser`srcPos, parser`source, parser`f, parser.dict, parser.next, parser.hash
      ensures Running() && out.d.pos <= FULL_BUFFER && old(parser.srcPos) <= parser.srcPos <= |parser.src|
      ensures parser.source == old(parser.source) + parser.src[old(parser.srcPos)..parser.srcPos]
      ensures sink.flushRemaining > 0 || (parser.srcPos == |parser.src| && (flush != NoFlush ==> parser.lookaheadSize == 0))
      ensures sink.Full() && blocks + old(parser.f) <= old(blocks) + parser.f
    {
      hide Win, Parses, Tracked, Wrap32, Sink.Holds, Sink.Full, Output.Valid, Parser.Windowed;
      if parser.Fast() {
        CompressFast(flush);
      } else {
        CompressNormal(flush);
      }
      SourceStart(parser);
    }

    /** The checksum goes on over what was taken in. */
    method UpdateSum(input: array?<Byte>, consumed: nat, ghost base: seq<Byte>)
      requires Running() && consumed <= |parser.src| && parser.source == base + parser.src[..consumed]
      requires out.opts.zlib || out.opts.computeAdler ==> adler == Adler32.Checksum(1, base)
      requires if input == null then parser.src == [] else consumed <= input.Length && parser.src[..consumed] == input[..consumed]
      modifies this`adler
      ensures Running() && Summed()
    {
      hide Chained, Win, Parses, Tracked, Wrap32, Sink.Holds, Output.Valid, Parser.Valid, Linked, Adler32.Checksum;
      if (out.opts.zlib || out.opts.computeAdler) && input != null {
        Adler32.ChecksumConcat(1, base, input[..consumed]);
        adler := Adler32.Adler(adler, input, consumed);
      } else {
        assert input == null ==> base + parser.src[..consumed] == base;
      }
    }

    /** A call starts with its own buffers. */
    method BeginCall(src: seq<Byte>, room: nat)
      requires Valid()
      modifies parser`src, parser`srcPos, sink`outBuf, sink`outSize, sink`delivered
      ensures Valid() && parser.src == src && parser.srcPos == 0 && sink.outBuf == [] && sink.outSize == room
      ensures sink.delivered == old(Delivered())
    {
      hide Chained, Win, Parses, Written, LitCounted, DistCounted, Recorded, Tracked, ByteBits, Wrap32, Output.Footprint, Output.Valid, Output.Shape,
        Decompress, Adler32.Checksum;
      parser.src, parser.srcPos := src, 0;
      sink.delivered := sink.delivered + sink.outBuf;
      sink.outBuf, sink.outSize := [], room;
      assert sink.delivered + sink.outBuf == sink.delivered;
    }
  }

  /** A flush that does not end the stream. */
  predicate InMid(flush: FlushKind) { flush == SyncFlush || flush == FullFlush }

  /** Behind the zlib header the bytes take a decoder to `source`, and on to whatever bytes follow. */
  ghost predicate SoFar(bytes: seq<Byte>, zlib: bool, source: seq<Byte>) {
    Head(zlib) <= ByteBits(bytes) && Means(false, ByteBits(bytes)[|Head(zlib)|..], |Head(zlib)|, [], source)
  }

  lemma StreamSoFar(stream: Bitstring, zlib: bool, blocks: nat, body: Bitstring, source: seq<Byte>, bytes: seq<Byte>)
    requires Streamed(stream, zlib, blocks, body, source) && blocks > 0 && ByteBits(bytes) == stream
    ensures SoFar(bytes, zlib, source)
  {
    hide Means, ByteBits, Head;
    assert (Head(zlib) + body)[|Head(zlib)|..] == body;
  }

  /** A flush in mid-stream ends with an empty stored block, which ends with a whole byte. */
  lemma SyncAligned(before: Bitstring, after: Bitstring, first: bool, plan: Plan, flush: FlushKind, zlib: bool, adler: nat, ts: seq<Token>,
                    data: seq<Byte>)
    requires FlushSends(before, after, first, plan, flush, zlib, adler, ts, data) && InMid(flush)
    ensures |after| % 8 == 0
  {
    hide Possible, BlockPart, Head, Tail, FlushBits;
    SendsFacts(before, after, first, plan, flush, zlib, adler, ts, data);
    SyncLength(|before| + |Head(first)| + |BlockPart(|before|, first, plan, flush, ts, data)|, flush, zlib, adler);
  }

  lemma SyncLength(at: nat, flush: FlushKind, zlib: bool, adler: nat)
    requires InMid(flush)
    ensures (at + |Tail(flush, zlib, adler, at)|) % 8 == 0
  {
    hide Lsb, Pad;
    NoBytes();
  }

  /** With an empty lookahead a flush takes in everything. */
  lemma AllFlushed(v: View)
    requires Parses(v) && v.look == 0
    ensures v.f + |Unflushed(v)| == |v.source|
  {
    hide Stands, Copies;
    Drained(v);
    UnflushedFacts(v);
    Flushed(v);
  }

  lemma WithinRoom(s: Sink, emitted: seq<Byte>, buf: seq<Byte>)
    requires s.Holds(emitted, buf)
    ensures |s.outBuf| <= s.outSize
  {
  }

  lemma DueData(o: Output)
    requires o.Valid() && (o.d.pos > FULL_BUFFER || o.d.totalBytes > 31 * 1024)
    ensures TotalLen(o.d.tokens) >= SOME
  {
    hide LitCounted, DistCounted, Recorded, Written, TotalLen, ByteBits, AllValid;
    if o.d.pos > FULL_BUFFER {
      RecordedMany(o.d.buf[..], o.d.pos, o.d.flagPos, o.d.flagsLeft, o.d.tokens);
      RecordedValid(o.d.buf[..], o.d.pos, o.d.flagPos, o.d.flagsLeft, o.d.tokens);
      Standing(o.d.tokens);
    }
  }

  lemma RecordedValid(buf: seq<Byte>, pos: nat, flagPos: nat, left: nat, ts: seq<Token>)
    requires Recorded(buf, pos, flagPos, left, ts)
    ensures AllValid(ts)
  {
  }

  lemma Footprints(o: Output)
    requires o.Shape()
    ensures o.d in o.repr && o.d.buf in o.repr && o.d.lit.count in o.repr && o.d.dist.count in o.repr
  {
  }

  lemma SourceStart(s: Parser)
    requires s.Windowed()
    ensures s.srcPos <= |s.src| && s.source == s.source + s.src[s.srcPos..s.srcPos]
  {
  }

  lemma SliceOn(base: seq<Byte>, src: seq<Byte>, a: nat, b: nat, c: nat)
    requires a <= b <= c <= |src|
    ensures base + src[a..b] + src[b..c] == base + src[a..c]
  {
    assert src[a..b] + src[b..c] == src[a..c];
  }

  /** The last flush leaves a stream that decodes to the whole source. */
  lemma TrackEnd(stream: Bitstring, zlib: bool, blocks: nat, body: Bitstring, m: Mark, v: View, plan: Plan, adler: nat, first: bool, all: Bitstring)
    requires Parses(v) && Thrifty(v, m.base) && v.look == 0 && Tracked(stream, zlib, blocks, body, m, v.source, v.f) && OneHeader(zlib, blocks + 1)
    requires first == (zlib && Wrap32(blocks) == 0) && adler < MAX_WORD32 && (zlib ==> adler == Adler32.Checksum(1, v.source))
    requires FlushSends(stream, all, first, plan, Finish, zlib, adler, v.tokens, Unflushed(v))
    ensures |all| % 8 == 0 && Decompress(all, zlib) == Some(v.source) && Alone(all, m, v.source)
  {
    hide Streamed, Restarted, FlushSends, Parses, AllApply, Expand, Adler32.Checksum, Decompress, Thrifty, Unflushed;
    var data := Unflushed(v);
    UnflushedFacts(v);
    FlushedSource(v, data);
    Drained(v);
    assert v.source[..v.f] + data == v.source;
    StreamEnd(stream, zlib, blocks, body, v.source[..v.f], plan, adler, v.tokens, data, all);
    if m.cut > 0 {
      UnflushedSince(v, m.base);
      RestartEnd(stream, m.cut, v.source[m.base..v.f], plan, zlib, adler, v.tokens, data, all);
      assert v.source[m.base..v.f + |data|] == v.source[m.base..];
    }
  }

  /** What follows the last full flush decodes by itself to what was taken in since. */
  ghost predicate Alone(all: Bitstring, m: Mark, source: seq<Byte>) {
    m.cut > 0 ==> m.cut <= |all| && m.base <= |source| && Decompress(all[m.cut..], false) == Some(source[m.base..])
  }

  /** A stream of whole bytes is all in the bytes put out. */
  lemma WholeBytes(o: Output)
    requires o.Valid() && |o.stream| % 8 == 0
    ensures ByteBits(o.emitted) == o.stream
  {
    hide LitCounted, DistCounted, Recorded, ByteBits, Lsb, Written;
    var rest := Lsb(o.w.bitBuffer, o.w.bitsIn);
    assert |rest| == 0;
    assert ByteBits(o.emitted) + rest == ByteBits(o.emitted);
  }

  lemma TrackedBound(stream: Bitstring, zlib: bool, blocks: nat, body: Bitstring, m: Mark, source: seq<Byte>, f: nat)
    requires Tracked(stream, zlib, blocks, body, m, source, f)
    ensures f <= |source|
  {
  }

  lemma TrackLater(stream: Bitstring, zlib: bool, blocks: nat, body: Bitstring, m: Mark, source: seq<Byte>, more: seq<Byte>, f: nat)
    requires Tracked(stream, zlib, blocks, body, m, source, f)
    ensures Tracked(stream, zlib, blocks, body, m, source + more, f)
  {
    hide Streamed, Restarted;
    assert (source + more)[..f] == source[..f] && (source + more)[m.base..f] == source[m.base..f];
  }

  /** The window is forgotten at the end of a byte. */
  lemma TrackForget(stream: Bitstring, zlib: bool, blocks: nat, body: Bitstring, m: Mark, source: seq<Byte>)
    requires Tracked(stream, zlib, blocks, body, m, source, |source|) && blocks > 0 && |stream| % 8 == 0
    ensures Tracked(stream, zlib, blocks, body, Mark(|stream|, |source|), source, |source|)
  {
    hide Streamed, Restarted;
    RestartHere(stream);
    assert source[|source|..|source|] == [];
  }

  lemma OutputFacts(o: Output)
    requires o.Valid()
    ensures LitCounted(o.d.lit.count[..], o.d.tokens) && Recorded(o.d.buf[..], o.d.pos, o.d.flagPos, o.d.flagsLeft, o.d.tokens)
    ensures o.d.buf.Length == LZ_CODE_BUF_SIZE && o.d.totalBytes == TotalLen(o.d.tokens) && o.Shape() && o.dictPos < MAX_WORD32
    ensures o.w in o.repr && o.w.buf in o.repr && o.d in o.repr && o.d.buf in o.repr && o.d.lit.count in o.repr && o.d.dist.count in o.repr
    ensures o in o.repr
  {
    hide LitCounted, Recorded, DistCounted, Written;
  }

  lemma WindowedFacts(s: Parser)
    requires s.Windowed()
    ensures Win(s.dict[..], s.source) && s.lookaheadPos == Wrap32(s.p) && |s.source| == s.p + s.lookaheadSize
  {
  }

  lemma NothingWaits(s: Sink, emitted: seq<Byte>, buf: seq<Byte>)
    requires s.Holds(emitted, buf) && s.flushRemaining == 0
    ensures emitted == s.delivered + s.outBuf && |s.outBuf| <= s.outSize
  {
  }

  lemma FlushedThrifty(v: View, base: nat)
    requires Parses(v) && Thrifty(v, base)
    ensures Thrifty(FlushedView(v), base) && |Unflushed(v)| == TotalLen(v.tokens)
  {
    hide Stands, Copies, Thrifty;
    UnflushedFacts(v);
    Flushed(v);
    FlushThrifty(v, v.f + TotalLen(v.tokens), base);
  }

  /** With `n` bytes more of the source, the stream may grow. */
  lemma PaidOn(opts: Options, sent: nat, f: nat, n: nat, flushes: nat)
    ensures Rate(opts) * (f + n) == Rate(opts) * f + Rate(opts) * n
  {
  }

  /** What comes in goes into the chains. */
  lemma FilledIn(was: Chains, first: Chains, v: View, more: seq<Byte>, base: nat)
    requires Parses(v) && Thrifty(v, base) && AllIn(was, first, v.source, base, |v.source|)
    ensures v.dictSize <= v.p
    ensures var all := v.source + more; AllIn(Hashed(was, all, v.p - v.dictSize, |v.source|, |all|), first, all, base, |all|)
  {
    hide Stands, Copies, AllWorth, AllIn, Hashed;
    AllInLater(was, first, v.source, more, base, |v.source|);
    HashedIn(was, first, v.source + more, base, v.p - v.dictSize, |v.source|, |v.source + more|);
  }

  function FlushedView(v: View): View { v.(f := v.f + TotalLen(v.tokens), tokens := []) }

  lemma TokensFit(litCount: seq<Word16>, buf: seq<Byte>, pos: nat, flagPos: nat, flagsLeft: nat, ts: seq<Token>)
    requires LitCounted(litCount, ts) && Recorded(buf, pos, flagPos, flagsLeft, ts) && |buf| == LZ_CODE_BUF_SIZE
    ensures AllValid(ts) && |ts| <= LZ_CODE_BUF_SIZE
  {
    hide Recorded, HuffTable.Sum, LitUses;
    RecordedSize(buf, pos, flagPos, flagsLeft, ts);
  }

  /** `mz_deflateBound`, which `mz_compressBound` gives too. */
  function DeflateBound(n: nat): nat {
    var a, b := 128 + n * 110 / 100, 128 + n + (n / (31 * 1024) + 1) * 5;
    if a > b then a else b
  }

  /** The room that always suffices: with fixed codes only, a little more. */
  function Bound(n: nat, opts: Options): nat { if opts.forceStatic then 128 + n * 114 / 100 else DeflateBound(n) }

  lemma BoundHolds(n: nat, size: nat, opts: Options)
    requires 80 * size <= Rate(opts) * n + 1000
    ensures size <= Bound(n, opts)
  {
  }

  /** `mz_compress2` into `room` bytes: the compressor is given everything at once and told to finish.
      It is done when the room is that of the bound, or when less suffices, and then the result decodes to
      the input; else the room is used up. */
  method CompressMem(input: array<Byte>, room: nat, opts: Options, platform: Platform) returns (done: bool, dest: seq<Byte>)
    requires input.Length < MAX_WORD32
    ensures |dest| <= room && (!done ==> |dest| == room) && (room >= Bound(input.Length, opts) ==> done)
    ensures done ==> |dest| <= Bound(input.Length, opts) && Decompress(ByteBits(dest), opts.zlib) == Some(input[..])
  {
    hide Deflater.Valid, Deflater.Running, ByteBits, Decompress, Adler32.Checksum, Bound, Rate, DeflateBound;
    var dict := new Byte[MF.DICT_LENGTH](_ => 0);
    var next, hash := new Word16[LZ_DICT_SIZE](_ => 0), new Word16[HASH_SIZE](_ => 0);
    var c := new Deflater(opts, platform, dict, next, hash);
    assert [] + input[..] == input[..];
    SummedStart();
    Begun(c);
    var status, consumed;
    status, consumed, dest := c.Compress(input, input.Length, room, Finish);
    done := status == Done;
    assert c.Delivered() == dest;
    Whole(c, input.Length, opts);
    if done {
      assert input[..consumed] == input[..];
      c.FewBlocks();
      c.Restorable();
    }
  }

  lemma Begun(c: Deflater)
    requires c.Running() && c.out.d.pos == 1 && c.parser.TheView() == View([], 0, 0, 0, 0, 0, 0, 0, []) && c.adler == 1 && !c.finished
    requires Adler32.Checksum(1, []) == 1
    ensures c.Valid()
  {
    hide Deflater.Running, Deflater.Valid, Adler32.Checksum;
    c.Paused();
  }

  lemma Whole(c: Deflater, n: nat, opts: Options)
    requires 80 * (|c.Delivered()| + c.sink.flushRemaining) <= Rate(opts) * |c.parser.source| + 1000 * c.flushes
    requires |c.parser.source| <= n && c.flushes <= 1
    ensures |c.Delivered()| + c.sink.flushRemaining <= Bound(n, opts)
  {
    hide Rate, Bound;
    MulMono(|c.parser.source|, n, Rate(opts));
    BoundHolds(n, |c.Delivered()| + c.sink.flushRemaining, opts);
  }

  /** All whole bytes of the stream are put out. */
  lemma BytesInStream(o: Output)
    requires o.Valid()
    ensures 8 * |o.emitted| <= |o.stream|
  {
    hide LitCounted, DistCounted, Recorded, ByteBits, Lsb, Written;
  }

  lemma Waiting(s: Sink, emitted: seq<Byte>, buf: seq<Byte>)
    requires s.Holds(emitted, buf)
    ensures |emitted| == |s.delivered + s.outBuf| + s.flushRemaining
  {
  }

  lemma SummedStart()
    ensures Adler32.Checksum(1, []) == 1
  {
  }

  lemma AllDelivered(s: Sink, emitted: seq<Byte>, buf: seq<Byte>)
    requires s.Holds(emitted, buf) && s.flushRemaining == 0
    ensures emitted == s.delivered + s.outBuf
  {
  }
}
