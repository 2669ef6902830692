/** Sending a block: `tdefl_flush_block` with its stored fallback, its static retry and the bits that
    end a flush. */
module FlushBlock {
  import opened Bits
  import opened Canonical
  import opened Tokens
  import opened InflateSpec
  import opened SymFreqs
  import opened Settings
  import opened BitWriter
  import opened LzCodes
  import opened Emitter
  import opened BlockSize
  import opened BlockStart
  import opened BlockRoundTrip
  import HuffTable

  const OUT_BUF_SIZE := 85196
  const DICT_LENGTH := 33025

  /** No block reaches this far, in bytes. */
  const BLOCK_LIMIT := 84_700

  // ---------- what the bits of a flush mean

  /** The bits `bits`, with `rest` behind them, take the decoder's output from `before` to `after`: to
      the end of the stream, or on to `rest`. */
  ghost predicate Reaches(final: bool, bits: Bitstring, rest: Bitstring, before: seq<Byte>, after: seq<Byte>) {
    Inflate(bits + rest, before) == if final then Got(after, rest) else Inflate(rest, after)
  }

  /** So they do from position `at` on in any stream of whole bytes. */
  ghost predicate Means(final: bool, bits: Bitstring, at: nat, before: seq<Byte>, after: seq<Byte>) {
    forall rest: Bitstring :: (at + |bits| + |rest|) % 8 == 0 ==> Reaches(final, bits, rest, before, after)
  }

  lemma MeansConcat(final: bool, a: Bitstring, b: Bitstring, c: Bitstring, at: nat, x: seq<Byte>, y: seq<Byte>, z: seq<Byte>)
    requires Means(false, a, at, x, y) && Means(final, b, at + |a|, y, z) && c == a + b
    ensures Means(final, c, at, x, z)
  {
    hide Reaches;
    forall rest: Bitstring | (at + |c| + |rest|) % 8 == 0 ensures Reaches(final, c, rest, x, z) {
      var more := b + rest;
      assert |more| == |b| + |rest|;
      assert Reaches(false, a, more, x, y) && Reaches(final, b, rest, y, z);
      ReachesConcat(final, a, b, c, rest, x, y, z);
    }
  }

  lemma ReachesConcat(final: bool, a: Bitstring, b: Bitstring, c: Bitstring, rest: Bitstring, x: seq<Byte>, y: seq<Byte>, z: seq<Byte>)
    requires Reaches(false, a, b + rest, x, y) && Reaches(final, b, rest, y, z) && c == a + b
    ensures Reaches(final, c, rest, x, z)
  {
    hide Inflate;
    assert c + rest == a + (b + rest);
  }

  lemma NothingMeans(at: nat, x: seq<Byte>)
    ensures Means(false, [], at, x, x)
  {
    hide Inflate;
    var none: Bitstring := [];
    forall rest: Bitstring | (at + |none| + |rest|) % 8 == 0 ensures Reaches(false, none, rest, x, x) {
      assert none + rest == rest;
    }
  }

  /** The kinds of block. */
  datatype Plan = Dynamic(h: Header) | Static | StoredData

  ghost predicate Possible(plan: Plan, ts: seq<Token>, data: seq<Byte>) {
    match plan
    case Dynamic(h) => ValidHeader(h) && AllCoded(ts, h.lit, h.dist) && Used(h.lit, END_OF_BLOCK)
    case Static => AllCoded(ts, FixedLit(), FixedDist())
    case StoredData => |data| <= 0xFFFF
  }

  /** What follows the final bit. */
  ghost function PlanBits(plan: Plan, ts: seq<Token>, data: seq<Byte>, at: nat): Bitstring
    requires Possible(plan, ts, data)
  {
    match plan
    case Dynamic(h) => DynamicBits(h) + BodyBits(ts, h.lit, h.dist)
    case Static => Lsb(1, 2) + BodyBits(ts, FixedLit(), FixedDist())
    case StoredData => Lsb(0, 2) + (Pad(at + 3) + (Lsb(|data|, 16) + (Lsb(0xFFFF - |data|, 16) + ByteBits(data))))
  }

  lemma OneBlock(bits: Bitstring, out: seq<Byte>, final: bool, after: seq<Byte>, rest: Bitstring)
    requires DecodeBlock(bits, out) == Got(Block(final, after), rest)
    ensures Inflate(bits, out) == if final then Got(after, rest) else Inflate(rest, after)
  {
    hide DecodeBlock;
  }

  lemma Reassociate(a: Bitstring, b: Bitstring, c: Bitstring)
    ensures a + b + c == a + (b + c)
  {
  }

  lemma PlanDecodes(plan: Plan, final: bool, ts: seq<Token>, data: seq<Byte>, at: nat, out: seq<Byte>, bits: Bitstring, rest: Bitstring)
    requires Possible(plan, ts, data) && AllApply(out, ts) && Expand(out, ts) == out + data
    requires bits == FinalBit(final) + PlanBits(plan, ts, data, at) && (at + |bits| + |rest|) % 8 == 0
    ensures DecodeBlock(bits + rest, out) == Got(Block(final, out + data), rest)
  {
    hide DynamicBits, BodyBits, ByteBits, Lsb, FinalBit, DecodeBlock, AllCoded, ValidHeader, AllApply, Expand, Pad;
    match plan {
      case Dynamic(h) =>
        Reassociate(FinalBit(final), DynamicBits(h), BodyBits(ts, h.lit, h.dist));
        DynamicBlockDecodes(final, h, ts, out, rest);
      case Static =>
        Reassociate(FinalBit(final), Lsb(1, 2), BodyBits(ts, FixedLit(), FixedDist()));
        StaticBlockDecodes(final, ts, out, rest);
      case StoredData =>
        Reassociate(FinalBit(final), Lsb(0, 2), Pad(at + 3) + (Lsb(|data|, 16) + (Lsb(0xFFFF - |data|, 16) + ByteBits(data))));
        StoredBlockDecodes(at, final, data, out, rest);
    }
  }

  /** Whatever the kind, the block means the data that its tokens stand for. */
  lemma BlockMeans(plan: Plan, final: bool, ts: seq<Token>, data: seq<Byte>, at: nat, out: seq<Byte>, bits: Bitstring)
    requires Possible(plan, ts, data) && AllApply(out, ts) && Expand(out, ts) == out + data
    requires bits == FinalBit(final) + PlanBits(plan, ts, data, at)
    ensures Means(final, bits, at, out, out + data)
  {
    hide FinalBit, DecodeBlock, AllApply, Expand, Inflate, PlanBits, Possible;
    forall rest: Bitstring | (at + |bits| + |rest|) % 8 == 0 ensures Reaches(final, bits, rest, out, out + data) {
      PlanDecodes(plan, final, ts, data, at, out, bits, rest);
      OneBlock(bits + rest, out, final, out + data, rest);
    }
  }

  /** An empty stored block changes nothing: the end of a sync flush. */
  lemma EmptyBlockMeans(bits: Bitstring, at: nat, out: seq<Byte>)
    requires bits == StoredBlock(at, false, [])
    ensures Means(false, bits, at, out, out)
  {
    hide ByteBits, Lsb, FinalBit, DecodeBlock, Pad, StoredBlock, Inflate;
    forall rest: Bitstring | (at + |bits| + |rest|) % 8 == 0 ensures Reaches(false, bits, rest, out, out) {
      StoredBlockDecodes(at, false, [], out, rest);
      OneBlock(bits + rest, out, false, out + [], rest);
      assert out + [] == out;
    }
  }

  // ---------- room

  /** A static block fits, whatever tokens the buffer can hold. */
  lemma StaticFits(ts: seq<Token>, before: nat)
    requires AllValid(ts) && |Layout(ts)| <= LZ_CODE_BUF_SIZE - 2 && before <= 24
    ensures AllCoded(ts, FixedLit(), FixedDist())
    ensures (before + |PlanBits(Static, ts, [], 0)|) / 8 < 81_300 < BLOCK_LIMIT
  {
    hide Layout, TokensBits, StaticCosts, AllCoded;
    LayoutCost(ts);
    FixedCosts(ts);
    assert FixedLit()[END_OF_BLOCK] == 7;
  }

  /** So does a dynamic one, when its code is nearly a cheapest one. */
  lemma DynamicFits(h: Header, ts: seq<Token>, before: nat)
    requires Possible(Dynamic(h), ts, []) && before <= 24
    requires |DynamicBits(h)| <= HEADER_LIMIT && |BodyBits(ts, h.lit, h.dist)| <= BODY_LIMIT
    ensures (before + |PlanBits(Dynamic(h), ts, [], 0)|) / 8 < BLOCK_LIMIT
  {
    hide ValidHeader, DynamicBits, BodyBits, AllCoded;
  }

  // ---------- how long a block is

  /** The kind of compressed block that is tried for data of `n` bytes. */
  predicate Tried(plan: Plan, opts: Options, n: nat) {
    if opts.forceStatic || n < 48 then plan == Static else plan.Dynamic?
  }

  /** A compressed block in figures: against the data as they are, and in all. */
  ghost predicate Compressed(plan: Plan, ts: seq<Token>) {
    && Possible(plan, ts, []) && !plan.StoredData?
    && (plan.Static? && AllWorth(ts) ==> 10 * |PlanBits(plan, ts, [], 0)| <= 90 * TotalLen(ts) + 90)
    && (plan.Dynamic? ==> |PlanBits(plan, ts, [], 0)| <= HEADER_LIMIT + BODY_LIMIT)
    && (plan.Dynamic? && AllWorth(ts) ==> 10 * |PlanBits(plan, ts, [], 0)| <= 87 * TotalLen(ts) + 23_217)
  }

  lemma StaticSize(ts: seq<Token>)
    requires AllValid(ts)
    ensures Compressed(Static, ts)
  {
    hide AllWorth, TotalLen, BodyBits, AllCoded, Lsb;
    FixedCosts(ts);
    if AllWorth(ts) { StaticShares(ts); }
    EndLength();
  }

  lemma DynamicSize(h: Header, ts: seq<Token>)
    requires Possible(Dynamic(h), ts, [])
    requires |DynamicBits(h)| <= HEADER_LIMIT && |BodyBits(ts, h.lit, h.dist)| <= BODY_LIMIT
    requires AllWorth(ts) ==> 100 * |BodyBits(ts, h.lit, h.dist)| <= 870 * TotalLen(ts) + 870
    ensures Compressed(Dynamic(h), ts)
  {
    hide ValidHeader, DynamicBits, BodyBits, AllCoded, AllWorth, TotalLen;
  }

  /** The block would not fit the output buffer. */
  ghost predicate Oversize(plan: Plan, ts: seq<Token>, before: nat) {
    Compressed(plan, ts) && plan.Dynamic? && before <= 24 && (before + |PlanBits(plan, ts, [], 0)|) / 8 >= OUT_BUF_SIZE - 16
  }

  lemma NeverOversize(plan: Plan, ts: seq<Token>, before: nat)
    ensures !Oversize(plan, ts, before)
  {
    hide Possible, PlanBits, AllWorth, TotalLen;
  }

  /** The whole bytes that a compressed block would add behind `before` bits. */
  ghost function Swelling(plan: Plan, ts: seq<Token>, before: nat): nat
    requires Possible(plan, ts, [])
  {
    (before + |PlanBits(plan, ts, [], 0)|) / 8 - before / 8
  }

  /** Which block is sent: the data as they are when that is asked for or when compressing would not save two bytes,
      provided that the dictionary still holds them (`held`); else the compressed one. */
  ghost predicate Choice(plan: Plan, ts: seq<Token>, data: seq<Byte>, opts: Options, held: bool, before: nat) {
    if plan.StoredData? then
      && held
      && (opts.forceRaw || (data != [] && exists tried :: Tried(tried, opts, |data|) && Compressed(tried, ts) && Swelling(tried, ts, before) + 1 >= |data|))
    else
      && Tried(plan, opts, |data|) && Compressed(plan, ts)
      && (held ==> !opts.forceRaw && (data == [] || Swelling(plan, ts, before) + 1 < |data|))
  }

  /** What a byte may cost, in tenths of a bit. */
  function Rate(opts: Options): nat { if opts.forceStatic then 91 else 88 }

  const FAR := 28_672   // LZ_DICT_SIZE - TDEFL_COMP_FAST_LOOKAHEAD_SIZE
  const SOME := 16_000

  /** The block hardly takes more room than its data: if they are many, with all that goes ahead of it. */
  predicate Cheap(bits: nat, n: nat, opts: Options) {
    if n >= SOME then 10 * bits + 170 <= Rate(opts) * n else 10 * bits <= Rate(opts) * n + 410
  }

  lemma ChoiceCheap(plan: Plan, ts: seq<Token>, data: seq<Byte>, opts: Options, held: bool, before: nat, at: nat)
    requires Choice(plan, ts, data, opts, held, before) && TotalLen(ts) == |data| && Possible(plan, ts, data)
    requires held || (AllWorth(ts) && |data| >= FAR)
    ensures Cheap(|PlanBits(plan, ts, data, at)|, |data|, opts)
  {
    hide AllWorth, TotalLen;
    if plan.StoredData? {
      StoredSize(ts, data, at);
    } else {
      SamePlan(plan, ts, data, at);
      if held && data == [] {
        EmptySize(ts);
      } else if held {
        hide Possible, PlanBits;
        var bits := |PlanBits(plan, ts, [], 0)|;
        assert 8 * ((before + bits) / 8 - before / 8) + 8 > bits;
      } else {
        hide Possible, PlanBits;
      }
    }
  }

  lemma StoredSize(ts: seq<Token>, data: seq<Byte>, at: nat)
    requires Possible(StoredData, ts, data)
    ensures |PlanBits(StoredData, ts, data, at)| <= 8 * |data| + 41
  {
    hide ByteBits, Lsb, Pad;
  }

  lemma EmptySize(ts: seq<Token>)
    requires TotalLen(ts) == 0 && Possible(Static, ts, [])
    ensures |PlanBits(Static, ts, [], 0)| == 9
  {
    hide Lsb;
    forall i | 0 <= i < |ts| ensures ValidToken(ts[i]) { CodedValid(ts[i], FixedLit(), FixedDist()); }
    Standing(ts);
    EndLength();
  }

  /** Every token stands for a byte at least. */
  lemma {:induction false} Standing(ts: seq<Token>)
    requires AllValid(ts)
    ensures TotalLen(ts) >= |ts|
  {
    if ts != [] {
      Standing(ts[..|ts| - 1]);
      assert ValidToken(ts[|ts| - 1]);
    }
  }

  // ---------- the sending state

  /** The buffer is sealed with `ts` in it. */
  ghost predicate Packed(d: CodeBuffer, ts: seq<Token>)
    reads d, d.buf
  {
    d.Shape() && AllValid(ts) && d.pos <= LZ_CODE_BUF_SIZE - 2 && d.buf[..d.pos] == Layout(ts)
  }

  /** The parts of `tdefl_compressor` that send blocks. */
  class Output {
    const w: Writer
    const d: CodeBuffer
    const t: HuffTable.Table
    const wide: bool   // the emitter with the 64-bit register is built in
    const opts: Options
    var dictPos: nat     // m_lz_code_buf_dict_pos
    var blockIndex: nat  // m_block_index
    ghost var stream: Bitstring    // every bit sent
    ghost var emitted: seq<Byte>   // every byte put out
    ghost const repr: set<object>

    ghost function Footprint(): set<object> {
      {this, w, w.buf, d, d.buf, d.lit.count, d.lit.codes, d.lit.sizes, d.dist.count, d.dist.codes, d.dist.sizes, t.count, t.codes, t.sizes}
    }

    ghost predicate Shape()
      reads w`end
    {
      && repr == Footprint() && Apart(d, t) && d.Shape() && w.buf != d.buf && w.end == OUT_BUF_SIZE - 16 && w.buf.Length == OUT_BUF_SIZE
    }

    ghost predicate Valid()
      reads this, w, w.buf, d, d.buf, d.lit.count, d.dist.count
    {
      && Shape() && w.Valid() && d.Valid() && dictPos < MAX_WORD32 && blockIndex < MAX_WORD32
      && stream == ByteBits(emitted) + Lsb(w.bitBuffer, w.bitsIn)
    }

    constructor (opts: Options, wide: bool)
      ensures Valid() && stream == [] && emitted == [] && d.tokens == [] && dictPos == 0 && blockIndex == 0
      ensures this.opts == opts && this.wide == wide && d.pos == 1
      ensures fresh(repr) && fresh(w) && fresh(w.buf) && fresh(d) && fresh(d.buf) && fresh(t) && fresh(t.count) && fresh(t.codes) && fresh(t.sizes)
      ensures fresh(d.lit.count) && fresh(d.lit.codes) && fresh(d.lit.sizes)
      ensures fresh(d.dist.count) && fresh(d.dist.codes) && fresh(d.dist.sizes)
    {
      hide Written, LitCounted, DistCounted, Recorded;
      var wr := new Writer(OUT_BUF_SIZE);
      var cb := new CodeBuffer();
      var tb := new HuffTable.Table();
      w, d, t := wr, cb, tb;
      this.opts, this.wide := opts, wide;
      repr := {this, wr, wr.buf, cb, cb.buf, cb.lit.count, cb.lit.codes, cb.lit.sizes, cb.dist.count, cb.dist.codes, cb.dist.sizes,
               tb.count, tb.codes, tb.sizes};
      dictPos, blockIndex, stream, emitted := 0, 0, [], [];
      new;
      BitsInIs(w.buf[..], w.pos, w.end, w.sent, w.bitBuffer, w.bitsIn);
    }

    /** `tdefl_compress_lz_codes`, whichever is built in. */
    method SendCodes(ghost lit: seq<nat>, ghost dist: seq<nat>, ghost ts: seq<Token>) returns (ok: bool)
      requires Shape() && w.Valid() && Sealed(d, lit, dist, ts)
      modifies w`pos, w`bitBuffer, w`bitsIn, w`sent, w.buf
      ensures w.Valid() && ok == (|old(w.sent) + BodyBits(ts, lit, dist)| / 8 < w.end)
      ensures ok ==> w.sent == old(w.sent) + BodyBits(ts, lit, dist)
      ensures w.pos >= old(w.pos) && forall k :: 0 <= k < old(w.pos) && k < w.buf.Length ==> w.buf[k] == old(w.buf[k])
    {
      hide Ready, Layout, Written, BodyBits;
      if wide {
        ok := CompressLzCodesFast(w, d, lit, dist, ts);
      } else {
        ok := CompressLzCodes(w, d, lit, dist, ts);
      }
    }

    /** `tdefl_compress_block`. A static block always succeeds. */
    method CompressBlock(isStatic: bool, ghost ts: seq<Token>) returns (ok: bool, ghost plan: Plan)
      requires Shape() && w.Valid() && Packed(d, ts) && |w.sent| <= 24
      requires !isStatic ==> Loaded(d, ts)
      modifies w`pos, w`bitBuffer, w`bitsIn, w`sent, w.buf
      modifies d.lit.count, d.lit.codes, d.lit.sizes, d.dist.codes, d.dist.sizes, t.count, t.codes, t.sizes
      ensures w.Valid() && Possible(plan, ts, []) && !plan.StoredData? && Compressed(plan, ts)
      ensures ok ==> w.sent == old(w.sent) + PlanBits(plan, ts, [], 0) && |w.sent| / 8 < BLOCK_LIMIT
      ensures !ok ==> Oversize(plan, ts, |old(w.sent)|)
      ensures if isStatic then ok && plan == Static else plan.Dynamic?
      ensures w.pos >= old(w.pos) && forall k :: 0 <= k < old(w.pos) && k < w.buf.Length ==> w.buf[k] == old(w.buf[k])
    {
      hide Ready, Layout, Written, BodyBits, ValidHeader, DynamicBits, Lsb, AllCoded, LitCounted, DistCounted, AllValid, Compressed, AllWorth,
        TotalLen;
      if isStatic {
        plan := Static;
        StaticFits(ts, |w.sent|);
        StaticSize(ts);
        ghost var base := w.sent;
        StartStaticBlock(w, d, ts);
        ok := SendCodes(FixedLit(), FixedDist(), ts);
        Reassociate(base, Lsb(1, 2), BodyBits(ts, FixedLit(), FixedDist()));
      } else {
        ghost var base := w.sent;
        ghost var h := StartDynamicBlock(w, d, t, ts);
        SealedCoded(d.lit.codes[..], d.dist.codes[..], h.lit, h.dist, ts);
        ok := SendCodes(h.lit, h.dist, ts);
        plan := Dynamic(h);
        DynamicFits(h, ts, |base|);
        DynamicSize(h, ts);
        Reassociate(base, DynamicBits(h), BodyBits(ts, h.lit, h.dist));
      }
    }

    /** The length of a stored block and its complement, by flipping `m_total_lz_bytes` twice. */
    method StoreLength()
      requires w.Valid() && d.totalBytes <= LZ_DICT_SIZE
      modifies w`pos, w`bitBuffer, w`bitsIn, w`sent, w.buf, d`totalBytes
      ensures d.totalBytes == old(d.totalBytes)
      ensures w.Valid() && w.sent == old(w.sent) + Lsb(d.totalBytes, 16) + Lsb(0xFFFF - d.totalBytes, 16)
      ensures w.pos >= old(w.pos) && forall k :: 0 <= k < old(w.pos) && k < w.buf.Length ==> w.buf[k] == old(w.buf[k])
    {
      hide Lsb, Pow2, Written;
      StoredWidths();
      ghost var base, len := w.sent, d.totalBytes;
      var i := 2;
      while i > 0
        invariant 0 <= i <= 2 && w.Valid() && d.totalBytes == if i == 1 then 0xFFFF - len else len
        invariant w.sent == (if i == 2 then base else if i == 1 then base + Lsb(len, 16) else base + Lsb(len, 16) + Lsb(0xFFFF - len, 16))
        invariant w.pos >= old(w.pos) && forall k :: 0 <= k < old(w.pos) && k < w.buf.Length ==> w.buf[k] == old(w.buf[k])
      {
        w.PutBits(d.totalBytes % 65536, 16);
        i := i - 1;
        d.totalBytes := FlipLow(d.totalBytes);
      }
    }

    /** The bytes that the abandoned tokens stood for, from the dictionary. */
    method StoreBytes(dict: array<Byte>, ghost data: seq<Byte>)
      requires w.Valid() && dict.Length == DICT_LENGTH && dict != w.buf && d.totalBytes == |data|
      requires forall i :: 0 <= i < |data| ==> dict[Slot(dictPos, i)] == data[i]
      modifies w`pos, w`bitBuffer, w`bitsIn, w`sent, w.buf
      ensures w.Valid() && w.sent == old(w.sent) + ByteBits(data)
      ensures w.pos >= old(w.pos) && forall k :: 0 <= k < old(w.pos) && k < w.buf.Length ==> w.buf[k] == old(w.buf[k])
    {
      hide Lsb, Pow2, Written, ByteBits, Slot;
      StoredWidths();
      NoBytes();
      ghost var base := w.sent;
      var i := 0;
      assert data[..0] == [] && base + [] == base;
      while i < d.totalBytes
        invariant 0 <= i <= |data| && w.Valid() && w.sent == base + ByteBits(data[..i])
        invariant w.pos >= old(w.pos) && forall k :: 0 <= k < old(w.pos) && k < w.buf.Length ==> w.buf[k] == old(w.buf[k])
      {
        SlotBound(dictPos, i);
        w.PutBits(dict[Slot(dictPos, i)], 8);
        DataSnoc(data, i);
        Reassociate(base, ByteBits(data[..i]), Lsb(data[i], 8));
        i := i + 1;
      }
      assert data[..i] == data;
    }

    /** The stored fallback. */
    method StoreRaw(dict: array<Byte>, ghost ts: seq<Token>, ghost data: seq<Byte>, ghost at: nat)
      requires w.Valid() && dict.Length == DICT_LENGTH && dict != w.buf && d.totalBytes == |data| <= LZ_DICT_SIZE
      requires forall i :: 0 <= i < |data| ==> dict[Slot(dictPos, i)] == data[i]
      requires |w.sent| % 8 == (at + 1) % 8
      modifies w`pos, w`bitBuffer, w`bitsIn, w`sent, w.buf, d`totalBytes
      ensures w.Valid() && Possible(StoredData, ts, data) && w.sent == old(w.sent) + PlanBits(StoredData, ts, data, at)
      ensures d.totalBytes == old(d.totalBytes)
      ensures w.pos >= old(w.pos) && forall k :: 0 <= k < old(w.pos) && k < w.buf.Length ==> w.buf[k] == old(w.buf[k])
    {
      hide Lsb, Pow2, Written, ByteBits, Pad, Slot;
      ghost var base, len := w.sent, d.totalBytes;
      StoredWidths();
      w.PutBits(0, 2);
      PadSame(|w.sent|, at + 3);
      w.PadToByte();
      StoreLength();
      StoreBytes(dict, data);
      StoredParts(base, Lsb(0, 2), Pad(at + 3), Lsb(len, 16), Lsb(0xFFFF - len, 16), ByteBits(data));
    }

    /** The choice between a compressed block, the stored fallback and the static retry. */
    method SendBlock(dict: array<Byte>, lookaheadPos: nat, dictSize: nat, ghost ts: seq<Token>, ghost data: seq<Byte>, ghost at: nat)
      returns (ghost plan: Plan)
      requires Shape() && w.Valid() && Loaded(d, ts) && |w.sent| <= 24 && |w.sent| % 8 == (at + 1) % 8
      requires dict.Length == DICT_LENGTH && dict != w.buf && d.totalBytes == |data| && dictPos < MAX_WORD32 && dictSize <= LZ_DICT_SIZE
      requires InWindow(dict[..], dictPos, lookaheadPos, dictSize, data)
      modifies w`pos, w`bitBuffer, w`bitsIn, w`sent, w.buf, d`totalBytes
      modifies d.lit.count, d.lit.codes, d.lit.sizes, d.dist.codes, d.dist.sizes, t.count, t.codes, t.sizes
      ensures w.Valid() && Possible(plan, ts, data) && w.sent == old(w.sent) + PlanBits(plan, ts, data, at)
      ensures Choice(plan, ts, data, opts, Span(lookaheadPos, dictPos) <= dictSize, |old(w.sent)|)
      ensures |w.sent| / 8 < BLOCK_LIMIT
      ensures d.totalBytes == old(d.totalBytes)
    {
      hide Layout, Written, BodyBits, ValidHeader, DynamicBits, Lsb, AllCoded, LitCounted, DistCounted, AllValid, Used, ByteBits, Pad, PlanBits,
        Compressed, Oversize, Possible;
      var span := Span(lookaheadPos, dictPos);
      var useRaw := opts.forceRaw && span <= dictSize;
      var savedPos, savedBuffer, savedBits := w.pos, w.bitBuffer, w.bitsIn;
      ghost var savedSent, savedBytes := w.sent, w.buf[..];
      var ok := false;
      ghost var tried := Static;
      HasRoom(w);
      BytesOut(w);
      if !useRaw {
        ok, plan := CompressBlock(opts.forceStatic || d.totalBytes < 48, ts);
        tried := plan;
        SamePlan(plan, ts, data, at);
        if plan.Static? { StaticFits(ts, |savedSent|); }
        BytesOut(w);
      }
      if (useRaw || (d.totalBytes != 0 && w.pos - savedPos + 1 >= d.totalBytes)) && span <= dictSize {
        SameBytes(savedBytes, w.buf[..], savedPos, w.end, savedSent, savedBuffer, savedBits);
        w.Rewind(savedPos, savedBuffer, savedBits, savedSent);
        StoreRaw(dict, ts, data, at);
        plan := StoredData;
        StoredFits(ts, data, at, |savedSent|);
      } else if !ok {
        SameBytes(savedBytes, w.buf[..], savedPos, w.end, savedSent, savedBuffer, savedBits);
        w.Rewind(savedPos, savedBuffer, savedBits, savedSent);
        ok, plan := CompressBlock(true, ts);
        SamePlan(plan, ts, data, at);
        StaticFits(ts, |savedSent|);
      }
      NeverOversize(tried, ts, |savedSent|);
    }

    /** The bits after the block: nothing, an empty stored block, or the end of the stream. */
    method EndFlush(flush: FlushKind, adler: nat, ghost at: nat)
      requires w.Valid() && adler < MAX_WORD32 && |w.sent| % 8 == at % 8
      modifies w`pos, w`bitBuffer, w`bitsIn, w`sent, w.buf
      ensures w.Valid() && w.sent == old(w.sent) + Tail(flush, opts.zlib, adler, at)
      ensures w.pos >= old(w.pos) && forall k :: 0 <= k < old(w.pos) && k < w.buf.Length ==> w.buf[k] == old(w.buf[k])
    {
      hide Lsb, Pow2, Written, Pad;
      ghost var base := w.sent;
      StoredWidths();
      assert base + [] == base;
      if flush != NoFlush {
        if flush == Finish {
          PadSame(|w.sent|, at);
          w.PadToByte();
          if opts.zlib {
            ghost var padded := w.sent;
            SendAdler(adler);
            Reassociate(base, Pad(at), AdlerBits(adler));
          } else {
            assert base + (Pad(at) + []) == w.sent;
          }
        } else {
          SyncHead(at);
          w.PutBits(0, 3);
          PadSame(|w.sent|, at + 3);
          w.PadToByte();
          w.PutBits(0, 16);
          w.PutBits(0xFFFF, 16);
          SyncParts(base, at);
        }
      }
    }

    /** The checksum, highest byte first. */
    method SendAdler(adler: nat)
      requires w.Valid() && adler < MAX_WORD32
      modifies w`pos, w`bitBuffer, w`bitsIn, w`sent, w.buf
      ensures w.Valid() && w.sent == old(w.sent) + AdlerBits(adler)
      ensures w.pos >= old(w.pos) && forall k :: 0 <= k < old(w.pos) && k < w.buf.Length ==> w.buf[k] == old(w.buf[k])
    {
      hide Lsb, Pow2, Written;
      StoredWidths();
      ghost var base := w.sent;
      var i, a := 0, adler;
      assert base + AdlerBytes(adler, 0) == base;
      while i < 4
        invariant 0 <= i <= 4 && w.Valid() && a == Shifted(adler, i) && w.sent == base + AdlerBytes(adler, i)
        invariant w.pos >= old(w.pos) && forall k :: 0 <= k < old(w.pos) && k < w.buf.Length ==> w.buf[k] == old(w.buf[k])
      {
        ShiftedSmall(adler, i);
        w.PutBits(TopByte(a), 8);
        Reassociate(base, AdlerBytes(adler, i), Lsb(TopByte(a), 8));
        a := a * 256 % MAX_WORD32;
        i := i + 1;
      }
    }

    /** The zlib header, before the first block, and the block's final bit. */
    method SendHead(flush: FlushKind)
      requires w.Valid()
      modifies w`pos, w`bitBuffer, w`bitsIn, w`sent, w.buf
      ensures w.Valid() && w.sent == old(w.sent) + Head(opts.zlib && blockIndex == 0) + FinalBit(flush == Finish)
      ensures |FinalBit(flush == Finish)| == 1
    {
      hide Written, Lsb, Pow2, FinalBit;
      ghost var base := w.sent;
      StoredWidths();
      if opts.zlib && blockIndex == 0 {
        w.PutBits(0x78, 8);
        w.PutBits(0x01, 8);
        Reassociate(base, Lsb(0x78, 8), Lsb(0x01, 8));
      } else {
        assert base + [] == base;
      }
      OneBit();
      w.PutBits(if flush == Finish then 1 else 0, 1);
      FinalIs(flush == Finish);
    }

    /** The start of a flush: the output buffer starts anew, and the token buffer is sealed. */
    method BeginFlush(flush: FlushKind) returns (ghost carried: Bitstring, ghost at: nat)
      requires Valid() && d.pos <= LZ_CODE_BUF_SIZE - 2
      modifies w`pos, w`bitBuffer, w`bitsIn, w`sent, w.buf, d`pos, d.buf
      ensures w.Valid() && Loaded(d, d.tokens)
      ensures w.sent == carried + Head(opts.zlib && blockIndex == 0) + FinalBit(flush == Finish)
      ensures |w.sent| <= 24 && |w.sent| % 8 == (at + 1) % 8 && |w.sent| == HeadRoom(stream, opts.zlib && blockIndex == 0)
      ensures stream == ByteBits(emitted) + carried && at == |stream| + |Head(opts.zlib && blockIndex == 0)|
    {
      hide ByteBits, Layout, Written, LitCounted, DistCounted, AllValid, Lsb, Pow2, Recorded, FinalBit;
      RecordedSize(d.buf[..], d.pos, d.flagPos, d.flagsLeft, d.tokens);
      CountedValid(d.lit.count[..], d.tokens);
      BitsInIs(w.buf[..], w.pos, w.end, w.sent, w.bitBuffer, w.bitsIn);
      carried := Lsb(w.bitBuffer, w.bitsIn);
      w.Start();
      d.Seal();
      ghost var head := Head(opts.zlib && blockIndex == 0);
      SendHead(flush);
      StartAligned(stream, emitted, carried);
      at := |stream| + |head|;
    }

    /** The block after its final bit, and the end of the flush. */
    method SendAll(dict: array<Byte>, lookaheadPos: nat, dictSize: nat, flush: FlushKind, adler: nat, ghost ts: seq<Token>,
                   ghost data: seq<Byte>, ghost at: nat) returns (ghost plan: Plan)
      requires Shape() && w.Valid() && Loaded(d, ts) && |w.sent| <= 24 && |w.sent| % 8 == (at + 1) % 8 && adler < MAX_WORD32
      requires dict.Length == DICT_LENGTH && dict != w.buf && d.totalBytes == |data| && dictPos < MAX_WORD32 && dictSize <= LZ_DICT_SIZE
      requires InWindow(dict[..], dictPos, lookaheadPos, dictSize, data)
      modifies w`pos, w`bitBuffer, w`bitsIn, w`sent, w.buf, d`totalBytes
      modifies d.lit.count, d.lit.codes, d.lit.sizes, d.dist.codes, d.dist.sizes, t.count, t.codes, t.sizes
      ensures w.Valid() && Possible(plan, ts, data) && d.totalBytes == old(d.totalBytes)
      ensures w.sent == old(w.sent) + (PlanBits(plan, ts, data, at) + Tail(flush, opts.zlib, adler, at + 1 + |PlanBits(plan, ts, data, at)|))
      ensures Choice(plan, ts, data, opts, Span(lookaheadPos, dictPos) <= dictSize, |old(w.sent)|) && w.pos < w.end
    {
      hide Layout, Written, ValidHeader, DynamicBits, Lsb, AllCoded, LitCounted, DistCounted, ByteBits, Pad, PlanBits, Possible, InWindow, Tail, Loaded,
        Choice, Span;
      ghost var base := w.sent;
      plan := SendBlock(dict, lookaheadPos, dictSize, ts, data, at);
      ghost var bits := PlanBits(plan, ts, data, at);
      EndFlush(flush, adler, at + 1 + |bits|);
      TailLength(flush, opts.zlib, adler, at + 1 + |bits|);
      HasRoom(w);
      Reassociate(base, bits, Tail(flush, opts.zlib, adler, at + 1 + |bits|));
    }

    /** `tdefl_flush_block`: the buffered tokens go out as one block; `n` bytes are put out. */
    method FlushBlock(dict: array<Byte>, lookaheadPos: nat, dictSize: nat, flush: FlushKind, adler: nat, ghost data: seq<Byte>)
      returns (n: nat, ghost plan: Plan)
      requires Valid() && d.pos <= LZ_CODE_BUF_SIZE - 2 && dict.Length == DICT_LENGTH && adler < MAX_WORD32 && dictSize <= LZ_DICT_SIZE
      requires dict != w.buf && dict != d.buf
      requires d.totalBytes == |data| && InWindow(dict[..], dictPos, lookaheadPos, dictSize, data)
      modifies repr
      ensures Valid() && Shape() && d.tokens == [] && d.pos == 1
      ensures dictPos == Wrap32(old(dictPos) + |data|) && blockIndex == Wrap32(old(blockIndex) + 1)
      ensures FlushSends(old(stream), stream, opts.zlib && old(blockIndex) == 0, plan, flush, opts.zlib, adler, old(d.tokens), data)
      ensures n <= w.buf.Length && emitted == old(emitted) + w.buf[..n]
      ensures n < OUT_BUF_SIZE - 16
      ensures Choice(plan, old(d.tokens), data, opts, Span(lookaheadPos, old(dictPos)) <= dictSize, HeadRoom(old(stream), opts.zlib && old(blockIndex) == 0))
    {
      hide Layout, Written, ValidHeader, DynamicBits, Lsb, AllCoded, LitCounted, DistCounted, AllValid, ByteBits, PlanBits, Recorded, FinalBit,
        Possible, InWindow, Tail, Pow2, FlushBits, Wrap32, Head, Choice, Span, HeadRoom;
      ghost var ts := d.tokens;
      ghost var carried, at := BeginFlush(flush);
      plan := SendAll(dict, lookaheadPos, dictSize, flush, adler, ts, data, at);
      ghost var added := FlushBits(|stream|, opts.zlib && blockIndex == 0, plan, flush, opts.zlib, adler, ts, data);
      FlushSent(carried, Head(opts.zlib && blockIndex == 0), flush, plan, opts.zlib, adler, ts, data, |stream|, opts.zlib && blockIndex == 0);
      n := EndBlock(carried, added);
    }

    /** The end of `tdefl_flush_block`: the token buffer is emptied, and the bytes are put out. */
    method EndBlock(ghost carried: Bitstring, ghost added: Bitstring) returns (n: nat)
      requires Shape() && w.Valid() && dictPos < MAX_WORD32 && blockIndex < MAX_WORD32
      requires stream == ByteBits(emitted) + carried && w.sent == carried + added && w.pos < w.end
      modifies this`dictPos, this`blockIndex, this`stream, this`emitted
      modifies d`pos, d`flagPos, d`flagsLeft, d`totalBytes, d`tokens, d.lit.count, d.dist.count
      ensures Valid() && d.tokens == [] && d.pos == 1
      ensures dictPos == Wrap32(old(dictPos) + old(d.totalBytes)) && blockIndex == Wrap32(old(blockIndex) + 1)
      ensures stream == old(stream) + added && n == w.pos <= w.buf.Length && emitted == old(emitted) + w.buf[..n]
    {
      hide Written, LitCounted, DistCounted, ByteBits, Recorded, Lsb;
      n := w.pos;
      BytesWritten(w.buf[..], w.pos, w.end, w.sent, w.bitBuffer, w.bitsIn);
      Delivered(w.buf[..], w.pos, w.end, w.sent, w.bitBuffer, w.bitsIn, emitted, carried, added);
      stream := stream + added;
      emitted := emitted + w.buf[..n];
      dictPos := Wrap32(dictPos + d.totalBytes);
      d.Reset();
      blockIndex := Wrap32(blockIndex + 1);
    }
  }

  /** How many bits of a flush go ahead of the block: those carried over, the zlib header, and the final bit. */
  function HeadRoom(stream: Bitstring, first: bool): nat { |stream| % 8 + |Head(first)| + 1 }

  /** What a flush adds to the stream is little more than its data, or less. */
  lemma FlushCheap(before: Bitstring, after: Bitstring, first: bool, plan: Plan, flush: FlushKind, zlib: bool, adler: nat, ts: seq<Token>,
                   data: seq<Byte>, opts: Options, held: bool, room: nat)
    requires FlushSends(before, after, first, plan, flush, zlib, adler, ts, data) && Choice(plan, ts, data, opts, held, room)
    requires TotalLen(ts) == |data| && (held || (AllWorth(ts) && |data| >= FAR))
    ensures 10 * |after| <= 10 * |before| + Rate(opts) * |data| + if flush == NoFlush && |data| >= SOME then 0 else 1000
  {
    hide Possible, PlanBits, Choice, AllWorth, TotalLen, Tail, Lsb;
    var at := |before| + |Head(first)|;
    ChoiceCheap(plan, ts, data, opts, held, room, at);
    FinalIs(flush == Finish);
    TailLength(flush, zlib, adler, at + 1 + |PlanBits(plan, ts, data, at)|);
    NoTail(zlib, adler, at + 1 + |PlanBits(plan, ts, data, at)|);
  }

  lemma NoTail(zlib: bool, adler: nat, at: nat)
    ensures Tail(NoFlush, zlib, adler, at) == []
  {
  }

  /** The zlib header before the first block. */
  function Head(first: bool): Bitstring { if first then Lsb(0x78, 8) + Lsb(0x01, 8) else [] }

  lemma FlushSent(carried: Bitstring, head: Bitstring, flush: FlushKind, plan: Plan, zlib: bool, adler: nat, ts: seq<Token>, data: seq<Byte>,
                  before: nat, first: bool)
    requires Possible(plan, ts, data) && head == Head(first)
    ensures var at := before + |head|;
            carried + head + FinalBit(flush == Finish) +
            (PlanBits(plan, ts, data, at) + Tail(flush, zlib, adler, at + 1 + |PlanBits(plan, ts, data, at)|)) ==
            carried + FlushBits(before, first, plan, flush, zlib, adler, ts, data)
  {
    hide PlanBits, Tail, Possible, FinalBit, Lsb;
    FinalIs(flush == Finish);
    var at := before + |head|;
    var c, d := FinalBit(flush == Finish), PlanBits(plan, ts, data, at);
    SentParts(carried, head, c, d, Tail(flush, zlib, adler, at + 1 + |d|));
  }

  lemma StartAligned(stream: Bitstring, emitted: seq<Byte>, carried: Bitstring)
    requires stream == ByteBits(emitted) + carried
    ensures |stream| % 8 == |carried| % 8
  {
    hide ByteBits;
  }

  lemma FinalIs(final: bool)
    ensures FinalBit(final) == Lsb(if final then 1 else 0, 1) && |FinalBit(final)| == 1
  {
  }

  lemma BytesWritten(buf: seq<Byte>, pos: nat, end: nat, all: Bitstring, v: nat, n: nat)
    requires Written(buf, pos, end, all, v, n)
    ensures pos <= |buf|
  {
    hide Lsb, Pow2, ByteBits;
  }

  lemma SentParts(a: Bitstring, b: Bitstring, c: Bitstring, d: Bitstring, e: Bitstring)
    ensures a + b + c + (d + e) == a + (b + (c + d) + e)
  {
  }

  lemma Delivered(buf: seq<Byte>, pos: nat, end: nat, all: Bitstring, v: nat, n: nat, emitted: seq<Byte>, carried: Bitstring, added: Bitstring)
    requires Written(buf, pos, end, all, v, n) && n < 8 && pos < end && all == carried + added
    ensures pos <= |buf| && ByteBits(emitted) + carried + added == ByteBits(emitted + buf[..pos]) + Lsb(v, n)
  {
    hide Lsb, Pow2, ByteBits, Written;
    WriterContents(buf, pos, end, all, v, n);
    BytesWritten(buf, pos, end, all, v, n);
    ByteBitsAppend(emitted, buf[..pos]);
    Reassociate(ByteBits(emitted), ByteBits(buf[..pos]), Lsb(v, n));
  }

  lemma CountedValid(count: seq<Word16>, ts: seq<Token>)
    requires LitCounted(count, ts)
    ensures AllValid(ts)
  {
  }

  lemma OneBit()
    ensures Pow2(1) == 2
  {
  }

  /** The checksum in sending order. */
  function AdlerBytes(adler: nat, n: nat): (b: Bitstring)
    ensures |b| == 8 * n
  {
    if n == 0 then [] else AdlerBytes(adler, n - 1) + Lsb(TopByte(Shifted(adler, n - 1)), 8)
  }

  /** `(a >> 24) & 0xFF`. */
  function TopByte(a: nat): (b: nat)
    ensures b < 256
  {
    a / 0x100_0000 % 256
  }

  function AdlerBits(adler: nat): Bitstring { AdlerBytes(adler, 4) }

  /** `adler` shifted left by `i` bytes, on 32 bits. */
  function Shifted(adler: nat, i: nat): nat {
    if i == 0 then adler else Shifted(adler, i - 1) * 256 % MAX_WORD32
  }

  lemma ShiftedSmall(adler: nat, i: nat)
    requires adler < MAX_WORD32
    ensures Shifted(adler, i) < MAX_WORD32
  {
  }

  function Tail(flush: FlushKind, zlib: bool, adler: nat, at: nat): Bitstring {
    match flush
    case NoFlush => []
    case Finish => Pad(at) + (if zlib then AdlerBits(adler) else [])
    case _ => StoredBlock(at, false, [])
  }

  lemma TailLength(flush: FlushKind, zlib: bool, adler: nat, at: nat)
    ensures |Tail(flush, zlib, adler, at)| <= 42
  {
    hide Lsb, Pad;
    NoBytes();
  }

  lemma SyncHead(at: nat)
    ensures FinalBit(false) + Lsb(0, 2) == Lsb(0, 3) && Pow2(3) == 8
  {
    assert Pow2(1) == 2;
    LsbAppend(0, 1, 0, 2);
  }

  lemma SyncParts(base: Bitstring, at: nat)
    ensures base + Lsb(0, 3) + Pad(at + 3) + Lsb(0, 16) + Lsb(0xFFFF, 16) == base + StoredBlock(at, false, [])
  {
    hide Lsb, Pad, FinalBit;
    NoBytes();
    SyncHead(at);
    assert Lsb(0xFFFF, 16) + [] == Lsb(0xFFFF, 16);
    StoredParts(base, Lsb(0, 3), Pad(at + 3), Lsb(0, 16), Lsb(0xFFFF, 16), []);
  }

  /** Everything that one flush adds to a stream of `before` bits. */
  ghost function FlushBits(before: nat, first: bool, plan: Plan, flush: FlushKind, zlib: bool, adler: nat, ts: seq<Token>, data: seq<Byte>): Bitstring
    requires Possible(plan, ts, data)
  {
    var head := Head(first);
    var at := before + |head|;
    var block := FinalBit(flush == Finish) + PlanBits(plan, ts, data, at);
    head + block + Tail(flush, zlib, adler, at + |block|)
  }

  /** `(m_lz_code_buf_dict_pos + i) & TDEFL_LZ_DICT_SIZE_MASK`. */
  function Slot(dictPos: nat, i: nat): (k: nat)
    ensures k < LZ_DICT_SIZE
  {
    (dictPos + i) % LZ_DICT_SIZE
  }

  lemma SlotBound(dictPos: nat, i: nat)
    ensures Slot(dictPos, i) < LZ_DICT_SIZE
  {
  }

  /** `x ^ 0xFFFF`. */
  function FlipLow(x: nat): nat { x - x % 65536 + (65535 - x % 65536) }

  /** `m_lookahead_pos - m_lz_code_buf_dict_pos` on 32 bits. */
  function Span(lookaheadPos: nat, dictPos: nat): nat
    requires dictPos < MAX_WORD32
  {
    (lookaheadPos + MAX_WORD32 - dictPos) % MAX_WORD32
  }

  /** When the dictionary reaches back to the start of the block, it holds the block's data. */
  ghost predicate InWindow(dict: seq<Byte>, dictPos: nat, lookaheadPos: nat, dictSize: nat, data: seq<Byte>)
    requires dictPos < MAX_WORD32 && |dict| == DICT_LENGTH
  {
    Span(lookaheadPos, dictPos) <= dictSize ==>
      |data| <= LZ_DICT_SIZE && forall i :: 0 <= i < |data| ==> dict[Slot(dictPos, i)] == data[i]
  }

  /** As long as there is room, all whole bytes are out. */
  lemma BytesOut(w: Writer)
    requires w.Valid()
    ensures |w.sent| / 8 < w.end ==> w.pos == |w.sent| / 8
  {
    hide Pow2, Lsb;
  }

  lemma StoredWidths()
    ensures Pow2(16) == 0x1_0000 && Pow2(8) == 256 && Pow2(2) == 4
  {
    SixteenBits();
  }

  lemma PadSame(m: nat, n: nat)
    requires m % 8 == n % 8
    ensures Pad(m) == Pad(n)
  {
  }

  lemma NoBytes()
    ensures ByteBits([]) == []
  {
  }

  lemma DataSnoc(data: seq<Byte>, i: nat)
    requires i < |data|
    ensures ByteBits(data[..i + 1]) == ByteBits(data[..i]) + Lsb(data[i], 8)
  {
    hide Lsb;
    assert data[..i + 1][..i] == data[..i];
  }

  lemma StoredParts(base: Bitstring, a: Bitstring, b: Bitstring, c: Bitstring, d: Bitstring, e: Bitstring)
    ensures base + a + b + c + d + e == base + (a + (b + (c + (d + e))))
  {
  }

  lemma SamePlan(plan: Plan, ts: seq<Token>, data: seq<Byte>, at: nat)
    requires Possible(plan, ts, []) && !plan.StoredData?
    ensures Possible(plan, ts, data) && PlanBits(plan, ts, data, at) == PlanBits(plan, ts, [], 0)
  {
    hide ValidHeader, AllCoded, BodyBits, DynamicBits;
  }

  lemma StoredFits(ts: seq<Token>, data: seq<Byte>, at: nat, before: nat)
    requires |data| <= LZ_DICT_SIZE && before <= 24
    ensures Possible(StoredData, ts, data) && (before + |PlanBits(StoredData, ts, data, at)|) / 8 < BLOCK_LIMIT
  {
    hide ByteBits, Lsb, Pad;
  }

  lemma SealedCoded(litCodes: seq<nat>, distCodes: seq<nat>, lit: seq<nat>, dist: seq<nat>, ts: seq<Token>)
    requires Ready(litCodes, distCodes, lit, dist, ts)
    ensures AllCoded(ts, lit, dist) && Used(lit, END_OF_BLOCK)
  {
  }

  /** A flush takes the stream from `before` to `after`. */
  ghost predicate FlushSends(before: Bitstring, after: Bitstring, first: bool, plan: Plan, flush: FlushKind, zlib: bool, adler: nat,
                             ts: seq<Token>, data: seq<Byte>)
  {
    Possible(plan, ts, data) && after == before + FlushBits(|before|, first, plan, flush, zlib, adler, ts, data)
  }

  // ---------- what a flush means

  /** The block of a flush. */
  ghost function BlockPart(before: nat, first: bool, plan: Plan, flush: FlushKind, ts: seq<Token>, data: seq<Byte>): Bitstring
    requires Possible(plan, ts, data)
  {
    FinalBit(flush == Finish) + PlanBits(plan, ts, data, before + |Head(first)|)
  }

  ghost function TailPart(before: nat, first: bool, plan: Plan, flush: FlushKind, zlib: bool, adler: nat, ts: seq<Token>, data: seq<Byte>): Bitstring
    requires Possible(plan, ts, data)
  {
    Tail(flush, zlib, adler, before + |Head(first)| + |BlockPart(before, first, plan, flush, ts, data)|)
  }

  lemma FlushParts(before: nat, first: bool, plan: Plan, flush: FlushKind, zlib: bool, adler: nat, ts: seq<Token>, data: seq<Byte>)
    requires Possible(plan, ts, data)
    ensures FlushBits(before, first, plan, flush, zlib, adler, ts, data) ==
            Head(first) + (BlockPart(before, first, plan, flush, ts, data) + TailPart(before, first, plan, flush, zlib, adler, ts, data))
  {
    hide PlanBits, Tail, Possible, FinalBit, Lsb;
    Reassociate(Head(first), BlockPart(before, first, plan, flush, ts, data), TailPart(before, first, plan, flush, zlib, adler, ts, data));
  }

  /** A flush in mid-stream takes the decoder past the block's data; the last one ends the stream
      with them, and leaves the padding and the checksum. */
  lemma FlushMeans(before: nat, first: bool, plan: Plan, flush: FlushKind, zlib: bool, adler: nat, ts: seq<Token>, data: seq<Byte>,
                   out: seq<Byte>, bits: Bitstring)
    requires Possible(plan, ts, data) && AllApply(out, ts) && Expand(out, ts) == out + data
    requires bits == BlockPart(before, first, plan, flush, ts, data) + TailPart(before, first, plan, flush, zlib, adler, ts, data)
    ensures flush != Finish ==> Means(false, bits, before + |Head(first)|, out, out + data)
    ensures flush == Finish ==> Means(true, BlockPart(before, first, plan, flush, ts, data), before + |Head(first)|, out, out + data)
  {
    hide PlanBits, Possible, FinalBit, Lsb, Means, AllApply, Expand, StoredBlock, Pad;
    var at := before + |Head(first)|;
    var block := BlockPart(before, first, plan, flush, ts, data);
    BlockMeans(plan, flush == Finish, ts, data, at, out, block);
    if flush != Finish {
      var tail := TailPart(before, first, plan, flush, zlib, adler, ts, data);
      if flush == NoFlush {
        assert tail == [];
        NothingMeans(at + |block|, out + data);
      } else {
        EmptyBlockMeans(tail, at + |block|, out + data);
      }
      MeansConcat(false, block, tail, bits, at, out, out + data, out + data);
    }
  }
}
