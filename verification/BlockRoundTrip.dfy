/** What the decoder makes of the blocks that `tdefl_flush_block` sends (sections 3.2.3 to 3.2.7 of
    RFC 1951): each of the three kinds decodes to the bytes that its tokens stand for. */
module BlockRoundTrip {
  import opened Bits
  import opened Canonical
  import opened Tokens
  import opened InflateSpec
  import opened DynamicHeader
  import opened Emitter
  import opened BitWriter
  import opened BlockStart
  import opened FixedCode
  import CLR = CodeLengthRle

  function FinalBit(final: bool): Bitstring { Lsb(if final then 1 else 0, 1) }

  lemma HeadField(final: bool, kind: nat, rest: Bitstring)
    requires kind < 4
    ensures Field(FinalBit(final) + Lsb(kind, 2) + rest, 3) == Got((if final then 1 else 0) + 2 * kind, rest)
  {
    var f := if final then 1 else 0;
    assert Pow2(1) == 2 && Pow2(2) == 4 && Pow2(3) == 8;
    LsbAppend(f, 1, kind, 2);
    FieldLsb(f + kind * 2, 3, rest);
  }

  /** A block whose head says `kind`. */
  lemma BlockOf(final: bool, kind: nat, body: Bitstring, h: seq<Byte>)
    requires kind < 4
    ensures DecodeBlock(FinalBit(final) + Lsb(kind, 2) + body, h) ==
            match BlockBody(kind, body, h) { case Bad => Bad case Got(out, rest) => Got(Block(final, out), rest) }
  {
    hide Lsb, BlockBody, Field;
    HeadField(final, kind, body);
  }

  /** The bits of a dynamic block. */
  ghost function DynamicBlock(final: bool, h: Header, ts: seq<Token>): Bitstring
    requires ValidHeader(h) && AllCoded(ts, h.lit, h.dist) && Used(h.lit, END_OF_BLOCK)
  {
    FinalBit(final) + DynamicBits(h) + BodyBits(ts, h.lit, h.dist)
  }

  lemma HeaderCodes(h: Header)
    requires ValidHeader(h)
    ensures GoodCode(h.lit) && GoodCode(h.dist)
  {
  }

  lemma DynamicBlockDecodes(final: bool, h: Header, ts: seq<Token>, out: seq<Byte>, rest: Bitstring)
    requires ValidHeader(h) && AllCoded(ts, h.lit, h.dist) && Used(h.lit, END_OF_BLOCK) && AllApply(out, ts)
    ensures DecodeBlock(DynamicBlock(final, h, ts) + rest, out) == Got(Block(final, Expand(out, ts)), rest)
  {
    hide Lsb, HeaderBits, TokensBits, Code, FinalBit, OpsCoded, CLR.Unpackable, CLR.Unpacked, Acceptable, AllApply, Expand, GoodCode, Used, AllCoded, DecodeBody, DecodeBlock,
      InflateSpec.DynamicHeader;
    HeaderCodes(h);
    var head := HeaderBits(|h.lit|, |h.dist|, h.lens, h.n, h.packed);
    var ts' := TokensBits(ts, h.lit, h.dist);
    var eob := Code(h.lit, END_OF_BLOCK);
    var body := head + (ts' + eob + rest);
    assert DynamicBlock(final, h, ts) + rest == FinalBit(final) + Lsb(2, 2) + body;
    BlockOf(final, 2, body, out);
    DecodeHeader(h.lit, h.dist, h.lens, h.n, h.packed, ts' + eob + rest);
    DecodeTokens(ts, h.lit, h.dist, out, rest);
  }

  ghost function StaticBlock(final: bool, ts: seq<Token>): Bitstring
    requires AllCoded(ts, FixedLit(), FixedDist())
  {
    FinalBit(final) + Lsb(1, 2) + BodyBits(ts, FixedLit(), FixedDist())
  }

  lemma StaticBlockDecodes(final: bool, ts: seq<Token>, out: seq<Byte>, rest: Bitstring)
    requires AllCoded(ts, FixedLit(), FixedDist()) && AllApply(out, ts)
    ensures DecodeBlock(StaticBlock(final, ts) + rest, out) == Got(Block(final, Expand(out, ts)), rest)
  {
    hide Lsb, TokensBits, Code, FinalBit, AllApply, Expand, AllCoded, DecodeBody, DecodeBlock, Next, First;
    FixedComplete();
    var lit, dist := FixedLit(), FixedDist();
    var body := TokensBits(ts, lit, dist) + Code(lit, END_OF_BLOCK) + rest;
    assert StaticBlock(final, ts) + rest == FinalBit(final) + Lsb(1, 2) + body;
    BlockOf(final, 1, body, out);
    DecodeTokens(ts, lit, dist, out, rest);
  }

  // ---------- stored blocks

  /** A stored block after `n` bits of the stream. */
  function StoredBlock(n: nat, final: bool, data: seq<Byte>): Bitstring
    requires |data| <= 0xFFFF
  {
    FinalBit(final) + Lsb(0, 2) + (Pad(n + 3) + (Lsb(|data|, 16) + (Lsb(0xFFFF - |data|, 16) + ByteBits(data))))
  }

  lemma {:induction false} ByteBitsHead(data: seq<Byte>)
    requires data != []
    ensures ByteBits(data) == Lsb(data[0], 8) + ByteBits(data[1..])
  {
    assert data == [data[0]] + data[1..];
    ByteBitsAppend([data[0]], data[1..]);
    assert [data[0]][..0] == [];
  }

  /** Reading bytes back. */
  lemma {:induction false} BytesBack(data: seq<Byte>, rest: Bitstring)
    ensures BytesOf(ByteBits(data) + rest, |data|) == data
    decreases |data|
  {
    hide Lsb, Val, ByteBits;
    if data != [] {
      ByteBitsHead(data);
      var more := ByteBits(data[1..]) + rest;
      var bits := ByteBits(data) + rest;
      assert bits == Lsb(data[0], 8) + more;
      assert bits[..8] == Lsb(data[0], 8) && bits[8..] == more;
      EightBits();
      ValLsb(data[0], 8);
      BytesBack(data[1..], rest);
      assert data == [data[0]] + data[1..];
    }
  }

  lemma EightBits()
    ensures Pow2(8) == 256
  {
  }

  lemma SixteenBits()
    ensures Pow2(16) == 0x1_0000
  {
    EightBits();
    Pow2Add(8, 8);
  }

  lemma StoredBlockDecodes(n: nat, final: bool, data: seq<Byte>, out: seq<Byte>, rest: Bitstring)
    requires |data| <= 0xFFFF && (n + |StoredBlock(n, final, data)| + |rest|) % 8 == 0
    ensures DecodeBlock(StoredBlock(n, final, data) + rest, out) == Got(Block(final, out + data), rest)
  {
    hide Lsb, ByteBits, FinalBit, DecodeBlock, Pad, Stored;
    FinalLength(final);
    var pad, whole := Pad(n + 3), StoredBody(data, rest);
    StoredShape(n, final, data, rest);
    BlockOf(final, 0, pad + whole, out);
    StoredDecodes(pad, data, out, rest);
  }

  /** The length, its complement and the data, with `rest` behind them. */
  function StoredBody(data: seq<Byte>, rest: Bitstring): Bitstring
    requires |data| <= 0xFFFF
  {
    Lsb(|data|, 16) + (Lsb(0xFFFF - |data|, 16) + (ByteBits(data) + rest))
  }

  lemma StoredShape(n: nat, final: bool, data: seq<Byte>, rest: Bitstring)
    requires |data| <= 0xFFFF && (n + |StoredBlock(n, final, data)| + |rest|) % 8 == 0
    ensures StoredBlock(n, final, data) + rest == FinalBit(final) + Lsb(0, 2) + (Pad(n + 3) + StoredBody(data, rest))
    ensures |StoredBody(data, rest)| % 8 == 0 && |Pad(n + 3)| < 8
  {
    hide Lsb, ByteBits, FinalBit;
    FinalLength(final);
  }

  lemma StoredDecodes(pad: Bitstring, data: seq<Byte>, out: seq<Byte>, rest: Bitstring)
    requires |data| <= 0xFFFF && |StoredBody(data, rest)| % 8 == 0 && |pad| < 8
    ensures Stored(pad + StoredBody(data, rest), out) == Got(out + data, rest)
  {
    hide Lsb, Pow2, Val, ByteBits, BytesOf, Field;
    var tail := ByteBits(data) + rest;
    var inv := Lsb(0xFFFF - |data|, 16) + tail;
    var whole := StoredBody(data, rest);
    assert Aligned(pad + whole) == whole;
    SixteenBits();
    FieldLsb(|data|, 16, inv);
    FieldLsb(0xFFFF - |data|, 16, tail);
    BytesBack(data, rest);
    assert tail[8 * |data|..] == rest;
  }

  lemma FinalLength(final: bool)
    ensures |FinalBit(final)| == 1
  {
  }
}
