/** When the code takes which liberty, and streams where it does. */
module Liberties {
  import opened Bits
  import opened Canonical
  import opened Tokens
  import opened InflateSpec
  import opened CodeLengthRle
  import opened Gaps
  import opened InflateReads
  import opened FormatReading
  import opened StreamRoundTrip
  import opened FixedCode
  import BitReader
  import Adler32

  // ---------- which liberties there can be

  predicate Within(l: set<Liberty>, r: Read<Text>) { r.Got? ==> r.value.taken <= l }

  /** Inside the blocks: no window size, and nothing from before the output unless in a ring. */
  function InBlocks(p: Port): set<Liberty> { if p.room.wraps then {Gap, Reserved, Far, Wild} else {Gap, Reserved} }

  lemma WithinMark(l: set<Liberty>, k: set<Liberty>, r: Read<Text>)
    requires k <= l && Within(l, r)
    ensures Within(l, Mark(k, r))
  {
  }

  /** Only an incomplete code has gaps. */
  lemma SlackWithin(bits: Bitstring, lens: seq<nat>)
    requires AnySymbol(bits, lens).Got?
    ensures Slack(bits, lens) <= {Gap}
    ensures ValidLens(lens) && Complete(lens) ==> Slack(bits, lens) == {}
  {
    hide Symbol, AnySymbol, Complete, ValidLens;
    if ValidLens(lens) && Complete(lens) { NoGaps(lens, bits); }
  }

  lemma {:induction false} LengthsWithin(bits: Bitstring, code: seq<nat>, n: nat, acc: seq<nat>)
    ensures var l := ReadLengths(bits, code, n, acc); l.Got? ==> l.value.taken <= {Gap} && (ValidLens(code) && Complete(code) ==> l.value.taken == {})
    decreases if |acc| <= n then n - |acc| else 0
  {
    hide AnySymbol, Slack, Complete, ValidLens, Field, Repeats;
    if |acc| < n {
      var op := ReadOp(bits, code, acc);
      if op.Got? && |op.value| <= n {
        SlackWithin(bits, code);
        LengthsWithin(op.rest, code, n, op.value);
      }
    }
  }

  /** What one symbol can take: with complete codes nothing from a gap. */
  lemma StepWithin(p: Port, bits: Bitstring, lit: seq<nat>, dist: seq<nat>, h: seq<Byte>)
    ensures var m := BodyStep(p, bits, lit, dist, h);
            m.Onward? ==> m.taken <= InBlocks(p)
    ensures var m := BodyStep(p, bits, lit, dist, h);
            m.Onward? && ValidLens(lit) && Complete(lit) && ValidLens(dist) && Complete(dist) ==> Gap !in m.taken
  {
    hide AnySymbol, Slack, Complete, ValidLens, Field, CopyOut;
    var s := AnySymbol(bits, lit);
    if s.Got? {
      SlackWithin(bits, lit);
      if END_OF_BLOCK < s.value < 288 {
        var x := Field(s.rest, LengthExtra(s.value));
        if x.Got? && AnySymbol(x.rest, dist).Got? { SlackWithin(x.rest, dist); }
      }
    }
  }

  lemma {:induction false} BodyWithin(p: Port, bits: Bitstring, lit: seq<nat>, dist: seq<nat>, h: seq<Byte>)
    ensures Within(InBlocks(p), ReadBody(p, bits, lit, dist, h))
    ensures ValidLens(lit) && Complete(lit) && ValidLens(dist) && Complete(dist) ==>
              Within(InBlocks(p) - {Gap}, ReadBody(p, bits, lit, dist, h))
    decreases |bits|
  {
    hide BodyStep, Complete, ValidLens, InBlocks;
    StepWithin(p, bits, lit, dist, h);
    var m := BodyStep(p, bits, lit, dist, h);
    if m.Onward? { BodyWithin(p, m.rest, lit, dist, m.out); }
  }

  lemma LensWithin(p: Port, numLit: nat, numDist: nat, code: seq<nat>, acc: seq<nat>, bits: Bitstring, h: seq<Byte>)
    ensures Within(InBlocks(p), LengthsThen(p, numLit, numDist, code, acc, bits, h))
  {
    hide ReadLengths, ReadBody, Acceptable, Mark, Within;
    LengthsWithin(bits, code, numLit + numDist, acc);
    var l := ReadLengths(bits, code, numLit + numDist, acc);
    if l.Got? {
      var lens := l.value.lens;
      BodyWithin(p, l.rest, lens[..numLit], lens[numLit..], h);
      WithinMark(InBlocks(p), l.value.taken, ReadBody(p, l.rest, lens[..numLit], lens[numLit..], h));
    }
    WithinNone(InBlocks(p));
  }

  lemma WithinNone(l: set<Liberty>)
    ensures Within(l, Bad)
  {
  }

  lemma {:induction false} SizesWithin(p: Port, sizes: seq<nat>, bits: Bitstring, h: seq<Byte>)
    requires |sizes| <= 3
    ensures Within(InBlocks(p), SizesThen(p, sizes, bits, h))
    decreases 3 - |sizes|
  {
    hide Field, LengthsThen, CodeLengthCode, Acceptable, InBlocks;
    if |sizes| == 3 {
      if sizes[2] <= NUM_LENGTH_SYMBOLS {
        var c := CodeLengthCode(bits, sizes[2], 0, Repeated(0, NUM_LENGTH_SYMBOLS));
        if c.Got? { LensWithin(p, sizes[0], sizes[1], c.value, [], c.rest, h); }
      }
    } else {
      var x := Field(bits, if |sizes| == 2 then 4 else 5);
      if x.Got? { SizesWithin(p, sizes + [x.value + MinSize(|sizes|)], x.rest, h); }
    }
  }

  lemma {:induction false} StoredWithin(raw: seq<nat>, bits: Bitstring, h: seq<Byte>)
    requires |raw| <= 4
    ensures Within({}, StoredHeader(raw, bits, h))
    decreases 4 - |raw|
  {
    hide Field;
    var x := Field(bits, 8);
    if |raw| < 4 && x.Got? { StoredWithin(raw + [x.value], x.rest, h); }
  }

  /** A block: a stored one takes no liberty, and one with the fixed codes none from a gap. */
  lemma BlockWithin(p: Port, kind: nat, bits: Bitstring, h: seq<Byte>)
    ensures Within(InBlocks(p), ReadBlock(p, kind, bits, h))
    ensures kind == 0 ==> Within({}, ReadBlock(p, kind, bits, h))
    ensures kind == 1 ==> Within(InBlocks(p) - {Gap}, ReadBlock(p, kind, bits, h))
  {
    hide StoredHeader, ReadBody, SizesThen, FixedLit, FixedDist, Aligned, InBlocks, Complete;
    StoredWithin([], Aligned(bits), h);
    FixedComplete();
    BodyWithin(p, bits, FixedLit(), FixedDist(), h);
    SizesWithin(p, [], bits, h);
  }

  lemma {:induction false} BlocksWithin(p: Port, bits: Bitstring, h: seq<Byte>)
    ensures Within(InBlocks(p), ReadBlocks(p, bits, h))
    decreases |bits|
  {
    hide ReadBlock, InBlocks;
    var head := Field(bits, 3);
    if head.Got? {
      var body := ReadBlock(p, head.value / 2, head.rest, h);
      BlockWithin(p, head.value / 2, head.rest, h);
      if body.Got? && head.value % 2 == 0 {
        BlocksWithin(p, body.rest, body.value.out);
      }
    }
  }

  lemma {:induction false} TrailingTaken(n: nat, check: nat, bits: Bitstring, t: Text)
    ensures var r := Trailing(n, check, bits, t); r.Got? ==> r.value.taken == t.taken
    decreases n
  {
    hide Field, Wrap32;
    var x := Field(bits, 8);
    if n > 0 && x.Got? {
      TrailingTaken(n - 1, Wrap32(check * 256 + x.value), x.rest, t);
    }
  }

  /** The first byte of the stream claims a window above 32768 bytes. */
  predicate ClaimsWide(bits: Bitstring) { Field(bits, 8).Got? && Field(bits, 8).value / 16 > 7 }

  /** The liberty with the window is taken exactly when the first byte says so, and only in a buffer that
      is no ring; a match from too far back only in a ring. */
  lemma WindowLiberty(p: Port, bits: Bitstring)
    ensures var w := StandsFor(p, bits);
            w.Got? ==> (WideWindow in w.value.taken <==> p.zlib && ClaimsWide(bits))
    ensures var w := StandsFor(p, bits);
            w.Got? ==> if p.room.wraps then WideWindow !in w.value.taken else Far !in w.value.taken && Wild !in w.value.taken
  {
    hide WrapThen, ReadBlocks, Trailing, Aligned, Field, BadWindow, GoodCheck;
    var r := if p.zlib then WrapThen(p, [], bits, []) else ReadBlocks(p, bits, []);
    if r.Got? {
      TrailingTaken(TrailerSize(p.zlib), 1, Aligned(r.rest), r.value);
      if p.zlib {
        WrapReads(p, bits);
        var a := Field(bits, 8);
        BlocksWithin(p, Field(a.rest, 8).rest, []);
        WideRefused(a.value, |p.room.init|);
      } else {
        BlocksWithin(p, bits, []);
      }
    }
  }

  // ---------- a window above 32768 bytes

  /** The stream from the i-th byte on. */
  function From(s: seq<Byte>, i: nat): Bitstring
    requires i <= |s|
  {
    ByteBits(s)[8 * i..]
  }

  /** A final stored block of no bytes. */
  lemma EmptyBlock(p: Port, s: seq<Byte>, i: nat)
    requires i + 5 <= |s| && s[i..i + 5] == [0x01, 0x00, 0x00, 0xFF, 0xFF]
    ensures ReadBlocks(p, From(s, i), []) == Got(Text([], {}), From(s, i + 5))
  {
    hide ByteBits, ReadBlocks, Aligned, Field, StoredHeader;
    var block := s[i..i + 5];
    assert s[i] == block[0] && s[i + 1] == block[1] && s[i + 2] == block[2] && s[i + 3] == block[3] && s[i + 4] == block[4];
    StoredByte(s, i);
    FinalStored(p, From(s, i), From(s, i + 1));
    StoredHeaderIs(s, i + 1);
  }

  lemma StoredByte(s: seq<Byte>, i: nat)
    requires i < |s| && s[i] == 0x01
    ensures Field(From(s, i), 3).Got? && Field(From(s, i), 3).value == 1 && Aligned(Field(From(s, i), 3).rest) == From(s, i + 1)
  {
    hide ByteBits;
    BitReader.ByteBitsAt(s, i);
    var bits := From(s, i);
    assert bits[..8] == Lsb(1, 8);
    assert bits[..3] == bits[..8][..3] == [true, false, false];
    assert Val([false]) == 0 && Val([false, false]) == 0 && Val([true, false, false]) == 1;
    assert |bits[3..]| % 8 == 5;
    assert bits[3..][5..] == From(s, i + 1);
  }

  lemma FinalStored(p: Port, bits: Bitstring, rest: Bitstring)
    requires Field(bits, 3).Got? && Field(bits, 3).value == 1 && Aligned(Field(bits, 3).rest) == rest
    ensures ReadBlocks(p, bits, []) == StoredHeader([], rest, [])
  {
    hide StoredHeader, Aligned, Field;
  }

  lemma StoredHeaderIs(s: seq<Byte>, i: nat)
    requires i + 4 <= |s| && s[i] == 0x00 && s[i + 1] == 0x00 && s[i + 2] == 0xFF && s[i + 3] == 0xFF
    ensures StoredHeader([], From(s, i), []) == Got(Text([], {}), From(s, i + 4))
  {
    hide ByteBits, Field, BytesOf;
    BitReader.ByteHere(s, i);
    BitReader.ByteHere(s, i + 1);
    BitReader.ByteHere(s, i + 2);
    BitReader.ByteHere(s, i + 3);
    assert [] + [s[i]] == [0] && [0] + [s[i + 1]] == [0, 0] && [0, 0] + [s[i + 2]] == [0, 0, 0xFF] && [0, 0, 0xFF] + [s[i + 3]] == [0, 0, 0xFF, 0xFF];
    assert StoredHeader([], From(s, i), []) == StoredHeader([0], From(s, i + 1), []);
    assert StoredHeader([0], From(s, i + 1), []) == StoredHeader([0, 0], From(s, i + 2), []);
    assert StoredHeader([0, 0], From(s, i + 2), []) == StoredHeader([0, 0, 0xFF], From(s, i + 3), []);
    assert StoredHeader([0, 0, 0xFF], From(s, i + 3), []) == StoredHeader([0, 0, 0xFF, 0xFF], From(s, i + 4), []);
    NoBytes(From(s, i + 4));
  }

  lemma NoBytes(bits: Bitstring)
    ensures RawBytes(bits, 0, []) == Got(Text([], {}), bits)
  {
    assert bits[8 * 0..] == bits && BytesOf(bits, 0) == [] && [] + BytesOf(bits, 0) == [];
  }

  /** Two header bytes that pass the check, in front of a buffer that is no ring. */
  lemma HeaderOnly(init: seq<Byte>, s: seq<Byte>)
    requires |s| >= 2 && GoodCheck(s[0], s[1])
    ensures var p := Port(true, Room(false, init));
            WrapThen(p, [], ByteBits(s), []) == Mark(WindowTaken(s[0]), ReadBlocks(p, From(s, 2), []))
  {
    hide ByteBits, Field, ReadBlocks, GoodCheck, WindowTaken, Mark, BadWindow;
    BitReader.ByteHere(s, 0);
    BitReader.ByteHere(s, 1);
    assert ByteBits(s)[8 * 0..] == ByteBits(s);
    WrapReads(Port(true, Room(false, init)), ByteBits(s));
  }

  const WIDE_STREAM: seq<Byte> := [0x88, 0x1C, 0x01, 0x00, 0x00, 0xFF, 0xFF, 0x00, 0x00, 0x00, 0x01]

  /** A header that claims a window of 65536 bytes, and an empty block: the format refuses the stream, and the
      code takes it for the empty text. */
  lemma WideTaken(init: seq<Byte>)
    ensures var p := Port(true, Room(false, init));
            Takes(p, ByteBits(WIDE_STREAM)) && StandsFor(p, ByteBits(WIDE_STREAM)) == Got(Unpacked([], 1, {WideWindow}), [])
    ensures Decompress(ByteBits(WIDE_STREAM), true) == None
  {
    hide ByteBits, ReadBlocks, WrapThen, Trailing, BigEndian, Decompress;
    var p := Port(true, Room(false, init));
    var s := WIDE_STREAM;
    HeaderOnly(init, s);
    assert s[2..7] == [0x01, 0x00, 0x00, 0xFF, 0xFF];
    EmptyBlock(p, s, 2);
    assert {WideWindow} + {} == {WideWindow};
    assert Aligned(From(s, 7)) == From(s, 7);
    TrailingReads(From(s, 7), Text([], {WideWindow}));
    LastOne(s, 7);
    assert WideWindow in StandsFor(p, ByteBits(s)).value.taken;
    Exactly(p, ByteBits(s));
  }

  lemma LastOne(s: seq<Byte>, i: nat)
    requires i + 4 == |s| && s[i] == 0 && s[i + 1] == 0 && s[i + 2] == 0 && s[i + 3] == 1
    ensures BigEndian(From(s, i), 4, 0) == Got(1, [])
  {
    hide ByteBits, Field;
    BitReader.ByteHere(s, i);
    BitReader.ByteHere(s, i + 1);
    BitReader.ByteHere(s, i + 2);
    BitReader.ByteHere(s, i + 3);
    assert From(s, i + 4) == [];
    assert BigEndian(From(s, i + 3), 1, 0) == BigEndian([], 0, 1);
    assert BigEndian(From(s, i + 2), 2, 0) == BigEndian(From(s, i + 3), 1, 0);
  }

  /** The same header alone is refused, since there is no block. */
  lemma WideAlone(init: seq<Byte>)
    ensures !Takes(Port(true, Room(false, init)), ByteBits([0x88, 0x1C]))
  {
    hide ByteBits, WrapThen;
    HeaderOnly(init, [0x88, 0x1C]);
    assert From([0x88, 0x1C], 2) == [];
  }

  // ---------- gaps

  /** The code of a single symbol with a single bit, as a block may have it for its distances: the other bit
      reads as symbol 0 too, of no bits, if 15 bits are there. */
  lemma GapTaken(bits: Bitstring)
    requires |bits| >= 1 && bits[0]
    ensures Symbol(bits, [1]).Bad?
    ensures AnySymbol(bits, [1]) == if |bits| >= MAX_LEN then Got(0, bits) else Bad
  {
    OneBitCode();
    forall s ensures !Decodes([1], bits, s) {
      assert Used([1], s) ==> s == 0;
    }
    forall d: nat ensures !Strays([1], bits, d) {
      if d > FAST_BITS && d <= |bits| { NotOnWay(bits[..d - 1]); }
    }
  }

  lemma OneBitCode()
    ensures Code([1], 0) == [false]
  {
  }

  lemma NotOnWay(p: Bitstring)
    requires |p| >= 1
    ensures !OnWay([1], p)
  {
  }

  /** A match whose distance is read from that gap: it repeats the last byte, and the gap's bits are left for
      the next symbol. */
  lemma GapMatch(p: Port, lit: seq<nat>, rest: Bitstring, h: seq<Byte>)
    requires GoodCode(lit) && Used(lit, 257) && |rest| >= MAX_LEN && rest[0] && h != []
    requires p.room.wraps ==> p.room.init != []
    ensures BodyStep(p, Code(lit, 257) + rest, lit, [1], h) == Onward(CopyMatch(h, 3, 1), {Gap}, rest)
  {
    hide Code, GoodCode, AnySymbol, Symbol, CopyOut, CopyMatch, Used;
    SymbolCode(lit, 257, rest);
    SymbolFirst(Code(lit, 257) + rest, lit);
    GapTaken(rest);
    NoBits(rest);
    CopyIsMatch(p.room, h, 3, 1);
    assert {} + ({Gap} + {} + ({} + {})) == {Gap};
  }

  // ---------- unused symbols

  /** How the fixed code starts its symbols 256 to 287. */
  lemma FixedCodes()
    ensures Used(FixedLit(), 286) && Code(FixedLit(), 286) == Msb(198, 8)
    ensures Used(FixedLit(), 256) && Code(FixedLit(), 256) == Msb(0, 7)
    ensures Used(FixedDist(), 30) && Code(FixedDist(), 30) == Msb(30, 5)
  {
    hide Code, FixedLit, FixedDist, Msb;
    FixedLitCode(286);
    FixedLitCode(256);
    FixedDistCode(30);
  }

  lemma FixedSymbol(lens: seq<nat>, s: nat, rest: Bitstring)
    requires (lens == FixedLit() || lens == FixedDist()) && Used(lens, s)
    ensures AnySymbol(Code(lens, s) + rest, lens) == Got(s, rest) && Slack(Code(lens, s) + rest, lens) == {}
  {
    hide Code, FixedLit, FixedDist, Complete, NotOver;
    FixedComplete();
    SymbolCode(lens, s, rest);
    SymbolFirst(Code(lens, s) + rest, lens);
  }

  /** Symbol 286, distance symbol 30, and the end of the block. */
  function UnusedBody(): Bitstring { Msb(198, 8) + (Msb(30, 5) + Msb(0, 7)) }

  /** The symbol 286 is a match of length 0, and the distance symbol 30 the distance 0: nothing is put out. */
  lemma UnusedRead(p: Port, rest: Bitstring)
    requires !p.room.wraps
    ensures ReadBody(p, UnusedBody() + rest, FixedLit(), FixedDist(), []) == Got(Text([], {Reserved}), rest)
  {
    hide Code, FixedLit, FixedDist, Msb, AnySymbol, Slack;
    FixedCodes();
    var bits := UnusedBody() + rest;
    var behind := Msb(30, 5) + (Msb(0, 7) + rest);
    assert bits == Msb(198, 8) + behind;
    FixedSymbol(FixedLit(), 286, behind);
    FixedSymbol(FixedDist(), 30, Msb(0, 7) + rest);
    FixedSymbol(FixedLit(), 256, rest);
    NoBits(behind);
    NoBits(Msb(0, 7) + rest);
    assert ReadDistance(behind, FixedDist()) == Got(Span(0, {Reserved}), Msb(0, 7) + rest) by { assert {} + {Reserved} == {Reserved}; }
    assert ReadMatch(p, behind, 0, 0, FixedDist(), []) == Onward([], {Reserved} + {}, Msb(0, 7) + rest);
    assert {Reserved} + ({Reserved} + {}) == {Reserved};
    assert BodyStep(p, bits, FixedLit(), FixedDist(), []) == Onward([], {Reserved}, Msb(0, 7) + rest);
    assert BodyStep(p, Msb(0, 7) + rest, FixedLit(), FixedDist(), []) == Over(rest);
    assert ReadBody(p, Msb(0, 7) + rest, FixedLit(), FixedDist(), []) == Got(Text([], {}), rest);
    assert {Reserved} + {} == {Reserved};
  }

  lemma NoBits(bits: Bitstring)
    ensures Field(bits, 0) == Got(0, bits)
  {
    assert bits[..0] == [] && bits[0..] == bits;
  }

  const UNUSED_STREAM: seq<Byte> := [0x1B, 0x7B, 0x00]

  lemma FirstByte()
    ensures Lsb(0x1B, 8) == [true, true, false, true, true, false, false, false]
  {
  }

  lemma SecondByte()
    ensures Lsb(0x7B, 8) == [true, true, false, true, true, true, true, false]
  {
  }

  lemma ThirdByte()
    ensures Lsb(0x00, 8) == [false, false, false, false, false, false, false, false]
  {
  }

  lemma UnusedLength()
    ensures Msb(198, 8) == [true, true, false, false, false, true, true, false]
  {
  }

  lemma UnusedDistance()
    ensures Msb(30, 5) == [true, true, true, true, false]
  {
  }

  lemma EndCode()
    ensures Msb(0, 7) == [false, false, false, false, false, false, false]
  {
  }

  lemma OneByte(b: Byte)
    ensures ByteBits([b]) == Lsb(b, 8)
  {
    hide Lsb;
    assert [b][..0] == [] && ByteBits([]) == [];
  }

  lemma UnusedBits()
    ensures ByteBits(UNUSED_STREAM) == [true, true, false] + (UnusedBody() + [false])
  {
    hide Lsb, Msb, ByteBits;
    var a, b, c := [0x1B], [0x7B], [0x00];
    assert UNUSED_STREAM == a + b + c;
    ByteBitsAppend(a + b, c);
    ByteBitsAppend(a, b);
    OneByte(0x1B);
    OneByte(0x7B);
    OneByte(0x00);
    FirstByte();
    SecondByte();
    ThirdByte();
    UnusedLength();
    UnusedDistance();
    EndCode();
  }

  /** A block of unused symbols: the format refuses the stream, and the code takes it for the empty text. */
  lemma UnusedTaken(init: seq<Byte>)
    ensures var p := Port(false, Room(false, init));
            Takes(p, ByteBits(UNUSED_STREAM)) && StandsFor(p, ByteBits(UNUSED_STREAM)) == Got(Unpacked([], 1, {Reserved}), [])
    ensures Decompress(ByteBits(UNUSED_STREAM), false) == None
  {
    hide ByteBits, UnusedBody, ReadBody, Decompress;
    var p := Port(false, Room(false, init));
    UnusedBits();
    UnusedRead(p, [false]);
    var bits, rest := ByteBits(UNUSED_STREAM), UnusedBody() + [false];
    assert bits[..3] == [true, true, false] && bits[3..] == rest;
    assert Val([false]) == 0 && Val([true, false]) == 1 && Val([true, true, false]) == 3;
    assert Field(bits, 3) == Got(3, rest);
    assert ReadBlocks(p, bits, []) == Got(Text([], {Reserved}), [false]);
    assert Aligned([false]) == [];
    assert Reserved in StandsFor(p, bits).value.taken;
    Exactly(p, bits);
  }
}
