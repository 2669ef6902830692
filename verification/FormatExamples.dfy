/** The examples that fix the conventions of the format: the canonical code of section 3.2.2 of RFC 1951,
    and a whole zlib stream. */
module FormatExamples {
  import opened Bits
  import opened Canonical
  import opened Tokens
  import opened InflateSpec
  import opened BlockRoundTrip
  import opened Emitter
  import opened FixedCode
  import opened BitWriter
  import opened FlushBlock
  import opened StreamRoundTrip
  import Adler32

  /** The lengths of the eight symbols A to H in section 3.2.2. */
  const EXAMPLE_LENS: seq<nat> := [3, 3, 3, 3, 3, 2, 4, 4]

  /** Their codes: F is 00, A to E are 010 to 110, G is 1110 and H is 1111. */
  lemma CanonicalExample(s: nat)
    requires s < 8
    ensures s < 5 ==> Code(EXAMPLE_LENS, s) == Msb(2 + s, 3)
    ensures s == 5 ==> Code(EXAMPLE_LENS, s) == Msb(0, 2)
    ensures s > 5 ==> Code(EXAMPLE_LENS, s) == Msb(14 + (s - 6), 4)
  {
    hide Count, Msb, Next, First;
    forall l: nat ensures Count(EXAMPLE_LENS, l) == if l == 3 then 5 else if l == 2 then 1 else if l == 4 then 2 else 0 { ExampleRank(8, l); }
    ExampleRank(s, EXAMPLE_LENS[s]);
    ExampleFirsts();
  }

  lemma ExampleFirsts()
    requires forall l: nat :: Count(EXAMPLE_LENS, l) == if l == 3 then 5 else if l == 2 then 1 else if l == 4 then 2 else 0
    ensures First(EXAMPLE_LENS, 2) == 0 && First(EXAMPLE_LENS, 3) == 2 && First(EXAMPLE_LENS, 4) == 14
  {
    hide Count;
    NextNone(EXAMPLE_LENS, 1);
    StepNext(EXAMPLE_LENS, 2);
    StepNext(EXAMPLE_LENS, 3);
  }

  /** How many of the first `s` symbols have codes of `l` bits. */
  lemma ExampleRank(s: nat, l: nat)
    requires s <= 8
    ensures Count(EXAMPLE_LENS[..s], l) ==
            (if l == 3 then if s < 5 then s else 5 else if l == 2 then if s < 6 then 0 else 1 else if l == 4 then if s < 6 then 0 else s - 6 else 0)
    ensures s == 8 ==> EXAMPLE_LENS[..s] == EXAMPLE_LENS
  {
    var a, b := Repeated(3, 5), Repeated(2, 1);
    CountRepeated(3, 5, l);
    CountRepeated(2, 1, l);
    CountSplit(a, b, l);
    if s < 5 {
      assert EXAMPLE_LENS[..s] == Repeated(3, s);
      CountRepeated(3, s, l);
    } else if s == 5 {
      assert EXAMPLE_LENS[..s] == a;
    } else {
      assert EXAMPLE_LENS[..s] == a + b + Repeated(4, s - 6);
      CountSplit(a + b, Repeated(4, s - 6), l);
      CountRepeated(4, s - 6, l);
    }
  }

  // ---------- a whole stream

  /** "abcd" three times over. */
  const EXAMPLE_TEXT: seq<Byte> := [97, 98, 99, 100, 97, 98, 99, 100, 97, 98, 99, 100]

  /** It as five literals and a match of length 7. */
  const EXAMPLE_TOKENS: seq<Token> := [Literal(97), Literal(98), Literal(99), Literal(100), Literal(97), Match(7, 4)]

  /** The block with the fixed codes. */
  const EXAMPLE_BLOCK: seq<Byte> := [0x4B, 0x4C, 0x4A, 0x4E, 0x49, 0x84, 0x62, 0x00]

  lemma ExampleExpands()
    ensures AllApply([], EXAMPLE_TOKENS) && Expand([], EXAMPLE_TOKENS) == EXAMPLE_TEXT
  {
    var ts, none: seq<Byte> := EXAMPLE_TOKENS, [];
    assert ts[1..][1..] == ts[2..] && ts[2..][1..] == ts[3..] && ts[3..][1..] == ts[4..] && ts[4..][1..] == ts[5..] && ts[5..][1..] == [];
    var five: seq<Byte> := [97, 98, 99, 100, 97];
    assert none + [97] == five[..1] && five[..1] + [98] == five[..2] && five[..2] + [99] == five[..3] && five[..3] + [100] == five[..4];
    assert five[..4] + [97] == five;
    Copies(five);
    assert Expand(five, ts[5..]) == Apply(five, ts[5]);
    assert Expand(five[..4], ts[4..]) == Expand(five, ts[5..]);
    assert Expand(five[..3], ts[3..]) == Expand(five[..4], ts[4..]);
    assert Expand(five[..2], ts[2..]) == Expand(five[..3], ts[3..]);
    assert Expand(five[..1], ts[1..]) == Expand(five[..2], ts[2..]);
    assert AllApply(five, ts[5..]);
    assert AllApply(five[..4], ts[4..]);
    assert AllApply(five[..3], ts[3..]);
    assert AllApply(five[..2], ts[2..]);
    assert AllApply(five[..1], ts[1..]);
  }

  lemma Copies(h: seq<Byte>)
    requires h == [97, 98, 99, 100, 97]
    ensures CopyMatch(h, 7, 4) == EXAMPLE_TEXT
  {
    var t := EXAMPLE_TEXT;
    assert h == t[..5];
    assert t[..5] + [t[1]] == t[..6] && t[..6] + [t[2]] == t[..7] && t[..7] + [t[3]] == t[..8] && t[..8] + [t[4]] == t[..9];
    assert t[..9] + [t[5]] == t[..10] && t[..10] + [t[6]] == t[..11] && t[..11] + [t[7]] == t[..12] && t[..12] == t;
    assert CopyMatch(t[..12], 0, 4) == t[..12];
    assert CopyMatch(t[..11], 1, 4) == CopyMatch(t[..12], 0, 4);
    assert CopyMatch(t[..10], 2, 4) == CopyMatch(t[..11], 1, 4);
    assert CopyMatch(t[..9], 3, 4) == CopyMatch(t[..10], 2, 4);
    assert CopyMatch(t[..8], 4, 4) == CopyMatch(t[..9], 3, 4);
    assert CopyMatch(t[..7], 5, 4) == CopyMatch(t[..8], 4, 4);
    assert CopyMatch(t[..6], 6, 4) == CopyMatch(t[..7], 5, 4);
  }

  /** Its bits, in pieces that make up both the bytes and the codes. */
  function Piece(i: nat): Bitstring {
    if i == 0 then [true, true, false]
    else if i == 1 then [true, false, false, true, false]
    else if i == 2 then [false, false, true]
    else if i == 3 then [true, false, false, true, false]
    else if i == 4 then [false, true, false]
    else if i == 5 then [true, false, false, true, false]
    else if i == 6 then [false, true, true]
    else if i == 7 then [true, false, false, true, false]
    else if i == 8 then [true, false, false]
    else if i == 9 then [true, false, false, true, false]
    else if i == 10 then [false, false, true]
    else if i == 11 then [false, false, false, false, true]
    else if i == 12 then [false, true]
    else if i == 13 then [false, false, false, true, true]
    else if i == 14 then [false]
    else if i == 15 then [false, false, false, false, false, false]
    else [false, false]
  }

  function Pieces(i: nat): Bitstring
    decreases 17 - i
  {
    if i >= 17 then [] else Piece(i) + Pieces(i + 1)
  }

  lemma Two(i: nat)
    requires i < 16
    ensures Piece(i) + Piece(i + 1) + Pieces(i + 2) == Pieces(i)
  {
    hide Piece;
    assert Pieces(i) == Piece(i) + (Piece(i + 1) + Pieces(i + 2));
  }

  lemma Byte0()
    ensures Lsb(0x4B, 8) == Piece(0) + Piece(1)
  {
    assert Lsb(0x4B, 8) == [true, true, false, true, false, false, true, false];
  }

  lemma Byte1()
    ensures Lsb(0x4C, 8) == Piece(2) + Piece(3)
  {
    assert Lsb(0x4C, 8) == [false, false, true, true, false, false, true, false];
  }

  lemma Byte2()
    ensures Lsb(0x4A, 8) == Piece(4) + Piece(5)
  {
    assert Lsb(0x4A, 8) == [false, true, false, true, false, false, true, false];
  }

  lemma Byte3()
    ensures Lsb(0x4E, 8) == Piece(6) + Piece(7)
  {
    assert Lsb(0x4E, 8) == [false, true, true, true, false, false, true, false];
  }

  lemma Byte4()
    ensures Lsb(0x49, 8) == Piece(8) + Piece(9)
  {
    assert Lsb(0x49, 8) == [true, false, false, true, false, false, true, false];
  }

  lemma Byte5()
    ensures Lsb(0x84, 8) == Piece(10) + Piece(11)
  {
    assert Lsb(0x84, 8) == [false, false, true, false, false, false, false, true];
  }

  lemma Byte6()
    ensures Lsb(0x62, 8) == Piece(12) + Piece(13) + Piece(14)
  {
    assert Lsb(0x62, 8) == [false, true, false, false, false, true, true, false];
  }

  lemma Byte7()
    ensures Lsb(0x00, 8) == Piece(15) + Piece(16)
  {
    assert Lsb(0x00, 8) == [false, false, false, false, false, false, false, false];
  }

  lemma FirstA()
    ensures Msb(145, 8) == Piece(1) + Piece(2)
  {
    assert Msb(145, 8) == [true, false, false, true, false, false, false, true];
  }

  lemma FirstB()
    ensures Msb(146, 8) == Piece(3) + Piece(4)
  {
    assert Msb(146, 8) == [true, false, false, true, false, false, true, false];
  }

  lemma FirstC()
    ensures Msb(147, 8) == Piece(5) + Piece(6)
  {
    assert Msb(147, 8) == [true, false, false, true, false, false, true, true];
  }

  lemma FirstD()
    ensures Msb(148, 8) == Piece(7) + Piece(8)
  {
    assert Msb(148, 8) == [true, false, false, true, false, true, false, false];
  }

  lemma SecondA()
    ensures Msb(145, 8) == Piece(9) + Piece(10)
  {
    assert Msb(145, 8) == [true, false, false, true, false, false, false, true];
  }

  lemma LengthSeven()
    ensures Msb(5, 7) == Piece(11) + Piece(12)
  {
    assert Msb(5, 7) == [false, false, false, false, true, false, true];
  }

  lemma DistanceFour()
    ensures Msb(3, 5) == Piece(13)
  {
    assert Msb(3, 5) == [false, false, false, true, true];
  }

  lemma EndCode()
    ensures Msb(0, 7) == Piece(14) + Piece(15)
  {
    assert Msb(0, 7) == [false, false, false, false, false, false, false];
  }

  lemma BlockHead()
    ensures FinalBit(true) + Lsb(1, 2) == Piece(0)
  {
  }

  lemma ExampleBytes()
    ensures ByteBits(EXAMPLE_BLOCK) ==
            Lsb(0x4B, 8) + (Lsb(0x4C, 8) + (Lsb(0x4A, 8) + (Lsb(0x4E, 8) + (Lsb(0x49, 8) + (Lsb(0x84, 8) + (Lsb(0x62, 8) + Lsb(0x00, 8)))))))
  {
    hide Lsb, ByteBits;
    var b := EXAMPLE_BLOCK;
    assert b[0..] == b && b[1..][1..] == b[2..] && b[2..][1..] == b[3..] && b[3..][1..] == b[4..];
    assert b[4..][1..] == b[5..] && b[5..][1..] == b[6..] && b[6..][1..] == b[7..] && b[7..][1..] == [];
    ByteBitsHead(b);
    ByteBitsHead(b[1..]);
    ByteBitsHead(b[2..]);
    ByteBitsHead(b[3..]);
    ByteBitsHead(b[4..]);
    ByteBitsHead(b[5..]);
    ByteBitsHead(b[6..]);
    ByteBitsHead(b[7..]);
    NoBytes();
    assert Lsb(b[7], 8) + [] == Lsb(b[7], 8);
  }

  /** A literal of the text, under the fixed codes. */
  lemma LetterBits(c: Byte)
    requires c < 144
    ensures Coded(Literal(c), FixedLit(), FixedDist()) && TokenBits(Literal(c), FixedLit(), FixedDist()) == Msb(48 + c, 8)
  {
    hide Code, FixedLit, FixedDist, Msb;
    FixedLitCode(c);
  }

  lemma MatchBits()
    ensures Coded(Match(7, 4), FixedLit(), FixedDist()) && TokenBits(Match(7, 4), FixedLit(), FixedDist()) == Msb(5, 7) + Msb(3, 5)
  {
    hide Code, FixedLit, FixedDist, Msb;
    FixedLitCode(261);
    FixedDistCode(3);
    assert LenSym(4) == 261 && LenExtra(4) == 0 && DistSym(3) == 3 && DistExtra(3) == 0;
    assert Lsb(Extra(4, 0), 0) == [] && Lsb(Extra(3, 0), 0) == [];
  }

  lemma ExampleTokensBits()
    ensures AllCoded(EXAMPLE_TOKENS, FixedLit(), FixedDist())
    ensures TokensBits(EXAMPLE_TOKENS, FixedLit(), FixedDist()) ==
            Msb(145, 8) + (Msb(146, 8) + (Msb(147, 8) + (Msb(148, 8) + (Msb(145, 8) + (Msb(5, 7) + Msb(3, 5))))))
  {
    hide TokenBits, FixedLit, FixedDist, Msb, Coded;
    var lit, dist := FixedLit(), FixedDist();
    LetterBits(97);
    LetterBits(98);
    LetterBits(99);
    LetterBits(100);
    MatchBits();
    var ts := EXAMPLE_TOKENS;
    assert ts[0..] == ts && ts[1..][1..] == ts[2..] && ts[2..][1..] == ts[3..] && ts[3..][1..] == ts[4..] && ts[4..][1..] == ts[5..] && ts[5..][1..] == [];
    TokensBitsHead(ts, lit, dist);
    TokensBitsHead(ts[1..], lit, dist);
    TokensBitsHead(ts[2..], lit, dist);
    TokensBitsHead(ts[3..], lit, dist);
    TokensBitsHead(ts[4..], lit, dist);
    TokensBitsHead(ts[5..], lit, dist);
    assert TokenBits(ts[5], lit, dist) + [] == TokenBits(ts[5], lit, dist);
  }

  lemma ExampleBytesBits()
    ensures ByteBits(EXAMPLE_BLOCK) == Pieces(0)
  {
    hide ByteBits, Lsb, Piece, Pieces;
    ExampleBytes();
    Byte0();
    Byte1();
    Byte2();
    Byte3();
    Byte4();
    Byte5();
    Byte6();
    Byte7();
    LastPieces();
    Two(13);
    Reassociate(Piece(12), Piece(13) + Piece(14), Pieces(15));
    assert Piece(12) + Piece(13) + Piece(14) == Piece(12) + (Piece(13) + Piece(14));
    FirstPiece(12);
    Two(10);
    Two(8);
    Two(6);
    Two(4);
    Two(2);
    Two(0);
  }

  lemma FirstPiece(i: nat)
    requires i < 17
    ensures Piece(i) + Pieces(i + 1) == Pieces(i)
  {
    hide Piece;
  }

  lemma LastPieces()
    ensures Piece(15) + Piece(16) == Pieces(15) && Pieces(16) == [false, false]
  {
    hide Piece;
    assert Piece(16) == [false, false] by { LastPiece(); }
    assert Pieces(17) == [] && Piece(16) + [] == Piece(16);
  }

  lemma LastPiece()
    ensures Piece(16) == [false, false]
  {
  }

  /** The eight bytes are a block of the tokens, and two bits of padding. */
  lemma ExampleIsBlock()
    ensures AllCoded(EXAMPLE_TOKENS, FixedLit(), FixedDist())
    ensures ByteBits(EXAMPLE_BLOCK) == StaticBlock(true, EXAMPLE_TOKENS) + [false, false]
  {
    hide ByteBits, FixedLit, FixedDist, Lsb, Msb, TokensBits, AllCoded, Code, FinalBit, Piece, Pieces;
    ExampleTokensBits();
    FixedLitCode(256);
    ExampleBytesBits();
    LastPieces();
    var a, b, c, d, e := Msb(145, 8), Msb(146, 8), Msb(147, 8), Msb(148, 8), Msb(145, 8);
    Nested(FinalBit(true) + Lsb(1, 2), a, b, c, d, e, Msb(5, 7), Msb(3, 5), Msb(0, 7), [false, false]);
    BlockHead();
    FirstA();
    FirstB();
    FirstC();
    FirstD();
    SecondA();
    LengthSeven();
    DistanceFour();
    EndCode();
    Two(14);
    FirstPiece(13);
    Two(11);
    Two(9);
    Two(7);
    Two(5);
    Two(3);
    Two(1);
    FirstPiece(0);
  }

  lemma Nested(h: Bitstring, a: Bitstring, b: Bitstring, c: Bitstring, d: Bitstring, e: Bitstring, l: Bitstring, m: Bitstring, n: Bitstring, x: Bitstring)
    ensures h + ((a + (b + (c + (d + (e + (l + m)))))) + n) + x == h + (a + (b + (c + (d + (e + (l + (m + (n + x))))))))
  {
    var t1 := l + m;
    var t2 := e + t1;
    var t3 := d + t2;
    var t4 := c + t3;
    var t5 := b + t4;
    Reassociate(l, m, n + x);
    Reassociate(e, t1, n + x);
    Reassociate(d, t2, n + x);
    Reassociate(c, t3, n + x);
    Reassociate(b, t4, n + x);
    Reassociate(a, t5, n + x);
    Reassociate(a + t5, n, x);
    Reassociate(h, a + t5 + n, x);
  }

  /** Whatever two bits of padding and more follow, the block is decoded to the text. */
  lemma ExampleInflates(rest: Bitstring)
    ensures Inflate(ByteBits(EXAMPLE_BLOCK) + rest, []) == Got(EXAMPLE_TEXT, [false, false] + rest)
  {
    hide ByteBits, FixedLit, FixedDist, AllCoded, StaticBlock, DecodeBlock, AllApply, Expand;
    ExampleIsBlock();
    ExampleExpands();
    StaticBlockDecodes(true, EXAMPLE_TOKENS, [], [false, false] + rest);
    Reassociate(StaticBlock(true, EXAMPLE_TOKENS), [false, false], rest);
    OneBlock(ByteBits(EXAMPLE_BLOCK) + rest, [], true, EXAMPLE_TEXT, [false, false] + rest);
  }

  lemma ExampleSum()
    ensures Adler32.Checksum(1, EXAMPLE_TEXT) == 0x1E00049F
  {
    var s0 := Adler32.Sums(1, 0);
    Four(1, 0, EXAMPLE_TEXT[..4]);
    Four(395, 984, EXAMPLE_TEXT[4..8]);
    Four(789, 3544, EXAMPLE_TEXT[8..]);
    Adler32.FoldConcat(s0, EXAMPLE_TEXT[..4], EXAMPLE_TEXT[4..8]);
    assert EXAMPLE_TEXT[..4] + EXAMPLE_TEXT[4..8] == EXAMPLE_TEXT[..8];
    Adler32.FoldConcat(s0, EXAMPLE_TEXT[..8], EXAMPLE_TEXT[8..]);
    assert EXAMPLE_TEXT[..8] + EXAMPLE_TEXT[8..] == EXAMPLE_TEXT;
  }

  lemma Four(a: nat, b: nat, data: seq<Byte>)
    requires data == [97, 98, 99, 100] && a < 1000 && b < 10000
    ensures Adler32.Fold(Adler32.Sums(a, b), data) == Adler32.Sums(a + 394, b + 4 * a + 980)
  {
    var s := Adler32.Sums(a, b);
    assert data[..4] == data && data[..4][..3] == data[..3] && data[..3][..2] == data[..2] && data[..2][..1] == data[..1] && data[..1][..0] == data[..0];
    assert Adler32.Fold(s, data[..0]) == s;
    assert Adler32.Fold(s, data[..1]) == Adler32.Sums(a + 97, b + a + 97);
    assert Adler32.Fold(s, data[..2]) == Adler32.Sums(a + 195, b + 2 * a + 292);
    assert Adler32.Fold(s, data[..3]) == Adler32.Sums(a + 294, b + 3 * a + 586);
  }

  /** A zlib stream of fourteen bytes, as another compressor writes it: the decoder of the format takes it
      for the text, checksum and all. */
  lemma ExampleDecodes()
    ensures Decompress(ByteBits([0x78, 0xDA] + EXAMPLE_BLOCK + [0x1E, 0x00, 0x04, 0x9F]), true) == Some(EXAMPLE_TEXT)
    ensures Decompress(ByteBits(EXAMPLE_BLOCK), false) == Some(EXAMPLE_TEXT)
  {
    hide ByteBits, Inflate, Lsb, BigEndian, Field, Adler32.Checksum, Pow2;
    var sum: Bitstring := Lsb(0x1E, 8) + (Lsb(0x00, 8) + (Lsb(0x04, 8) + Lsb(0x9F, 8)));
    var none: Bitstring := [];
    assert ByteBits(EXAMPLE_BLOCK) + none == ByteBits(EXAMPLE_BLOCK);
    ExampleInflates(none);
    ExampleInflates(sum);
    ExampleWrapped();
    EightBits();
    FieldLsb(0x78, 8, Lsb(0xDA, 8) + (ByteBits(EXAMPLE_BLOCK) + sum));
    FieldLsb(0xDA, 8, ByteBits(EXAMPLE_BLOCK) + sum);
    assert Aligned([false, false] + sum) == sum;
    OneByte(0x1E, Lsb(0x00, 8) + (Lsb(0x04, 8) + Lsb(0x9F, 8)), 4, 0);
    OneByte(0x00, Lsb(0x04, 8) + Lsb(0x9F, 8), 3, 0x1E);
    OneByte(0x04, Lsb(0x9F, 8) + none, 2, 0x1E00);
    OneByte(0x9F, none, 1, 0x1E0004);
    assert Lsb(0x9F, 8) + none == Lsb(0x9F, 8);
    NoBytesLeft(none, 0x1E00049F);
    ExampleSum();
  }

  lemma ExampleWrapped()
    ensures ByteBits([0x78, 0xDA] + EXAMPLE_BLOCK + [0x1E, 0x00, 0x04, 0x9F]) ==
            Lsb(0x78, 8) + (Lsb(0xDA, 8) + (ByteBits(EXAMPLE_BLOCK) + (Lsb(0x1E, 8) + (Lsb(0x00, 8) + (Lsb(0x04, 8) + Lsb(0x9F, 8))))))
  {
    hide ByteBits, Lsb;
    var head: seq<Byte>, tail: seq<Byte> := [0x78, 0xDA], [0x1E, 0x00, 0x04, 0x9F];
    ByteBitsAppend(head + EXAMPLE_BLOCK, tail);
    ByteBitsAppend(head, EXAMPLE_BLOCK);
    assert head[1..][1..] == [] && tail[1..][1..] == tail[2..] && tail[2..][1..] == tail[3..] && tail[3..][1..] == [];
    ByteBitsHead(head);
    ByteBitsHead(head[1..]);
    ByteBitsHead(tail);
    ByteBitsHead(tail[1..]);
    ByteBitsHead(tail[2..]);
    ByteBitsHead(tail[3..]);
    NoBytes();
  }
}
