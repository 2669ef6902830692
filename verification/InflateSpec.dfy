/** The Deflate format as a decoder on bit strings (sections 3.2.3 to 3.2.7 of RFC 1951), and its
    zlib wrapping (section 2.2 of RFC 1950). The compressor's bits are proved to mean the source
    under this reading, and the inflater is proved to follow it. */
module InflateSpec {
  import opened Bits
  import opened Canonical
  import opened Tokens

  const END_OF_BLOCK := 256
  const MAX_LIT_SYMBOLS := 288
  const MAX_DIST_SYMBOLS := 32
  const NUM_LENGTH_SYMBOLS := 19

  /** A value read from the front of a stream, and what is left of the stream. */
  datatype Read<T> = Bad | Got(value: T, rest: Bitstring)

  function Field(bits: Bitstring, n: nat): (r: Read<nat>)
    ensures r.Got? ==> |r.rest| + n == |bits|
  {
    if |bits| < n then Bad else Got(Val(bits[..n]), bits[n..])
  }

  ghost function Symbol(bits: Bitstring, lens: seq<nat>): (r: Read<nat>)
    ensures r.Got? ==> |r.rest| < |bits| && r.value < |lens|
  {
    var s := DecodeSym(lens, bits);
    if s.None? then Bad else Got(s.value, bits[lens[s.value]..])
  }

  // ---------- compressed data

  /** What one symbol of a block's body does to the output. */
  datatype Step = Corrupt | End(rest: Bitstring) | More(out: seq<Byte>, rest: Bitstring)

  ghost function LengthOf(bits: Bitstring, s: nat): (r: Read<nat>)
    requires 257 <= s <= 285
    ensures r.Got? ==> |r.rest| <= |bits|
  {
    var x := Field(bits, LENGTH_EXTRA[s - 257]);
    if x.Bad? then Bad else Got(LENGTH_BASE[s - 257] + x.value, x.rest)
  }

  ghost function DistanceOf(bits: Bitstring, dist: seq<nat>): (r: Read<nat>)
    ensures r.Got? ==> |r.rest| <= |bits|
  {
    var s := Symbol(bits, dist);
    if s.Bad? then Bad else if s.value >= 30 then Bad else
    var x := Field(s.rest, DIST_EXTRA[s.value]);
    if x.Bad? then Bad else Got(DIST_BASE[s.value] + x.value, x.rest)
  }

  ghost function DecodeStep(bits: Bitstring, lit: seq<nat>, dist: seq<nat>, h: seq<Byte>): (r: Step)
    ensures r.End? ==> |r.rest| < |bits|
    ensures r.More? ==> |r.rest| < |bits|
  {
    var s := Symbol(bits, lit);
    if s.Bad? then Corrupt
    else if s.value > 285 then Corrupt
    else if s.value < END_OF_BLOCK then More(h + [s.value], s.rest)
    else if s.value == END_OF_BLOCK then End(s.rest)
    else
      var l := LengthOf(s.rest, s.value);
      if l.Bad? then Corrupt else
      var d := DistanceOf(l.rest, dist);
      if d.Bad? then Corrupt
      else if !(1 <= d.value <= |h|) then Corrupt
      else More(CopyMatch(h, l.value, d.value), d.rest)
  }

  ghost function DecodeBody(bits: Bitstring, lit: seq<nat>, dist: seq<nat>, h: seq<Byte>): (r: Read<seq<Byte>>)
    ensures r.Got? ==> |r.rest| < |bits|
    decreases |bits|
  {
    match DecodeStep(bits, lit, dist, h)
    case Corrupt => Bad
    case End(rest) => Got(h, rest)
    case More(out, rest) => DecodeBody(rest, lit, dist, out)
  }

  // ---------- dynamic headers

  /** The order in which the lengths of the code length code are sent. */
  const SWIZZLE: seq<nat> := [16, 17, 18, 0, 8, 7, 9, 6, 10, 5, 11, 4, 12, 3, 13, 2, 14, 1, 15]

  /** Section 3.2.7 of RFC 1951 gives the order: the three repeat codes, 0, and then 8, 7, 9, 6 and so on,
      away from 8 on both sides. */
  lemma SwizzleLaw(k: nat)
    requires k < NUM_LENGTH_SYMBOLS
    ensures |SWIZZLE| == NUM_LENGTH_SYMBOLS == 19
    ensures SWIZZLE[k] == if k < 3 then 16 + k else if k == 3 then 0 else if k % 2 == 0 then 8 + (k - 4) / 2 else 8 - (k - 3) / 2
  {
    if k < 5 {} else if k < 10 {} else if k < 15 {} else {}
  }

  function Repeated(x: nat, n: nat): (r: seq<nat>)
    ensures |r| == n
  {
    seq(n, _ => x)
  }

  /** One operation of the code length code on the lengths read so far. */
  ghost function LengthOp(bits: Bitstring, code: seq<nat>, acc: seq<nat>): (r: Read<seq<nat>>)
    ensures r.Got? ==> |r.rest| < |bits| && |acc| < |r.value|
  {
    var s := Symbol(bits, code);
    if s.Bad? then Bad
    else if s.value > 18 then Bad
    else if s.value < 16 then Got(acc + [s.value], s.rest)
    else if s.value == 16 then
      var x := Field(s.rest, 2);
      if acc == [] then Bad else if x.Bad? then Bad else Got(acc + Repeated(acc[|acc| - 1], 3 + x.value), x.rest)
    else if s.value == 17 then
      var x := Field(s.rest, 3);
      if x.Bad? then Bad else Got(acc + Repeated(0, 3 + x.value), x.rest)
    else
      var x := Field(s.rest, 7);
      if x.Bad? then Bad else Got(acc + Repeated(0, 11 + x.value), x.rest)
  }

  /** The code lengths of both alphabets in one sequence. */
  ghost function DecodeLengths(bits: Bitstring, code: seq<nat>, n: nat, acc: seq<nat>): (r: Read<seq<nat>>)
    ensures r.Got? ==> |r.rest| <= |bits| && |r.value| == n
    decreases |bits|
  {
    if |acc| == n then Got(acc, bits)
    else if |acc| > n then Bad
    else
      var op := LengthOp(bits, code, acc);
      if op.Bad? then Bad else DecodeLengths(op.rest, code, n, op.value)
  }

  /** The lengths of the code length code: `n` of them are sent, from the i-th on. */
  function CodeLengthCode(bits: Bitstring, n: nat, i: nat, code: seq<nat>): (r: Read<seq<nat>>)
    requires n <= NUM_LENGTH_SYMBOLS == |code|
    ensures r.Got? ==> |r.rest| <= |bits| && |r.value| == NUM_LENGTH_SYMBOLS
    decreases n - i
  {
    if i >= n then Got(code, bits)
    else
      var x := Field(bits, 3);
      if x.Bad? then Bad else CodeLengthCode(x.rest, n, i + 1, code[SWIZZLE[i] := x.value])
  }

  datatype Codes = Codes(lit: seq<nat>, dist: seq<nat>)

  ghost function DynamicHeader(bits: Bitstring): (r: Read<Codes>)
    ensures r.Got? ==> |r.rest| <= |bits|
    ensures r.Got? ==> Acceptable(r.value.lit) && Acceptable(r.value.dist)
  {
    var a := Field(bits, 5);
    if a.Bad? then Bad else
    var b := Field(a.rest, 5);
    if b.Bad? then Bad else
    var c := Field(b.rest, 4);
    if c.Bad? then Bad else
    var numLit, numDist := a.value + 257, b.value + 1;
    if c.value + 4 > NUM_LENGTH_SYMBOLS then Bad else
    var code := CodeLengthCode(c.rest, c.value + 4, 0, Repeated(0, NUM_LENGTH_SYMBOLS));
    if code.Bad? then Bad else if !Acceptable(code.value) then Bad else
    var lens := DecodeLengths(code.rest, code.value, numLit + numDist, []);
    if lens.Bad? then Bad
    else if !Acceptable(lens.value[..numLit]) || !Acceptable(lens.value[numLit..]) then Bad
    else Got(Codes(lens.value[..numLit], lens.value[numLit..]), lens.rest)
  }

  function FixedLit(): (lens: seq<nat>)
    ensures |lens| == MAX_LIT_SYMBOLS
  {
    Repeated(8, 144) + Repeated(9, 112) + Repeated(7, 24) + Repeated(8, 8)
  }

  function FixedDist(): (lens: seq<nat>)
    ensures |lens| == MAX_DIST_SYMBOLS
  {
    Repeated(5, 32)
  }

  // ---------- stored data

  function BytesOf(bits: Bitstring, n: nat): (r: seq<Byte>)
    requires |bits| >= 8 * n
    ensures |r| == n
  {
    if n == 0 then [] else
    LsbVal(bits[..8]);
    assert Pow2(8) == 256 by { assert Pow2(4) == 16; }
    [Val(bits[..8])] + BytesOf(bits[8..], n - 1)
  }

  /** The rest of a stream of whole bytes from the next byte on. */
  function Aligned(bits: Bitstring): (r: Bitstring)
    ensures |r| <= |bits| && |r| % 8 == 0
  {
    bits[|bits| % 8..]
  }

  function Stored(bits: Bitstring, h: seq<Byte>): (r: Read<seq<Byte>>)
    ensures r.Got? ==> |r.rest| <= |bits|
  {
    var a := Field(Aligned(bits), 16);
    if a.Bad? then Bad else
    var b := Field(a.rest, 16);
    if b.Bad? then Bad else
    if a.value + b.value != 0xFFFF then Bad
    else if |b.rest| < 8 * a.value then Bad
    else Got(h + BytesOf(b.rest, a.value), b.rest[8 * a.value..])
  }

  // ---------- blocks and streams

  datatype Block = Block(final: bool, out: seq<Byte>)

  ghost function BlockBody(kind: nat, bits: Bitstring, h: seq<Byte>): (r: Read<seq<Byte>>)
    ensures r.Got? ==> |r.rest| <= |bits|
  {
    if kind == 0 then Stored(bits, h)
    else if kind == 1 then DecodeBody(bits, FixedLit(), FixedDist(), h)
    else if kind == 2 then
      var c := DynamicHeader(bits);
      if c.Bad? then Bad else DecodeBody(c.rest, c.value.lit, c.value.dist, h)
    else Bad
  }

  ghost function DecodeBlock(bits: Bitstring, h: seq<Byte>): (r: Read<Block>)
    ensures r.Got? ==> |r.rest| < |bits|
  {
    var head := Field(bits, 3);
    if head.Bad? then Bad else
    var body := BlockBody(head.value / 2, head.rest, h);
    if body.Bad? then Bad else Got(Block(head.value % 2 == 1, body.value), body.rest)
  }

  /** All blocks up to the final one. */
  ghost function Inflate(bits: Bitstring, h: seq<Byte>): (r: Read<seq<Byte>>)
    ensures r.Got? ==> |r.rest| <= |bits|
    decreases |bits|
  {
    var b := DecodeBlock(bits, h);
    if b.Bad? then Bad
    else if b.value.final then Got(b.value.out, b.rest)
    else Inflate(b.rest, b.value.out)
  }

  /** The two bytes of a zlib header: method 8, a window of at most 32768 bytes, no preset dictionary,
      and the check (section 2.2 of RFC 1950). */
  predicate GoodWrap(cmf: nat, flg: nat) { GoodCheck(cmf, flg) && cmf / 16 <= 7 }

  /** All but the window size. */
  predicate GoodCheck(cmf: nat, flg: nat) { (cmf * 256 + flg) % 31 == 0 && flg / 32 % 2 == 0 && cmf % 16 == 8 }

  // ---------- the body of a block: decoding what the tokens are sent as

  /** Every symbol that the token needs has a code. */
  predicate Coded(t: Token, lit: seq<nat>, dist: seq<nat>) {
    && ValidToken(t)
    && match t
       case Literal(b) => Used(lit, b)
       case Match(len, d) => Used(lit, LenSym(len - 3)) && Used(dist, DistSym(d - 1))
  }

  function TokenBits(t: Token, lit: seq<nat>, dist: seq<nat>): Bitstring
    requires Coded(t, lit, dist)
  {
    match t
    case Literal(b) => Code(lit, b)
    case Match(len, d) =>
      Code(lit, LenSym(len - 3)) + Lsb(Extra(len - 3, LenExtra(len - 3)), LenExtra(len - 3)) +
      (Code(dist, DistSym(d - 1)) + Lsb(Extra(d - 1, DistExtra(d - 1)), DistExtra(d - 1)))
  }

  predicate AllCoded(ts: seq<Token>, lit: seq<nat>, dist: seq<nat>) {
    forall i :: 0 <= i < |ts| ==> Coded(ts[i], lit, dist)
  }

  function TokensBits(ts: seq<Token>, lit: seq<nat>, dist: seq<nat>): Bitstring
    requires AllCoded(ts, lit, dist)
  {
    if ts == [] then [] else TokensBits(ts[..|ts| - 1], lit, dist) + TokenBits(ts[|ts| - 1], lit, dist)
  }

  predicate GoodCode(lens: seq<nat>) { ValidLens(lens) && NotOver(lens) }

  lemma SymbolCode(lens: seq<nat>, s: nat, rest: Bitstring)
    requires GoodCode(lens) && Used(lens, s)
    ensures Symbol(Code(lens, s) + rest, lens) == Got(s, rest)
  {
    DecodeCode(lens, s, rest);
    assert (Code(lens, s) + rest)[lens[s]..] == rest;
  }

  lemma FieldLsb(v: nat, n: nat, rest: Bitstring)
    requires v < Pow2(n)
    ensures Field(Lsb(v, n) + rest, n) == Got(v, rest)
  {
    ValLsb(v, n);
    assert (Lsb(v, n) + rest)[..n] == Lsb(v, n) && (Lsb(v, n) + rest)[n..] == rest;
  }

  lemma LengthBits(c: nat, rest: Bitstring)
    requires c < 256
    ensures 257 <= LenSym(c) <= 285
    ensures LengthOf(Lsb(Extra(c, LenExtra(c)), LenExtra(c)) + rest, LenSym(c)) == Got(c + 3, rest)
  {
    LengthTables(c);
    FieldLsb(Extra(c, LenExtra(c)), LenExtra(c), rest);
  }

  lemma DistanceBits(d: nat, dist: seq<nat>, rest: Bitstring)
    requires d < LZ_DICT_SIZE && GoodCode(dist) && Used(dist, DistSym(d))
    ensures DistanceOf(Code(dist, DistSym(d)) + Lsb(Extra(d, DistExtra(d)), DistExtra(d)) + rest, dist) == Got(d + 1, rest)
  {
    DistanceTables(d);
    var c, x := Code(dist, DistSym(d)), Lsb(Extra(d, DistExtra(d)), DistExtra(d));
    assert c + x + rest == c + (x + rest);
    SymbolCode(dist, DistSym(d), x + rest);
    FieldLsb(Extra(d, DistExtra(d)), DistExtra(d), rest);
  }

  lemma DecodeMatch(len: nat, d: nat, lit: seq<nat>, dist: seq<nat>, h: seq<Byte>, rest: Bitstring)
    requires GoodCode(lit) && GoodCode(dist) && Coded(Match(len, d), lit, dist) && 1 <= d <= |h|
    ensures DecodeStep(TokenBits(Match(len, d), lit, dist) + rest, lit, dist, h) == More(CopyMatch(h, len, d), rest)
  {
    hide Code, Lsb, LenSym, LenExtra, DistSym, DistExtra, Extra, Symbol, LengthOf, DistanceOf, CopyMatch, Used, GoodCode;
    var c, e := Code(lit, LenSym(len - 3)), Lsb(Extra(len - 3, LenExtra(len - 3)), LenExtra(len - 3));
    var f := Code(dist, DistSym(d - 1)) + Lsb(Extra(d - 1, DistExtra(d - 1)), DistExtra(d - 1));
    assert TokenBits(Match(len, d), lit, dist) + rest == c + (e + (f + rest));
    SymbolCode(lit, LenSym(len - 3), e + (f + rest));
    LengthBits(len - 3, f + rest);
    DistanceBits(d - 1, dist, rest);
  }

  /** Decoding the bits of one token does what the token says. */
  lemma DecodeToken(t: Token, lit: seq<nat>, dist: seq<nat>, h: seq<Byte>, rest: Bitstring)
    requires GoodCode(lit) && GoodCode(dist) && Coded(t, lit, dist) && Applies(h, t)
    ensures DecodeStep(TokenBits(t, lit, dist) + rest, lit, dist, h) == More(Apply(h, t), rest)
  {
    match t
    case Literal(b) => SymbolCode(lit, b, rest);
    case Match(len, d) => DecodeMatch(len, d, lit, dist, h, rest);
  }

  lemma {:induction false} TokensBitsHead(ts: seq<Token>, lit: seq<nat>, dist: seq<nat>)
    requires AllCoded(ts, lit, dist) && ts != []
    ensures AllCoded(ts[1..], lit, dist)
    ensures TokensBits(ts, lit, dist) == TokenBits(ts[0], lit, dist) + TokensBits(ts[1..], lit, dist)
    decreases |ts|
  {
    hide TokenBits, Coded;
    var n := |ts| - 1;
    if n == 0 {
      assert ts[..0] == [] && ts[1..] == [];
    } else {
      var init, tail := ts[..n], ts[1..];
      assert init[1..] == tail[..n - 1] && init[0] == ts[0] && tail[n - 1] == ts[n];
      TokensBitsHead(init, lit, dist);
      assert TokensBits(tail, lit, dist) == TokensBits(tail[..n - 1], lit, dist) + TokenBits(ts[n], lit, dist);
    }
  }

  /** Decoding the bits of all tokens and the end-of-block symbol expands the tokens. */
  lemma {:induction false} DecodeTokens(ts: seq<Token>, lit: seq<nat>, dist: seq<nat>, h: seq<Byte>, rest: Bitstring)
    requires GoodCode(lit) && GoodCode(dist) && AllCoded(ts, lit, dist) && AllApply(h, ts) && Used(lit, END_OF_BLOCK)
    ensures DecodeBody(TokensBits(ts, lit, dist) + Code(lit, END_OF_BLOCK) + rest, lit, dist, h) == Got(Expand(h, ts), rest)
    decreases |ts|
  {
    hide TokenBits, Coded, Code, GoodCode, Apply, Applies, DecodeStep;
    var eob := Code(lit, END_OF_BLOCK);
    if ts == [] {
      assert TokensBits(ts, lit, dist) + eob + rest == eob + rest;
      DecodeEnd(lit, dist, h, rest);
    } else {
      var tail := ts[1..];
      TokensBitsHead(ts, lit, dist);
      var head, more := TokenBits(ts[0], lit, dist), TokensBits(tail, lit, dist) + eob + rest;
      assert TokensBits(ts, lit, dist) + eob + rest == head + more;
      DecodeToken(ts[0], lit, dist, h, more);
      DecodeTokens(tail, lit, dist, Apply(h, ts[0]), rest);
    }
  }

  lemma DecodeEnd(lit: seq<nat>, dist: seq<nat>, h: seq<Byte>, rest: Bitstring)
    requires GoodCode(lit) && Used(lit, END_OF_BLOCK)
    ensures DecodeStep(Code(lit, END_OF_BLOCK) + rest, lit, dist, h) == End(rest)
  {
    SymbolCode(lit, END_OF_BLOCK, rest);
  }

  lemma TokensBitsSnoc(ts: seq<Token>, t: Token, lit: seq<nat>, dist: seq<nat>)
    requires AllCoded(ts, lit, dist) && Coded(t, lit, dist)
    ensures AllCoded(ts + [t], lit, dist)
    ensures TokensBits(ts + [t], lit, dist) == TokensBits(ts, lit, dist) + TokenBits(t, lit, dist)
  {
    assert (ts + [t])[..|ts|] == ts;
  }
}
