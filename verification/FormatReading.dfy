/** Where the code's reading of a stream and the format's differ: exactly where the code takes a liberty. */
module FormatReading {
  import opened Bits
  import opened Canonical
  import opened Tokens
  import opened InflateSpec
  import opened CodeLengthRle
  import opened Gaps
  import opened InflateReads
  import opened StreamRoundTrip
  import Adler32

  /** What the format makes of a text: it refuses every liberty. */
  function Plain(r: Read<Text>): Read<seq<Byte>> {
    if r.Bad? || r.value.taken != {} then Bad else Got(r.value.out, r.rest)
  }

  /** Where no distance of the format is longer than the buffer, and no window of it too large for it. */
  predicate Roomy(p: Port) { p.room.wraps ==> |p.room.init| >= LZ_DICT_SIZE }

  /** What the code reads without a liberty is what the format says; and what the format says is read so by
      the code, if the buffer is large enough. */
  predicate Meets<T(==)>(p: Port, code: Read<T>, format: Read<T>) { code == format || (code.Bad? && !Roomy(p)) }

  predicate StepMeets(p: Port, code: Step, format: Step) { code == format || (code.Corrupt? && !Roomy(p)) }

  lemma PlainMark(l: set<Liberty>, r: Read<Text>)
    ensures Plain(Mark(l, r)) == if l == {} then Plain(r) else Bad
  {
    if r.Got? && l != {} {
      var x :| x in l;
      assert x in l + r.value.taken;
    } else if r.Got? {
      assert l + r.value.taken == r.value.taken;
    }
  }

  // ---------- compressed data

  lemma SymbolFormat(bits: Bitstring, lens: seq<nat>)
    ensures Slack(bits, lens) == {} ==> AnySymbol(bits, lens) == Symbol(bits, lens) && Symbol(bits, lens).Got?
    ensures Slack(bits, lens) != {} <==> Symbol(bits, lens).Bad?
  {
    hide Symbol, Strays;
    if Symbol(bits, lens).Bad? { assert Gap in Slack(bits, lens); }
  }

  lemma DistanceFormat(bits: Bitstring, dist: seq<nat>)
    ensures DistanceOf(bits, dist) ==
            var d := ReadDistance(bits, dist);
            if d.Bad? || d.value.taken != {} then Bad else Got(d.value.dist, d.rest)
    ensures DistanceOf(bits, dist).Got? ==> 1 <= DistanceOf(bits, dist).value <= LZ_DICT_SIZE
  {
    hide Symbol, AnySymbol, Field, Slack, Pow2;
    SymbolFormat(bits, dist);
    var s := AnySymbol(bits, dist);
    if s.Got? && s.value < 32 {
      TakenBoth(Slack(bits, dist), DistTaken(s.value));
      DistLimit(s.value);
      FieldBound(s.rest, DistExtraBits(s.value));
    }
  }

  lemma FieldBound(bits: Bitstring, n: nat)
    ensures Field(bits, n).Got? ==> Field(bits, n).value < Pow2(n)
  {
    hide Pow2, Val;
    if |bits| >= n { LsbVal(bits[..n]); }
  }

  lemma TakenBoth(k: set<Liberty>, l: set<Liberty>)
    ensures k + l == {} <==> k == {} && l == {}
  {
    if k + l == {} {
      assert k <= k + l && l <= k + l;
    }
  }

  /** A match, as the format reads it. */
  ghost function MatchOf(bits: Bitstring, s: nat, dist: seq<nat>, h: seq<Byte>): Step
    requires 257 <= s <= 285
  {
    var l := LengthOf(bits, s);
    if l.Bad? then Corrupt else
    var d := DistanceOf(l.rest, dist);
    if d.Bad? || !(1 <= d.value <= |h|) then Corrupt else More(CopyMatch(h, l.value, d.value), d.rest)
  }

  lemma MatchFormat(p: Port, bits: Bitstring, s: nat, dist: seq<nat>, h: seq<Byte>)
    requires 257 <= s <= 285
    ensures StepMeets(p, PlainMove(ReadMatch(p, bits, LengthBase(s), LengthExtra(s), dist, h)), MatchOf(bits, s, dist, h))
  {
    hide DistanceOf, ReadDistance, Field, CopyMatch, CopyOut;
    var x := Field(bits, LengthExtra(s));
    if x.Got? {
      DistanceFormat(x.rest, dist);
      var d := ReadDistance(x.rest, dist);
      if d.Got? {
        TakenBoth(d.value.taken, ReachTaken(p.room, d.value.dist, h));
        TakenBoth(if d.value.dist > |h| then {Far} else {}, if Beyond(p.room, d.value.dist) then {Wild} else {});
        if 1 <= d.value.dist <= |h| { CopyIsMatch(p.room, h, LengthBase(s) + x.value, d.value.dist); }
      }
    }
  }

  function PlainMove(m: Move): Step {
    match m
    case Stuck => Corrupt
    case Over(rest) => End(rest)
    case Onward(out, taken, rest) => if taken == {} then More(out, rest) else Corrupt
  }

  lemma StepFormat(p: Port, bits: Bitstring, lit: seq<nat>, dist: seq<nat>, h: seq<Byte>)
    ensures StepMeets(p, PlainMove(BodyStep(p, bits, lit, dist, h)), DecodeStep(bits, lit, dist, h))
  {
    hide Symbol, AnySymbol, ReadMatch, LengthOf, DistanceOf, CopyMatch, Slack;
    SymbolFormat(bits, lit);
    var s := AnySymbol(bits, lit);
    if s.Got? && END_OF_BLOCK < s.value < 288 {
      var m := ReadMatch(p, s.rest, LengthBase(s.value), LengthExtra(s.value), dist, h);
      if m.Onward? { TakenBoth(LengthTaken(s.value), m.taken); }
      if s.value <= 285 {
        MatchFormat(p, s.rest, s.value, dist, h);
        MatchIn(bits, lit, dist, h);
      }
    }
  }

  lemma MatchIn(bits: Bitstring, lit: seq<nat>, dist: seq<nat>, h: seq<Byte>)
    ensures var s := Symbol(bits, lit);
            s.Got? && END_OF_BLOCK < s.value <= 285 ==> DecodeStep(bits, lit, dist, h) == MatchOf(s.rest, s.value, dist, h)
  {
    hide Symbol, LengthOf, DistanceOf, CopyMatch;
  }

  lemma {:induction false} BodyFormat(p: Port, bits: Bitstring, lit: seq<nat>, dist: seq<nat>, h: seq<Byte>)
    ensures Meets(p, Plain(ReadBody(p, bits, lit, dist, h)), DecodeBody(bits, lit, dist, h))
    decreases |bits|
  {
    hide DecodeStep, BodyStep, Plain, Mark, Roomy;
    StepFormat(p, bits, lit, dist, h);
    PlainEnds(h, bits);
    match BodyStep(p, bits, lit, dist, h)
    case Onward(out, taken, rest) =>
      BodyFormat(p, rest, lit, dist, out);
      PlainMark(taken, ReadBody(p, rest, lit, dist, out));
    case Over(rest) => PlainEnds(h, rest);
    case Stuck =>
  }

  lemma PlainEnds(h: seq<Byte>, rest: Bitstring)
    ensures Plain(Bad) == Bad && Plain(Got(Text(h, {}), rest)) == Got(h, rest)
  {
  }

  // ---------- dynamic headers

  lemma OpFormat(bits: Bitstring, code: seq<nat>, acc: seq<nat>)
    ensures LengthOp(bits, code, acc) == if Slack(bits, code) != {} then Bad else ReadOp(bits, code, acc)
  {
    hide Symbol, AnySymbol, Slack, Field;
    SymbolFormat(bits, code);
    var s := AnySymbol(bits, code);
    if s.Got? && 16 <= s.value <= 18 && (s.value == 16 ==> acc != []) {
      assert ExtraBits(s.value) == if s.value == 16 then 2 else if s.value == 17 then 3 else 7;
    }
  }

  lemma {:induction false} LengthsFormat(bits: Bitstring, code: seq<nat>, n: nat, acc: seq<nat>)
    ensures DecodeLengths(bits, code, n, acc) ==
            var l := ReadLengths(bits, code, n, acc);
            if l.Bad? || l.value.taken != {} then Bad else Got(l.value.lens, l.rest)
    decreases if |acc| <= n then n - |acc| else 0
  {
    hide LengthOp, ReadOp, Slack;
    if |acc| < n {
      OpFormat(bits, code, acc);
      var op := ReadOp(bits, code, acc);
      if op.Got? && |op.value| <= n {
        LengthsFormat(op.rest, code, n, op.value);
        var more := ReadLengths(op.rest, code, n, op.value);
        if more.Got? { TakenBoth(Slack(bits, code), more.value.taken); }
      }
    }
  }

  /** The body behind the lengths, as the format reads it. */
  ghost function LengthsBody(numLit: nat, numDist: nat, code: seq<nat>, bits: Bitstring, h: seq<Byte>): Read<seq<Byte>> {
    var l := DecodeLengths(bits, code, numLit + numDist, []);
    if l.Bad? || !Acceptable(l.value[..numLit]) || !Acceptable(l.value[numLit..]) then Bad
    else DecodeBody(l.rest, l.value[..numLit], l.value[numLit..], h)
  }

  lemma LengthsBodyFormat(p: Port, numLit: nat, numDist: nat, code: seq<nat>, bits: Bitstring, h: seq<Byte>)
    ensures Meets(p, Plain(LengthsThen(p, numLit, numDist, code, [], bits, h)), LengthsBody(numLit, numDist, code, bits, h))
  {
    hide DecodeLengths, ReadLengths, Acceptable, DecodeBody, ReadBody, Plain, Mark, Roomy;
    LengthsFormat(bits, code, numLit + numDist, []);
    PlainEnds(h, bits);
    var l := ReadLengths(bits, code, numLit + numDist, []);
    if l.Got? {
      var lit, dist := l.value.lens[..numLit], l.value.lens[numLit..];
      BodyFormat(p, l.rest, lit, dist, h);
      PlainMark(l.value.taken, ReadBody(p, l.rest, lit, dist, h));
    }
  }

  ghost function CodeLensBody(numLit: nat, numDist: nat, n: nat, bits: Bitstring, h: seq<Byte>): Read<seq<Byte>> {
    if n > NUM_LENGTH_SYMBOLS then Bad else
    var c := CodeLengthCode(bits, n, 0, Repeated(0, NUM_LENGTH_SYMBOLS));
    if c.Bad? || !Acceptable(c.value) then Bad else LengthsBody(numLit, numDist, c.value, c.rest, h)
  }

  lemma HeaderFields(bits: Bitstring, a: Read<nat>, b: Read<nat>, c: Read<nat>, h: seq<Byte>)
    requires a == Field(bits, 5) && a.Got? && b == Field(a.rest, 5) && b.Got? && c == Field(b.rest, 4) && c.Got?
    ensures BlockBody(2, bits, h) == CodeLensBody(a.value + 257, b.value + 1, c.value + 4, c.rest, h)
  {
    hide CodeLengthCode, DecodeLengths, Acceptable, DecodeBody, Field;
  }

  lemma SizesRead(p: Port, s: seq<nat>, bits: Bitstring, h: seq<Byte>)
    requires |s| == 3
    ensures Meets(p, Plain(SizesThen(p, s, bits, h)), CodeLensBody(s[0], s[1], s[2], bits, h))
  {
    hide CodeLengthCode, LengthsBody, LengthsThen, Acceptable, Roomy;
    if s[2] <= NUM_LENGTH_SYMBOLS {
      var c := CodeLengthCode(bits, s[2], 0, Repeated(0, NUM_LENGTH_SYMBOLS));
      if c.Got? { LengthsBodyFormat(p, s[0], s[1], c.value, c.rest, h); }
    }
  }

  /** A dynamic header is read number by number. */
  lemma DynamicFormat(p: Port, bits: Bitstring, h: seq<Byte>)
    ensures Meets(p, Plain(SizesThen(p, [], bits, h)), BlockBody(2, bits, h))
  {
    hide CodeLengthCode, DecodeLengths, Acceptable, DecodeBody, CodeLensThen, CodeLensBody, Roomy;
    var a := Field(bits, 5);
    if a.Got? {
      var b := Field(a.rest, 5);
      assert [] + [a.value + MinSize(0)] == [a.value + 257];
      if b.Got? {
        var c := Field(b.rest, 4);
        assert [a.value + 257] + [b.value + MinSize(1)] == [a.value + 257, b.value + 1];
        if c.Got? {
          var s := [a.value + 257, b.value + 1, c.value + 4];
          assert [a.value + 257, b.value + 1] + [c.value + MinSize(2)] == s;
          SizesRead(p, s, c.rest, h);
          HeaderFields(bits, a, b, c, h);
        }
      }
    }
  }

  // ---------- stored data

  lemma TwoBytes(bits: Bitstring)
    requires |bits| >= 16
    ensures Field(bits, 16) == Got(Val(bits[..8]) + 256 * Val(bits[8..16]), bits[16..])
  {
    var a, b := bits[..8], bits[8..16];
    LsbVal(a);
    LsbVal(b);
    EightIs();
    hide Lsb, Val, Pow2;
    LsbAppend(Val(a), 8, Val(b), 8);
    assert bits[..16] == a + b;
    Pow2Add(8, 8);
    var v := Val(a) + Val(b) * Pow2(8);
    ValLsb(v, 16);
  }

  lemma EightIs()
    ensures Pow2(8) == 256
  {
  }

  lemma StoredFormat(bits: Bitstring, h: seq<Byte>)
    ensures Stored(bits, h) == Plain(StoredHeader([], Aligned(bits), h))
  {
    hide Val, BytesOf, Aligned;
    var a := Aligned(bits);
    if |a| >= 32 {
      TwoBytes(a);
      TwoBytes(a[16..]);
      StoredHeaderAll(a, h);
      assert a[16..][..8] == a[16..24] && a[16..][8..16] == a[24..32] && a[16..][16..] == a[32..];
    } else {
      StoredHeaderShort([], a, h);
    }
  }

  lemma StoredHeaderAll(a: Bitstring, h: seq<Byte>)
    requires |a| >= 32
    ensures StoredHeader([], a, h) == StoredHeader([Val(a[..8]), Val(a[8..16]), Val(a[16..24]), Val(a[24..32])], a[32..], h)
  {
    hide Val, RawBytes;
    var w, x, y, z := Val(a[..8]), Val(a[8..16]), Val(a[16..24]), Val(a[24..32]);
    assert StoredHeader([], a, h) == StoredHeader([] + [w], a[8..], h);
    assert [] + [w] == [w] && a[8..][..8] == a[8..16] && a[8..][8..] == a[16..];
    assert StoredHeader([w], a[8..], h) == StoredHeader([w] + [x], a[16..], h);
    assert [w] + [x] == [w, x] && a[16..][..8] == a[16..24] && a[16..][8..] == a[24..];
    assert StoredHeader([w, x], a[16..], h) == StoredHeader([w, x] + [y], a[24..], h);
    assert [w, x] + [y] == [w, x, y] && a[24..][..8] == a[24..32] && a[24..][8..] == a[32..];
    assert StoredHeader([w, x, y], a[24..], h) == StoredHeader([w, x, y] + [z], a[32..], h);
    assert [w, x, y] + [z] == [w, x, y, z];
  }

  lemma {:induction false} StoredHeaderShort(raw: seq<nat>, a: Bitstring, h: seq<Byte>)
    requires |raw| <= 4 && |a| < 8 * (4 - |raw|)
    ensures StoredHeader(raw, a, h).Bad?
    decreases 4 - |raw|
  {
    hide Val;
    var x := Field(a, 8);
    if x.Got? {
      StoredHeaderShort(raw + [x.value], x.rest, h);
    }
  }

  // ---------- blocks and streams

  lemma BlockFormat(p: Port, kind: nat, bits: Bitstring, h: seq<Byte>)
    ensures Meets(p, Plain(ReadBlock(p, kind, bits, h)), BlockBody(kind, bits, h))
  {
    hide Stored, StoredHeader, SizesThen, DecodeBody, ReadBody, DynamicHeader, FixedLit, FixedDist, Aligned, Plain, Roomy;
    PlainEnds(h, bits);
    if kind == 0 {
      StoredFormat(bits, h);
    } else if kind == 1 {
      BodyFormat(p, bits, FixedLit(), FixedDist(), h);
    } else if kind == 2 {
      DynamicFormat(p, bits, h);
    }
  }

  lemma {:induction false} BlocksFormat(p: Port, bits: Bitstring, h: seq<Byte>)
    ensures Meets(p, Plain(ReadBlocks(p, bits, h)), Inflate(bits, h))
    decreases |bits|
  {
    hide BlockBody, ReadBlock, Mark, Roomy;
    var head := Field(bits, 3);
    if head.Got? {
      var body := ReadBlock(p, head.value / 2, head.rest, h);
      BlockFormat(p, head.value / 2, head.rest, h);
      if body.Got? && head.value % 2 == 0 {
        BlocksFormat(p, body.rest, body.value.out);
        PlainMark(body.value.taken, ReadBlocks(p, body.rest, body.value.out));
      }
    }
  }

  // ---------- the wrapping

  lemma ByteField(bits: Bitstring)
    ensures var x := Field(bits, 8); x.Got? ==> x.value < 256
  {
    if |bits| >= 8 {
      LsbVal(bits[..8]);
      EightIs();
    }
  }

  /** In a ring that is large enough the code's test of the window is the format's. */
  lemma WindowFormat(cmf: nat, size: nat)
    requires size >= LZ_DICT_SIZE
    ensures BadWindow(cmf, size) <==> WindowTaken(cmf) != {}
  {
    Pow2Of15();
    if cmf / 16 > 7 {
      assert WideWindow in WindowTaken(cmf);
      Pow2Mono(16, 8 + cmf / 16);
      assert Pow2(16) == 2 * Pow2(15);
    } else {
      Pow2Mono(8 + cmf / 16, 15);
    }
  }

  lemma ReadByte(n: nat, acc: nat, low: nat, bits: Bitstring, t: Text)
    requires n > 0
    ensures var x := Field(bits, 8);
            if x.Bad? then Trailing(n, acc, bits, t).Bad? && BigEndian(bits, n, low).Bad?
            else Trailing(n, acc, bits, t) == Trailing(n - 1, Wrap32(acc * 256 + x.value), x.rest, t) &&
                 BigEndian(bits, n, low) == BigEndian(x.rest, n - 1, low * 256 + x.value)
  {
    hide Field, Wrap32;
  }

  lemma SmallWrap(v: nat)
    requires v < MAX_WORD32
    ensures Wrap32(v) == v && Wrap32(MAX_WORD32 + v) == v
  {
  }

  /** The register that starts at 1 has the four bytes at the end: the 1 is shifted out. */
  lemma TrailingReads(bits: Bitstring, t: Text)
    ensures var r, b := Trailing(4, 1, bits, t), BigEndian(bits, 4, 0);
            if b.Bad? then r.Bad? else r == Got(Unpacked(t.out, b.value, t.taken), b.rest)
  {
    hide Field, Wrap32, Trailing, BigEndian;
    ReadByte(4, 1, 0, bits, t);
    ByteField(bits);
    var w := Field(bits, 8);
    if w.Got? {
      SmallWrap(256 + w.value);
      ReadByte(3, 256 + w.value, w.value, w.rest, t);
      ByteField(w.rest);
      var x := Field(w.rest, 8);
      if x.Got? {
        var a := w.value * 256 + x.value;
        SmallWrap(65536 + a);
        ReadByte(2, 65536 + a, a, x.rest, t);
        ByteField(x.rest);
        var y := Field(x.rest, 8);
        if y.Got? {
          var b := a * 256 + y.value;
          SmallWrap(16777216 + b);
          ReadByte(1, 16777216 + b, b, y.rest, t);
          ByteField(y.rest);
          var z := Field(y.rest, 8);
          if z.Got? {
            SmallWrap(b * 256 + z.value);
            TrailingNone(b * 256 + z.value, z.rest, t);
          }
        }
      }
    }
  }

  lemma TrailingNone(acc: nat, bits: Bitstring, t: Text)
    ensures Trailing(0, acc, bits, t) == Got(Unpacked(t.out, acc, t.taken), bits) && BigEndian(bits, 0, acc) == Got(acc, bits)
  {
  }

  lemma WrapReads(p: Port, bits: Bitstring)
    ensures var a := Field(bits, 8);
            var w := WrapThen(p, [], bits, []);
            if a.Bad? then w.Bad? else
            var b := Field(a.rest, 8);
            if b.Bad? || !GoodCheck(a.value, b.value) || (p.room.wraps && BadWindow(a.value, |p.room.init|)) then w.Bad?
            else w == Mark(WindowTaken(a.value), ReadBlocks(p, b.rest, []))
  {
    hide Field, ReadBlocks, GoodCheck, Mark, WindowTaken, BadWindow;
    var a := Field(bits, 8);
    if a.Got? {
      assert [] + [a.value] == [a.value];
      assert WrapThen(p, [], bits, []) == WrapThen(p, [a.value], a.rest, []);
      var b := Field(a.rest, 8);
      if b.Got? {
        assert [a.value] + [b.value] == [a.value, b.value];
        assert WrapThen(p, [a.value], a.rest, []) == WrapThen(p, [a.value, b.value], b.rest, []);
      }
    }
  }

  /** The blocks of a zlib stream, as the format reads them. */
  ghost function Unwrapped(bits: Bitstring): Read<seq<Byte>> {
    var a := Field(bits, 8);
    if a.Bad? then Bad else
    var b := Field(a.rest, 8);
    if b.Bad? || !GoodWrap(a.value, b.value) then Bad else Inflate(b.rest, [])
  }

  lemma WrapFormat(p: Port, bits: Bitstring)
    ensures Meets(p, Plain(WrapThen(p, [], bits, [])), Unwrapped(bits))
  {
    hide Field, Inflate, ReadBlocks, GoodCheck, Mark, WindowTaken, BadWindow, WrapThen, Plain;
    WrapReads(p, bits);
    PlainEnds([], bits);
    var a := Field(bits, 8);
    if a.Got? {
      var b := Field(a.rest, 8);
      if b.Got? {
        BlocksFormat(p, b.rest, []);
        PlainMark(WindowTaken(a.value), ReadBlocks(p, b.rest, []));
        WideIs(a.value);
        if p.room.wraps && Roomy(p) { WindowFormat(a.value, |p.room.init|); }
        if p.room.wraps { WideRefused(a.value, |p.room.init|); }
      }
    }
  }

  /** No ring takes a stream with a window above 32768 bytes. */
  lemma WideRefused(cmf: nat, size: nat)
    ensures cmf / 16 > 7 ==> BadWindow(cmf, size)
  {
    if cmf / 16 > 7 {
      Pow2Of15();
      Pow2Mono(16, 8 + cmf / 16);
      assert Pow2(16) == 2 * Pow2(15);
    }
  }

  lemma WideIs(cmf: nat)
    ensures WindowTaken(cmf) != {} <==> cmf / 16 > 7
  {
    if cmf / 16 > 7 { assert WideWindow in WindowTaken(cmf); }
  }

  // ---------- the whole stream

  /** The code takes the stream: it stands for something, and a checksum behind it is its own. */
  ghost predicate Takes(p: Port, bits: Bitstring) {
    var w := StandsFor(p, bits);
    w.Got? && (p.zlib ==> w.value.check == Adler32.Checksum(1, w.value.out))
  }

  /** The code's reading and the format's differ in the liberties, and in nothing else: what the code takes
      without a liberty is valid, and stands for the same; and what is valid the code takes so, unless the
      buffer is a ring of less than 32768 bytes. */
  lemma Exactly(p: Port, bits: Bitstring)
    ensures Takes(p, bits) && StandsFor(p, bits).value.taken == {} ==> Decompress(bits, p.zlib) == Some(StandsFor(p, bits).value.out)
    ensures Roomy(p) && Decompress(bits, p.zlib).Some? ==> Takes(p, bits) && StandsFor(p, bits).value.taken == {}
  {
    hide Inflate, ReadBlocks, WrapThen, Trailing, BigEndian, Aligned, Adler32.Checksum, Unwrapped, Roomy;
    if p.zlib {
      WrapFormat(p, bits);
      UnzlibIs(bits);
      var r := WrapThen(p, [], bits, []);
      if r.Got? { TrailingReads(Aligned(r.rest), r.value); }
    } else {
      BlocksFormat(p, bits, []);
      var r := ReadBlocks(p, bits, []);
      if r.Got? { TrailingNone(1, Aligned(r.rest), r.value); }
    }
  }

  lemma UnzlibIs(bits: Bitstring)
    ensures Unzlib(bits) ==
            var data := Unwrapped(bits);
            if data.Bad? then None else
            var check := BigEndian(Aligned(data.rest), 4, 0);
            if check.Bad? || check.value != Adler32.Checksum(1, data.value) then None else Some(data.value)
  {
    hide Field, Inflate, BigEndian, Aligned, Adler32.Checksum, GoodWrap;
  }
}
