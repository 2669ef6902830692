/** Where the inflater can stand in a stream, and what is still to come from there. Each step of the inflater
    leaves the expected result as it is, but for the liberties that it takes. */
module InflateSteps {
  import opened Bits
  import opened Canonical
  import opened Tokens
  import opened InflateSpec
  import opened CodeLengthRle
  import opened Gaps
  import opened InflateReads

  /** The places between two reads from the stream. */
  datatype Stage =
    | AtWrap(hdr: seq<nat>)                      // these bytes of the zlib header were read
    | AtHead
    | AtRawHeader(raw: seq<nat>)                 // these bytes of a stored block's header were read
    | AtRaw(n: nat)                              // n stored bytes are to come
    | AtRawByte(n: nat, b: Byte)                 // b is to be put out, and n more are to come
    | AtSizes(sizes: seq<nat>)                   // these numbers of a dynamic header were read
    | AtCodeLens(numLit: nat, numDist: nat, n: nat, i: nat, code: seq<nat>)
    | AtLengths(numLit: nat, numDist: nat, code: seq<nat>, acc: seq<nat>)
    | AtRepeat(numLit: nat, numDist: nat, code: seq<nat>, acc: seq<nat>, sym: nat)
    | AtSymbol(lit: seq<nat>, dst: seq<nat>)
    | AtLiteral(lit: seq<nat>, dst: seq<nat>, b: Byte)
    | AtLengthBits(lit: seq<nat>, dst: seq<nat>, base: nat, extra: nat)
    | AtDistance(lit: seq<nat>, dst: seq<nat>, len: nat)
    | AtDistBits(lit: seq<nat>, dst: seq<nat>, len: nat, base: nat, extra: nat)
    | AtCopy(lit: seq<nat>, dst: seq<nat>, len: nat, dist: nat)
    | AtFault                                    // nothing more is to be read
    | AtTrailer(n: nat, check: nat)               // after the last block: n bytes of the checksum are to come

  /** What a block's result means for the stream. */
  ghost function Cont(p: Port, final: bool, r: Read<Text>): Read<Text> {
    if r.Bad? || final then r else Mark(r.value.taken, ReadBlocks(p, r.rest, r.value.out))
  }

  ghost function RepeatThen(p: Port, numLit: nat, numDist: nat, code: seq<nat>, acc: seq<nat>, sym: nat, bits: Bitstring, h: seq<Byte>): Read<Text>
    requires sym == 16 ==> acc != []
  {
    var x := Field(bits, ExtraBits(sym));
    if x.Bad? then Bad else LengthsThen(p, numLit, numDist, code, acc + Repeats(acc, sym, x.value), x.rest, h)
  }

  ghost function LengthThen(p: Port, lit: seq<nat>, dst: seq<nat>, base: nat, extra: nat, bits: Bitstring, h: seq<Byte>): Read<Text> {
    var x := Field(bits, extra);
    if x.Bad? then Bad else DistanceThen(p, lit, dst, base + x.value, x.rest, h)
  }

  ghost function DistanceThen(p: Port, lit: seq<nat>, dst: seq<nat>, len: nat, bits: Bitstring, h: seq<Byte>): Read<Text> {
    var d := ReadDistance(bits, dst);
    if d.Bad? then Bad else Mark(d.value.taken, CopyThen(p, lit, dst, len, d.value.dist, d.rest, h))
  }

  ghost function DistBitsThen(p: Port, lit: seq<nat>, dst: seq<nat>, len: nat, base: nat, extra: nat, bits: Bitstring, h: seq<Byte>): Read<Text> {
    var x := Field(bits, extra);
    if x.Bad? then Bad else CopyThen(p, lit, dst, len, base + x.value, x.rest, h)
  }

  ghost function CopyThen(p: Port, lit: seq<nat>, dst: seq<nat>, len: nat, d: nat, bits: Bitstring, h: seq<Byte>): Read<Text> {
    if !p.room.wraps && d > |h| then Bad else Mark(ReachTaken(p.room, d, h), ReadBody(p, bits, lit, dst, CopyOut(p.room, h, len, d)))
  }

  predicate ValidStage(s: Stage) {
    match s
    case AtWrap(hdr) => |hdr| <= 2
    case AtRawHeader(raw) => |raw| <= 4
    case AtSizes(sizes) => |sizes| <= 3
    case AtCodeLens(_, _, n, _, code) => n <= NUM_LENGTH_SYMBOLS == |code|
    case AtRepeat(_, _, _, acc, sym) => 16 <= sym <= 18 && (sym == 16 ==> acc != [])
    case _ => true
  }

  /** A stage inside a block: what the block gives from there on. */
  ghost function InBlock(p: Port, s: Stage, bits: Bitstring, h: seq<Byte>): Read<Text>
    requires ValidStage(s)
  {
    match s
    case AtRawHeader(raw) => StoredHeader(raw, bits, h)
    case AtRaw(n) => RawBytes(bits, n, h)
    case AtRawByte(n, b) => RawBytes(bits, n, h + [b])
    case AtSizes(sizes) => SizesThen(p, sizes, bits, h)
    case AtCodeLens(numLit, numDist, n, i, code) => CodeLensThen(p, numLit, numDist, n, i, code, bits, h)
    case AtLengths(numLit, numDist, code, acc) => LengthsThen(p, numLit, numDist, code, acc, bits, h)
    case AtRepeat(numLit, numDist, code, acc, sym) => RepeatThen(p, numLit, numDist, code, acc, sym, bits, h)
    case AtSymbol(lit, dst) => ReadBody(p, bits, lit, dst, h)
    case AtLiteral(lit, dst, b) => ReadBody(p, bits, lit, dst, h + [b])
    case AtLengthBits(lit, dst, base, extra) => LengthThen(p, lit, dst, base, extra, bits, h)
    case AtDistance(lit, dst, len) => DistanceThen(p, lit, dst, len, bits, h)
    case AtDistBits(lit, dst, len, base, extra) => DistBitsThen(p, lit, dst, len, base, extra, bits, h)
    case AtCopy(lit, dst, len, dist) => CopyThen(p, lit, dst, len, dist, bits, h)
    case _ => Bad
  }

  /** The result of the blocks from a stage on, after the output `h`. */
  ghost function Expected(p: Port, s: Stage, final: bool, bits: Bitstring, h: seq<Byte>): Read<Text>
    requires ValidStage(s)
  {
    match s
    case AtWrap(hdr) => WrapThen(p, hdr, bits, h)
    case AtHead => ReadBlocks(p, bits, h)
    case AtTrailer(_, _) => Got(Text(h, {}), bits)
    case _ => Cont(p, final, InBlock(p, s, bits, h))
  }

  /** The result of the stream from a stage on. */
  ghost function Whole(p: Port, s: Stage, final: bool, bits: Bitstring, h: seq<Byte>): Read<Unpacked>
    requires ValidStage(s)
  {
    if s.AtTrailer? then Trailing(s.n, s.check, bits, Text(h, {})) else Ended(p, Expected(p, s, final, bits, h))
  }

  // ---------- liberties on the way

  function MarkAll(l: set<Liberty>, w: Read<Unpacked>): Read<Unpacked> {
    if w.Bad? then Bad else Got(w.value.(taken := l + w.value.taken), w.rest)
  }

  /** What is expected from here is what the stream stands for; some liberties may lie behind. Behind a match
      from further back than the ring is long, it is so but for the bytes themselves. */
  ghost predicate Agrees(w: Read<Unpacked>, goal: Read<Unpacked>) {
    if goal.Bad? then w.Bad?
    else
      && w.Got? && w.rest == goal.rest && |w.value.out| == |goal.value.out| && w.value.check == goal.value.check
      && w.value.taken <= goal.value.taken && (Wild !in goal.value.taken ==> w.value.out == goal.value.out)
  }

  lemma AgreesItself(goal: Read<Unpacked>)
    ensures Agrees(goal, goal)
  {
  }

  /** A stream without a symbol read from a gap. */
  predicate Gapless(goal: Read<Unpacked>) { goal.Got? && Gap !in goal.value.taken }

  lemma AgreesMark(l: set<Liberty>, w: Read<Unpacked>, goal: Read<Unpacked>)
    requires Agrees(MarkAll(l, w), goal)
    ensures Agrees(w, goal) && (goal.Got? ==> l <= goal.value.taken)
  {
  }

  lemma MarkNone(r: Read<Text>)
    ensures Mark({}, r) == r
  {
    if r.Got? {
      var none: set<Liberty> := {};
      assert none + r.value.taken == r.value.taken;
    }
  }

  lemma MarkTwice(k: set<Liberty>, l: set<Liberty>, r: Read<Text>)
    ensures Mark(k, Mark(l, r)) == Mark(k + l, r)
  {
    if r.Got? { assert k + (l + r.value.taken) == k + l + r.value.taken; }
  }

  lemma {:induction false} TrailingMark(n: nat, check: nat, bits: Bitstring, t: Text, l: set<Liberty>)
    ensures Trailing(n, check, bits, Text(t.out, l + t.taken)) == MarkAll(l, Trailing(n, check, bits, t))
    decreases n
  {
    hide Field, Wrap32;
    var x := Field(bits, 8);
    if n > 0 && x.Got? {
      TrailingMark(n - 1, Wrap32(check * 256 + x.value), x.rest, t, l);
    }
  }

  lemma EndedMark(p: Port, l: set<Liberty>, r: Read<Text>)
    ensures Ended(p, Mark(l, r)) == MarkAll(l, Ended(p, r))
  {
    hide Trailing, Aligned;
    if r.Got? { TrailingMark(TrailerSize(p.zlib), 1, Aligned(r.rest), r.value, l); }
  }

  /** A liberty in a block is the stream's. */
  lemma Through(p: Port, final: bool, l: set<Liberty>, r: Read<Text>)
    ensures Ended(p, Cont(p, final, Mark(l, r))) == MarkAll(l, Ended(p, Cont(p, final, r)))
  {
    hide Ended, ReadBlocks;
    EndedMark(p, l, Cont(p, final, r));
    if r.Got? && !final { MarkTwice(l, r.value.taken, ReadBlocks(p, r.rest, r.value.out)); }
  }

  // ---------- what is read does not depend on the bytes put out

  /** Two texts that differ in nothing but their bytes. */
  predicate Alike(r: Read<Text>, r': Read<Text>) {
    if r.Bad? then r'.Bad? else r'.Got? && r'.rest == r.rest && |r'.value.out| == |r.value.out| && r'.value.taken == r.value.taken
  }

  lemma AlikeMark(l: set<Liberty>, r: Read<Text>, r': Read<Text>)
    requires Alike(r, r')
    ensures Alike(Mark(l, r), Mark(l, r'))
  {
  }

  lemma AlikeEnds(h: seq<Byte>, h': seq<Byte>, rest: Bitstring)
    requires |h| == |h'|
    ensures Alike(Bad, Bad) && Alike(Got(Text(h, {}), rest), Got(Text(h', {}), rest))
  {
  }

  lemma StepAlike(p: Port, bits: Bitstring, lit: seq<nat>, dst: seq<nat>, h: seq<Byte>, h': seq<Byte>)
    requires |h| == |h'|
    ensures var m, m' := BodyStep(p, bits, lit, dst, h), BodyStep(p, bits, lit, dst, h');
            match m
            case Stuck => m'.Stuck?
            case Over(rest) => m' == m
            case Onward(out, taken, rest) => m'.Onward? && m'.rest == rest && |m'.out| == |out| && m'.taken == taken
  {
    hide AnySymbol, Slack, Field, ReadDistance;
  }

  lemma {:induction false} BodyAlike(p: Port, bits: Bitstring, lit: seq<nat>, dst: seq<nat>, h: seq<Byte>, h': seq<Byte>)
    requires |h| == |h'|
    ensures Alike(ReadBody(p, bits, lit, dst, h), ReadBody(p, bits, lit, dst, h'))
    decreases |bits|
  {
    hide BodyStep, Mark, Alike;
    StepAlike(p, bits, lit, dst, h, h');
    AlikeEnds(h, h', bits);
    var m, m' := BodyStep(p, bits, lit, dst, h), BodyStep(p, bits, lit, dst, h');
    if m.Onward? {
      BodyAlike(p, m.rest, lit, dst, m.out, m'.out);
      AlikeMark(m.taken, ReadBody(p, m.rest, lit, dst, m.out), ReadBody(p, m.rest, lit, dst, m'.out));
    } else if m.Over? {
      AlikeEnds(h, h', m.rest);
    }
  }

  lemma LensAlike(p: Port, numLit: nat, numDist: nat, code: seq<nat>, acc: seq<nat>, bits: Bitstring, h: seq<Byte>, h': seq<Byte>)
    requires |h| == |h'|
    ensures Alike(LengthsThen(p, numLit, numDist, code, acc, bits, h), LengthsThen(p, numLit, numDist, code, acc, bits, h'))
  {
    hide ReadLengths, Acceptable, ReadBody;
    var l := ReadLengths(bits, code, numLit + numDist, acc);
    if l.Got? {
      BodyAlike(p, l.rest, l.value.lens[..numLit], l.value.lens[numLit..], h, h');
    }
  }

  lemma {:induction false} SizesAlike(p: Port, sizes: seq<nat>, bits: Bitstring, h: seq<Byte>, h': seq<Byte>)
    requires |sizes| <= 3 && |h| == |h'|
    ensures Alike(SizesThen(p, sizes, bits, h), SizesThen(p, sizes, bits, h'))
    decreases 3 - |sizes|
  {
    hide Field, LengthsThen, CodeLengthCode, Acceptable;
    if |sizes| == 3 {
      if sizes[2] <= NUM_LENGTH_SYMBOLS {
        var c := CodeLengthCode(bits, sizes[2], 0, Repeated(0, NUM_LENGTH_SYMBOLS));
        if c.Got? { LensAlike(p, sizes[0], sizes[1], c.value, [], c.rest, h, h'); }
      }
    } else {
      var x := Field(bits, if |sizes| == 2 then 4 else 5);
      if x.Got? { SizesAlike(p, sizes + [x.value + MinSize(|sizes|)], x.rest, h, h'); }
    }
  }

  lemma {:induction false} StoredAlike(raw: seq<nat>, bits: Bitstring, h: seq<Byte>, h': seq<Byte>)
    requires |raw| <= 4 && |h| == |h'|
    ensures Alike(StoredHeader(raw, bits, h), StoredHeader(raw, bits, h'))
    decreases 4 - |raw|
  {
    hide Field, BytesOf;
    var x := Field(bits, 8);
    if |raw| < 4 && x.Got? { StoredAlike(raw + [x.value], x.rest, h, h'); }
  }

  lemma BlockAlike(p: Port, kind: nat, bits: Bitstring, h: seq<Byte>, h': seq<Byte>)
    requires |h| == |h'|
    ensures Alike(ReadBlock(p, kind, bits, h), ReadBlock(p, kind, bits, h'))
  {
    hide Alike, StoredHeader, ReadBody, SizesThen, FixedLit, FixedDist, Aligned;
    AlikeEnds(h, h', bits);
    StoredAlike([], Aligned(bits), h, h');
    BodyAlike(p, bits, FixedLit(), FixedDist(), h, h');
    SizesAlike(p, [], bits, h, h');
  }

  lemma {:induction false} BlocksAlike(p: Port, bits: Bitstring, h: seq<Byte>, h': seq<Byte>)
    requires |h| == |h'|
    ensures Alike(ReadBlocks(p, bits, h), ReadBlocks(p, bits, h'))
    decreases |bits|
  {
    hide ReadBlock, Mark;
    var head := Field(bits, 3);
    if head.Got? {
      var body, body' := ReadBlock(p, head.value / 2, head.rest, h), ReadBlock(p, head.value / 2, head.rest, h');
      BlockAlike(p, head.value / 2, head.rest, h, h');
      if body.Got? && head.value % 2 == 0 {
        BlocksAlike(p, body.rest, body.value.out, body'.value.out);
        AlikeMark(body.value.taken, ReadBlocks(p, body.rest, body.value.out), ReadBlocks(p, body.rest, body'.value.out));
      }
    }
  }

  lemma ContAlike(p: Port, final: bool, r: Read<Text>, r': Read<Text>)
    requires Alike(r, r')
    ensures Alike(Cont(p, final, r), Cont(p, final, r'))
  {
    hide ReadBlocks, Mark;
    if r.Got? && !final {
      BlocksAlike(p, r.rest, r.value.out, r'.value.out);
      AlikeMark(r.value.taken, ReadBlocks(p, r.rest, r.value.out), ReadBlocks(p, r.rest, r'.value.out));
    }
  }

  lemma {:induction false} TrailingAlike(n: nat, check: nat, bits: Bitstring, t: Text, t': Text)
    ensures var r, r' := Trailing(n, check, bits, t), Trailing(n, check, bits, t');
            if r.Bad? then r'.Bad?
            else r'.Got? && r'.rest == r.rest && r.value == Unpacked(t.out, r'.value.check, t.taken) && r'.value == Unpacked(t'.out, r.value.check, t'.taken)
    decreases n
  {
    hide Field, Wrap32;
    var x := Field(bits, 8);
    if n > 0 && x.Got? {
      TrailingAlike(n - 1, Wrap32(check * 256 + x.value), x.rest, t, t');
    }
  }

  /** When the bytes are not promised any more, others may stand for them. */
  lemma SymbolAlike(p: Port, lit: seq<nat>, dst: seq<nat>, final: bool, bits: Bitstring, h: seq<Byte>, h': seq<Byte>, goal: Read<Unpacked>)
    requires |h| == |h'| && Agrees(Whole(p, AtSymbol(lit, dst), final, bits, h), goal) && (goal.Got? ==> Wild in goal.value.taken)
    ensures Agrees(Whole(p, AtSymbol(lit, dst), final, bits, h'), goal)
  {
    hide Trailing, Cont, ReadBody, Aligned;
    var b, b' := ReadBody(p, bits, lit, dst, h), ReadBody(p, bits, lit, dst, h');
    BodyAlike(p, bits, lit, dst, h, h');
    ContAlike(p, final, b, b');
    var r, r' := Cont(p, final, b), Cont(p, final, b');
    if r.Got? { TrailingAlike(TrailerSize(p.zlib), 1, Aligned(r.rest), r.value, r'.value); }
  }

  // ---------- the steps

  /** The stage after a block's three head bits `v`. */
  lemma HeadStep(p: Port, bits: Bitstring, h: seq<Byte>)
    ensures var x := Field(bits, 3);
            if x.Bad? then ReadBlocks(p, bits, h).Bad?
            else ReadBlocks(p, bits, h) == Cont(p, x.value % 2 == 1, ReadBlock(p, x.value / 2, x.rest, h))
  {
    hide ReadBlock;
  }

  lemma EightIs()
    ensures Pow2(8) == 256
  {
  }

  /** One stored byte. */
  lemma RawStep(bits: Bitstring, n: nat, h: seq<Byte>)
    requires n > 0
    ensures var x := Field(bits, 8);
            if x.Bad? then RawBytes(bits, n, h).Bad? else x.value < 256 && RawBytes(bits, n, h) == RawBytes(x.rest, n - 1, h + [x.value as Byte])
  {
    if |bits| >= 8 {
      LsbVal(bits[..8]);
      EightIs();
      hide Val, Pow2, Lsb;
      var b: Byte := Val(bits[..8]);
      if |bits| >= 8 * n {
        assert h + ([b] + BytesOf(bits[8..], n - 1)) == h + [b] + BytesOf(bits[8..], n - 1);
        assert bits[8..][8 * (n - 1)..] == bits[8 * n..];
      }
    }
  }

  /** One length of the code length code; after the last the lengths follow. */
  lemma CodeLensStep(p: Port, numLit: nat, numDist: nat, n: nat, i: nat, code: seq<nat>, bits: Bitstring, h: seq<Byte>)
    requires n <= NUM_LENGTH_SYMBOLS == |code|
    ensures i >= n ==>
              (CodeLensThen(p, numLit, numDist, n, i, code, bits, h) ==
               if !Acceptable(code) then Bad else LengthsThen(p, numLit, numDist, code, [], bits, h))
    ensures i < n ==>
              var x := Field(bits, 3);
              if x.Bad? then CodeLensThen(p, numLit, numDist, n, i, code, bits, h).Bad?
              else CodeLensThen(p, numLit, numDist, n, i, code, bits, h) ==
                   CodeLensThen(p, numLit, numDist, n, i + 1, code[SWIZZLE[i] := x.value], x.rest, h)
  {
    hide LengthsThen, Acceptable, Field;
  }

  /** When all lengths are there, the body follows. */
  lemma LengthsAll(p: Port, numLit: nat, numDist: nat, code: seq<nat>, acc: seq<nat>, bits: Bitstring, h: seq<Byte>)
    ensures |acc| == numLit + numDist ==>
              (LengthsThen(p, numLit, numDist, code, acc, bits, h) ==
               if !Acceptable(acc[..numLit]) || !Acceptable(acc[numLit..]) then Bad else ReadBody(p, bits, acc[..numLit], acc[numLit..], h))
    ensures |acc| > numLit + numDist ==> LengthsThen(p, numLit, numDist, code, acc, bits, h).Bad?
  {
    hide Acceptable, ReadBody, AnySymbol, Field;
    if |acc| == numLit + numDist && Acceptable(acc[..numLit]) && Acceptable(acc[numLit..]) {
      MarkNone(ReadBody(p, bits, acc[..numLit], acc[numLit..], h));
    }
  }

  /** One operation of the packed lengths. */
  lemma LengthsOp(p: Port, numLit: nat, numDist: nat, code: seq<nat>, acc: seq<nat>, bits: Bitstring, h: seq<Byte>)
    requires |acc| < numLit + numDist
    ensures var op := ReadOp(bits, code, acc);
            var r := LengthsThen(p, numLit, numDist, code, acc, bits, h);
            if op.Bad? then r.Bad? else r == Mark(Slack(bits, code), LengthsThen(p, numLit, numDist, code, op.value, op.rest, h))
  {
    hide Acceptable, ReadBody, ReadOp, Slack;
    var op, n := ReadOp(bits, code, acc), numLit + numDist;
    if op.Got? && |op.value| <= n {
      var more := ReadLengths(op.rest, code, n, op.value);
      if more.Got? {
        var lens := more.value.lens;
        MarkTwice(Slack(bits, code), more.value.taken, ReadBody(p, more.rest, lens[..numLit], lens[numLit..], h));
      }
    }
  }

  lemma LengthsStep(p: Port, numLit: nat, numDist: nat, code: seq<nat>, acc: seq<nat>, bits: Bitstring, h: seq<Byte>)
    requires |acc| < numLit + numDist
    ensures var s := AnySymbol(bits, code);
            var r := LengthsThen(p, numLit, numDist, code, acc, bits, h);
            if s.Bad? || s.value > 18 || (s.value == 16 && acc == []) then r.Bad?
            else if s.value < 16 then r == Mark(Slack(bits, code), LengthsThen(p, numLit, numDist, code, acc + [s.value], s.rest, h))
            else r == Mark(Slack(bits, code), RepeatThen(p, numLit, numDist, code, acc, s.value, s.rest, h))
  {
    hide LengthsThen, AnySymbol, Field, Slack, Mark, Repeats, ExtraBits;
    LengthsOp(p, numLit, numDist, code, acc, bits, h);
  }

  /** A stream that is stuck in a gap is stuck whatever was put out. */
  lemma EndlessStuck(p: Port, lit: seq<nat>, dst: seq<nat>, bits: Bitstring, h: seq<Byte>)
    requires Endless(bits, lit)
    ensures ReadBody(p, bits, lit, dst, h).Bad?
  {
    hide AnySymbol;
  }

  /** One symbol of a block's body. */
  lemma SymbolStep(p: Port, lit: seq<nat>, dst: seq<nat>, bits: Bitstring, h: seq<Byte>)
    ensures var s := AnySymbol(bits, lit);
            var r := ReadBody(p, bits, lit, dst, h);
            if s.Bad? || s.value >= 288 then r.Bad?
            else if s.value < END_OF_BLOCK then r == Mark(Slack(bits, lit), ReadBody(p, s.rest, lit, dst, h + [s.value]))
            else if s.value == END_OF_BLOCK then r == Got(Text(h, {}), s.rest)
            else r == Mark(LengthTaken(s.value), LengthThen(p, lit, dst, LengthBase(s.value), LengthExtra(s.value), s.rest, h))
  {
    hide AnySymbol, Slack, Mark, LengthThen, ReadMatch;
    var s := AnySymbol(bits, lit);
    if s.Got? && s.value < 288 {
      if Endless(bits, lit) {
        EndlessStuck(p, lit, dst, bits, h);
        EndlessStuck(p, lit, dst, bits, h + [0]);
      } else if s.value > END_OF_BLOCK {
        MatchStep(p, lit, dst, LengthBase(s.value), LengthExtra(s.value), LengthTaken(s.value), s.rest, h);
      }
    }
  }

  lemma MatchStep(p: Port, lit: seq<nat>, dst: seq<nat>, base: nat, extra: nat, l: set<Liberty>, bits: Bitstring, h: seq<Byte>)
    ensures var m := ReadMatch(p, bits, base, extra, dst, h);
            var r := LengthThen(p, lit, dst, base, extra, bits, h);
            if m.Stuck? then r.Bad? else Mark(l, r) == Mark(l + m.taken, ReadBody(p, m.rest, lit, dst, m.out))
  {
    hide ReadBody, ReadDistance, Field, CopyOut, ReachTaken, Mark;
    var x := Field(bits, extra);
    if x.Got? {
      var d := ReadDistance(x.rest, dst);
      if d.Got? && (p.room.wraps || d.value.dist <= |h|) {
        var out := CopyOut(p.room, h, base + x.value, d.value.dist);
        var far, r := ReachTaken(p.room, d.value.dist, h), ReadBody(p, d.rest, lit, dst, out);
        MarkTwice(d.value.taken, far, r);
        MarkTwice(l, d.value.taken + far, r);
      }
      MarkBad(if d.Got? then d.value.taken else {});
    }
  }

  lemma MarkBad(l: set<Liberty>)
    ensures Mark(l, Bad) == Bad
  {
  }

  lemma NoExtra(p: Port, lit: seq<nat>, dst: seq<nat>, base: nat, bits: Bitstring, h: seq<Byte>)
    ensures LengthThen(p, lit, dst, base, 0, bits, h) == DistanceThen(p, lit, dst, base, bits, h)
    ensures forall len: nat :: DistBitsThen(p, lit, dst, len, base, 0, bits, h) == CopyThen(p, lit, dst, len, base, bits, h)
  {
    hide DistanceThen, CopyThen;
    assert bits[..0] == [] && bits[0..] == bits;
  }

  lemma DistanceStep(p: Port, lit: seq<nat>, dst: seq<nat>, len: nat, bits: Bitstring, h: seq<Byte>)
    ensures var s := AnySymbol(bits, dst);
            var r := DistanceThen(p, lit, dst, len, bits, h);
            if s.Bad? || s.value >= 32 then r.Bad?
            else r == Mark(Slack(bits, dst) + DistTaken(s.value), DistBitsThen(p, lit, dst, len, DistBase(s.value), DistExtraBits(s.value), s.rest, h))
  {
    hide AnySymbol, Field, CopyThen, Slack, DistTaken, DistBase, DistExtraBits;
  }

  // ---------- the whole stream

  lemma StandsAtStart(p: Port, final: bool, bits: Bitstring)
    ensures Whole(p, if p.zlib then AtWrap([]) else AtHead, final, bits, []) == StandsFor(p, bits)
  {
    hide Ended, WrapThen, ReadBlocks;
  }

  lemma WrapGo(p: Port, hdr: seq<nat>, final: bool, bits: Bitstring, h: seq<Byte>)
    requires |hdr| < 2
    ensures var x := Field(bits, 8);
            if x.Bad? then Whole(p, AtWrap(hdr), final, bits, h).Bad?
            else Whole(p, AtWrap(hdr), final, bits, h) == Whole(p, AtWrap(hdr + [x.value]), final, x.rest, h)
  {
    hide Trailing, ReadBlocks, Field;
  }

  lemma WrapDone(p: Port, hdr: seq<nat>, final: bool, bits: Bitstring, h: seq<Byte>)
    requires |hdr| == 2
    ensures var w := Whole(p, AtWrap(hdr), final, bits, h);
            if !GoodCheck(hdr[0], hdr[1]) || (p.room.wraps && BadWindow(hdr[0], |p.room.init|)) then w.Bad?
            else w == MarkAll(WindowTaken(hdr[0]), Whole(p, AtHead, final, bits, h))
  {
    hide Trailing, ReadBlocks, GoodCheck, BadWindow, WindowTaken, Mark;
    EndedMark(p, WindowTaken(hdr[0]), ReadBlocks(p, bits, h));
  }

  /** Where a block's three head bits lead. */
  lemma HeadGo(p: Port, final: bool, bits: Bitstring, h: seq<Byte>)
    ensures var x := Field(bits, 3);
            var w := Whole(p, AtHead, final, bits, h);
            if x.Bad? then w.Bad?
            else if x.value / 2 > 2 then w == Whole(p, AtFault, x.value % 2 == 1, x.rest, h)
            else if x.value / 2 == 0 then w == Whole(p, AtRawHeader([]), x.value % 2 == 1, Aligned(x.rest), h)
            else if x.value / 2 == 1 then w == Whole(p, AtSymbol(FixedLit(), FixedDist()), x.value % 2 == 1, x.rest, h)
            else w == Whole(p, AtSizes([]), x.value % 2 == 1, x.rest, h)
  {
    hide Trailing, ReadBlocks, Field, ReadBody, SizesThen, StoredHeader, FixedLit, FixedDist, Aligned;
    HeadStep(p, bits, h);
  }

  /** After the last bit of a block. */
  lemma BlockGo(p: Port, final: bool, bits: Bitstring, h: seq<Byte>)
    ensures Ended(p, Cont(p, final, Got(Text(h, {}), bits))) ==
            if final then Whole(p, AtTrailer(TrailerSize(p.zlib), 1), final, Aligned(bits), h) else Whole(p, AtHead, final, bits, h)
  {
    hide Trailing, ReadBlocks, Aligned;
    MarkNone(ReadBlocks(p, bits, h));
  }

  lemma RawHeaderGo(p: Port, raw: seq<nat>, final: bool, bits: Bitstring, h: seq<Byte>)
    requires |raw| < 4
    ensures var x := Field(bits, 8);
            if x.Bad? then Whole(p, AtRawHeader(raw), final, bits, h).Bad?
            else Whole(p, AtRawHeader(raw), final, bits, h) == Whole(p, AtRawHeader(raw + [x.value]), final, x.rest, h)
  {
    hide Trailing, ReadBlocks, Field;
  }

  lemma RawHeaderDone(p: Port, raw: seq<nat>, final: bool, bits: Bitstring, h: seq<Byte>)
    requires |raw| == 4
    ensures var w := Whole(p, AtRawHeader(raw), final, bits, h);
            if raw[0] + 256 * raw[1] + (raw[2] + 256 * raw[3]) != 0xFFFF then w.Bad?
            else w == Whole(p, AtRaw(raw[0] + 256 * raw[1]), final, bits, h)
  {
    hide Trailing, ReadBlocks, RawBytes;
  }

  /** A stored byte is read, and then put out. */
  lemma RawGo(p: Port, n: nat, final: bool, bits: Bitstring, h: seq<Byte>)
    requires n > 0
    ensures var x := Field(bits, 8);
            var w := Whole(p, AtRaw(n), final, bits, h);
            if x.Bad? then w.Bad?
            else x.value < 256 && w == Whole(p, AtRawByte(n - 1, x.value), final, x.rest, h)
  {
    hide Trailing, ReadBlocks, Field, RawBytes;
    RawStep(bits, n, h);
  }

  lemma RawByteGo(p: Port, n: nat, b: Byte, final: bool, bits: Bitstring, h: seq<Byte>)
    ensures Whole(p, AtRawByte(n, b), final, bits, h) == Whole(p, AtRaw(n), final, bits, h + [b])
  {
    hide Trailing, ReadBlocks, RawBytes;
  }

  lemma RawDone(p: Port, final: bool, bits: Bitstring, h: seq<Byte>)
    ensures Whole(p, AtRaw(0), final, bits, h) == Ended(p, Cont(p, final, Got(Text(h, {}), bits)))
  {
    hide Trailing, ReadBlocks;
    assert h + [] == h && bits[0..] == bits;
  }

  lemma SizesGo(p: Port, sizes: seq<nat>, final: bool, bits: Bitstring, h: seq<Byte>)
    requires |sizes| < 3
    ensures var x := Field(bits, if |sizes| == 2 then 4 else 5);
            var w := Whole(p, AtSizes(sizes), final, bits, h);
            if x.Bad? then w.Bad? else w == Whole(p, AtSizes(sizes + [x.value + MinSize(|sizes|)]), final, x.rest, h)
  {
    hide Trailing, ReadBlocks, Field, CodeLensThen;
  }

  lemma SizesDone(p: Port, s: seq<nat>, final: bool, bits: Bitstring, h: seq<Byte>)
    requires |s| == 3 && s[2] <= NUM_LENGTH_SYMBOLS
    ensures Whole(p, AtSizes(s), final, bits, h) ==
            Whole(p, AtCodeLens(s[0], s[1], s[2], 0, Repeated(0, NUM_LENGTH_SYMBOLS)), final, bits, h)
  {
    hide Trailing, ReadBlocks, CodeLensThen;
  }

  lemma CodeLensGo(p: Port, numLit: nat, numDist: nat, n: nat, i: nat, code: seq<nat>, final: bool, bits: Bitstring, h: seq<Byte>)
    requires i < n <= NUM_LENGTH_SYMBOLS == |code|
    ensures var x := Field(bits, 3);
            var w := Whole(p, AtCodeLens(numLit, numDist, n, i, code), final, bits, h);
            if x.Bad? then w.Bad?
            else w == Whole(p, AtCodeLens(numLit, numDist, n, i + 1, code[SWIZZLE[i] := x.value]), final, x.rest, h)
  {
    hide Trailing, ReadBlocks, Field, CodeLensThen;
    CodeLensStep(p, numLit, numDist, n, i, code, bits, h);
  }

  lemma CodeLensDone(p: Port, numLit: nat, numDist: nat, n: nat, code: seq<nat>, final: bool, bits: Bitstring, h: seq<Byte>)
    requires n <= NUM_LENGTH_SYMBOLS == |code|
    ensures var w := Whole(p, AtCodeLens(numLit, numDist, n, n, code), final, bits, h);
            if !Acceptable(code) then w.Bad? else w == Whole(p, AtLengths(numLit, numDist, code, []), final, bits, h)
  {
    hide Trailing, ReadBlocks, CodeLensThen, LengthsThen, Acceptable;
    CodeLensStep(p, numLit, numDist, n, n, code, bits, h);
  }

  lemma LengthsGo(p: Port, numLit: nat, numDist: nat, code: seq<nat>, acc: seq<nat>, final: bool, bits: Bitstring, h: seq<Byte>)
    requires |acc| < numLit + numDist
    ensures var s := AnySymbol(bits, code);
            var w := Whole(p, AtLengths(numLit, numDist, code, acc), final, bits, h);
            if s.Bad? || s.value > 18 || (s.value == 16 && acc == []) then w.Bad?
            else if s.value < 16 then w == MarkAll(Slack(bits, code), Whole(p, AtLengths(numLit, numDist, code, acc + [s.value]), final, s.rest, h))
            else w == MarkAll(Slack(bits, code), Whole(p, AtRepeat(numLit, numDist, code, acc, s.value), final, s.rest, h))
  {
    hide Ended, Cont, LengthsThen, RepeatThen, AnySymbol, Slack, Mark, MarkAll;
    LengthsStep(p, numLit, numDist, code, acc, bits, h);
    StuckThrough(p, final);
    var s := AnySymbol(bits, code);
    if s.Got? {
      Through(p, final, Slack(bits, code), LengthsThen(p, numLit, numDist, code, acc + [s.value], s.rest, h));
      if 16 <= s.value <= 18 && (s.value == 16 ==> acc != []) {
        Through(p, final, Slack(bits, code), RepeatThen(p, numLit, numDist, code, acc, s.value, s.rest, h));
      }
    }
  }

  lemma StuckThrough(p: Port, final: bool)
    ensures Ended(p, Cont(p, final, Bad)) == Bad
  {
  }

  /** What is expected behind the operation `sym` of the packed lengths. */
  ghost predicate OpLeads(p: Port, numLit: nat, numDist: nat, code: seq<nat>, acc: seq<nat>, sym: nat, final: bool, rest: Bitstring, h: seq<Byte>,
                          goal: Read<Unpacked>)
  {
    if sym < 16 then Agrees(Whole(p, AtLengths(numLit, numDist, code, acc + [sym]), final, rest, h), goal)
    else if sym > 18 || (sym == 16 && acc == []) then goal.Bad?
    else Agrees(Whole(p, AtRepeat(numLit, numDist, code, acc, sym), final, rest, h), goal)
  }

  lemma OpNeeded(p: Port, numLit: nat, numDist: nat, code: seq<nat>, acc: seq<nat>, final: bool, bits: Bitstring, h: seq<Byte>, goal: Read<Unpacked>)
    requires |acc| < numLit + numDist && Agrees(Whole(p, AtLengths(numLit, numDist, code, acc), final, bits, h), goal)
    ensures AnySymbol(bits, code).Bad? ==> goal.Bad?
    ensures Gapless(goal) ==> Symbol(bits, code).Got?
  {
    hide Whole, AnySymbol;
    LengthsGo(p, numLit, numDist, code, acc, final, bits, h);
  }

  lemma OpFound(p: Port, numLit: nat, numDist: nat, code: seq<nat>, acc: seq<nat>, sym: nat, final: bool, bits: Bitstring, rest: Bitstring,
                h: seq<Byte>, goal: Read<Unpacked>)
    requires |acc| < numLit + numDist && Agrees(Whole(p, AtLengths(numLit, numDist, code, acc), final, bits, h), goal)
    requires AnySymbol(bits, code) == Got(sym, rest)
    ensures OpLeads(p, numLit, numDist, code, acc, sym, final, rest, h, goal)
  {
    hide Whole, AnySymbol, Slack;
    LengthsGo(p, numLit, numDist, code, acc, final, bits, h);
  }

  lemma RepeatGo(p: Port, numLit: nat, numDist: nat, code: seq<nat>, acc: seq<nat>, sym: nat, final: bool, bits: Bitstring, h: seq<Byte>)
    requires 16 <= sym <= 18 && (sym == 16 ==> acc != [])
    ensures var x := Field(bits, ExtraBits(sym));
            var w := Whole(p, AtRepeat(numLit, numDist, code, acc, sym), final, bits, h);
            if x.Bad? then w.Bad? else w == Whole(p, AtLengths(numLit, numDist, code, acc + Repeats(acc, sym, x.value)), final, x.rest, h)
  {
    hide Trailing, ReadBlocks, LengthsThen, Field, ExtraBits, Repeats;
  }

  /** All lengths are there, or too many. */
  lemma LengthsDone(p: Port, numLit: nat, numDist: nat, code: seq<nat>, acc: seq<nat>, final: bool, bits: Bitstring, h: seq<Byte>)
    requires |acc| >= numLit + numDist
    ensures var w := Whole(p, AtLengths(numLit, numDist, code, acc), final, bits, h);
            if |acc| > numLit + numDist || !Acceptable(acc[..numLit]) || !Acceptable(acc[numLit..]) then w.Bad?
            else w == Whole(p, AtSymbol(acc[..numLit], acc[numLit..]), final, bits, h)
  {
    hide Trailing, ReadBlocks, LengthsThen, Acceptable, ReadBody;
    LengthsAll(p, numLit, numDist, code, acc, bits, h);
  }

  function AfterLengthSym(lit: seq<nat>, dst: seq<nat>, sym: nat): Stage
    requires 257 <= sym < 288
  {
    if LengthExtra(sym) == 0 then AtDistance(lit, dst, LengthBase(sym)) else AtLengthBits(lit, dst, LengthBase(sym), LengthExtra(sym))
  }

  function AfterDistSym(lit: seq<nat>, dst: seq<nat>, len: nat, sym: nat): Stage
    requires sym < 32
  {
    if DistExtraBits(sym) == 0 then AtCopy(lit, dst, len, DistBase(sym)) else AtDistBits(lit, dst, len, DistBase(sym), DistExtraBits(sym))
  }

  /** Where a symbol of a block's body leads. */
  lemma SymbolGo(p: Port, lit: seq<nat>, dst: seq<nat>, final: bool, bits: Bitstring, h: seq<Byte>)
    ensures var s := AnySymbol(bits, lit);
            var w := Whole(p, AtSymbol(lit, dst), final, bits, h);
            if s.Bad? || s.value >= 288 then w.Bad?
            else if s.value < END_OF_BLOCK then w == MarkAll(Slack(bits, lit), Whole(p, AtLiteral(lit, dst, s.value), final, s.rest, h))
            else if s.value == END_OF_BLOCK then w == Ended(p, Cont(p, final, Got(Text(h, {}), s.rest)))
            else w == MarkAll(LengthTaken(s.value), Whole(p, AfterLengthSym(lit, dst, s.value), final, s.rest, h))
  {
    hide Ended, Cont, AnySymbol, Slack, Mark, MarkAll, ReadBody, LengthThen, DistanceThen, LengthBase, LengthExtra, LengthTaken;
    SymbolStep(p, lit, dst, bits, h);
    StuckThrough(p, final);
    var s := AnySymbol(bits, lit);
    if s.Got? && s.value < END_OF_BLOCK {
      Through(p, final, Slack(bits, lit), ReadBody(p, s.rest, lit, dst, h + [s.value]));
    } else if s.Got? && END_OF_BLOCK < s.value < 288 {
      NoExtra(p, lit, dst, LengthBase(s.value), s.rest, h);
      Through(p, final, LengthTaken(s.value), LengthThen(p, lit, dst, LengthBase(s.value), LengthExtra(s.value), s.rest, h));
    }
  }

  lemma LiteralGo(p: Port, lit: seq<nat>, dst: seq<nat>, b: Byte, final: bool, bits: Bitstring, h: seq<Byte>)
    ensures Whole(p, AtLiteral(lit, dst, b), final, bits, h) == Whole(p, AtSymbol(lit, dst), final, bits, h + [b])
  {
    hide Trailing, ReadBlocks, ReadBody;
  }

  lemma LengthGo(p: Port, lit: seq<nat>, dst: seq<nat>, base: nat, extra: nat, final: bool, bits: Bitstring, h: seq<Byte>)
    ensures var x := Field(bits, extra);
            var w := Whole(p, AtLengthBits(lit, dst, base, extra), final, bits, h);
            if x.Bad? then w.Bad? else w == Whole(p, AtDistance(lit, dst, base + x.value), final, x.rest, h)
  {
    hide Trailing, ReadBlocks, DistanceThen, Field;
  }

  lemma DistanceGo(p: Port, lit: seq<nat>, dst: seq<nat>, len: nat, final: bool, bits: Bitstring, h: seq<Byte>)
    ensures var s := AnySymbol(bits, dst);
            var w := Whole(p, AtDistance(lit, dst, len), final, bits, h);
            if s.Bad? || s.value >= 32 then w.Bad?
            else w == MarkAll(Slack(bits, dst) + DistTaken(s.value), Whole(p, AfterDistSym(lit, dst, len, s.value), final, s.rest, h))
  {
    hide Ended, Cont, AnySymbol, Slack, Mark, MarkAll, DistanceThen, DistBitsThen, CopyThen, DistBase, DistExtraBits, DistTaken;
    DistanceStep(p, lit, dst, len, bits, h);
    StuckThrough(p, final);
    var s := AnySymbol(bits, dst);
    if s.Got? && s.value < 32 {
      NoExtra(p, lit, dst, DistBase(s.value), s.rest, h);
      Through(p, final, Slack(bits, dst) + DistTaken(s.value),
              DistBitsThen(p, lit, dst, len, DistBase(s.value), DistExtraBits(s.value), s.rest, h));
    }
  }

  lemma DistBitsGo(p: Port, lit: seq<nat>, dst: seq<nat>, len: nat, base: nat, extra: nat, final: bool, bits: Bitstring, h: seq<Byte>)
    ensures var x := Field(bits, extra);
            var w := Whole(p, AtDistBits(lit, dst, len, base, extra), final, bits, h);
            if x.Bad? then w.Bad? else w == Whole(p, AtCopy(lit, dst, len, base + x.value), final, x.rest, h)
  {
    hide Trailing, ReadBlocks, CopyThen, Field;
  }

  /** A match all at once, or its first byte. */
  lemma CopyGo(p: Port, lit: seq<nat>, dst: seq<nat>, len: nat, dist: nat, final: bool, bits: Bitstring, h: seq<Byte>)
    ensures var w := Whole(p, AtCopy(lit, dst, len, dist), final, bits, h);
            if !p.room.wraps && dist > |h| then w.Bad?
            else w == MarkAll(ReachTaken(p.room, dist, h), Whole(p, AtSymbol(lit, dst), final, bits, CopyOut(p.room, h, len, dist)))
  {
    hide Ended, Cont, Mark, MarkAll, ReadBody, ReachTaken;
    Through(p, final, ReachTaken(p.room, dist, h), ReadBody(p, bits, lit, dst, CopyOut(p.room, h, len, dist)));
    StuckThrough(p, final);
  }

  /** Behind a match: the output is what the reading says, unless the distance is longer than the ring. */
  lemma CopyGone(p: Port, lit: seq<nat>, dst: seq<nat>, len: nat, dist: nat, final: bool, bits: Bitstring, h: seq<Byte>, h': seq<Byte>,
                 goal: Read<Unpacked>)
    requires (p.room.wraps || dist <= |h|) && Agrees(Whole(p, AtCopy(lit, dst, len, dist), final, bits, h), goal)
    requires |h'| == |h| + len && (!Beyond(p.room, dist) ==> h' == CopyOut(p.room, h, len, dist))
    ensures Agrees(Whole(p, AtSymbol(lit, dst), final, bits, h'), goal)
    ensures goal.Got? ==> ReachTaken(p.room, dist, h) <= goal.value.taken
  {
    hide Whole, CopyOut, ReachTaken;
    CopyGo(p, lit, dst, len, dist, final, bits, h);
    ReachWild(p.room, dist, h);
    var out := CopyOut(p.room, h, len, dist);
    AgreesMark(ReachTaken(p.room, dist, h), Whole(p, AtSymbol(lit, dst), final, bits, out), goal);
    if Beyond(p.room, dist) { SymbolAlike(p, lit, dst, final, bits, out, h', goal); }
  }

  lemma ReachWild(p: Room, d: nat, h: seq<Byte>)
    ensures Wild in ReachTaken(p, d, h) <==> Beyond(p, d)
  {
  }

  /** One byte of a match. */
  lemma CopyOneGo(p: Port, lit: seq<nat>, dst: seq<nat>, len: nat, dist: nat, final: bool, bits: Bitstring, h: seq<Byte>, b: Byte,
                  goal: Read<Unpacked>)
    requires len > 0 && (p.room.wraps || dist <= |h|) && Agrees(Whole(p, AtCopy(lit, dst, len, dist), final, bits, h), goal)
    requires !Beyond(p.room, dist) ==> b == Back(p.room, h, dist)
    ensures Agrees(Whole(p, AtCopy(lit, dst, len - 1, dist), final, bits, h + [b]), goal)
  {
    hide Whole, CopyOut, Back, Beyond;
    var g := h + [b];
    var out := CopyOut(p.room, g, len - 1, dist);
    OneByte(p.room, h, len, dist);
    CopyGone(p, lit, dst, len, dist, final, bits, h, out, goal);
    CopyGo(p, lit, dst, len - 1, dist, final, bits, g);
    MarkWithin(ReachTaken(p.room, dist, g), Whole(p, AtSymbol(lit, dst), final, bits, out), goal);
  }

  lemma MarkWithin(l: set<Liberty>, w: Read<Unpacked>, goal: Read<Unpacked>)
    requires Agrees(w, goal) && (goal.Got? ==> l <= goal.value.taken)
    ensures Agrees(MarkAll(l, w), goal)
  {
  }

  /** A match that is all copied. */
  lemma CopyDone(p: Port, lit: seq<nat>, dst: seq<nat>, dist: nat, final: bool, bits: Bitstring, h: seq<Byte>, goal: Read<Unpacked>)
    requires (p.room.wraps || dist <= |h|) && Agrees(Whole(p, AtCopy(lit, dst, 0, dist), final, bits, h), goal)
    ensures Agrees(Whole(p, AtSymbol(lit, dst), final, bits, h), goal)
  {
    hide Whole, ReachTaken;
    CopyGone(p, lit, dst, 0, dist, final, bits, h, h, goal);
  }

  lemma OneByte(p: Room, h: seq<Byte>, len: nat, dist: nat)
    requires len > 0
    ensures CopyOut(p, h, len, dist) == CopyOut(p, h + [Back(p, h, dist)], len - 1, dist)
  {
  }

  lemma TrailerGo(p: Port, n: nat, check: nat, final: bool, bits: Bitstring, h: seq<Byte>)
    requires n > 0
    ensures var x := Field(bits, 8);
            var w := Whole(p, AtTrailer(n, check), final, bits, h);
            if x.Bad? then w.Bad? else w == Whole(p, AtTrailer(n - 1, Wrap32(check * 256 + x.value)), final, x.rest, h)
  {
    hide Field, Wrap32;
  }

  lemma FaultGo(p: Port, final: bool, bits: Bitstring, h: seq<Byte>)
    ensures Whole(p, AtFault, final, bits, h) == Bad
  {
  }

  lemma TrailerDone(p: Port, check: nat, final: bool, bits: Bitstring, h: seq<Byte>)
    ensures Whole(p, AtTrailer(0, check), final, bits, h) == Got(Unpacked(h, check, {}), bits)
  {
  }

  /** What is expected behind the symbol `sym`. */
  ghost predicate SymbolLeads(p: Port, lit: seq<nat>, dst: seq<nat>, sym: nat, final: bool, rest: Bitstring, h: seq<Byte>, goal: Read<Unpacked>)
    requires sym < 288
  {
    if sym < END_OF_BLOCK then Agrees(Whole(p, AtLiteral(lit, dst, sym), final, rest, h), goal)
    else if sym == END_OF_BLOCK then Agrees(Ended(p, Cont(p, final, Got(Text(h, {}), rest))), goal)
    else Agrees(Whole(p, AfterLengthSym(lit, dst, sym), final, rest, h), goal)
  }

  /** A stream without a next symbol is refused; one without gaps has it. */
  lemma SymbolNeeded(p: Port, lit: seq<nat>, dst: seq<nat>, final: bool, bits: Bitstring, h: seq<Byte>, goal: Read<Unpacked>)
    requires Agrees(Whole(p, AtSymbol(lit, dst), final, bits, h), goal)
    ensures AnySymbol(bits, lit).Bad? ==> goal.Bad?
    ensures Gapless(goal) ==> Symbol(bits, lit).Got?
  {
    hide Whole, AnySymbol, Ended, Cont;
    SymbolGo(p, lit, dst, final, bits, h);
  }

  lemma DistanceNeeded(p: Port, lit: seq<nat>, dst: seq<nat>, len: nat, final: bool, bits: Bitstring, h: seq<Byte>, goal: Read<Unpacked>)
    requires Agrees(Whole(p, AtDistance(lit, dst, len), final, bits, h), goal)
    ensures AnySymbol(bits, dst).Bad? ==> goal.Bad?
    ensures Gapless(goal) ==> Symbol(bits, dst).Got?
  {
    hide Whole, AnySymbol;
    DistanceGo(p, lit, dst, len, final, bits, h);
  }

  lemma SymbolFound(p: Port, lit: seq<nat>, dst: seq<nat>, sym: nat, final: bool, bits: Bitstring, rest: Bitstring, h: seq<Byte>, goal: Read<Unpacked>)
    requires Agrees(Whole(p, AtSymbol(lit, dst), final, bits, h), goal)
    requires AnySymbol(bits, lit) == Got(sym, rest) && sym < 288
    ensures SymbolLeads(p, lit, dst, sym, final, rest, h, goal)
  {
    hide Whole, AnySymbol, Ended, Cont, Slack, LengthTaken;
    SymbolGo(p, lit, dst, final, bits, h);
  }

  lemma DistanceFound(p: Port, lit: seq<nat>, dst: seq<nat>, len: nat, sym: nat, final: bool, bits: Bitstring, rest: Bitstring, h: seq<Byte>, goal: Read<Unpacked>)
    requires Agrees(Whole(p, AtDistance(lit, dst, len), final, bits, h), goal)
    requires AnySymbol(bits, dst) == Got(sym, rest) && sym < 32
    ensures DistanceLeads(p, lit, dst, len, sym, final, rest, h, goal)
  {
    hide Whole, AnySymbol, Slack, DistTaken;
    DistanceGo(p, lit, dst, len, final, bits, h);
  }

  /** What is expected behind the distance symbol `sym`. */
  ghost predicate DistanceLeads(p: Port, lit: seq<nat>, dst: seq<nat>, len: nat, sym: nat, final: bool, rest: Bitstring, h: seq<Byte>,
                                goal: Read<Unpacked>)
    requires sym < 32
  {
    Agrees(Whole(p, AfterDistSym(lit, dst, len, sym), final, rest, h), goal)
  }

  /** What is expected behind a repeat operation. */
  ghost predicate RepeatLeads(p: Port, numLit: nat, numDist: nat, code: seq<nat>, acc: seq<nat>, sym: nat, x: nat, final: bool, rest: Bitstring,
                              h: seq<Byte>, goal: Read<Unpacked>)
    requires sym == 16 ==> acc != []
  {
    Agrees(Whole(p, AtLengths(numLit, numDist, code, acc + Repeats(acc, sym, x)), final, rest, h), goal)
  }

  /** What is expected behind the last length. */
  ghost predicate BodyLeads(p: Port, numLit: nat, acc: seq<nat>, final: bool, rest: Bitstring, h: seq<Byte>, goal: Read<Unpacked>)
    requires numLit <= |acc|
  {
    if Acceptable(acc[..numLit]) && Acceptable(acc[numLit..]) then Agrees(Whole(p, AtSymbol(acc[..numLit], acc[numLit..]), final, rest, h), goal)
    else goal.Bad?
  }

  // ---------- the output so far is the beginning of the whole

  /** The next thing to do is to put out a byte. */
  predicate Hungry(s: Stage) {
    s.AtRawByte? || s.AtLiteral? || (s.AtRaw? && s.n > 0) || (s.AtCopy? && s.len > 0)
  }

  /** The text, if there is one, begins with `h`. */
  predicate Begins(h: seq<Byte>, r: Read<Text>) { r.Got? ==> h <= r.value.out }

  lemma BeginsTrans(g: seq<Byte>, h: seq<Byte>, l: set<Liberty>, r: Read<Text>)
    requires g <= h && Begins(h, r)
    ensures Begins(g, Mark(l, r))
  {
  }

  lemma {:induction false} BodyGrows(p: Port, bits: Bitstring, lit: seq<nat>, dst: seq<nat>, h: seq<Byte>)
    ensures Begins(h, ReadBody(p, bits, lit, dst, h))
    decreases |bits|
  {
    hide BodyStep, Mark, Begins;
    var step := BodyStep(p, bits, lit, dst, h);
    if step.Onward? {
      BodyGrows(p, step.rest, lit, dst, step.out);
      BeginsTrans(h, step.out, step.taken, ReadBody(p, step.rest, lit, dst, step.out));
    } else {
      BeginsOver(h, if step.Over? then step.rest else []);
    }
  }

  lemma BeginsOver(h: seq<Byte>, rest: Bitstring)
    ensures Begins(h, Got(Text(h, {}), rest)) && Begins(h, Bad)
  {
  }

  lemma {:induction false} RawGrows(raw: seq<nat>, bits: Bitstring, h: seq<Byte>)
    requires |raw| <= 4
    ensures Begins(h, StoredHeader(raw, bits, h))
    decreases 4 - |raw|
  {
    hide Field;
    var x := Field(bits, 8);
    if |raw| < 4 && x.Got? { RawGrows(raw + [x.value], x.rest, h); }
  }

  lemma LensGrow(p: Port, numLit: nat, numDist: nat, code: seq<nat>, acc: seq<nat>, bits: Bitstring, h: seq<Byte>)
    ensures Begins(h, LengthsThen(p, numLit, numDist, code, acc, bits, h))
  {
    hide ReadLengths, Acceptable, ReadBody;
    var l := ReadLengths(bits, code, numLit + numDist, acc);
    if l.Got? {
      var lens := l.value.lens;
      BodyGrows(p, l.rest, lens[..numLit], lens[numLit..], h);
      BeginsTrans(h, h, l.value.taken, ReadBody(p, l.rest, lens[..numLit], lens[numLit..], h));
    }
  }

  lemma {:induction false} SizesGrow(p: Port, sizes: seq<nat>, bits: Bitstring, h: seq<Byte>)
    requires |sizes| <= 3
    ensures Begins(h, SizesThen(p, sizes, bits, h))
    decreases 3 - |sizes|
  {
    hide Field, LengthsThen, CodeLengthCode, Acceptable;
    if |sizes| == 3 {
      if sizes[2] <= NUM_LENGTH_SYMBOLS {
        var c := CodeLengthCode(bits, sizes[2], 0, Repeated(0, NUM_LENGTH_SYMBOLS));
        if c.Got? { LensGrow(p, sizes[0], sizes[1], c.value, [], c.rest, h); }
      }
    } else {
      var x := Field(bits, if |sizes| == 2 then 4 else 5);
      if x.Got? { SizesGrow(p, sizes + [x.value + MinSize(|sizes|)], x.rest, h); }
    }
  }

  lemma BlockGrows(p: Port, kind: nat, bits: Bitstring, h: seq<Byte>)
    ensures Begins(h, ReadBlock(p, kind, bits, h))
  {
    hide Begins, StoredHeader, ReadBody, SizesThen, FixedLit, FixedDist, Aligned;
    RawGrows([], Aligned(bits), h);
    BodyGrows(p, bits, FixedLit(), FixedDist(), h);
    SizesGrow(p, [], bits, h);
    BeginsOver(h, bits);
  }

  lemma {:induction false} BlocksGrow(p: Port, bits: Bitstring, h: seq<Byte>)
    ensures Begins(h, ReadBlocks(p, bits, h))
    decreases |bits|
  {
    hide ReadBlock, Mark;
    var head := Field(bits, 3);
    if head.Got? {
      var body := ReadBlock(p, head.value / 2, head.rest, h);
      BlockGrows(p, head.value / 2, head.rest, h);
      if body.Got? && head.value % 2 == 0 {
        BlocksGrow(p, body.rest, body.value.out);
        BeginsTrans(h, body.value.out, body.value.taken, ReadBlocks(p, body.rest, body.value.out));
      }
    }
  }

  lemma {:induction false} TrailingKeeps(n: nat, check: nat, bits: Bitstring, t: Text)
    ensures var r := Trailing(n, check, bits, t); r.Got? ==> r.value.out == t.out
    decreases n
  {
    hide Field, Wrap32;
    var x := Field(bits, 8);
    if n > 0 && x.Got? {
      TrailingKeeps(n - 1, Wrap32(check * 256 + x.value), x.rest, t);
    }
  }

  lemma ContGrows(p: Port, final: bool, r: Read<Text>, h: seq<Byte>)
    requires Begins(h, r)
    ensures Begins(h, Cont(p, final, r))
  {
    hide ReadBlocks, Mark;
    if r.Got? && !final {
      BlocksGrow(p, r.rest, r.value.out);
      BeginsTrans(h, r.value.out, r.value.taken, ReadBlocks(p, r.rest, r.value.out));
    }
  }

  lemma {:induction false} WrapGrows(p: Port, hdr: seq<nat>, bits: Bitstring, h: seq<Byte>)
    requires |hdr| <= 2
    ensures Begins(h, WrapThen(p, hdr, bits, h))
    decreases 2 - |hdr|
  {
    hide ReadBlocks, Field, GoodCheck, BadWindow, WindowTaken;
    if |hdr| == 2 {
      BlocksGrow(p, bits, h);
    } else {
      var x := Field(bits, 8);
      if x.Got? { WrapGrows(p, hdr + [x.value], x.rest, h); }
    }
  }

  lemma CopyThenGrows(p: Port, lit: seq<nat>, dst: seq<nat>, len: nat, d: nat, bits: Bitstring, h: seq<Byte>)
    ensures var r := CopyThen(p, lit, dst, len, d, bits, h); Begins(h, r) && (r.Got? ==> |r.value.out| >= |h| + len)
  {
    hide ReadBody;
    BodyGrows(p, bits, lit, dst, CopyOut(p.room, h, len, d));
  }

  lemma DistanceGrows(p: Port, lit: seq<nat>, dst: seq<nat>, len: nat, bits: Bitstring, h: seq<Byte>)
    ensures Begins(h, DistanceThen(p, lit, dst, len, bits, h))
  {
    hide CopyThen, ReadDistance;
    var d := ReadDistance(bits, dst);
    if d.Got? { CopyThenGrows(p, lit, dst, len, d.value.dist, d.rest, h); }
  }

  lemma InBlockGrows(p: Port, s: Stage, bits: Bitstring, h: seq<Byte>)
    requires ValidStage(s)
    ensures var r := InBlock(p, s, bits, h); Begins(h, r) && (r.Got? && Hungry(s) ==> |h| < |r.value.out|)
  {
    hide StoredHeader, SizesThen, LengthsThen, ReadBody, CopyThen, DistanceThen, Field, CodeLengthCode, Acceptable, BytesOf, Repeats;
    match s
    case AtRawHeader(raw) => RawGrows(raw, bits, h);
    case AtSizes(sizes) => SizesGrow(p, sizes, bits, h);
    case AtCodeLens(numLit, numDist, n, i, code) =>
      var c := CodeLengthCode(bits, n, i, code);
      if c.Got? { LensGrow(p, numLit, numDist, c.value, [], c.rest, h); }
    case AtLengths(numLit, numDist, code, acc) => LensGrow(p, numLit, numDist, code, acc, bits, h);
    case AtRepeat(numLit, numDist, code, acc, sym) =>
      var x := Field(bits, ExtraBits(sym));
      if x.Got? { LensGrow(p, numLit, numDist, code, acc + Repeats(acc, sym, x.value), x.rest, h); }
    case AtSymbol(lit, dst) => BodyGrows(p, bits, lit, dst, h);
    case AtLiteral(lit, dst, b) => BodyGrows(p, bits, lit, dst, h + [b]);
    case AtLengthBits(lit, dst, base, extra) =>
      var x := Field(bits, extra);
      if x.Got? { DistanceGrows(p, lit, dst, base + x.value, x.rest, h); }
    case AtDistance(lit, dst, len) => DistanceGrows(p, lit, dst, len, bits, h);
    case AtDistBits(lit, dst, len, base, extra) =>
      var x := Field(bits, extra);
      if x.Got? { CopyThenGrows(p, lit, dst, len, base + x.value, x.rest, h); }
    case AtCopy(lit, dst, len, dist) => CopyThenGrows(p, lit, dst, len, dist, bits, h);
    case _ =>
  }

  /** What the blocks give from a stage on begins with the output so far. */
  lemma BlocksFrom(p: Port, s: Stage, final: bool, bits: Bitstring, h: seq<Byte>)
    requires ValidStage(s) && !s.AtTrailer?
    ensures var r := Expected(p, s, final, bits, h); Begins(h, r) && (r.Got? && Hungry(s) ==> |h| < |r.value.out|)
  {
    hide ReadBlocks, WrapThen, InBlock, Cont;
    if s.AtWrap? {
      WrapGrows(p, s.hdr, bits, h);
    } else if s.AtHead? {
      BlocksGrow(p, bits, h);
    } else {
      var r := InBlock(p, s, bits, h);
      InBlockGrows(p, s, bits, h);
      ContGrows(p, final, r, h);
      ContLong(p, final, r);
    }
  }

  lemma ContLong(p: Port, final: bool, r: Read<Text>)
    ensures var c := Cont(p, final, r); c.Got? ==> r.Got? && |c.value.out| >= |r.value.out|
  {
    if r.Got? { ContGrows(p, final, r, r.value.out); }
  }

  /** The output so far is the beginning of what the stream stands for; when a byte is to be put out
      next, it is not yet all of it. */
  lemma WholeGrows(p: Port, s: Stage, final: bool, bits: Bitstring, h: seq<Byte>)
    requires ValidStage(s)
    ensures var w := Whole(p, s, final, bits, h); w.Got? ==> h <= w.value.out && (Hungry(s) ==> |h| < |w.value.out|)
  {
    hide Expected, Trailing, Aligned;
    if s.AtTrailer? {
      TrailingKeeps(s.n, s.check, bits, Text(h, {}));
    } else {
      BlocksFrom(p, s, final, bits, h);
      var r := Expected(p, s, final, bits, h);
      if r.Got? { TrailingKeeps(TrailerSize(p.zlib), 1, Aligned(r.rest), r.value); }
    }
  }
}
