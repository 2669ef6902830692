/** The inflater, `tinfl_decompress`, as the state machine that it is: it can be suspended wherever it
    reads or writes, and goes on from there in the next call. */
module Inflater {
  import opened Bits
  import opened Canonical
  import opened Tokens
  import opened InflateSpec
  import opened CodeLengthRle
  import opened Gaps
  import opened InflateReads
  import opened InflateSteps
  import opened MatchCopy
  import opened OutputBuffer
  import R = BitReader
  import DT = DecodeTable
  import Adler32
  import opened FixedCode

  /** The output buffer with its cursor. */
  class Output {
    const buf: array<Byte>
    const wraps: bool            // TINFL_FLAG_USING_NON_WRAPPING_OUTPUT_BUF is not set
    var o: nat                   // pOut_buf_cur
    ghost var h: seq<Byte>       // the whole output
    ghost const init: seq<Byte>  // what the buffer held before

    ghost function Space(): Room { Room(wraps, init) }

    ghost predicate Valid()
      reads this, buf
    {
      Held(buf[..], Space(), h, o) && o <= buf.Length
    }

    constructor (buf: array<Byte>, wraps: bool)
      requires wraps ==> buf.Length > 0
      ensures Valid() && this.buf == buf && this.wraps == wraps && init == buf[..] && h == [] && o == 0
    {
      this.buf, this.wraps, this.init, o, h := buf, wraps, buf[..], 0, [];
      new;
      HeldStart(Space());
    }

    lemma SameSize()
      requires Valid()
      ensures |init| == buf.Length
    {
      hide HoldsOut;
    }

    /** A ring starts over when the caller has taken everything. */
    method Restart()
      requires Valid()
      modifies this`o
      ensures Valid() && (wraps ==> o < buf.Length)
    {
      hide Held;
      HeldCursor(buf[..], Space(), h, o);
      if wraps && o == buf.Length {
        HeldTurn(buf[..], Space(), h, o);
        o := 0;
      }
    }

    method Put(c: Byte)
      requires Valid() && o < buf.Length
      modifies this`o, this`h, buf
      ensures Valid() && o == old(o) + 1 && h == old(h) + [c]
    {
      hide Held;
      HeldPut(buf[..], Space(), h, o, c);
      ghost var was := buf[..];
      buf[o] := c;
      assert buf[..] == was[o := c];
      o := o + 1;
      h := h + [c];
    }

    /** A match that does not reach the end of the buffer. */
    method CopyMatchRun(counter: nat, dist: nat, src: nat)
      requires Valid() && src == Source(o, dist, buf.Length, wraps) && o + counter <= buf.Length && src + counter <= buf.Length
      requires !wraps ==> dist <= o
      modifies this`o, this`h, buf
      ensures Valid() && o == old(o) + counter && |h| == |old(h)| + counter && old(h) <= h
      ensures !Beyond(Space(), dist) ==> h == CopyOut(Space(), old(h), counter, dist)
    {
      hide Held, CopyOut, Copied, Progress, Beyond, Source;
      if counter == 0 {
        NoneOut(Space(), h, dist);
        return;
      }
      ghost var was := buf[..];
      CopyRun(buf, o, src, counter, dist);
      RunHeld(was, buf[..], Space(), h, o, src, counter, dist);
      h := h + buf[o..o + counter];
      assert buf[..][o..o + counter] == buf[o..o + counter];
      o := o + counter;
    }
  }

  lemma StartRest(r: R.Reader)
    requires r.Valid() && r.decoded == 0
    ensures r.Rest() == ByteBits(r.whole)
  {
    hide ByteBits, R.LookAhead;
  }

  // ---------- the machine

  /** Where the inflater stands: `m_state`, by what it waits for. */
  datatype Point =
    | ZlibHeader | Head | RawHeader | RawBits | RawByte | RawRun | Fixed | Sizes | CodeLens | LengthSym | LengthRepeat
    | BodySym | BodyLiteral | MatchLength | MatchDist | MatchDistBits | MatchCopying | Trailer | Finished | Broken

  /** What a step leads to. */
  datatype Outcome = Go | NeedInput | NeedRoom | Stop

  /** `tinfl_status`. */
  datatype Result = Done | Mismatch | HasMoreOutput | NeedsMoreInput | CannotProgress | Failed | BadParam

  /** The variables of `tinfl_decompress` that live on in `tinfl_decompressor` between two calls. */
  datatype Registers = Registers(
    state: Point,
    final: bool,        // m_final & 1
    counter: nat,
    dist: nat,
    numExtra: nat,
    from: nat,          // m_dist_from_out_buf_start
    header: seq<nat>,   // m_zhdr0, m_zhdr1; the bytes of m_raw_header; m_table_sizes
    trailer: nat        // m_z_adler32
  )

  // ---------- what the registers say, as a stage of the stream

  /** Where no table is needed. */
  predicate Plain(r: Registers, s: Stage, numBits: nat, goal: Read<Unpacked>) {
    match r.state
    case ZlibHeader => s == AtWrap(r.header) && |r.header| < 2 && numBits == 0 && SmallLens(r.header, 255) && r.trailer == 1
    case Head => s == AtHead && r.trailer == 1
    case RawHeader => s == AtRawHeader(r.header) && |r.header| < 4 && numBits % 8 == 0 && SmallLens(r.header, 255) && r.trailer == 1
    case RawBits => s == AtRaw(r.counter) && numBits % 8 == 0 && r.trailer == 1
    case RawByte => r.counter > 0 && r.dist < 256 && s == AtRawByte(r.counter - 1, r.dist) && numBits % 8 == 0 && r.trailer == 1
    case RawRun => s == AtRaw(r.counter) && (r.counter > 0 ==> numBits == 0) && r.trailer == 1
    case Fixed => s == AtSymbol(FixedLit(), FixedDist()) && r.trailer == 1
    case Sizes => s == AtSizes(r.header) && |r.header| <= 3 && SmallSizes(r.header) && r.trailer == 1
    case Trailer => r.counter < 4 && s == AtTrailer(4 - r.counter, r.trailer) && numBits % 8 == 0 && (Gapless(goal) ==> numBits == 0)
    case Finished => s == AtTrailer(0, r.trailer) && numBits % 8 == 0 && (Gapless(goal) ==> numBits == 0)
    case Broken => goal.Bad? && ValidStage(s)
    case _ => false
  }

  /** Where the code lengths are read. */
  predicate InLens(r: Registers, s: Stage, codeSize: seq<nat>, code: seq<nat>, lenCodes: seq<nat>) {
    && |r.header| == 3 && SmallSizes(r.header) && r.trailer == 1 && |codeSize| == 19
    && match r.state
       case CodeLens =>
         r.counter <= r.header[2] && SmallLens(codeSize, 7) && s == AtCodeLens(r.header[0], r.header[1], r.header[2], r.counter, codeSize)
       case LengthSym => Packing(r, code, lenCodes) && s == AtLengths(r.header[0], r.header[1], code, lenCodes[..r.counter])
       case LengthRepeat =>
         && Packing(r, code, lenCodes) && r.counter < r.header[0] + r.header[1] && 16 <= r.dist <= 18 && (r.dist == 16 ==> r.counter > 0) && r.numExtra == ExtraBits(r.dist)
         && s == AtRepeat(r.header[0], r.header[1], code, lenCodes[..r.counter], r.dist)
       case _ => false
  }

  /** The lengths read so far. */
  predicate Packing(r: Registers, code: seq<nat>, lenCodes: seq<nat>)
    requires |r.header| == 3 && SmallSizes(r.header)
  {
    |code| == 19 && |lenCodes| == 457 && r.counter <= 457 && SmallLens(lenCodes[..r.counter], 15)
  }

  predicate LensState(p: Point) { p == CodeLens || p == LengthSym || p == LengthRepeat }

  predicate BodyState(p: Point) {
    p == BodySym || p == BodyLiteral || p == MatchLength || p == MatchDist || p == MatchDistBits || p == MatchCopying
  }

  /** Where a block's body is read. */
  predicate InBody(r: Registers, s: Stage, lit: seq<nat>, dst: seq<nat>) {
    && |lit| <= 288 && |dst| <= 32 && r.trailer == 1
    && match r.state
       case BodySym => s == AtSymbol(lit, dst)
       case BodyLiteral => r.counter < 256 && s == AtLiteral(lit, dst, r.counter)
       case MatchLength => 1 <= r.numExtra <= 5 && s == AtLengthBits(lit, dst, r.counter, r.numExtra)
       case MatchDist => s == AtDistance(lit, dst, r.counter)
       case MatchDistBits =>
         1 <= r.numExtra <= 13 && s == AtDistBits(lit, dst, r.counter, r.dist, r.numExtra)
       case MatchCopying => s == AtCopy(lit, dst, r.counter, r.dist)
       case _ => false
  }

  /** The copy in progress knows where it is in the output. */
  predicate Following(r: Registers, n: nat, size: nat, wraps: bool) {
    r.state == MatchCopying ==> if wraps then size > 0 && n % size == r.from % size else n == r.from && r.dist <= r.from
  }

  /** Every step uses bits, or fills the output, or goes to a state of a lower rank. */
  function Rank(r: Registers): nat {
    match r.state
    case Sizes => 2500
    case CodeLens => 2000
    case Fixed => 1500
    case LengthSym => if r.counter <= 457 then 1500 - r.counter else 1000
    case MatchDist => 900
    case MatchDistBits => 800
    case MatchCopying => 700
    case RawBits => 700
    case RawRun => 600
    case BodySym => 500
    case BodyLiteral => 400
    case RawByte => 400
    case _ => 300
  }

  class Inflater {
    const reader: R.Reader
    const out: Output
    const lit: DT.Table
    const dst: DT.Table
    const len: DT.Table
    const lenCodes: array<nat>   // m_len_codes
    const zlib: bool             // TINFL_FLAG_PARSE_ZLIB_HEADER
    ghost const goal: Read<Unpacked>  // what the stream stands for
    var regs: Registers
    var check: nat               // m_check_adler32
    ghost var stage: Stage
    ghost var lost: bool         // a call failed for want of input, and its output is not in the checksum

    ghost function Setting(): Port { Port(zlib, out.Space()) }

    /** What the stream stands for is what is expected from here. */
    ghost predicate Tracks(s: Stage, final: bool)
      reads reader, out`h
    {
      reader.Valid() && ValidStage(s) && Agrees(Whole(Setting(), s, final, reader.Rest(), out.h), goal)
    }

    /** With `pos` bytes taken in by this call, less than a byte of look-ahead is from earlier calls,
        unless a read is waiting for more than there is. */
    ghost predicate Lean(r: Registers, pos: nat)
      reads reader`numBits, reader`filling
    {
      Gapless(goal) ==> reader.numBits < 8 + 8 * pos || reader.filling || (r.state == MatchDistBits && reader.numBits < r.numExtra)
    }

    /** What every step keeps. */
    twostate predicate Stepped(r: Registers, r': Registers, s': Stage, o: Outcome)
      reads reader, out
    {
      && reader.whole == old(reader.whole) && reader.base == old(reader.base) && reader.input == old(reader.input)
      && reader.decoded >= old(reader.decoded) && out.o >= old(out.o)
      && old(out.h) <= out.h && |out.h| - |old(out.h)| == out.o - old(out.o)
      && match o
         case Go => reader.decoded > old(reader.decoded) || out.o > old(out.o) || Rank(r') < Rank(r)
         case NeedInput => reader.pos == |reader.input| && Lean(r', 0) && (reader.base + |reader.input| == |reader.whole| ==> goal.Bad?)
         case NeedRoom => out.o == out.buf.Length && Hungry(s')
         case Stop => r'.state == Finished || r'.state == Broken
    }

    /** A step where no table is needed, and none is looked at. */
    ghost predicate AtPlain(r: Registers, s: Stage)
      reads reader, out`h
    {
      Tracks(s, r.final) && Lean(r, reader.pos) && !reader.filling && Plain(r, s, reader.numBits, goal)
    }

    ghost predicate AtLens(r: Registers, s: Stage)
      requires Shape()
      reads reader, out`h, len, len.lookUp, len.tree, len.codeSize, lenCodes
    {
      && Tracks(s, r.final) && Lean(r, reader.pos) && InLens(r, s, len.codeSize[..19], len.lens, lenCodes[..])
      && (r.state != CodeLens ==> len.Valid()) && Waiting(r.state == LengthSym && r.counter < r.header[0] + r.header[1], len.lens)
    }

    ghost predicate AtBody(r: Registers, s: Stage)
      reads reader, out, lit, lit.lookUp, lit.tree, dst, dst.lookUp, dst.tree
    {
      && Tracks(s, r.final) && Lean(r, reader.pos) && InBody(r, s, lit.lens, dst.lens) && lit.Valid() && dst.Valid()
      && Following(r, |out.h|, out.buf.Length, out.wraps)
      && Waiting(r.state == BodySym || r.state == MatchDist, if r.state == BodySym then lit.lens else dst.lens)
    }

    /** A fill is suspended only where a symbol is read, and for one that is longer than the buffer. */
    ghost predicate Waiting(symbol: bool, lens: seq<nat>)
      requires reader.Valid()
      reads reader
    {
      reader.filling ==> symbol && reader.numBits < MAX_LEN && reader.Short(lens)
    }

    ghost predicate Shape() {
      && lit.Shape() && dst.Shape() && len.Shape() && lenCodes.Length == 457
      && lit != dst && lit != len && dst != len
      && lit.lookUp != dst.lookUp && lit.lookUp != len.lookUp && dst.lookUp != len.lookUp
      && lit.tree != dst.tree && lit.tree != len.tree && dst.tree != len.tree
      && lit.lookUp != dst.tree && lit.lookUp != len.tree && dst.lookUp != lit.tree && dst.lookUp != len.tree
      && len.lookUp != lit.tree && len.lookUp != dst.tree
      && lit.codeSize != dst.codeSize && lit.codeSize != len.codeSize && dst.codeSize != len.codeSize
      && lenCodes != lit.codeSize && lenCodes != dst.codeSize && lenCodes != len.codeSize
    }

    ghost predicate Valid()
      reads this, lit, lit.lookUp, lit.tree, dst, dst.lookUp, dst.tree, len, len.lookUp, len.tree, len.codeSize, lenCodes, reader, out, out.buf
    {
      Shape() && out.Valid() && (AtPlain(regs, stage) || AtLens(regs, stage) || AtBody(regs, stage))
    }

    constructor (whole: seq<Byte>, buf: array<Byte>, wraps: bool, zlib: bool)
      requires wraps ==> buf.Length > 0
      ensures Valid() && Lean(regs, 0) && reader.whole == whole && reader.base == 0 && reader.input == [] && out.h == []
      ensures out.buf == buf && out.wraps == wraps && goal == StandsFor(Port(zlib, Room(wraps, buf[..])), ByteBits(whole)) && this.zlib == zlib && check == 1 && !lost
      ensures regs.state != Finished && regs.state != Broken && out.o == 0 && reader.pos == 0
      ensures fresh(reader) && fresh(out) && fresh(lit) && fresh(lit.lookUp) && fresh(lit.tree) && fresh(lit.codeSize)
      ensures fresh(dst) && fresh(dst.lookUp) && fresh(dst.tree) && fresh(dst.codeSize)
      ensures fresh(len) && fresh(len.lookUp) && fresh(len.tree) && fresh(len.codeSize) && fresh(lenCodes)
    {
      hide R.LookAhead, Held, ByteBits, StandsFor, Plain, Tracks, AtPlain, AtLens, AtBody, Lean, R.Reader.Valid, R.Reader.Rest, Output.Valid,
        R.Reader.Short, DT.TableInv, DT.Table.Valid;
      reader := new R.Reader(whole);
      out := new Output(buf, wraps);
      lit := new DT.Table();
      dst := new DT.Table();
      len := new DT.Table();
      lenCodes := new nat[457](_ => 0);
      this.zlib := zlib;
      regs := Registers(if zlib then ZlibHeader else Head, false, 0, 0, 0, 0, [], 1);
      stage := if zlib then AtWrap([]) else AtHead;
      goal := StandsFor(Port(zlib, Room(wraps, buf[..])), ByteBits(whole));
      check, lost := 1, false;
      new;
      AtStart();
    }

    /** Before the first bit is read everything is still to come. */
    lemma AtStart()
      requires reader.Valid() && reader.decoded == 0 && reader.numBits == 0 && !reader.filling && reader.pos == 0 && out.h == []
      requires regs == Registers(if zlib then ZlibHeader else Head, false, 0, 0, 0, 0, [], 1)
      requires stage == (if zlib then AtWrap([]) else AtHead) && goal == StandsFor(Setting(), ByteBits(reader.whole))
      ensures AtPlain(regs, stage) && Lean(regs, 0)
    {
      hide Agrees, Whole, ByteBits, StandsFor, AtPlain, R.Reader.Valid, R.Reader.Rest;
      StandsAtStart(Setting(), false, ByteBits(reader.whole));
      StartRest(reader);
      AgreesItself(goal);
      IntoPlain(regs, stage);
    }

    lemma IntoPlain(r: Registers, s: Stage)
      requires Tracks(s, r.final) && Lean(r, reader.pos) && !reader.filling && Plain(r, s, reader.numBits, goal)
      ensures AtPlain(r, s)
    {
      hide Tracks, Lean, Plain;
    }

    lemma PlainFacts(r: Registers, s: Stage)
      requires AtPlain(r, s)
      ensures Tracks(s, r.final) && Lean(r, reader.pos) && !reader.filling && Plain(r, s, reader.numBits, goal) && reader.Valid()
    {
      hide Lean, Plain, R.Reader.Valid;
    }

    lemma IntoLens(r: Registers, s: Stage)
      requires Shape() && Tracks(s, r.final) && Lean(r, reader.pos) && InLens(r, s, len.codeSize[..19], len.lens, lenCodes[..])
      requires (r.state != CodeLens ==> len.Valid()) && reader.Valid()
      requires Waiting(r.state == LengthSym && r.counter < r.header[0] + r.header[1], len.lens)
      ensures AtLens(r, s)
    {
      hide Tracks, Lean, InLens, DT.Table.Valid, Waiting, R.Reader.Valid;
    }

    lemma LensFacts(r: Registers, s: Stage)
      requires Shape() && AtLens(r, s)
      ensures Tracks(s, r.final) && Lean(r, reader.pos) && InLens(r, s, len.codeSize[..19], len.lens, lenCodes[..]) && reader.Valid()
      ensures r.state != CodeLens ==> len.Valid()
      ensures Waiting(r.state == LengthSym && r.counter < r.header[0] + r.header[1], len.lens)
    {
      hide Lean, InLens, DT.Table.Valid, Waiting, R.Reader.Valid;
    }

    lemma IntoBody(r: Registers, s: Stage)
      requires Tracks(s, r.final) && Lean(r, reader.pos) && InBody(r, s, lit.lens, dst.lens) && lit.Valid() && dst.Valid()
      requires Following(r, |out.h|, out.buf.Length, out.wraps) && reader.Valid()
      requires Waiting(r.state == BodySym || r.state == MatchDist, if r.state == BodySym then lit.lens else dst.lens)
      ensures AtBody(r, s)
    {
      hide Tracks, Lean, InBody, DT.Table.Valid, Waiting, Following, R.Reader.Valid;
    }

    lemma BodyFacts(r: Registers, s: Stage)
      requires AtBody(r, s)
      ensures Tracks(s, r.final) && Lean(r, reader.pos) && InBody(r, s, lit.lens, dst.lens) && lit.Valid() && dst.Valid()
      ensures Following(r, |out.h|, out.buf.Length, out.wraps) && reader.Valid()
      ensures Waiting(r.state == BodySym || r.state == MatchDist, if r.state == BodySym then lit.lens else dst.lens)
    {
      hide Lean, InBody, DT.Table.Valid, Waiting, Following, R.Reader.Valid;
    }

    // ---------- headers

    method StepZlibHeader(r: Registers, ghost s: Stage) returns (r': Registers, ghost s': Stage, o: Outcome)
      requires AtPlain(r, s) && r.state == ZlibHeader && |out.init| == out.buf.Length
      modifies reader
      ensures Stepped(r, r', s', o) && AtPlain(r', s')
    {
      hide R.LookAhead, Whole, Field, ByteBits, Wrap32, BadWrap, GoodCheck, BadWindow, WindowTaken, MarkAll;
      WrapGo(Setting(), r.header, r.final, reader.Rest(), out.h);
      var ok, c := reader.GetByte();
      if !ok { return r, s, NeedInput; }
      var header := r.header + [c];
      r', s', o := r.(header := header), AtWrap(header), Go;
      if |header| == 2 {
        WrapDone(Setting(), header, r.final, reader.Rest(), out.h);
        GoodIs(header[0], header[1]);
        if BadWrap(header[0], header[1]) || (out.wraps && BadWindow(header[0], out.buf.Length)) {
          r', o := r'.(state := Broken), Stop;
        } else {
          AgreesMark(WindowTaken(header[0]), Whole(Setting(), AtHead, r.final, reader.Rest(), out.h), goal);
          r', s' := r'.(state := Head), AtHead;
        }
      }
    }

    method StepHead(r: Registers, ghost s: Stage) returns (r': Registers, ghost s': Stage, o: Outcome)
      requires AtPlain(r, s) && r.state == Head
      modifies reader
      ensures Stepped(r, r', s', o) && AtPlain(r', s')
    {
      hide R.LookAhead, Whole, Field, ByteBits, Wrap32, Aligned, FixedLit, FixedDist, Rank, Hungry, Pow2, R.Reader.Valid, R.Reader.Rest;
      HeadGo(Setting(), r.final, reader.Rest(), out.h);
      var ok, v := reader.GetBits(3);
      if !ok { return r, s, NeedInput; }
      ThreeBits(v);
      r', o := r.(final := v % 2 == 1), Go;
      if v / 2 == 3 {
        FaultGo(Setting(), r'.final, reader.Rest(), out.h);
        return r'.(state := Broken), AtFault, Stop;
      }
      if v / 2 == 1 { return r'.(state := Fixed), AtSymbol(FixedLit(), FixedDist()), Go; }
      if v / 2 == 2 { return r'.(state := Sizes, header := []), AtSizes([]), Go; }
      reader.SkipToByte();
      r', s' := r'.(state := RawHeader, header := []), AtRawHeader([]);
    }

    /** Behind a block: the next one, or the end. What was looked ahead of the end is put back. */
    method AfterBlock(r: Registers) returns (r': Registers, ghost s': Stage)
      requires reader.Valid() && !reader.filling && r.trailer == 1
      requires Agrees(Ended(Setting(), Cont(Setting(), r.final, Got(Text(out.h, {}), reader.Rest()))), goal)
      requires Gapless(goal) ==> reader.numBits < 8 + 8 * reader.pos
      modifies reader
      ensures AtPlain(r', s') && (r'.state == Head || r'.state == Trailer || r'.state == Finished)
      ensures reader.whole == old(reader.whole) && reader.base == old(reader.base) && reader.input == old(reader.input)
      ensures reader.decoded >= old(reader.decoded)
    {
      hide Agrees, R.LookAhead, Whole, Ended, Cont, ReadBlocks, ByteBits, Wrap32, Aligned, AtPlain, R.Reader.Rest, R.Reader.Valid;
      BlockGo(Setting(), r.final, reader.Rest(), out.h);
      if r.final {
        reader.SkipToByte();
        reader.PutBack();
        r' := r.(state := if zlib then Trailer else Finished, counter := 0);
        s' := AtTrailer(TrailerSize(zlib), 1);
      } else {
        r', s' := r.(state := Head), AtHead;
      }
      IntoPlain(r', s');
    }

    method StepRawHeader(r: Registers, ghost s: Stage) returns (r': Registers, ghost s': Stage, o: Outcome)
      requires AtPlain(r, s) && r.state == RawHeader
      modifies reader
      ensures Stepped(r, r', s', o) && AtPlain(r', s')
    {
      hide R.LookAhead, Whole, Field, ByteBits, Wrap32;
      RawHeaderGo(Setting(), r.header, r.final, reader.Rest(), out.h);
      var ok, c := NextByte();
      if !ok { return r, s, NeedInput; }
      var raw := r.header + [c];
      r', s', o := r.(header := raw), AtRawHeader(raw), Go;
      if |raw| == 4 {
        RawHeaderDone(Setting(), raw, r.final, reader.Rest(), out.h);
        var counter := raw[0] + 256 * raw[1];
        if counter != 0xFFFF - (raw[2] + 256 * raw[3]) {
          r', o := r'.(state := Broken), Stop;
        } else {
          r', s' := r'.(state := RawBits, counter := counter), AtRaw(counter);
        }
      }
    }

    /** A byte, out of the bit buffer or out of the input. */
    method NextByte() returns (ok: bool, c: nat)
      requires reader.Valid() && !reader.filling && reader.numBits % 8 == 0
      modifies reader
      ensures reader.Valid() && !reader.filling && reader.numBits % 8 == 0
      ensures ok ==> Field(old(reader.Rest()), 8) == Got(c, reader.Rest()) && c < 256 && reader.decoded == old(reader.decoded) + 8
      ensures ok ==> reader.numBits - 8 * reader.pos <= old(reader.numBits - 8 * reader.pos) && (old(reader.numBits) == 0 ==> reader.numBits == 0)
      ensures !ok ==> reader.pos == |reader.input| && reader.numBits == 0 && reader.decoded == old(reader.decoded) && reader.Rest() == old(reader.Rest())
      ensures !ok && reader.base + |reader.input| == |reader.whole| ==> Field(reader.Rest(), 8).Bad?
      ensures reader.whole == old(reader.whole) && reader.base == old(reader.base) && reader.input == old(reader.input)
    {
      hide R.LookAhead, Field, ByteBits;
      if reader.numBits > 0 {
        ok, c := reader.GetBits(8);
        EightIs();
      } else {
        ok, c := reader.GetByte();
      }
    }

    /** Stored bytes that were looked ahead come out of the bit buffer. */
    method StepRawBits(r: Registers, ghost s: Stage) returns (r': Registers, ghost s': Stage, o: Outcome)
      requires AtPlain(r, s) && r.state == RawBits
      modifies reader
      ensures Stepped(r, r', s', o) && AtPlain(r', s')
    {
      hide R.LookAhead, Whole, Field, ByteBits, Wrap32, Pow2, R.Reader.Rest;
      if r.counter == 0 || reader.numBits == 0 { return r.(state := RawRun), s, Go; }
      RawGo(Setting(), r.counter, r.final, reader.Rest(), out.h);
      var ok, c := reader.GetBits(8);
      if !ok { return r, s, NeedInput; }
      EightIs();
      r', s', o := r.(state := RawByte, dist := c), AtRawByte(r.counter - 1, c), Go;
    }

    method StepRawByte(r: Registers, ghost s: Stage) returns (r': Registers, ghost s': Stage, o: Outcome)
      requires AtPlain(r, s) && r.state == RawByte && out.Valid()
      modifies out, out.buf
      ensures Stepped(r, r', s', o) && AtPlain(r', s') && out.Valid()
    {
      hide Agrees, R.LookAhead, Whole, ByteBits, Wrap32, Held, R.Reader.Rest, R.Reader.Valid;
      if out.o >= out.buf.Length { return r, s, NeedRoom; }
      RawByteGo(Setting(), r.counter - 1, r.dist, r.final, reader.Rest(), out.h);
      out.Put(r.dist);
      r', s', o := r.(state := RawBits, counter := r.counter - 1), AtRaw(r.counter - 1), Go;
    }

    /** The other stored bytes are copied, as many at once as there are and as there is room for. */
    method StepRawRun(r: Registers, ghost s: Stage) returns (r': Registers, ghost s': Stage, o: Outcome)
      requires AtPlain(r, s) && r.state == RawRun && out.Valid()
      modifies reader, out, out.buf
      ensures Stepped(r, r', s', o) && AtPlain(r', s') && out.Valid()
    {
      hide R.LookAhead, Whole, ByteBits, Wrap32, Held, R.Reader.Rest, Ended, Cont, ReadBlocks;
      if r.counter == 0 {
        RawDone(Setting(), r.final, reader.Rest(), out.h);
        r', s' := AfterBlock(r);
        o := Go;
        return;
      }
      if out.o >= out.buf.Length { return r, s, NeedRoom; }
      if reader.pos >= |reader.input| {
        RawGo(Setting(), r.counter, r.final, reader.Rest(), out.h);
        EmptyRest();
        return r, s, NeedInput;
      }
      var n := Min(Min(out.buf.Length - out.o, |reader.input| - reader.pos), r.counter);
      CopyRaw(r, n);
      r', s', o := r.(counter := r.counter - n), AtRaw(r.counter - n), Go;
    }

    lemma EmptyRest()
      requires reader.Valid() && reader.numBits == 0 && reader.pos == |reader.input|
      ensures reader.base + |reader.input| == |reader.whole| ==> Field(reader.Rest(), 8).Bad?
    {
      hide Lsb, Pow2;
    }

    method CopyRaw(r: Registers, n: nat)
      requires AtPlain(r, AtRaw(r.counter)) && r.state == RawRun && out.Valid()
      requires 0 < n <= r.counter && out.o + n <= out.buf.Length && reader.pos + n <= |reader.input|
      modifies reader, out, out.buf
      ensures AtPlain(r.(counter := r.counter - n), AtRaw(r.counter - n)) && out.Valid()
      ensures out.o == old(out.o) + n && |out.h| == |old(out.h)| + n && old(out.h) <= out.h
      ensures reader.whole == old(reader.whole) && reader.base == old(reader.base) && reader.input == old(reader.input)
      ensures reader.decoded >= old(reader.decoded)
    {
      hide Agrees, R.LookAhead, Whole, ByteBits, Wrap32, Held, R.Reader.Rest, Field;
      var i := 0;
      while i < n
        invariant 0 <= i <= n && AtPlain(r.(counter := r.counter - i), AtRaw(r.counter - i)) && out.Valid()
        invariant out.o == old(out.o) + i && |out.h| == |old(out.h)| + i && old(out.h) <= out.h
        invariant reader.whole == old(reader.whole) && reader.base == old(reader.base) && reader.input == old(reader.input)
        invariant reader.decoded >= old(reader.decoded) && reader.pos == old(reader.pos) + i
      {
        RawGo(Setting(), r.counter - i, r.final, reader.Rest(), out.h);
        var ok, c := reader.GetByte();
        RawByteGo(Setting(), r.counter - i - 1, c, r.final, reader.Rest(), out.h);
        out.Put(c);
        i := i + 1;
      }
    }

    method StepSizes(r: Registers, ghost s: Stage) returns (r': Registers, ghost s': Stage, o: Outcome)
      requires AtPlain(r, s) && r.state == Sizes && |r.header| < 3
      modifies reader
      ensures Stepped(r, r', s', o) && AtPlain(r', s')
    {
      hide R.LookAhead, Whole, Field, ByteBits, Wrap32, Pow2, R.Reader.Rest, R.Reader.Valid;
      SizesGo(Setting(), r.header, r.final, reader.Rest(), out.h);
      var ok, v := reader.GetBits(if |r.header| == 2 then 4 else 5);
      if !ok { return r, s, NeedInput; }
      FiveBits(v, if |r.header| == 2 then 4 else 5);
      var sizes := r.header + [v + MinSize(|r.header|)];
      r', s', o := r.(header := sizes), AtSizes(sizes), Go;
    }

    /** The checksum behind the last block. */
    method StepTrailer(r: Registers, ghost s: Stage) returns (r': Registers, ghost s': Stage, o: Outcome)
      requires AtPlain(r, s) && r.state == Trailer
      modifies reader
      ensures Stepped(r, r', s', o) && AtPlain(r', s')
    {
      hide R.LookAhead, Whole, Field, ByteBits, Wrap32, R.Reader.Rest, R.Reader.Valid;
      TrailerGo(Setting(), 4 - r.counter, r.trailer, r.final, reader.Rest(), out.h);
      var ok, c := NextByte();
      if !ok { return r, s, NeedInput; }
      var check := Wrap32(r.trailer * 256 + c);
      r' := r.(counter := r.counter + 1, trailer := check, state := if r.counter == 3 then Finished else Trailer);
      s', o := AtTrailer(3 - r.counter, check), Go;
    }

    // ---------- the tables of a block

    /** The tables of the body are built, the distances' first. */
    method BuildBody(numLit: nat, numDist: nat) returns (ok: bool)
      requires Shape() && numLit <= 288 && numDist <= 32 && ValidLens(lit.codeSize[..numLit]) && ValidLens(dst.codeSize[..numDist])
      modifies lit, lit.lookUp, lit.tree, dst, dst.lookUp, dst.tree
      ensures ok <==> Acceptable(lit.codeSize[..numLit]) && Acceptable(dst.codeSize[..numDist])
      ensures ok ==> lit.Valid() && dst.Valid() && lit.lens == lit.codeSize[..numLit] && dst.lens == dst.codeSize[..numDist]
    {
      hide DT.TableInv, Acceptable;
      ok := dst.Build(numDist);
      if ok {
        ok := lit.Build(numLit);
      }
    }

    /** The fixed codes. */
    method StepFixed(r: Registers, ghost s: Stage) returns (r': Registers, ghost s': Stage, o: Outcome)
      requires Shape() && AtPlain(r, s) && r.state == Fixed
      modifies lit, lit.lookUp, lit.tree, lit.codeSize, dst, dst.lookUp, dst.tree, dst.codeSize
      ensures Stepped(r, r', s', o) && AtBody(r', s')
    {
      hide Agrees, R.LookAhead, Whole, ByteBits, R.Reader.Rest, R.Reader.Valid, DT.TableInv, Acceptable, FixedLit, FixedDist, R.Reader.Short, AtPlain, AtBody;
      PlainFacts(r, s);
      forall i | 0 <= i < 32 { dst.codeSize[i] := 5; }
      forall i | 0 <= i < 288 { lit.codeSize[i] := FixedSize(i); }
      FixedSizes();
      assert dst.codeSize[..32] == FixedDist();
      assert lit.codeSize[..288] == FixedLit();
      var ok := BuildBody(288, 32);
      r', s', o := r.(state := BodySym), s, Go;
      IntoBody(r', s');
    }

    /** A dynamic header: the lengths of the code length code that are not sent are 0. */
    method StepClear(r: Registers, ghost s: Stage) returns (r': Registers, ghost s': Stage, o: Outcome)
      requires Shape() && AtPlain(r, s) && r.state == Sizes && |r.header| == 3
      modifies len.codeSize
      ensures Stepped(r, r', s', o) && AtLens(r', s')
    {
      hide Agrees, R.LookAhead, Whole, ByteBits, R.Reader.Rest, R.Reader.Valid, DT.TableInv, DT.Table.Valid, R.Reader.Short;
      forall i | 0 <= i < 288 { len.codeSize[i] := 0; }
      SizesDone(Setting(), r.header, r.final, reader.Rest(), out.h);
      assert len.codeSize[..19] == Repeated(0, NUM_LENGTH_SYMBOLS);
      r', o := r.(state := CodeLens, counter := 0), Go;
      s' := AtCodeLens(r.header[0], r.header[1], r.header[2], 0, Repeated(0, NUM_LENGTH_SYMBOLS));
    }

    method StepCodeLens(r: Registers, ghost s: Stage) returns (r': Registers, ghost s': Stage, o: Outcome)
      requires Shape() && AtLens(r, s) && r.state == CodeLens && r.counter < r.header[2]
      modifies reader, len.codeSize
      ensures Stepped(r, r', s', o) && AtLens(r', s')
    {
      hide R.LookAhead, Whole, ByteBits, R.Reader.Rest, R.Reader.Valid, DT.TableInv, R.Reader.Short, Field, Pow2, Acceptable;
      var numLit, numDist, n := r.header[0], r.header[1], r.header[2];
      ghost var codeSize := len.codeSize[..19];
      CodeLensGo(Setting(), numLit, numDist, n, r.counter, codeSize, r.final, reader.Rest(), out.h);
      var ok, v := reader.GetBits(3);
      if !ok { return r, s, NeedInput; }
      ThreeBits(v);
      SwizzleRange(r.counter);
      len.codeSize[SWIZZLE[r.counter]] := v;
      assert len.codeSize[..19] == codeSize[SWIZZLE[r.counter] := v];
      r', s', o := r.(counter := r.counter + 1), AtCodeLens(numLit, numDist, n, r.counter + 1, len.codeSize[..19]), Go;
    }

    method StepCodeTable(r: Registers, ghost s: Stage) returns (r': Registers, ghost s': Stage, o: Outcome)
      requires Shape() && AtLens(r, s) && r.state == CodeLens && r.counter == r.header[2]
      modifies len, len.lookUp, len.tree
      ensures Stepped(r, r', s', o) && (AtLens(r', s') || AtPlain(r', s'))
    {
      hide R.LookAhead, Whole, ByteBits, R.Reader.Rest, R.Reader.Valid, DT.TableInv, R.Reader.Short, Field, Pow2, Acceptable;
      var numLit, numDist, n := r.header[0], r.header[1], r.header[2];
      CodeLensDone(Setting(), numLit, numDist, n, len.codeSize[..19], r.final, reader.Rest(), out.h);
      var ok := len.Build(19);
      if !ok { return r.(state := Broken), s, Stop; }
      assert lenCodes[..][..0] == [];
      r', s', o := r.(state := LengthSym, counter := 0), AtLengths(numLit, numDist, len.lens, []), Go;
    }

    lemma LensShape()
      requires Shape()
      ensures lenCodes.Length == 457 && len.codeSize.Length == 288 && lenCodes != len.codeSize && len.Shape()
    {
    }

    method StepLengthSym(r: Registers, ghost s: Stage) returns (r': Registers, ghost s': Stage, o: Outcome)
      requires Shape() && AtLens(r, s) && r.state == LengthSym && r.counter < r.header[0] + r.header[1]
      modifies reader, lenCodes
      ensures Stepped(r, r', s', o) && (AtLens(r', s') || AtPlain(r', s'))
    {
      hide Agrees, Shape, Hungry, R.LookAhead, Whole, ByteBits, R.Reader.Rest, R.Reader.Valid, R.Reader.Short, DT.TableInv, DT.Table.Valid, Acceptable,
        Symbol, AnySymbol, AtPlain, AtLens, OpLeads;
      LensShape();
      LensFacts(r, s);
      ghost var rest := reader.Rest();
      ghost var acc := lenCodes[..][..r.counter];
      OpNeeded(Setting(), r.header[0], r.header[1], len.lens, acc, r.final, rest, out.h, goal);
      var ok, sym := reader.HuffDecode(len);
      if !ok {
        IntoLens(r, s);
        return r, s, NeedInput;
      }
      OpFound(Setting(), r.header[0], r.header[1], len.lens, acc, sym, r.final, rest, reader.Rest(), out.h, goal);
      r', s', o := AfterOp(r, sym);
    }

    /** Behind an operation of the packed lengths: a length, or a repeat. */
    method AfterOp(r: Registers, sym: nat) returns (r': Registers, ghost s': Stage, o: Outcome)
      requires Shape() && len.Valid() && |len.lens| <= 19 && |r.header| == 3 && SmallSizes(r.header) && r.trailer == 1 && |len.codeSize[..19]| == 19
      requires r.state == LengthSym && Packing(r, len.lens, lenCodes[..]) && r.counter < r.header[0] + r.header[1] && sym <= 18
      requires reader.Valid() && !reader.filling && (Gapless(goal) ==> reader.numBits < 8 + 8 * reader.pos)
      requires OpLeads(Setting(), r.header[0], r.header[1], len.lens, lenCodes[..][..r.counter], sym, r.final, reader.Rest(), out.h, goal)
      modifies lenCodes
      ensures AtLens(r', s') || AtPlain(r', s')
      ensures if o == Stop then r'.state == Broken else o == Go && Rank(r') < Rank(r)
    {
      hide Shape, Hungry, R.LookAhead, Whole, ByteBits, R.Reader.Rest, R.Reader.Valid, R.Reader.Short, DT.TableInv, DT.Table.Valid, Acceptable,
        Symbol, AnySymbol, AtPlain, AtLens;
      LensShape();
      var numLit, numDist := r.header[0], r.header[1];
      ghost var acc := lenCodes[..][..r.counter];
      o := Go;
      if sym < 16 {
        lenCodes[r.counter] := sym;
        assert lenCodes[..][..r.counter + 1] == acc + [sym];
        r', s' := r.(counter := r.counter + 1), AtLengths(numLit, numDist, len.lens, acc + [sym]);
        IntoLens(r', s');
      } else if sym == 16 && r.counter == 0 {
        FaultGo(Setting(), r.final, reader.Rest(), out.h);
        r', s', o := r.(state := Broken), AtFault, Stop;
        IntoPlain(r', s');
      } else {
        r', s' := r.(state := LengthRepeat, dist := sym, numExtra := ExtraBits(sym)), AtRepeat(numLit, numDist, len.lens, acc, sym);
        IntoLens(r', s');
      }
    }

    method SetLens(at: nat, n: nat, x: nat)
      requires at + n <= lenCodes.Length && x <= 15 && SmallLens(lenCodes[..][..at], 15)
      modifies lenCodes
      ensures lenCodes[..][..at + n] == old(lenCodes[..][..at]) + Repeated(x, n) && SmallLens(lenCodes[..][..at + n], 15)
    {
      forall i | at <= i < at + n { lenCodes[i] := x; }
    }

    method StepLengthRepeat(r: Registers, ghost s: Stage) returns (r': Registers, ghost s': Stage, o: Outcome)
      requires Shape() && AtLens(r, s) && r.state == LengthRepeat
      modifies reader, lenCodes
      ensures Stepped(r, r', s', o) && AtLens(r', s')
    {
      hide Shape, Hungry, R.LookAhead, Whole, ByteBits, R.Reader.Rest, R.Reader.Valid, DT.TableInv, DT.Table.Valid, Acceptable, Field, Pow2, Repeats, AtLens;
      LensShape();
      LensFacts(r, s);
      var numLit, numDist, sym := r.header[0], r.header[1], r.dist;
      ghost var acc := lenCodes[..][..r.counter];
      RepeatGo(Setting(), numLit, numDist, len.lens, acc, sym, r.final, reader.Rest(), out.h);
      var ok, v := reader.GetBits(r.numExtra);
      if !ok {
        IntoLens(r, s);
        return r, s, NeedInput;
      }
      SevenBits(v, sym);
      r', s', o := PutLens(r, sym, v);
    }

    /** The repeated lengths. */
    method PutLens(r: Registers, sym: nat, v: nat) returns (r': Registers, ghost s': Stage, o: Outcome)
      requires Shape() && len.Valid() && |r.header| == 3 && SmallSizes(r.header) && r.trailer == 1 && |len.codeSize[..19]| == 19
      requires r.state == LengthRepeat && Packing(r, len.lens, lenCodes[..]) && r.counter < r.header[0] + r.header[1]
      requires 16 <= sym <= 18 && v < 128 && (sym < 18 ==> v < 8) && (sym == 16 ==> r.counter > 0)
      requires reader.Valid() && !reader.filling && (Gapless(goal) ==> reader.numBits < 8 + 8 * reader.pos)
      requires RepeatLeads(Setting(), r.header[0], r.header[1], len.lens, lenCodes[..][..r.counter], sym, v, r.final, reader.Rest(), out.h, goal)
      modifies lenCodes
      ensures AtLens(r', s') && o == Go
    {
      hide Agrees, Shape, Hungry, R.LookAhead, Whole, ByteBits, R.Reader.Rest, R.Reader.Valid, DT.TableInv, DT.Table.Valid, Acceptable, Repeats,
        R.Reader.Short, AtLens;
      LensShape();
      ghost var acc := lenCodes[..][..r.counter];
      var n := v + (if sym == 18 then 11 else 3);
      SetLens(r.counter, n, if sym == 16 then lenCodes[r.counter - 1] else 0);
      RepeatsAre(acc, sym, v);
      r' := r.(state := LengthSym, counter := r.counter + n);
      s', o := AtLengths(r.header[0], r.header[1], len.lens, acc + Repeats(acc, sym, v)), Go;
      IntoLens(r', s');
    }

    method CopyLens(numLit: nat, numDist: nat)
      requires Shape() && numLit <= 288 && numDist <= 32 && SmallLens(lenCodes[..][..numLit + numDist], 15)
      modifies lit.codeSize, dst.codeSize
      ensures lit.codeSize[..numLit] == lenCodes[..][..numLit + numDist][..numLit]
      ensures dst.codeSize[..numDist] == lenCodes[..][..numLit + numDist][numLit..]
      ensures ValidLens(lit.codeSize[..numLit]) && ValidLens(dst.codeSize[..numDist])
    {
      forall i | 0 <= i < numLit { lit.codeSize[i] := lenCodes[i]; }
      forall i | 0 <= i < numDist { dst.codeSize[i] := lenCodes[numLit + i]; }
    }

    /** All lengths are read: they go to their tables. */
    method StepLengthsDone(r: Registers, ghost s: Stage) returns (r': Registers, ghost s': Stage, o: Outcome)
      requires Shape() && AtLens(r, s) && r.state == LengthSym && r.counter >= r.header[0] + r.header[1]
      modifies lit, lit.lookUp, lit.tree, lit.codeSize, dst, dst.lookUp, dst.tree, dst.codeSize
      ensures Stepped(r, r', s', o) && (AtBody(r', s') || AtPlain(r', s'))
    {
      hide Shape, Hungry, R.LookAhead, Whole, ByteBits, R.Reader.Rest, R.Reader.Valid, DT.TableInv, R.Reader.Short, Acceptable, AtPlain,
        AtLens, AtBody, DT.Table.Valid;
      LensShape();
      LensFacts(r, s);
      LengthsDone(Setting(), r.header[0], r.header[1], len.lens, lenCodes[..][..r.counter], r.final, reader.Rest(), out.h);
      if r.header[0] + r.header[1] != r.counter {
        r', s', o := r.(state := Broken), s, Stop;
        IntoPlain(r', s');
      } else {
        r', s', o := StartBody(r, s);
      }
    }

    /** The lengths go to their tables, and the tables are built. */
    method StartBody(r: Registers, ghost s: Stage) returns (r': Registers, ghost s': Stage, o: Outcome)
      requires Shape() && r.trailer == 1 && |r.header| == 3 && SmallSizes(r.header) && r.header[0] + r.header[1] == r.counter
      requires SmallLens(lenCodes[..][..r.counter], 15) && r.state == LengthSym && reader.Valid() && !reader.filling && Lean(r, reader.pos) && Tracks(s, r.final)
      requires BodyLeads(Setting(), r.header[0], lenCodes[..][..r.counter], r.final, reader.Rest(), out.h, goal)
      modifies lit, lit.lookUp, lit.tree, lit.codeSize, dst, dst.lookUp, dst.tree, dst.codeSize
      ensures AtBody(r', s') || AtPlain(r', s')
      ensures if o == Stop then r'.state == Broken else o == Go && Rank(r') < Rank(r)
    {
      hide Agrees, Hungry, R.LookAhead, Whole, ByteBits, R.Reader.Rest, R.Reader.Valid, DT.TableInv, R.Reader.Short, Acceptable, AtPlain, AtBody,
        DT.Table.Valid;
      CopyLens(r.header[0], r.header[1]);
      var ok := BuildBody(r.header[0], r.header[1]);
      if ok {
        r', s', o := r.(state := BodySym), AtSymbol(lit.lens, dst.lens), Go;
        IntoBody(r', s');
      } else {
        r', s', o := r.(state := Broken), s, Stop;
        IntoPlain(r', s');
      }
    }

    /** Behind a symbol that is not a literal. */
    method AfterSymbol(r: Registers, sym: nat) returns (r': Registers, ghost s': Stage)
      requires lit.Valid() && dst.Valid() && |dst.lens| <= 32 && END_OF_BLOCK <= sym < |lit.lens| <= 288 && r.trailer == 1
      requires reader.Valid() && !reader.filling && (Gapless(goal) ==> reader.numBits < 8 + 8 * reader.pos)
      requires SymbolLeads(Setting(), lit.lens, dst.lens, sym, r.final, reader.Rest(), out.h, goal)
      modifies reader
      ensures AtPlain(r', s') || AtBody(r', s')
      ensures reader.whole == old(reader.whole) && reader.base == old(reader.base) && reader.input == old(reader.input)
      ensures reader.decoded >= old(reader.decoded)
    {
      hide Agrees, R.LookAhead, Whole, ByteBits, R.Reader.Rest, R.Reader.Valid, R.Reader.Short, DT.TableInv, Ended, Cont;
      if sym == END_OF_BLOCK {
        r', s' := AfterBlock(r);
      } else {
        s' := AfterLengthSym(lit.lens, dst.lens, sym);
        r' := r.(counter := LengthBase(sym), numExtra := LengthExtra(sym));
        r' := r'.(state := if LengthExtra(sym) > 0 then MatchLength else MatchDist);
      }
    }

    /** The next symbol, when there is little input or room. */
    method StepBodySym(r: Registers, ghost s: Stage) returns (r': Registers, ghost s': Stage, o: Outcome)
      requires AtBody(r, s) && r.state == BodySym
      modifies reader
      ensures Stepped(r, r', s', o) && (AtPlain(r', s') || AtBody(r', s'))
    {
      hide Agrees, Hungry, R.LookAhead, Whole, ByteBits, R.Reader.Rest, R.Reader.Valid, R.Reader.Short, DT.TableInv, SymbolLeads, Symbol, AnySymbol;
      ghost var rest := reader.Rest();
      var ok, sym := reader.HuffDecode(lit);
      SymbolNeeded(Setting(), lit.lens, dst.lens, r.final, rest, out.h, goal);
      if !ok { return r, s, NeedInput; }
      SymbolFound(Setting(), lit.lens, dst.lens, sym, r.final, rest, reader.Rest(), out.h, goal);
      if sym < END_OF_BLOCK {
        LiteralLeads(lit.lens, dst.lens, sym, r.final);
        return r.(state := BodyLiteral, counter := sym), AtLiteral(lit.lens, dst.lens, sym), Go;
      }
      r', s' := AfterSymbol(r, sym);
      o := Go;
    }

    lemma LiteralLeads(lit: seq<nat>, dst: seq<nat>, sym: nat, final: bool)
      requires reader.Valid() && sym < END_OF_BLOCK && SymbolLeads(Setting(), lit, dst, sym, final, reader.Rest(), out.h, goal)
      ensures Agrees(Whole(Setting(), AtLiteral(lit, dst, sym), final, reader.Rest(), out.h), goal)
    {
      hide R.LookAhead, Whole, ByteBits, R.Reader.Rest, R.Reader.Valid;
    }

    method StepBodyLiteral(r: Registers, ghost s: Stage) returns (r': Registers, ghost s': Stage, o: Outcome)
      requires AtBody(r, s) && r.state == BodyLiteral && out.Valid()
      modifies out, out.buf
      ensures Stepped(r, r', s', o) && AtBody(r', s') && out.Valid()
    {
      hide Agrees, R.LookAhead, Whole, ByteBits, R.Reader.Rest, R.Reader.Valid, R.Reader.Short, DT.TableInv, Held;
      if out.o >= out.buf.Length { return r, s, NeedRoom; }
      LiteralGo(Setting(), lit.lens, dst.lens, r.counter, r.final, reader.Rest(), out.h);
      out.Put(r.counter);
      r', s', o := r.(state := BodySym), AtSymbol(lit.lens, dst.lens), Go;
    }

    method StepMatchLength(r: Registers, ghost s: Stage) returns (r': Registers, ghost s': Stage, o: Outcome)
      requires AtBody(r, s) && r.state == MatchLength
      modifies reader
      ensures Stepped(r, r', s', o) && AtBody(r', s')
    {
      hide R.LookAhead, Whole, ByteBits, R.Reader.Rest, R.Reader.Valid, R.Reader.Short, DT.TableInv, Field, Pow2;
      LengthGo(Setting(), lit.lens, dst.lens, r.counter, r.numExtra, r.final, reader.Rest(), out.h);
      var ok, v := reader.GetBits(r.numExtra);
      if !ok { return r, s, NeedInput; }
      r', s', o := r.(state := MatchDist, counter := r.counter + v), AtDistance(lit.lens, dst.lens, r.counter + v), Go;
    }

    /** One of the two: a literal is put out, and the next symbol may follow. */
    method TakeOne(r: Registers, ghost s: Stage) returns (more: bool, r': Registers, ghost s': Stage)
      requires AtBody(r, s) && r.state == BodySym && out.Valid() && !reader.filling && reader.numBits >= 15 && out.o < out.buf.Length
      modifies reader, out, out.buf
      ensures (AtPlain(r', s') || AtBody(r', s')) && out.Valid()
      ensures more ==> AtBody(r', s') && r' == r && !reader.filling && reader.numBits + 15 >= old(reader.numBits)
      ensures Stepped(r, r', s', Go) && out.o <= old(out.o) + 1
    {
      hide Agrees, Hungry, R.LookAhead, Whole, ByteBits, R.Reader.Rest, R.Reader.Short, DT.TableInv, SymbolLeads, Symbol, AnySymbol, Held, AtPlain,
        AtBody, R.Reader.Valid;
      BodyFacts(r, s);
      var sym := TakeSym(r, s);
      more := sym < END_OF_BLOCK;
      if more {
        LiteralLeads(lit.lens, dst.lens, sym, r.final);
        LiteralGo(Setting(), lit.lens, dst.lens, sym, r.final, reader.Rest(), out.h);
        out.Put(sym);
        r', s' := r, s;
        IntoBody(r', s');
      } else {
        r', s' := AfterSymbol(r, sym);
      }
    }

    /** Two symbols at once, when there is enough input and room. */
    method StepTwoSyms(r: Registers, ghost s: Stage) returns (r': Registers, ghost s': Stage, o: Outcome)
      requires AtBody(r, s) && r.state == BodySym && out.Valid() && !reader.filling
      requires |reader.input| - reader.pos >= 4 && out.buf.Length - out.o >= 2
      modifies reader, out, out.buf
      ensures Stepped(r, r', s', o) && (AtPlain(r', s') || AtBody(r', s')) && out.Valid()
    {
      hide Agrees, Hungry, R.LookAhead, Whole, ByteBits, R.Reader.Rest, R.Reader.Short, DT.TableInv, SymbolLeads, Symbol, AnySymbol, Held, AtPlain,
        AtBody, R.Reader.Valid;
      BodyFacts(r, s);
      LoadFour();
      IntoBody(r, s);
      o := Go;
      var more;
      more, r', s' := TakeOne(r, s);
      if more {
        more, r', s' := TakeOne(r', s');
      }
    }

    /** The source's load of 32 bits below 30. */
    method LoadFour()
      requires reader.Valid() && |reader.input| - reader.pos >= 4
      modifies reader`bitBuf, reader`numBits, reader`pos
      ensures reader.Valid() && reader.numBits >= 30 && reader.Rest() == old(reader.Rest())
      ensures reader.numBits - 8 * reader.pos == old(reader.numBits - 8 * reader.pos)
    {
      hide R.LookAhead;
      if reader.numBits < 30 {
        reader.Load();
        reader.Load();
        reader.Load();
        reader.Load();
      }
    }

    method TakeSym(r: Registers, ghost s: Stage) returns (sym: nat)
      requires AtBody(r, s) && r.state == BodySym && !reader.filling && reader.numBits >= 15
      modifies reader`bitBuf, reader`numBits, reader`decoded
      ensures reader.Valid() && reader.numBits + 15 >= old(reader.numBits) && (Gapless(goal) ==> reader.numBits < 8 + 8 * reader.pos)
      ensures (sym == 0 || sym < |lit.lens|) && reader.decoded >= old(reader.decoded) && (reader.decoded > old(reader.decoded) || sym == 0)
      ensures SymbolLeads(Setting(), lit.lens, dst.lens, sym, r.final, reader.Rest(), out.h, goal)
    {
      hide Agrees, Hungry, R.LookAhead, Whole, ByteBits, R.Reader.Rest, R.Reader.Short, DT.TableInv, SymbolLeads, Symbol, AnySymbol;
      ghost var rest := reader.Rest();
      sym := reader.Take(lit, 0);
      SymbolFound(Setting(), lit.lens, dst.lens, sym, r.final, rest, reader.Rest(), out.h, goal);
    }

    method StepMatchDist(r: Registers, ghost s: Stage) returns (r': Registers, ghost s': Stage, o: Outcome)
      requires AtBody(r, s) && r.state == MatchDist && out.Valid()
      modifies reader, out, out.buf
      ensures Stepped(r, r', s', o) && (AtPlain(r', s') || AtBody(r', s')) && out.Valid()
    {
      hide Agrees, Hungry, R.LookAhead, Whole, ByteBits, R.Reader.Rest, R.Reader.Valid, R.Reader.Short, DT.TableInv, Symbol, AnySymbol, Held, Pow2, AtPlain, AtBody;
      BodyFacts(r, s);
      ghost var rest := reader.Rest();
      var ok, sym := reader.HuffDecode(dst);
      DistanceNeeded(Setting(), lit.lens, dst.lens, r.counter, r.final, rest, out.h, goal);
      if !ok {
        IntoBody(r, s);
        return r, s, NeedInput;
      }
      DistanceFound(Setting(), lit.lens, dst.lens, r.counter, sym, r.final, rest, reader.Rest(), out.h, goal);
      r', s', o := AfterDistance(r, sym);
    }

    /** Behind a distance symbol: its extra bits, or the copy. */
    method AfterDistance(r: Registers, sym: nat) returns (r': Registers, ghost s': Stage, o: Outcome)
      requires lit.Valid() && dst.Valid() && |dst.lens| <= 32 && |lit.lens| <= 288 && r.trailer == 1 && sym < 32
      requires !reader.filling && (Gapless(goal) ==> reader.numBits < 8 + 8 * reader.pos) && out.Valid() && reader.Valid()
      requires DistanceLeads(Setting(), lit.lens, dst.lens, r.counter, sym, r.final, reader.Rest(), out.h, goal)
      modifies out, out.buf
      ensures (AtPlain(r', s') || AtBody(r', s')) && out.Valid()
      ensures if o == Stop then r'.state == Broken else o == Go && Rank(r') <= 800
      ensures out.o >= old(out.o) && old(out.h) <= out.h && |out.h| - |old(out.h)| == out.o - old(out.o)
    {
      hide Agrees, R.LookAhead, Whole, R.Reader.Rest, R.Reader.Valid, R.Reader.Short, DT.TableInv, DT.Table.Valid, Held, Pow2, AtPlain, AtBody,
        DistBase;
      s', o := AfterDistSym(lit.lens, dst.lens, r.counter, sym), Go;
      r' := r.(dist := DistBase(sym), numExtra := DistExtraBits(sym), state := MatchDistBits);
      if r'.numExtra == 0 {
        r', s', o := BeginCopy(r');
      } else {
        IntoBody(r', s');
      }
    }

    method StepMatchDistBits(r: Registers, ghost s: Stage) returns (r': Registers, ghost s': Stage, o: Outcome)
      requires AtBody(r, s) && r.state == MatchDistBits && out.Valid()
      modifies reader, out, out.buf
      ensures Stepped(r, r', s', o) && (AtPlain(r', s') || AtBody(r', s')) && out.Valid()
    {
      hide Hungry, R.LookAhead, Whole, ByteBits, R.Reader.Rest, R.Reader.Valid, R.Reader.Short, DT.TableInv, DT.Table.Valid, Output.Valid, Field, Held, Pow2, AtPlain, AtBody;
      BodyFacts(r, s);
      DistBitsGo(Setting(), lit.lens, dst.lens, r.counter, r.dist, r.numExtra, r.final, reader.Rest(), out.h);
      var ok, v := reader.GetBits(r.numExtra);
      if !ok {
        IntoBody(r, s);
        return r, s, NeedInput;
      }
      r', s', o := BeginCopy(r.(dist := r.dist + v));
    }

    /** The match is copied at once, unless it or its source runs past the end of the buffer. */
    method BeginCopy(r: Registers) returns (r': Registers, ghost s': Stage, o: Outcome)
      requires lit.Valid() && dst.Valid() && |dst.lens| <= 32 && |lit.lens| <= 288 && r.trailer == 1
      requires !reader.filling && (Gapless(goal) ==> reader.numBits < 8 + 8 * reader.pos) && out.Valid()
      requires Tracks(AtCopy(lit.lens, dst.lens, r.counter, r.dist), r.final)
      modifies out, out.buf
      ensures (AtPlain(r', s') || AtBody(r', s')) && out.Valid()
      ensures if o == Stop then r'.state == Broken else o == Go && Rank(r') <= 700
      ensures out.o >= old(out.o) && old(out.h) <= out.h && |out.h| - |old(out.h)| == out.o - old(out.o)
    {
      hide Agrees, Hungry, R.LookAhead, Whole, ByteBits, R.Reader.Rest, R.Reader.Valid, R.Reader.Short, DT.TableInv, DT.Table.Valid, Held, CopyOut,
        AtPlain, AtBody, Output.Valid, Source;
      o := Go;
      CopyBegins(r);
      if r.dist > out.o && !out.wraps {
        r', s', o := r.(state := Broken), AtCopy(lit.lens, dst.lens, r.counter, r.dist), Stop;
        IntoPlain(r', s');
        return;
      }
      var src: nat := Source(out.o, r.dist, out.buf.Length, out.wraps);
      if (if out.o > src then out.o else src) + r.counter <= out.buf.Length {
        s' := AtSymbol(lit.lens, dst.lens);
        r' := CopyAtOnce(r, src);
      } else {
        r', s' := r.(state := MatchCopying, from := out.o), AtCopy(lit.lens, dst.lens, r.counter, r.dist);
        IntoBody(r', s');
      }
    }

    /** Where the copy starts. */
    lemma CopyBegins(r: Registers)
      requires out.Valid() && Tracks(AtCopy(lit.lens, dst.lens, r.counter, r.dist), r.final)
      ensures out.o <= out.buf.Length && (if out.wraps then out.buf.Length > 0 && |out.h| % out.buf.Length == out.o % out.buf.Length else |out.h| == out.o)
      ensures !out.wraps && r.dist > out.o ==> goal.Bad?
      ensures out.wraps || r.dist <= out.o ==> Source(out.o, r.dist, out.buf.Length, out.wraps) >= 0
    {
      hide Whole, R.Reader.Rest, R.Reader.Valid, Held;
      HeldCursor(out.buf[..], out.Space(), out.h, out.o);
      CopyGo(Setting(), lit.lens, dst.lens, r.counter, r.dist, r.final, reader.Rest(), out.h);
    }

    method CopyAtOnce(r: Registers, src: nat) returns (r': Registers)
      requires lit.Valid() && dst.Valid() && |dst.lens| <= 32 && |lit.lens| <= 288 && r.trailer == 1
      requires !reader.filling && (Gapless(goal) ==> reader.numBits < 8 + 8 * reader.pos) && out.Valid()
      requires Tracks(AtCopy(lit.lens, dst.lens, r.counter, r.dist), r.final)
      requires (out.wraps || r.dist <= out.o) && (out.wraps ==> out.buf.Length > 0)
      requires src == Source(out.o, r.dist, out.buf.Length, out.wraps)
      requires out.o + r.counter <= out.buf.Length && src + r.counter <= out.buf.Length
      modifies out, out.buf
      ensures AtBody(r', AtSymbol(lit.lens, dst.lens)) && out.Valid() && r'.state == BodySym
      ensures out.o >= old(out.o) && old(out.h) <= out.h && |out.h| - |old(out.h)| == out.o - old(out.o)
    {
      hide Agrees, Hungry, R.LookAhead, Whole, ByteBits, R.Reader.Rest, R.Reader.Valid, R.Reader.Short, DT.TableInv, DT.Table.Valid, Held, CopyOut,
        AtBody, Source;
      CopyBegins(r);
      ghost var h := out.h;
      out.CopyMatchRun(r.counter, r.dist, src);
      CopyGone(Setting(), lit.lens, dst.lens, r.counter, r.dist, r.final, reader.Rest(), h, out.h, goal);
      r' := r.(state := BodySym);
      IntoBody(r', AtSymbol(lit.lens, dst.lens));
    }

    /** One byte of a match that is copied around the end of the buffer. */
    method StepMatchCopying(r: Registers, ghost s: Stage) returns (r': Registers, ghost s': Stage, o: Outcome)
      requires AtBody(r, s) && r.state == MatchCopying && out.Valid()
      modifies out, out.buf
      ensures Stepped(r, r', s', o) && AtBody(r', s') && out.Valid()
    {
      hide Agrees, R.LookAhead, Whole, ByteBits, R.Reader.Rest, R.Reader.Valid, R.Reader.Short, DT.TableInv, Held, CopyOut, Source, AtBody;
      BodyFacts(r, s);
      HeldCursor(out.buf[..], out.Space(), out.h, out.o);
      if r.counter == 0 {
        CopyDone(Setting(), lit.lens, dst.lens, r.dist, r.final, reader.Rest(), out.h, goal);
        r', s', o := r.(state := BodySym), AtSymbol(lit.lens, dst.lens), Go;
        IntoBody(r', s');
      } else if out.o >= out.buf.Length {
        return r, s, NeedRoom;
      } else {
        r', s', o := CopyOne(r, s);
      }
    }

    method CopyOne(r: Registers, ghost s: Stage) returns (r': Registers, ghost s': Stage, o: Outcome)
      requires AtBody(r, s) && r.state == MatchCopying && out.Valid() && r.counter > 0 && out.o < out.buf.Length
      modifies out, out.buf
      ensures Stepped(r, r', s', o) && AtBody(r', s') && out.Valid()
    {
      hide Agrees, R.LookAhead, Whole, ByteBits, R.Reader.Rest, R.Reader.Valid, R.Reader.Short, DT.TableInv, Held, CopyOut, Source, AtBody;
      BodyFacts(r, s);
      HeldCursor(out.buf[..], out.Space(), out.h, out.o);
      SourceByte(out.buf[..], out.Space(), out.h, out.o, r.from, r.dist);
      var b := out.buf[Source(r.from, r.dist, out.buf.Length, out.wraps)];
      CopyOneGo(Setting(), lit.lens, dst.lens, r.counter, r.dist, r.final, reader.Rest(), out.h, b, goal);
      out.Put(b);
      FollowOn(r, |out.h| - 1, out.buf.Length, out.wraps);
      r', o := r.(counter := r.counter - 1, from := r.from + 1), Go;
      s' := AtCopy(lit.lens, dst.lens, r.counter - 1, r.dist);
      IntoBody(r', s');
    }

    // ---------- one step, whatever the state

    method StepPlain(r: Registers, ghost s: Stage) returns (r': Registers, ghost s': Stage, o: Outcome)
      requires Shape() && AtPlain(r, s) && out.Valid()
      modifies reader, out, out.buf, lit, lit.lookUp, lit.tree, lit.codeSize, dst, dst.lookUp, dst.tree, dst.codeSize, len.codeSize
      ensures Stepped(r, r', s', o) && (AtPlain(r', s') || AtLens(r', s') || AtBody(r', s')) && out.Valid()
    {
      hide Agrees, Hungry, R.LookAhead, Whole, ByteBits, R.Reader.Rest, R.Reader.Valid, R.Reader.Short, DT.TableInv, DT.Table.Valid, Held, Tracks, Lean,
        Waiting, InLens, InBody, Following;
      match r.state {
        case ZlibHeader =>
          out.SameSize();
          r', s', o := StepZlibHeader(r, s);
        case Head => r', s', o := StepHead(r, s);
        case RawHeader => r', s', o := StepRawHeader(r, s);
        case RawBits => r', s', o := StepRawBits(r, s);
        case RawByte => r', s', o := StepRawByte(r, s);
        case RawRun => r', s', o := StepRawRun(r, s);
        case Fixed => r', s', o := StepFixed(r, s);
        case Sizes =>
          if |r.header| < 3 {
            r', s', o := StepSizes(r, s);
          } else {
            r', s', o := StepClear(r, s);
          }
        case Trailer => r', s', o := StepTrailer(r, s);
        case _ => r', s', o := r, s, Stop;
      }
    }

    method StepLens(r: Registers, ghost s: Stage) returns (r': Registers, ghost s': Stage, o: Outcome)
      requires Shape() && AtLens(r, s)
      modifies reader, lit, lit.lookUp, lit.tree, lit.codeSize, dst, dst.lookUp, dst.tree, dst.codeSize,
        len, len.lookUp, len.tree, len.codeSize, lenCodes
      ensures Stepped(r, r', s', o) && (AtPlain(r', s') || AtLens(r', s') || AtBody(r', s'))
    {
      hide Agrees, Hungry, R.LookAhead, Whole, ByteBits, R.Reader.Rest, R.Reader.Valid, R.Reader.Short, DT.TableInv, DT.Table.Valid, Held, Tracks, Lean,
        Waiting, Plain, InBody, Following;
      if r.state == CodeLens {
        if r.counter < r.header[2] {
          r', s', o := StepCodeLens(r, s);
        } else {
          r', s', o := StepCodeTable(r, s);
        }
      } else if r.state == LengthRepeat {
        r', s', o := StepLengthRepeat(r, s);
      } else if r.counter < r.header[0] + r.header[1] {
        r', s', o := StepLengthSym(r, s);
      } else {
        r', s', o := StepLengthsDone(r, s);
      }
    }

    method StepBody(r: Registers, ghost s: Stage) returns (r': Registers, ghost s': Stage, o: Outcome)
      requires AtBody(r, s) && out.Valid()
      modifies reader, out, out.buf
      ensures Stepped(r, r', s', o) && (AtPlain(r', s') || AtBody(r', s')) && out.Valid()
    {
      hide Agrees, Hungry, R.LookAhead, Whole, ByteBits, R.Reader.Rest, R.Reader.Valid, R.Reader.Short, DT.TableInv, DT.Table.Valid, Held, Tracks, Lean,
        Plain, Following;
      match r.state {
        case BodySym =>
          if reader.filling || |reader.input| - reader.pos < 4 || out.buf.Length - out.o < 2 {
            r', s', o := StepBodySym(r, s);
          } else {
            r', s', o := StepTwoSyms(r, s);
          }
        case BodyLiteral => r', s', o := StepBodyLiteral(r, s);
        case MatchLength => r', s', o := StepMatchLength(r, s);
        case MatchDist => r', s', o := StepMatchDist(r, s);
        case MatchDistBits => r', s', o := StepMatchDistBits(r, s);
        case MatchCopying => r', s', o := StepMatchCopying(r, s);
      }
    }

    method Step() returns (o: Outcome)
      requires Valid()
      modifies this`regs, this`stage, reader, out, out.buf, lit, lit.lookUp, lit.tree, lit.codeSize, dst, dst.lookUp, dst.tree, dst.codeSize,
        len, len.lookUp, len.tree, len.codeSize, lenCodes
      ensures Valid() && Stepped(old(regs), regs, stage, o)
    {
      hide Agrees, Hungry, R.LookAhead, Whole, ByteBits, R.Reader.Rest, R.Reader.Valid, R.Reader.Short, DT.TableInv, DT.Table.Valid, Held, Tracks, Lean,
        Waiting, Following, Shape, InLens, InBody, Plain, Rank, AtPlain, AtLens, AtBody, Output.Valid, Stepped, Valid, LensState, BodyState;
      Place();
      var r, r', o' := regs, regs, Go;
      ghost var s, s' := stage, stage;
      if LensState(r.state) {
        r', s', o' := StepLens(r, s);
      } else if BodyState(r.state) {
        r', s', o' := StepBody(r, s);
      } else {
        r', s', o' := StepPlain(r, s);
      }
      regs, stage, o := r', s', o';
      IntoValid();
    }

    lemma IntoValid()
      requires Shape() && out.Valid() && (AtPlain(regs, stage) || AtLens(regs, stage) || AtBody(regs, stage))
      ensures Valid()
    {
      hide Shape, Output.Valid, AtPlain, AtLens, AtBody;
    }

    /** The state says which of the three it is. */
    lemma Place()
      requires Valid()
      ensures Shape() && out.Valid()
      ensures if LensState(regs.state) then AtLens(regs, stage) else if BodyState(regs.state) then AtBody(regs, stage) else AtPlain(regs, stage)
      ensures AtLens(regs, stage) ==> LensState(regs.state)
      ensures AtBody(regs, stage) ==> BodyState(regs.state)
    {
      hide R.LookAhead, Whole, ByteBits, R.Reader.Rest, R.Reader.Valid, R.Reader.Short, DT.TableInv, DT.Table.Valid, Held, Tracks, Lean,
        Waiting, Following;
    }

    // ---------- a call of `tinfl_decompress`

    /** Between two calls. */
    ghost predicate Ready()
      reads this, lit, lit.lookUp, lit.tree, dst, dst.lookUp, dst.tree, len, len.lookUp, len.tree, len.codeSize, lenCodes, reader, out, out.buf
    {
      Valid() && Lean(regs, 0) && check < MAX_WORD32 && (!lost ==> check == Adler32.Checksum(1, out.h))
    }

    method BeginCall(chunk: seq<Byte>)
      requires Valid() && Lean(regs, 0) && reader.base + reader.pos + |chunk| <= |reader.whole|
      requires reader.whole[reader.base + reader.pos..reader.base + reader.pos + |chunk|] == chunk
      modifies reader, out`o
      ensures Valid() && reader.whole == old(reader.whole) && reader.input == chunk && reader.pos == 0 && reader.base == old(reader.base + reader.pos)
      ensures reader.decoded == old(reader.decoded)
    {
      hide Agrees, Hungry, R.LookAhead, Whole, ByteBits, DT.TableInv, DT.Table.Valid, Held, Following, Shape, InLens, InBody, Plain, R.Reader.Rest, Symbol, AnySymbol;
      reader.NextCall(chunk);
      out.Restart();
    }

    /** Unless more input is needed, whole bytes of look-ahead go back to the caller. */
    method EndCall()
      requires Valid() && (Hungry(stage) || regs.state == Finished || regs.state == Broken)
      modifies reader
      ensures Valid() && Lean(regs, 0) && reader.pos <= old(reader.pos)
      ensures reader.whole == old(reader.whole) && reader.base == old(reader.base) && reader.input == old(reader.input)
      ensures reader.decoded == old(reader.decoded)
    {
      hide Agrees, R.LookAhead, Whole, ByteBits, DT.TableInv, DT.Table.Valid, Output.Valid, Held, Following, Shape, R.Reader.Rest, Symbol, AnySymbol;
      reader.PutBack();
    }

    /** The coroutine goes on until it has to wait for the caller. */
    method Run() returns (o: Outcome)
      requires Valid()
      modifies this`regs, this`stage, reader, out, out.buf, lit, lit.lookUp, lit.tree, lit.codeSize, dst, dst.lookUp, dst.tree, dst.codeSize,
        len, len.lookUp, len.tree, len.codeSize, lenCodes
      ensures Valid() && o != Go
      ensures reader.whole == old(reader.whole) && reader.base == old(reader.base) && reader.input == old(reader.input)
      ensures old(out.h) <= out.h && |out.h| - |old(out.h)| == out.o - old(out.o) && out.o >= old(out.o) && reader.decoded >= old(reader.decoded)
      ensures o == NeedInput ==> reader.pos == |reader.input| && Lean(regs, 0) && (reader.base + |reader.input| == |reader.whole| ==> goal.Bad?)
      ensures o == NeedRoom ==> out.o == out.buf.Length && Hungry(stage)
      ensures o == Stop ==> regs.state == Finished || regs.state == Broken
    {
      hide Agrees, Hungry, R.LookAhead, Whole, ByteBits, R.Reader.Rest, R.Reader.Short, DT.TableInv, DT.Table.Valid, Held, Lean,
        Waiting, Following, Shape, InLens, InBody, Plain, Rank, AtPlain, AtLens, AtBody;
      o := Go;
      while o == Go
        invariant Valid()
        invariant reader.whole == old(reader.whole) && reader.base == old(reader.base) && reader.input == old(reader.input)
        invariant old(out.h) <= out.h && |out.h| - |old(out.h)| == out.o - old(out.o) && out.o >= old(out.o) && reader.decoded >= old(reader.decoded)
        invariant o == NeedInput ==> reader.pos == |reader.input| && Lean(regs, 0) && (reader.base + |reader.input| == |reader.whole| ==> goal.Bad?)
        invariant o == NeedRoom ==> out.o == out.buf.Length && Hungry(stage)
        invariant o == Stop ==> regs.state == Finished || regs.state == Broken
        decreases if o == Go then 1 else 0, 8 * (reader.base + |reader.input|) - reader.decoded, out.buf.Length - out.o, Rank(regs)
      {
        o := Step();
        Bounds();
      }
    }

    lemma Bounds()
      requires Valid()
      ensures out.Valid() && reader.Valid() && reader.pos <= |reader.input| && reader.decoded <= 8 * (reader.base + |reader.input|) && out.o <= out.buf.Length
    {
      hide R.LookAhead, Whole, ByteBits, R.Reader.Rest, R.Reader.Short, DT.TableInv, DT.Table.Valid, Held, Lean,
        Waiting, Following, Shape, InLens, InBody, Plain;
    }

    /** What the state says of the stream: the output is the beginning of what the stream stands for, and
        at the end it is all of it, nothing behind the stream was taken in, and the checksum was read. */
    lemma Reached()
      requires Valid() && goal.Got?
      ensures regs.state != Broken && SoFar() && (Hungry(stage) ==> |out.h| < |goal.value.out|)
      ensures regs.state == Finished ==>
                regs.trailer == goal.value.check && AllOut()
    {
      hide Hungry, R.LookAhead, Whole, ByteBits, R.Reader.Short, DT.TableInv, DT.Table.Valid, Held, Lean, Waiting, Following, Shape;
      WholeGrows(Setting(), stage, regs.final, reader.Rest(), out.h);
      if regs.state == Finished {
        TrailerDone(Setting(), regs.trailer, regs.final, reader.Rest(), out.h);
      }
    }

    /** The end is reached only in a stream that stands for something. */
    lemma Refused()
      requires Valid() && regs.state == Finished
      ensures goal.Got?
    {
      hide Hungry, R.LookAhead, Whole, ByteBits, R.Reader.Short, DT.TableInv, DT.Table.Valid, Held, Lean, Waiting, Following, Shape;
      TrailerDone(Setting(), regs.trailer, regs.final, reader.Rest(), out.h);
    }

    /** What it means that the coroutine came back. */
    ghost predicate Fate(o: Outcome)
      reads this, reader, out
    {
      && (goal.Got? ==> SoFar())
      && match o
         case NeedInput => reader.pos == |reader.input| && (reader.base + reader.pos == |reader.whole| ==> goal.Bad?)
         case NeedRoom => out.o == out.buf.Length && (goal.Got? ==> |out.h| < |goal.value.out|)
         case _ => if regs.state != Finished then goal.Bad? else goal.Got? && AllOut() && regs.trailer == goal.value.check
    }

    method Advance(chunk: seq<Byte>) returns (o: Outcome, o0: nat)
      requires Valid() && Lean(regs, 0) && reader.base + reader.pos + |chunk| <= |reader.whole|
      requires reader.whole[reader.base + reader.pos..reader.base + reader.pos + |chunk|] == chunk
      modifies this`regs, this`stage, reader, out, out.buf, lit, lit.lookUp, lit.tree, lit.codeSize, dst, dst.lookUp, dst.tree, dst.codeSize,
        len, len.lookUp, len.tree, len.codeSize, lenCodes
      ensures Valid() && Lean(regs, 0) && o != Go && Fate(o)
      ensures reader.whole == old(reader.whole) && reader.base == old(reader.base + reader.pos) && reader.pos <= |chunk| == |reader.input|
      ensures old(out.h) <= out.h && |out.h| - |old(out.h)| == out.o - o0 && o0 <= out.o
    {
      hide Agrees, Hungry, R.LookAhead, Whole, ByteBits, R.Reader.Rest, R.Reader.Valid, R.Reader.Short, DT.TableInv, DT.Table.Valid, Held, Lean,
        Waiting, Following, Shape, InLens, InBody, Plain, Rank, AtPlain, AtLens, AtBody, Tracks, Valid;
      BeginCall(chunk);
      o0 := out.o;
      o := Run();
      if o != NeedInput { EndCall(); }
      Bounds();
      if regs.state == Finished { Refused(); }
      if goal.Got? { Reached(); }
    }

    /** What a call says to its caller. */
    twostate predicate Answers(chunk: seq<Byte>, moreInput: bool, status: Result, consumed: nat, written: seq<Byte>)
      reads this, reader, out, out.buf
    {
      && reader.whole == old(reader.whole) && out.h == old(out.h) + written
      && |written| <= out.o <= out.buf.Length && out.buf[out.o - |written|..out.o] == written
      && consumed <= |chunk| && reader.base + reader.pos == old(reader.base + reader.pos) + consumed
      && (goal.Got? ==> SoFar())
      && (lost <==> old(lost) || status == Failed || status == CannotProgress)
      && match status
         case BadParam => true
         case Failed => goal.Bad?
         case NeedsMoreInput => moreInput && consumed == |chunk| && (reader.base + reader.pos == |reader.whole| ==> goal.Bad?)
         case CannotProgress => !moreInput && consumed == |chunk| && (reader.base + reader.pos == |reader.whole| ==> goal.Bad?)
         case HasMoreOutput => out.o == out.buf.Length && (goal.Got? ==> |out.h| < |goal.value.out|)
         case Done => goal.Got? && AllOut() && (zlib && !lost ==> goal.value.check == Adler32.Checksum(1, out.h))
         case Mismatch => zlib && goal.Got? && AllOut() && (!lost ==> goal.value.check != Adler32.Checksum(1, out.h))
    }

    /** A call with the next chunk of the input, of whatever size. `written` is what it puts out. */
    method Decompress(chunk: seq<Byte>, moreInput: bool) returns (status: Result, consumed: nat, ghost written: seq<Byte>)
      requires Ready() && reader.base + reader.pos + |chunk| <= |reader.whole|
      requires reader.whole[reader.base + reader.pos..reader.base + reader.pos + |chunk|] == chunk
      modifies this, reader, out, out.buf, lit, lit.lookUp, lit.tree, lit.codeSize, dst, dst.lookUp, dst.tree, dst.codeSize,
        len, len.lookUp, len.tree, len.codeSize, lenCodes
      ensures Ready() && Answers(chunk, moreInput, status, consumed, written)
      ensures status == BadParam <==> out.wraps && !PowerOfTwo(out.buf.Length)
    {
      hide Agrees, Hungry, R.LookAhead, Whole, ByteBits, R.Reader.Rest, R.Reader.Valid, R.Reader.Short, DT.TableInv, DT.Table.Valid, Held, Lean,
        Waiting, Following, Shape, InLens, InBody, Plain, Rank, AtPlain, AtLens, AtBody, Adler32.Checksum, Tracks;
      if out.wraps && !PowerOfTwo(out.buf.Length) {
        if goal.Got? { Reached(); }
        Bounds();
        return BadParam, 0, [];
      }
      status, consumed, written := Continue(chunk, moreInput);
    }

    method Continue(chunk: seq<Byte>, moreInput: bool) returns (status: Result, consumed: nat, ghost written: seq<Byte>)
      requires Ready() && reader.base + reader.pos + |chunk| <= |reader.whole|
      requires reader.whole[reader.base + reader.pos..reader.base + reader.pos + |chunk|] == chunk
      modifies this, reader, out, out.buf, lit, lit.lookUp, lit.tree, lit.codeSize, dst, dst.lookUp, dst.tree, dst.codeSize,
        len, len.lookUp, len.tree, len.codeSize, lenCodes
      ensures Ready() && Answers(chunk, moreInput, status, consumed, written) && status != BadParam
    {
      hide Agrees, Hungry, R.LookAhead, Whole, ByteBits, R.Reader.Rest, R.Reader.Valid, R.Reader.Short, DT.TableInv, DT.Table.Valid, Held, Lean,
        Waiting, Following, Shape, InLens, InBody, Plain, Rank, AtPlain, AtLens, AtBody, Adler32.Checksum, Tracks;
      ghost var h0 := out.h;
      var o, o0 := Advance(chunk);
      consumed, written := reader.pos, out.h[|h0|..];
      status := if o == NeedInput then (if moreInput then NeedsMoreInput else CannotProgress) else if o == NeedRoom then HasMoreOutput
                else if regs.state == Finished then Done else Failed;
      WrittenLast(|written|);
      if status == Failed || status == CannotProgress {
        lost := true;
      } else {
        AddToCheck(o0, h0, written);
        if status == Done && zlib && check != regs.trailer { status := Mismatch; }
      }
    }

    lemma WrittenLast(n: nat)
      requires out.Valid() && n <= |out.h| && n <= out.o
      ensures out.buf[out.o - n..out.o] == out.h[|out.h| - n..]
    {
      HeldLast(out.buf[..], out.Space(), out.h, out.o, n);
    }

    /** The checksum is continued over what the call put out. */
    method AddToCheck(o0: nat, ghost h0: seq<Byte>, ghost written: seq<Byte>)
      requires out.Valid() && o0 <= out.o && out.buf[o0..out.o] == written && out.h == h0 + written
      requires check < MAX_WORD32 && (!lost ==> check == Adler32.Checksum(1, h0))
      modifies this`check
      ensures check < MAX_WORD32 && (!lost ==> check == Adler32.Checksum(1, out.h))
    {
      hide Held, Adler32.Checksum;
      check := Adler32.Sum(check, out.buf, o0, out.o - o0);
      assert o0 + (out.o - o0) == out.o;
      Adler32.ChecksumConcat(1, h0, written);
    }

    /** The output is a beginning of what the stream stands for; but for the bytes, if a match reaches further
        back than the ring is long. */
    ghost predicate SoFar()
      requires goal.Got?
      reads out`h
    {
      |out.h| <= |goal.value.out| && (Wild !in goal.value.taken ==> out.h <= goal.value.out)
    }

    /** The end of the stream: all of it is put out, and nothing behind it was taken in. Only behind a symbol
        read from a gap some look-ahead may be left that can no longer be put back. */
    ghost predicate AllOut()
      requires goal.Got?
      reads reader, out`h
    {
      && SoFar() && |out.h| == |goal.value.out| && 8 * (reader.base + reader.pos) + |goal.rest| == 8 * |reader.whole| + reader.numBits
      && reader.numBits % 8 == 0 && (Gap !in goal.value.taken ==> reader.numBits == 0)
    }
  }

  /** `counter` after a zlib header. */
  predicate BadWrap(cmf: nat, flg: nat) { (cmf * 256 + flg) % 31 != 0 || flg / 32 % 2 == 1 || cmf % 16 != 8 }

  lemma GoodIs(cmf: nat, flg: nat)
    ensures BadWrap(cmf, flg) <==> !GoodCheck(cmf, flg)
  {
  }

  /** `m_table_sizes` of a dynamic header. */
  predicate SmallSizes(sizes: seq<nat>) {
    && (|sizes| > 0 ==> 257 <= sizes[0] <= 288) && (|sizes| > 1 ==> 1 <= sizes[1] <= 32) && (|sizes| > 2 ==> 4 <= sizes[2] <= 19)
  }

  predicate SmallLens(lens: seq<nat>, limit: nat) { forall i :: 0 <= i < |lens| ==> lens[i] <= limit }

  lemma ThreeBits(v: nat)
    requires v < Pow2(3)
    ensures v < 8
  {
  }

  lemma FiveBits(v: nat, n: nat)
    requires v < Pow2(n) && (n == 4 || n == 5)
    ensures v < if n == 4 then 16 else 32
  {
    assert Pow2(4) == 16;
  }

  function Min(a: nat, b: nat): nat { if a < b then a else b }

  /** The source's four loops over the fixed literal sizes. */
  function FixedSize(i: nat): nat { if i <= 143 then 8 else if i <= 255 then 9 else if i <= 279 then 7 else 8 }

  lemma FixedSizes()
    ensures forall i :: 0 <= i < 288 ==> FixedLit()[i] == FixedSize(i)
    ensures forall i :: 0 <= i < 32 ==> FixedDist()[i] == 5
    ensures Acceptable(FixedLit()) && Acceptable(FixedDist()) && ValidLens(FixedLit()) && ValidLens(FixedDist())
  {
    FixedComplete();
  }

  lemma SwizzleRange(i: nat)
    requires i < 19
    ensures SWIZZLE[i] < 19
  {
  }

  lemma SevenBits(v: nat, sym: nat)
    requires 16 <= sym <= 18 && v < Pow2(ExtraBits(sym))
    ensures v < if sym == 16 then 4 else if sym == 17 then 8 else 128
  {
    assert Pow2(7) == 128 by { assert Pow2(4) == 16; }
  }

  lemma RepeatsAre(acc: seq<nat>, sym: nat, v: nat)
    requires 16 <= sym <= 18 && (sym == 16 ==> acc != [])
    ensures Repeats(acc, sym, v) == Repeated(if sym == 16 then acc[|acc| - 1] else 0, v + if sym == 18 then 11 else 3)
  {
  }

  lemma FollowOn(r: Registers, n: nat, size: nat, wraps: bool)
    requires r.state == MatchCopying && Following(r, n, size, wraps) && r.counter > 0
    ensures Following(r.(counter := r.counter - 1, from := r.from + 1), n + 1, size, wraps)
  {
    if wraps {
      AddMod(n, r.from, 1, size);
    }
  }

  /** The test `(size & (size - 1)) == 0`. */
  predicate PowerOfTwo(n: nat) { n == 1 || (n > 1 && n % 2 == 0 && PowerOfTwo(n / 2)) }
}
