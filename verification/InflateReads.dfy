/** How `tinfl_decompress` reads a stream, whatever the stream is. It reads what the format says, and takes
    some liberties where the format says nothing: what it makes of them is defined here, and marked. */
module InflateReads {
  import opened Bits
  import opened Canonical
  import opened Tokens
  import opened InflateSpec
  import opened CodeLengthRle
  import opened Gaps

  /** A window size above 32768 bytes; bits that start no code; one of the symbols that the alphabets leave
      unused; a match from before the start of the output; a match from further back than a ring is long. */
  datatype Liberty = WideWindow | Gap | Reserved | Far | Wild

  /** The output buffer: a ring or not, and what it held before. */
  datatype Room = Room(wraps: bool, init: seq<Byte>)

  /** What the reading depends on besides the stream: if it has a zlib header, and the output buffer. */
  datatype Port = Port(zlib: bool, room: Room)

  datatype Text = Text(out: seq<Byte>, taken: set<Liberty>)

  /** A text behind some liberties. */
  function Mark(l: set<Liberty>, r: Read<Text>): (m: Read<Text>)
    ensures m.Got? <==> r.Got?
  {
    if r.Bad? then Bad else Got(Text(r.value.out, l + r.value.taken), r.rest)
  }

  /** Whether the next symbol is read from a gap. */
  ghost function Slack(bits: Bitstring, lens: seq<nat>): set<Liberty> {
    if Symbol(bits, lens).Bad? then {Gap} else {}
  }

  // ---------- the tables, with their entries for the unused symbols

  /** `s_length_base`. */
  function LengthBase(sym: nat): nat
    requires 257 <= sym < 288
  {
    if sym <= 285 then LENGTH_BASE[sym - 257] else 0
  }

  /** `s_length_extra`. */
  function LengthExtra(sym: nat): (r: nat)
    requires 257 <= sym < 288
    ensures r <= 5
  {
    if sym <= 285 then LENGTH_EXTRA[sym - 257] else 0
  }

  /** `s_dist_base`. */
  function DistBase(sym: nat): nat
    requires sym < 32
  {
    if sym < 30 then DIST_BASE[sym] else 0
  }

  /** `s_dist_extra`. */
  function DistExtraBits(sym: nat): (r: nat)
    requires sym < 32
    ensures r <= 13
  {
    if sym < 30 then DIST_EXTRA[sym] else 0
  }

  function LengthTaken(sym: nat): set<Liberty> { if sym > 285 then {Reserved} else {} }

  function DistTaken(sym: nat): set<Liberty> { if sym >= 30 then {Reserved} else {} }

  /** A distance that is longer than the ring. */
  predicate Beyond(p: Room, d: nat) { p.wraps && d > |p.init| }

  function ReachTaken(p: Room, d: nat, h: seq<Byte>): set<Liberty> {
    (if d > |h| then {Far} else {}) + (if Beyond(p, d) then {Wild} else {})
  }

  /** No distance is longer than the window. */
  lemma DistLimit(sym: nat)
    requires sym < 32
    ensures DistBase(sym) + Pow2(DistExtraBits(sym)) <= LZ_DICT_SIZE + 1
  {
    assert Pow2(4) == 16 && Pow2(8) == 256 && Pow2(12) == 4096;
  }

  // ---------- copies

  /** The byte `d` back from the end of the output. The distance 0 is the byte that the buffer holds where
      the next one goes; in a ring, what was in it before lies ahead of the output. */
  function Back(p: Room, h: seq<Byte>, d: nat): Byte {
    if p.wraps then
      var ring, back := p.init + h, if d == 0 then |p.init| else d;
      if 1 <= back <= |ring| then ring[|ring| - back] else 0
    else if 1 <= d <= |h| then h[|h| - d]
    else if d == 0 && |h| < |p.init| then p.init[|h|]
    else 0
  }

  function CopyOut(p: Room, h: seq<Byte>, n: nat, d: nat): (r: seq<Byte>)
    ensures |r| == |h| + n && h <= r
    decreases n
  {
    if n == 0 then h else CopyOut(p, h + [Back(p, h, d)], n - 1, d)
  }

  /** A copy that the format allows is the format's. */
  lemma {:induction false} CopyIsMatch(p: Room, h: seq<Byte>, n: nat, d: nat)
    requires 1 <= d <= |h|
    ensures CopyOut(p, h, n, d) == CopyMatch(h, n, d)
    decreases n
  {
    if n > 0 {
      CopyIsMatch(p, h + [h[|h| - d]], n - 1, d);
    }
  }

  // ---------- compressed data

  datatype Span = Span(dist: nat, taken: set<Liberty>)

  ghost function ReadDistance(bits: Bitstring, dist: seq<nat>): (r: Read<Span>)
    ensures r.Got? ==> |r.rest| <= |bits|
  {
    var s := AnySymbol(bits, dist);
    if s.Bad? || s.value >= 32 then Bad else
    var x := Field(s.rest, DistExtraBits(s.value));
    if x.Bad? then Bad else Got(Span(DistBase(s.value) + x.value, Slack(bits, dist) + DistTaken(s.value)), x.rest)
  }

  /** What one symbol of a block's body does to the output. */
  datatype Move = Stuck | Over(rest: Bitstring) | Onward(out: seq<Byte>, taken: set<Liberty>, rest: Bitstring)

  /** A symbol of no bits is a literal 0 for ever. */
  ghost predicate Endless(bits: Bitstring, lit: seq<nat>) {
    AnySymbol(bits, lit).Got? && |AnySymbol(bits, lit).rest| == |bits|
  }

  /** A match: its length with `extra` bits, and its distance. A distance may reach before the output only
      in a ring. What a ring gives for a distance that is longer than itself is left open. */
  ghost function ReadMatch(p: Port, bits: Bitstring, base: nat, extra: nat, dist: seq<nat>, h: seq<Byte>): (r: Move)
    ensures !r.Over? && (r.Onward? ==> |r.rest| <= |bits| && h <= r.out)
  {
    var x := Field(bits, extra);
    if x.Bad? then Stuck else
    var d := ReadDistance(x.rest, dist);
    if d.Bad? || (!p.room.wraps && d.value.dist > |h|) then Stuck
    else Onward(CopyOut(p.room, h, base + x.value, d.value.dist), d.value.taken + ReachTaken(p.room, d.value.dist, h), d.rest)
  }

  ghost function BodyStep(p: Port, bits: Bitstring, lit: seq<nat>, dist: seq<nat>, h: seq<Byte>): (r: Move)
    ensures r.Over? ==> |r.rest| < |bits|
    ensures r.Onward? ==> |r.rest| < |bits| && h <= r.out
  {
    var s := AnySymbol(bits, lit);
    if s.Bad? || Endless(bits, lit) || s.value >= 288 then Stuck
    else if s.value < END_OF_BLOCK then Onward(h + [s.value], Slack(bits, lit), s.rest)
    else if s.value == END_OF_BLOCK then Over(s.rest)
    else
      var m := ReadMatch(p, s.rest, LengthBase(s.value), LengthExtra(s.value), dist, h);
      if m.Stuck? then Stuck else Onward(m.out, LengthTaken(s.value) + m.taken, m.rest)
  }

  ghost function ReadBody(p: Port, bits: Bitstring, lit: seq<nat>, dist: seq<nat>, h: seq<Byte>): (r: Read<Text>)
    ensures r.Got? ==> |r.rest| < |bits|
    decreases |bits|
  {
    match BodyStep(p, bits, lit, dist, h)
    case Stuck => Bad
    case Over(rest) => Got(Text(h, {}), rest)
    case Onward(out, taken, rest) => Mark(taken, ReadBody(p, rest, lit, dist, out))
  }

  // ---------- dynamic headers

  /** One operation of the code length code on the lengths read so far. */
  ghost function ReadOp(bits: Bitstring, code: seq<nat>, acc: seq<nat>): (r: Read<seq<nat>>)
    ensures r.Got? ==> |r.rest| <= |bits| && |acc| < |r.value|
  {
    var s := AnySymbol(bits, code);
    if s.Bad? || s.value > 18 || (s.value == 16 && acc == []) then Bad
    else if s.value < 16 then Got(acc + [s.value], s.rest)
    else
      var x := Field(s.rest, ExtraBits(s.value));
      if x.Bad? then Bad else Got(acc + Repeats(acc, s.value, x.value), x.rest)
  }

  /** The lengths that a repeat operation adds. */
  function Repeats(acc: seq<nat>, sym: nat, x: nat): (r: seq<nat>)
    requires sym == 16 ==> acc != []
    ensures |r| >= 3
  {
    if sym == 16 then Repeated(acc[|acc| - 1], 3 + x) else if sym == 17 then Repeated(0, 3 + x) else Repeated(0, 11 + x)
  }

  datatype Lengths = Lengths(lens: seq<nat>, taken: set<Liberty>)

  /** The code lengths of both alphabets in one sequence. */
  ghost function ReadLengths(bits: Bitstring, code: seq<nat>, n: nat, acc: seq<nat>): (r: Read<Lengths>)
    ensures r.Got? ==> |r.rest| <= |bits| && |r.value.lens| == n
    decreases if |acc| <= n then n - |acc| else 0
  {
    if |acc| == n then Got(Lengths(acc, {}), bits)
    else if |acc| > n then Bad
    else
      var op := ReadOp(bits, code, acc);
      if op.Bad? || |op.value| > n then Bad else
      var more := ReadLengths(op.rest, code, n, op.value);
      if more.Bad? then Bad else Got(Lengths(more.value.lens, Slack(bits, code) + more.value.taken), more.rest)
  }

  /** The body behind the lengths. */
  ghost function LengthsThen(p: Port, numLit: nat, numDist: nat, code: seq<nat>, acc: seq<nat>, bits: Bitstring, h: seq<Byte>): (r: Read<Text>)
    ensures r.Got? ==> |r.rest| <= |bits|
  {
    var l := ReadLengths(bits, code, numLit + numDist, acc);
    if l.Bad? then Bad else
    var lens := l.value.lens;
    if !Acceptable(lens[..numLit]) || !Acceptable(lens[numLit..]) then Bad
    else Mark(l.value.taken, ReadBody(p, l.rest, lens[..numLit], lens[numLit..], h))
  }

  ghost function CodeLensThen(p: Port, numLit: nat, numDist: nat, n: nat, i: nat, code: seq<nat>, bits: Bitstring, h: seq<Byte>): (r: Read<Text>)
    requires n <= NUM_LENGTH_SYMBOLS == |code|
    ensures r.Got? ==> |r.rest| <= |bits|
  {
    var c := CodeLengthCode(bits, n, i, code);
    if c.Bad? || !Acceptable(c.value) then Bad else LengthsThen(p, numLit, numDist, c.value, [], c.rest, h)
  }

  /** `s_min_table_sizes`. */
  function MinSize(i: nat): nat { if i == 0 then 257 else if i == 1 then 1 else 4 }

  /** The numbers of a dynamic header, and what follows. */
  ghost function SizesThen(p: Port, sizes: seq<nat>, bits: Bitstring, h: seq<Byte>): (r: Read<Text>)
    requires |sizes| <= 3
    ensures r.Got? ==> |r.rest| <= |bits|
    decreases 3 - |sizes|
  {
    if |sizes| == 3 then
      if sizes[2] > NUM_LENGTH_SYMBOLS then Bad
      else CodeLensThen(p, sizes[0], sizes[1], sizes[2], 0, Repeated(0, NUM_LENGTH_SYMBOLS), bits, h)
    else
      var x := Field(bits, if |sizes| == 2 then 4 else 5);
      if x.Bad? then Bad else SizesThen(p, sizes + [x.value + MinSize(|sizes|)], x.rest, h)
  }

  // ---------- stored data

  function RawBytes(bits: Bitstring, n: nat, h: seq<Byte>): (r: Read<Text>)
    ensures r.Got? ==> |r.rest| <= |bits|
  {
    if |bits| < 8 * n then Bad else Got(Text(h + BytesOf(bits, n), {}), bits[8 * n..])
  }

  function StoredHeader(raw: seq<nat>, bits: Bitstring, h: seq<Byte>): (r: Read<Text>)
    requires |raw| <= 4
    ensures r.Got? ==> |r.rest| <= |bits|
    decreases 4 - |raw|
  {
    if |raw| == 4 then
      if raw[0] + 256 * raw[1] + (raw[2] + 256 * raw[3]) != 0xFFFF then Bad else RawBytes(bits, raw[0] + 256 * raw[1], h)
    else
      var x := Field(bits, 8);
      if x.Bad? then Bad else StoredHeader(raw + [x.value], x.rest, h)
  }

  // ---------- blocks and streams

  ghost function ReadBlock(p: Port, kind: nat, bits: Bitstring, h: seq<Byte>): (r: Read<Text>)
    ensures r.Got? ==> |r.rest| <= |bits|
  {
    if kind == 0 then StoredHeader([], Aligned(bits), h)
    else if kind == 1 then ReadBody(p, bits, FixedLit(), FixedDist(), h)
    else if kind == 2 then SizesThen(p, [], bits, h)
    else Bad
  }

  /** All blocks up to the final one. */
  ghost function ReadBlocks(p: Port, bits: Bitstring, h: seq<Byte>): (r: Read<Text>)
    ensures r.Got? ==> |r.rest| <= |bits|
    decreases |bits|
  {
    var head := Field(bits, 3);
    if head.Bad? then Bad else
    var body := ReadBlock(p, head.value / 2, head.rest, h);
    if body.Bad? || head.value % 2 == 1 then body else Mark(body.value.taken, ReadBlocks(p, body.rest, body.value.out))
  }

  /** The source's test of the window size, for a ring. */
  predicate BadWindow(cmf: nat, size: nat) { Pow2(8 + cmf / 16) > 32768 || size < Pow2(8 + cmf / 16) }

  function WindowTaken(cmf: nat): set<Liberty> { if cmf / 16 > 7 then {WideWindow} else {} }

  /** The zlib header, and the blocks behind it. The window size is only looked at for a ring. */
  ghost function WrapThen(p: Port, hdr: seq<nat>, bits: Bitstring, h: seq<Byte>): (r: Read<Text>)
    requires |hdr| <= 2
    decreases 2 - |hdr|
  {
    if |hdr| == 2 then
      if !GoodCheck(hdr[0], hdr[1]) || (p.room.wraps && BadWindow(hdr[0], |p.room.init|)) then Bad
      else Mark(WindowTaken(hdr[0]), ReadBlocks(p, bits, h))
    else
      var x := Field(bits, 8);
      if x.Bad? then Bad else WrapThen(p, hdr + [x.value], x.rest, h)
  }

  /** What a stream stands for: the data, the checksum behind it, and the liberties taken. */
  datatype Unpacked = Unpacked(out: seq<Byte>, check: nat, taken: set<Liberty>)

  /** The checksum's bytes, highest first, into a 32-bit number. */
  ghost function Trailing(n: nat, acc: nat, bits: Bitstring, t: Text): Read<Unpacked> {
    if n == 0 then Got(Unpacked(t.out, acc, t.taken), bits)
    else
      var x := Field(bits, 8);
      if x.Bad? then Bad else Trailing(n - 1, Wrap32(acc * 256 + x.value), x.rest, t)
  }

  function TrailerSize(zlib: bool): nat { if zlib then 4 else 0 }

  /** The checksum that starts at the next byte after the last block. */
  ghost function Ended(p: Port, r: Read<Text>): Read<Unpacked> {
    if r.Bad? then Bad else Trailing(TrailerSize(p.zlib), 1, Aligned(r.rest), r.value)
  }

  /** What the code takes a whole stream for. */
  ghost function StandsFor(p: Port, bits: Bitstring): Read<Unpacked> {
    Ended(p, if p.zlib then WrapThen(p, [], bits, []) else ReadBlocks(p, bits, []))
  }
}
