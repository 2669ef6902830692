/** A whole stream: its zlib wrapping (section 2.2 of RFC 1950), and that what the flushes send
    decodes to the source. */
module StreamRoundTrip {
  import opened Bits
  import opened Canonical
  import opened Tokens
  import opened InflateSpec
  import opened BitWriter
  import opened BlockRoundTrip
  import opened Settings
  import opened FlushBlock
  import Adler32

  // ---------- the decoder of whole streams

  /** A big-endian number of `n` bytes. */
  function BigEndian(bits: Bitstring, n: nat, acc: nat): (r: Read<nat>)
    ensures r.Got? ==> |r.rest| + 8 * n == |bits|
  {
    if n == 0 then Got(acc, bits) else
    var x := Field(bits, 8);
    if x.Bad? then Bad else BigEndian(x.rest, n - 1, acc * 256 + x.value)
  }

  ghost function Unzlib(bits: Bitstring): Option<seq<Byte>> {
    var a := Field(bits, 8);
    if a.Bad? then None else
    var b := Field(a.rest, 8);
    if b.Bad? || !GoodWrap(a.value, b.value) then None else
    var data := Inflate(b.rest, []);
    if data.Bad? then None else
    var check := BigEndian(Aligned(data.rest), 4, 0);
    if check.Bad? || check.value != Adler32.Checksum(1, data.value) then None else Some(data.value)
  }

  /** The bytes that a stream stands for. */
  ghost function Decompress(bits: Bitstring, zlib: bool): Option<seq<Byte>> {
    if zlib then Unzlib(bits) else
    var data := Inflate(bits, []);
    if data.Bad? then None else Some(data.value)
  }

  // ---------- after every flush

  /** After `blocks` blocks the stream is the header and a body that decodes to `flushed`. */
  ghost predicate Streamed(stream: Bitstring, zlib: bool, blocks: nat, body: Bitstring, flushed: seq<Byte>) {
    && stream == Head(zlib && blocks > 0) + body && Means(false, body, |Head(zlib && blocks > 0)|, [], flushed)
    && (blocks == 0 ==> body == [] && flushed == [])
  }

  lemma StreamStart(zlib: bool)
    ensures Streamed([], zlib, 0, [], [])
  {
    hide Means;
    NothingMeans(0, []);
  }

  /** A flush in mid-stream. */
  lemma StreamFlush(stream: Bitstring, zlib: bool, blocks: nat, body: Bitstring, flushed: seq<Byte>, plan: Plan, flush: FlushKind, adler: nat,
                    ts: seq<Token>, data: seq<Byte>, all: Bitstring) returns (body': Bitstring)
    requires Streamed(stream, zlib, blocks, body, flushed) && flush != Finish
    requires AllApply(flushed, ts) && Expand(flushed, ts) == flushed + data
    requires FlushSends(stream, all, zlib && blocks == 0, plan, flush, zlib, adler, ts, data)
    ensures Streamed(all, zlib, blocks + 1, body', flushed + data)
  {
    hide Means, Possible, FlushBits, BlockPart, TailPart, AllApply, Expand, Lsb;
    var first := zlib && blocks == 0;
    var bits := BlockPart(|stream|, first, plan, flush, ts, data) + TailPart(|stream|, first, plan, flush, zlib, adler, ts, data);
    FlushParts(|stream|, first, plan, flush, zlib, adler, ts, data);
    FlushMeans(|stream|, first, plan, flush, zlib, adler, ts, data, flushed, bits);
    body' := body + bits;
    if blocks == 0 {
      assert stream == [] && body' == bits && stream + (Head(zlib) + bits) == Head(zlib) + bits;
    } else {
      MeansConcat(false, body, bits, body', |Head(zlib)|, [], flushed, flushed + data);
      assert Head(false) + bits == bits;
      assert stream + bits == Head(zlib) + body';
    }
  }

  // ---------- the end of the stream

  /** Shifting the top byte out of a 32-bit number. */
  lemma ShiftOut(top: nat, low: nat)
    requires top < 256 && low < 0x100_0000
    ensures (top * 0x100_0000 + low) * 256 % MAX_WORD32 == low * 256 && TopByte(top * 0x100_0000 + low) == top
  {
    DivUnique((top * 0x100_0000 + low) * 256, MAX_WORD32, top, low * 256);
    DivUnique(top * 0x100_0000 + low, 0x100_0000, top, low);
  }

  /** The number that four bytes make, highest first. */
  function Joined(a: nat, b: nat, c: nat, d: nat): nat { ((a * 256 + b) * 256 + c) * 256 + d }

  lemma SentBytes(a: nat, b: nat, c: nat, d: nat)
    requires a < 256 && b < 256 && c < 256 && d < 256
    ensures TopByte(Shifted(Joined(a, b, c, d), 0)) == a && TopByte(Shifted(Joined(a, b, c, d), 1)) == b
    ensures TopByte(Shifted(Joined(a, b, c, d), 2)) == c && TopByte(Shifted(Joined(a, b, c, d), 3)) == d
  {
    hide TopByte;
    var x := Joined(a, b, c, d);
    ShiftOut(a, Joined(0, b, c, d));
    assert Shifted(x, 1) == Joined(b, c, d, 0);
    ShiftOut(b, Joined(0, c, d, 0));
    assert Shifted(x, 2) == Joined(c, d, 0, 0);
    ShiftOut(c, Joined(0, d, 0, 0));
    assert Shifted(x, 3) == Joined(d, 0, 0, 0);
    ShiftOut(d, 0);
  }

  lemma Split(adler: nat) returns (a: nat, b: nat, c: nat, d: nat)
    requires adler < MAX_WORD32
    ensures a < 256 && b < 256 && c < 256 && d < 256 && adler == Joined(a, b, c, d)
  {
    a, b, c, d := adler / 0x100_0000, adler / 0x1_0000 % 256, adler / 0x100 % 256, adler % 256;
  }

  lemma OneByte(v: nat, rest: Bitstring, n: nat, acc: nat)
    requires v < 256 && n >= 1
    ensures BigEndian(Lsb(v, 8) + rest, n, acc) == BigEndian(rest, n - 1, acc * 256 + v)
  {
    EightBits();
    hide Lsb, Pow2, Field;
    FieldLsb(v, 8, rest);
  }

  lemma AdlerParts(adler: nat)
    ensures AdlerBits(adler) == Lsb(TopByte(Shifted(adler, 0)), 8) + (Lsb(TopByte(Shifted(adler, 1)), 8) +
            (Lsb(TopByte(Shifted(adler, 2)), 8) + (Lsb(TopByte(Shifted(adler, 3)), 8) + [])))
  {
    hide Lsb, Shifted, TopByte;
    assert AdlerBytes(adler, 1) == AdlerBytes(adler, 0) + Lsb(TopByte(Shifted(adler, 0)), 8);
    assert AdlerBytes(adler, 2) == AdlerBytes(adler, 1) + Lsb(TopByte(Shifted(adler, 1)), 8);
    assert AdlerBytes(adler, 3) == AdlerBytes(adler, 2) + Lsb(TopByte(Shifted(adler, 2)), 8);
    assert AdlerBytes(adler, 4) == AdlerBytes(adler, 3) + Lsb(TopByte(Shifted(adler, 3)), 8);
  }

  /** The checksum is read back as it was sent. */
  lemma ReadAdler(adler: nat)
    requires adler < MAX_WORD32
    ensures BigEndian(AdlerBits(adler), 4, 0) == Got(adler, [])
  {
    hide Lsb, BigEndian, Shifted, TopByte, AdlerBits;
    AdlerParts(adler);
    var a, b, c, d := Split(adler);
    SentBytes(a, b, c, d);
    var e: Bitstring := [];
    OneByte(a, Lsb(b, 8) + (Lsb(c, 8) + (Lsb(d, 8) + e)), 4, 0);
    OneByte(b, Lsb(c, 8) + (Lsb(d, 8) + e), 3, a);
    OneByte(c, Lsb(d, 8) + e, 2, a * 256 + b);
    OneByte(d, e, 1, (a * 256 + b) * 256 + c);
    NoBytesLeft(e, adler);
  }

  lemma NoBytesLeft(bits: Bitstring, acc: nat)
    ensures BigEndian(bits, 0, acc) == Got(acc, bits)
  {
  }

  /** The last flush leaves a stream of whole bytes that decodes to everything flushed. */
  lemma StreamEnd(stream: Bitstring, zlib: bool, blocks: nat, body: Bitstring, flushed: seq<Byte>, plan: Plan, adler: nat,
                  ts: seq<Token>, data: seq<Byte>, all: Bitstring)
    requires Streamed(stream, zlib, blocks, body, flushed) && adler < MAX_WORD32
    requires AllApply(flushed, ts) && Expand(flushed, ts) == flushed + data
    requires zlib ==> adler == Adler32.Checksum(1, flushed + data)
    requires FlushSends(stream, all, zlib && blocks == 0, plan, Finish, zlib, adler, ts, data)
    ensures |all| % 8 == 0 && Decompress(all, zlib) == Some(flushed + data)
  {
    hide Means, Possible, BlockPart, TailPart, AllApply, Expand, Lsb, Pad, AdlerBits, Inflate, Adler32.Checksum, Streamed, FlushSends,
      Decompress, Tail, Head;
    var first := zlib && blocks == 0;
    SendsFacts(stream, all, first, plan, Finish, zlib, adler, ts, data);
    var block := BlockPart(|stream|, first, plan, Finish, ts, data);
    var tail := TailPart(|stream|, first, plan, Finish, zlib, adler, ts, data);
    FlushMeans(|stream|, first, plan, Finish, zlib, adler, ts, data, flushed, block + tail);
    var whole, at := body + block, |stream| + |Head(first)| + |block|;
    LastBlock(stream, zlib, blocks, body, flushed, block, data);
    AllParts(stream, zlib, blocks, body, flushed, block, tail, all);
    TailIs(|stream|, first, plan, zlib, adler, ts, data);
    TailAligned(at, zlib, adler, tail);
    EndReached(whole, |Head(zlib)|, tail, flushed + data);
    StreamDecodes(whole, tail, at, zlib, adler, flushed + data, all);
  }

  lemma SendsFacts(before: Bitstring, after: Bitstring, first: bool, plan: Plan, flush: FlushKind, zlib: bool, adler: nat, ts: seq<Token>,
                   data: seq<Byte>)
    requires FlushSends(before, after, first, plan, flush, zlib, adler, ts, data)
    ensures Possible(plan, ts, data)
    ensures after == before + (Head(first) + (BlockPart(|before|, first, plan, flush, ts, data) +
                                              TailPart(|before|, first, plan, flush, zlib, adler, ts, data)))
  {
    hide Possible, FlushBits, BlockPart, TailPart, Head;
    FlushParts(|before|, first, plan, flush, zlib, adler, ts, data);
  }

  lemma TailIs(before: nat, first: bool, plan: Plan, zlib: bool, adler: nat, ts: seq<Token>, data: seq<Byte>)
    requires Possible(plan, ts, data)
    ensures TailPart(before, first, plan, Finish, zlib, adler, ts, data) ==
            Tail(Finish, zlib, adler, before + |Head(first)| + |BlockPart(before, first, plan, Finish, ts, data)|)
  {
    hide Possible, BlockPart, Tail, Head;
  }

  /** With the last block the body means the whole source. */
  lemma LastBlock(stream: Bitstring, zlib: bool, blocks: nat, body: Bitstring, flushed: seq<Byte>, block: Bitstring, data: seq<Byte>)
    requires Streamed(stream, zlib, blocks, body, flushed)
    requires Means(true, block, |stream| + |Head(zlib && blocks == 0)|, flushed, flushed + data)
    ensures Means(true, body + block, |Head(zlib)|, [], flushed + data)
  {
    hide Means, Lsb;
    if blocks == 0 {
      assert body + block == block && stream == [];
    } else {
      MeansConcat(true, body, block, body + block, |Head(zlib)|, [], flushed, flushed + data);
    }
  }

  lemma AllParts(stream: Bitstring, zlib: bool, blocks: nat, body: Bitstring, flushed: seq<Byte>, block: Bitstring, tail: Bitstring, all: Bitstring)
    requires Streamed(stream, zlib, blocks, body, flushed) && all == stream + (Head(zlib && blocks == 0) + (block + tail))
    ensures all == Head(zlib) + (body + block + tail)
    ensures |stream| + |Head(zlib && blocks == 0)| + |block| == |Head(zlib)| + |body + block|
  {
    hide Means, Lsb;
  }

  // ---------- behind a full flush

  /** From bit `cut` on, where a full flush ended, the stream decodes by itself to `data`. */
  ghost predicate Restarted(stream: Bitstring, cut: nat, data: seq<Byte>) {
    cut <= |stream| && cut % 8 == 0 && Means(false, stream[cut..], cut, [], data)
  }

  lemma RestartHere(stream: Bitstring)
    requires |stream| % 8 == 0
    ensures Restarted(stream, |stream|, [])
  {
    hide Means;
    assert stream[|stream|..] == [];
    NothingMeans(|stream|, []);
  }

  /** A flush in mid-stream. */
  lemma RestartFlush(stream: Bitstring, cut: nat, flushed: seq<Byte>, plan: Plan, flush: FlushKind, zlib: bool, adler: nat, ts: seq<Token>,
                     data: seq<Byte>, all: Bitstring)
    requires Restarted(stream, cut, flushed) && flush != Finish && AllApply(flushed, ts) && Expand(flushed, ts) == flushed + data
    requires FlushSends(stream, all, false, plan, flush, zlib, adler, ts, data)
    ensures Restarted(all, cut, flushed + data)
  {
    hide Means, Possible, FlushBits, BlockPart, TailPart, AllApply, Expand, Lsb, FlushSends;
    SendsFacts(stream, all, false, plan, flush, zlib, adler, ts, data);
    var bits := BlockPart(|stream|, false, plan, flush, ts, data) + TailPart(|stream|, false, plan, flush, zlib, adler, ts, data);
    FlushMeans(|stream|, false, plan, flush, zlib, adler, ts, data, flushed, bits);
    assert Head(false) + bits == bits;
    assert all[cut..] == stream[cut..] + bits;
    MeansConcat(false, stream[cut..], bits, all[cut..], cut, [], flushed, flushed + data);
  }

  /** The last flush. */
  lemma RestartEnd(stream: Bitstring, cut: nat, flushed: seq<Byte>, plan: Plan, zlib: bool, adler: nat, ts: seq<Token>, data: seq<Byte>,
                   all: Bitstring)
    requires Restarted(stream, cut, flushed) && AllApply(flushed, ts) && Expand(flushed, ts) == flushed + data
    requires FlushSends(stream, all, false, plan, Finish, zlib, adler, ts, data)
    ensures cut <= |all| && Decompress(all[cut..], false) == Some(flushed + data)
  {
    hide Means, Possible, BlockPart, TailPart, AllApply, Expand, Lsb, Pad, AdlerBits, Inflate, FlushSends, Tail;
    SendsFacts(stream, all, false, plan, Finish, zlib, adler, ts, data);
    var block := BlockPart(|stream|, false, plan, Finish, ts, data);
    var tail := TailPart(|stream|, false, plan, Finish, zlib, adler, ts, data);
    FlushMeans(|stream|, false, plan, Finish, zlib, adler, ts, data, flushed, block + tail);
    var whole := stream[cut..] + block;
    assert Head(false) + (block + tail) == block + tail;
    assert all[cut..] == whole + tail;
    MeansConcat(true, stream[cut..], block, whole, cut, [], flushed, flushed + data);
    TailIs(|stream|, false, plan, zlib, adler, ts, data);
    TailAligned(cut + |whole|, zlib, adler, tail);
    EndReached(whole, cut, tail, flushed + data);
  }

  lemma StreamDecodes(whole: Bitstring, tail: Bitstring, at: nat, zlib: bool, adler: nat, out: seq<Byte>, all: Bitstring)
    requires Inflate(whole + tail, []) == Got(out, tail) && tail == Tail(Finish, zlib, adler, at) && adler < MAX_WORD32
    requires (at + |tail|) % 8 == 0 && at == |Head(zlib)| + |whole| && all == Head(zlib) + (whole + tail)
    requires zlib ==> adler == Adler32.Checksum(1, out) && Aligned(tail) == AdlerBits(adler)
    ensures |all| % 8 == 0 && Decompress(all, zlib) == Some(out)
  {
    hide Lsb, Pad, AdlerBits, Inflate, Adler32.Checksum, Tail;
    if zlib {
      WrapDecodes(whole + tail, tail, at, adler, out, all);
    } else {
      assert all == whole + tail;
    }
  }

  lemma EndReached(whole: Bitstring, at: nat, tail: Bitstring, out: seq<Byte>)
    requires Means(true, whole, at, [], out) && (at + |whole| + |tail|) % 8 == 0
    ensures Inflate(whole + tail, []) == Got(out, tail)
  {
    hide Inflate;
    assert Reaches(true, whole, tail, [], out);
  }

  lemma TailAligned(at: nat, zlib: bool, adler: nat, tail: Bitstring)
    requires tail == Tail(Finish, zlib, adler, at)
    ensures (at + |tail|) % 8 == 0 && (zlib ==> Aligned(tail) == AdlerBits(adler))
  {
    hide Pad, AdlerBytes;
    if zlib {
      var pad := Pad(at);
      assert |tail| % 8 == |pad| && tail[|pad|..] == AdlerBits(adler);
    }
  }

  lemma WrapDecodes(rest: Bitstring, tail: Bitstring, at: nat, adler: nat, out: seq<Byte>, all: Bitstring)
    requires Inflate(rest, []) == Got(out, tail) && tail == Tail(Finish, true, adler, at) && adler < MAX_WORD32
    requires adler == Adler32.Checksum(1, out) && all == Head(true) + rest
    ensures Unzlib(all) == Some(out)
  {
    EightBits();
    hide Lsb, Pow2, Field, Inflate, Aligned, Tail, AdlerBits, BigEndian, Adler32.Checksum;
    TailAligned(at, true, adler, tail);
    assert all == Lsb(0x78, 8) + (Lsb(0x01, 8) + rest);
    FieldLsb(0x78, 8, Lsb(0x01, 8) + rest);
    FieldLsb(0x01, 8, rest);
    ReadAdler(adler);
  }
}
