/** The compressor's output side: `TDEFL_PUT_BITS` with its bit buffer and bounded byte buffer. */
module BitWriter {
  import opened Bits

  /** The `n` buffered bits of `v` are the last ones of `all`. */
  ghost predicate Buffered(all: Bitstring, v: nat, n: nat) {
    n <= |all| && (|all| - n) % 8 == 0 && v < Pow2(n) && Lsb(v, n) == all[|all| - n..]
  }

  /** All but the last `held` bits of `all` are in the byte buffer, unless it is full. */
  ghost predicate Holds(buf: seq<Byte>, pos: nat, end: nat, all: Bitstring, held: nat) {
    && end + 16 <= |buf| && held <= |all|
    && var k := (|all| - held) / 8;
       if k < end then pos == k && ByteBits(buf[..pos]) == all[..|all| - held] else end <= pos <= |buf|
  }

  ghost predicate Written(buf: seq<Byte>, pos: nat, end: nat, all: Bitstring, v: nat, n: nat) {
    Buffered(all, v, n) && Holds(buf, pos, end, all, n)
  }

  /** Appended bits are disjoint from the buffered ones, so the source's `|` is an addition. */
  class Writer {
    const buf: array<Byte>
    var pos: nat         // m_pOutput_buf
    var end: nat         // m_pOutput_buf_end; 16 bytes of slack follow it
    var bitBuffer: nat
    var bitsIn: nat
    ghost var sent: Bitstring  // everything put since the buffer was last emptied, with the bits carried over

    ghost predicate Valid()
      reads this, buf
    {
      bitsIn < 8 && Written(buf[..], pos, end, sent, bitBuffer, bitsIn)
    }

    /** Nothing is lost while there is room. */
    predicate Fits() reads this { pos < end }

    constructor (size: nat)
      requires size >= 16
      ensures Valid() && fresh(buf) && sent == [] && pos == 0 && end == size - 16 && buf.Length == size
    {
      buf := new Byte[size](_ => 0);
      pos, end, bitBuffer, bitsIn, sent := 0, size - 16, 0, 0, [];
      new;
      assert ByteBits(buf[..0]) == [];
    }

    /** `TDEFL_PUT_BITS`. */
    method PutBits(b: nat, l: nat)
      requires Valid() && l <= 16 && b < Pow2(l)
      modifies this`pos, this`bitBuffer, this`bitsIn, this`sent, buf
      ensures Valid() && sent == old(sent) + Lsb(b, l)
      ensures pos >= old(pos) && forall k :: 0 <= k < old(pos) && k < buf.Length ==> buf[k] == old(buf[k])
    {
      hide Lsb, Pow2, Written;
      ghost var all := sent + Lsb(b, l);
      PutState(buf[..], pos, end, sent, bitBuffer, bitsIn, b, l, bitBuffer + b * Pow2(bitsIn));
      bitBuffer := bitBuffer + b * Pow2(bitsIn);
      bitsIn := bitsIn + l;
      assert bitBuffer < MAX_WORD32;
      while bitsIn >= 8
        invariant Written(buf[..], pos, end, all, bitBuffer, bitsIn)
        invariant pos >= old(pos) && forall k :: 0 <= k < old(pos) && k < buf.Length ==> buf[k] == old(buf[k])
      {
        ghost var before := buf[..];
        ByteOut(before, pos, end, all, bitBuffer, bitsIn);
        if pos < end {
          var byte: Byte := bitBuffer % 256;
          buf[pos] := byte;
          assert buf[..] == before[pos := byte];
          pos := pos + 1;
        }
        bitBuffer := bitBuffer / 256;
        bitsIn := bitsIn - 8;
      }
      sent := all;
    }

    /** Back to the start of the buffer; the bits not yet written stay buffered. */
    method Start()
      requires Valid()
      modifies this`pos, this`sent
      ensures Valid() && sent == Lsb(bitBuffer, bitsIn) && |sent| == bitsIn && pos == 0
    {
      CarriedOver(buf[..], pos, end, sent, bitBuffer, bitsIn);
      pos := 0;
      sent := Lsb(bitBuffer, bitsIn);
    }

    /** Forgetting what was put since the state was saved. */
    method Rewind(savedPos: nat, savedBuffer: nat, savedBits: nat, ghost savedSent: Bitstring)
      requires Written(buf[..], savedPos, end, savedSent, savedBuffer, savedBits) && savedBits < 8
      modifies this`pos, this`bitBuffer, this`bitsIn, this`sent
      ensures Valid() && sent == savedSent && pos == savedPos && bitBuffer == savedBuffer && bitsIn == savedBits
    {
      pos, bitBuffer, bitsIn, sent := savedPos, savedBuffer, savedBits, savedSent;
    }

    /** Zero bits up to the next byte. */
    method PadToByte()
      requires Valid()
      modifies this`pos, this`bitBuffer, this`bitsIn, this`sent, buf
      ensures Valid() && sent == old(sent) + Pad(|old(sent)|)
      ensures pos >= old(pos) && forall k :: 0 <= k < old(pos) && k < buf.Length ==> buf[k] == old(buf[k])
    {
      hide Lsb, Pow2, Written;
      BitsInIs(buf[..], pos, end, sent, bitBuffer, bitsIn);
      if bitsIn > 0 {
        PutBits(0, 8 - bitsIn);
      } else {
        assert sent + [] == sent;
      }
    }
  }

  /** Zero bits up to the next byte, after `n` bits. */
  function Pad(n: nat): (p: Bitstring)
    ensures |p| < 8 && (n + |p|) % 8 == 0
  {
    if n % 8 == 0 then [] else Lsb(0, 8 - n % 8)
  }

  lemma BitsInIs(buf: seq<Byte>, pos: nat, end: nat, all: Bitstring, v: nat, n: nat)
    requires Written(buf, pos, end, all, v, n) && n < 8
    ensures n == |all| % 8 && 0 < Pow2(8 - n)
  {
  }

  lemma CarriedOver(buf: seq<Byte>, pos: nat, end: nat, all: Bitstring, v: nat, n: nat)
    requires Written(buf, pos, end, all, v, n) && n < 8
    ensures Written(buf, 0, end, Lsb(v, n), v, n)
  {
    var bits := Lsb(v, n);
    assert bits[0..] == bits && bits[..0] == [] && buf[..0] == [];
  }

  lemma SmallBuffer(v: nat, n: nat)
    requires v < Pow2(n) && n < 24
    ensures v < MAX_WORD32
  {
    Pow2Mono(n, 24);
    assert Pow2(8) == 256;
    Pow2Add(8, 8);
    Pow2Add(16, 8);
  }

  lemma PutState(buf: seq<Byte>, pos: nat, end: nat, sent: Bitstring, v: nat, n: nat, b: nat, l: nat, w: nat)
    requires b < Pow2(l) && n < 8 && l <= 16 && Written(buf, pos, end, sent, v, n) && w == v + b * Pow2(n)
    ensures w < MAX_WORD32 && Written(buf, pos, end, sent + Lsb(b, l), w, n + l)
  {
    hide Lsb, Pow2, Holds, Written;
    Gather(buf, pos, end, sent, v, n, b, l);
    WrittenSmall(buf, pos, end, sent + Lsb(b, l), w, n + l);
  }

  lemma WrittenSmall(buf: seq<Byte>, pos: nat, end: nat, all: Bitstring, v: nat, n: nat)
    requires n < 24 && Written(buf, pos, end, all, v, n)
    ensures v < MAX_WORD32
  {
    hide Lsb, Pow2, Holds;
    SmallBuffer(v, n);
  }

  lemma Room(v: nat, b: nat, p: nat, q: nat)
    requires v < p && b < q
    ensures v + b * p < p * q
  {
    MulMono(b + 1, q, p);
    assert (b + 1) * p == b * p + p;
  }

  /** One byte of the bit buffer goes out, or is dropped when the buffer is full. */
  lemma ByteOut(buf: seq<Byte>, pos: nat, end: nat, all: Bitstring, v: nat, n: nat)
    requires 8 <= n && Written(buf, pos, end, all, v, n)
    ensures pos < end ==> pos < |buf| && Written(buf[pos := (v % 256) as Byte], pos + 1, end, all, v / 256, n - 8)
    ensures pos >= end ==> Written(buf, pos, end, all, v / 256, n - 8)
  {
    hide Lsb, Pow2, ByteBits, Val;
    ShiftByte(v, n);
    var k := |all| - n;
    assert all[k..][8..] == all[k + 8..] && all[k..][..8] == all[k..k + 8];
    if pos < end {
      ByteBitsSnoc(buf, pos, (v % 256) as Byte);
      assert all[..k + 8] == all[..k] + all[k..k + 8];
    }
  }

  lemma ByteBitsSnoc(buf: seq<Byte>, pos: nat, byte: Byte)
    requires pos < |buf|
    ensures ByteBits(buf[pos := byte][..pos + 1]) == ByteBits(buf[..pos]) + Lsb(byte, 8)
  {
    hide Lsb;
    var t := buf[pos := byte][..pos + 1];
    assert t[..|t| - 1] == buf[..pos];
  }

  lemma ShiftByte(v: nat, n: nat)
    requires 8 <= n && v < Pow2(n)
    ensures v / 256 < Pow2(n - 8) && Lsb(v / 256, n - 8) == Lsb(v, n)[8..]
    ensures Lsb(v % 256, 8) == Lsb(v, n)[..8]
  {
    assert Pow2(8) == 256;
    hide Lsb, Pow2;
    LsbSplit(v, 8, n - 8);
    ShrDiv(v, 8);
    ShrBound(v, 8, n - 8);
    LsbMod(v, 8);
  }

  /** With room left, the bytes written and the bits still buffered are exactly what was sent. */
  lemma WriterContents(buf: seq<Byte>, pos: nat, end: nat, sent: Bitstring, v: nat, n: nat)
    requires Written(buf, pos, end, sent, v, n) && n < 8 && pos < end
    ensures ByteBits(buf[..pos]) + Lsb(v, n) == sent && pos == |sent| / 8 && n == |sent| % 8
  {
    assert sent == sent[..|sent| - n] + sent[|sent| - n..];
  }

  lemma LsbInjective(a: Byte, b: Byte)
    requires Lsb(a, 8) == Lsb(b, 8)
    ensures a == b
  {
    assert Pow2(8) == 256;
    ValLsb(a, 8);
    ValLsb(b, 8);
  }

  lemma {:induction false} ByteBitsInjective(a: seq<Byte>, b: seq<Byte>)
    requires ByteBits(a) == ByteBits(b)
    ensures a == b
  {
    hide Lsb;
    if a != [] {
      var x, y := a[..|a| - 1], b[..|b| - 1];
      assert |a| == |b|;
      assert ByteBits(x) == ByteBits(a)[..8 * |x|] && ByteBits(y) == ByteBits(b)[..8 * |x|];
      ByteBitsInjective(x, y);
      assert Lsb(a[|a| - 1], 8) == ByteBits(a)[8 * |x|..] && Lsb(b[|b| - 1], 8) == ByteBits(b)[8 * |x|..];
      LsbInjective(a[|a| - 1], b[|b| - 1]);
      assert a == x + [a[|a| - 1]] && b == y + [b[|b| - 1]];
    }
  }

  /** Two writers with room that were sent the same bits hold the same bytes and residual bits:
      whatever emitter was used, the output is the same. */
  lemma SameOutput(buf1: seq<Byte>, pos1: nat, v1: nat, n1: nat, buf2: seq<Byte>, pos2: nat, v2: nat, n2: nat, end: nat, all: Bitstring)
    requires Written(buf1, pos1, end, all, v1, n1) && Written(buf2, pos2, end, all, v2, n2) && n1 < 8 && n2 < 8 && |all| / 8 < end
    ensures pos1 == pos2 && buf1[..pos1] == buf2[..pos2] && v1 == v2 && n1 == n2
  {
    hide Lsb, Pow2, ByteBits;
    ValLsb(v1, n1);
    ValLsb(v2, n2);
    ByteBitsInjective(buf1[..pos1], buf2[..pos2]);
  }

  /** Rewinding and failing emitters rely on this: only the bytes below `pos` matter. */
  lemma SameBytes(buf: seq<Byte>, buf': seq<Byte>, pos: nat, end: nat, all: Bitstring, v: nat, n: nat)
    requires Written(buf, pos, end, all, v, n) && |buf'| == |buf|
    requires forall k :: 0 <= k < pos && k < |buf| ==> buf'[k] == buf[k]
    ensures Written(buf', pos, end, all, v, n)
  {
    hide Lsb, Pow2;
    if pos <= |buf| {
      assert buf'[..pos] == buf[..pos];
    }
  }

  // ---------- a 64-bit register

  const MAX_WORD64 := 0x1_0000_0000_0000_0000

  /** Bits put into a register that is stored later. */
  lemma Gather(buf: seq<Byte>, pos: nat, end: nat, all: Bitstring, v: nat, n: nat, b: nat, l: nat)
    requires Written(buf, pos, end, all, v, n) && b < Pow2(l)
    ensures Written(buf, pos, end, all + Lsb(b, l), v + b * Pow2(n), n + l)
  {
    hide Lsb, Pow2, ByteBits;
    Appended(all, v, n, b, l);
    assert (all + Lsb(b, l))[..|all| - n] == all[..|all| - n];
  }

  lemma Appended(all: Bitstring, v: nat, n: nat, b: nat, l: nat)
    requires Buffered(all, v, n) && b < Pow2(l)
    ensures Buffered(all + Lsb(b, l), v + b * Pow2(n), n + l)
  {
    hide Lsb, Pow2;
    LsbAppend(v, n, b, l);
    Pow2Add(n, l);
    Room(v, b, Pow2(n), Pow2(l));
    assert (all + Lsb(b, l))[|all| - n..] == all[|all| - n..] + Lsb(b, l);
  }

  lemma FitsRegister(buf: seq<Byte>, pos: nat, end: nat, all: Bitstring, v: nat, n: nat)
    requires Written(buf, pos, end, all, v, n) && n <= 64
    ensures v < MAX_WORD64
  {
    hide Lsb, Pow2, Holds;
    Pow2Mono(n, 64);
    Pow2Of64();
  }

  lemma Pow2Of64()
    ensures Pow2(64) == MAX_WORD64
  {
    assert Pow2(8) == 256;
    hide Pow2;
    Pow2Add(8, 8);
    Pow2Add(16, 16);
    Pow2Add(32, 32);
  }

  /** The bytes of a register, lowest first. */
  function LeBytes(v: nat, n: nat): (b: seq<Byte>)
    ensures |b| == n
  {
    if n == 0 then [] else LeBytes(v, n - 1) + [Shr(v, 8 * (n - 1)) % 256]
  }

  lemma {:induction false} LeBytesBits(v: nat, n: nat)
    ensures ByteBits(LeBytes(v, n)) == Lsb(v, 8 * n)
  {
    if n > 0 {
      var m := 8 * (n - 1);
      LeBytesBits(v, n - 1);
      LsbSplit(v, m, 8);
      assert Pow2(8) == 256;
      LsbMod(Shr(v, m), 8);
      assert LeBytes(v, n)[..n - 1] == LeBytes(v, n - 1);
    }
  }

  lemma {:induction false} LeBytesTake(v: nat, n: nat, m: nat)
    requires m <= n
    ensures LeBytes(v, n)[..m] == LeBytes(v, m)
  {
    hide Shr;
    if m < n {
      LeBytesTake(v, n - 1, m);
      assert LeBytes(v, n)[..m] == LeBytes(v, n - 1)[..m];
    }
  }

  /** An unaligned 8-byte store. */
  method StoreWord(buf: array<Byte>, pos: nat, v: nat)
    requires pos + 8 <= buf.Length && v < MAX_WORD64
    modifies buf
    ensures buf[pos..pos + 8] == LeBytes(v, 8)
    ensures forall k :: 0 <= k < buf.Length && !(pos <= k < pos + 8) ==> buf[k] == old(buf[k])
  {
    var i, rest := 0, v;
    while i < 8
      invariant 0 <= i <= 8 && rest == Shr(v, 8 * i) && buf[pos..pos + i] == LeBytes(v, i)
      invariant forall k :: 0 <= k < buf.Length && !(pos <= k < pos + 8) ==> buf[k] == old(buf[k])
    {
      ghost var before := buf[pos..pos + i];
      buf[pos + i] := rest % 256;
      assert buf[pos..pos + i + 1] == before + [buf[pos + i]];
      ShrDiv(v, 8 * i);
      ShrDiv(v, 8 * (i + 1));
      NextByte(v, i);
      rest := rest / 256;
      i := i + 1;
    }
  }

  lemma NextByte(v: nat, i: nat)
    ensures Shr(v, 8 * i) / 256 == Shr(v, 8 * (i + 1))
  {
    assert Pow2(8) == 256;
    ShrDiv(Shr(v, 8 * i), 8);
    ShrTwice(v, 8 * i, 8);
  }

  lemma {:induction false} ShrTwice(v: nat, a: nat, b: nat)
    ensures Shr(Shr(v, a), b) == Shr(v, a + b)
  {
    if a > 0 {
      ShrTwice(v / 2, a - 1, b);
    }
  }

  /** The whole bytes of the register go out with one store, even past the end of the buffer. */
  lemma Drain(buf: seq<Byte>, buf': seq<Byte>, pos: nat, end: nat, all: Bitstring, v: nat, n: nat)
    requires Written(buf, pos, end, all, v, n) && pos < end && n <= 64 && |buf'| == |buf|
    requires pos + 8 <= |buf| && buf'[..pos] == buf[..pos] && buf'[pos..pos + 8] == LeBytes(v, 8)
    ensures Written(buf', pos + n / 8, end, all, Shr(v, n / 8 * 8), n % 8)
  {
    hide Buffered, Holds, Lsb, Pow2, LeBytes, Shr;
    RegisterShift(all, v, n / 8 * 8, n % 8);
    StoredBytes(buf, buf', pos, end, all, v, n);
  }

  lemma RegisterShift(all: Bitstring, v: nat, m: nat, r: nat)
    requires Buffered(all, v, m + r) && m % 8 == 0
    ensures Buffered(all, Shr(v, m), r) && m + r <= |all| && (|all| - (m + r)) % 8 == 0
    ensures Lsb(v, m) == all[|all| - (m + r)..|all| - r]
  {
    hide Lsb, Pow2, Shr;
    RegisterSplit(v, m, r);
    var tail := all[|all| - (m + r)..];
    assert tail[m..] == all[|all| - r..] && tail[..m] == all[|all| - (m + r)..|all| - r];
  }

  lemma RegisterSplit(v: nat, m: nat, r: nat)
    requires v < Pow2(m + r)
    ensures Shr(v, m) < Pow2(r) && Lsb(v, m) == Lsb(v, m + r)[..m] && Lsb(Shr(v, m), r) == Lsb(v, m + r)[m..]
  {
    hide Lsb, Pow2, Shr;
    LsbSplit(v, m, r);
    ShrBound(v, m, r);
  }

  lemma StoredBytes(buf: seq<Byte>, buf': seq<Byte>, pos: nat, end: nat, all: Bitstring, v: nat, n: nat)
    requires Holds(buf, pos, end, all, n) && pos < end && n <= 64 && n <= |all| && (|all| - n) % 8 == 0
    requires |buf'| == |buf| && pos + 8 <= |buf| && buf'[..pos] == buf[..pos] && buf'[pos..pos + 8] == LeBytes(v, 8)
    requires Lsb(v, n / 8 * 8) == all[|all| - n..|all| - n % 8]
    ensures Holds(buf', pos + n / 8, end, all, n % 8)
  {
    hide Lsb, ByteBits, LeBytes;
    var m, k := n / 8, |all| - n;
    LeBytesTake(v, 8, m);
    LeBytesBits(v, m);
    assert buf'[..pos + m] == buf[..pos] + buf'[pos..pos + 8][..m];
    ByteBitsAppend(buf[..pos], LeBytes(v, m));
    assert all[..k] + all[k..k + 8 * m] == all[..k + 8 * m];
  }
}
