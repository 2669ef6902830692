/** Adler-32 (section 2.2 of RFC 1950) with the reduction put off to the end of 5552-byte blocks. */
module Adler32 {
  import opened Bits

  const BASE := 65521
  const BLOCK := 5552

  datatype Sums = Sums(a: nat, b: nat)

  // ---------- the definition, byte by byte

  function Step(s: Sums, byte: nat): Sums {
    Sums((s.a + byte) % BASE, (s.b + (s.a + byte) % BASE) % BASE)
  }

  function Fold(s: Sums, data: seq<Byte>): Sums {
    if data == [] then s else Step(Fold(s, data[..|data| - 1]), data[|data| - 1])
  }

  function Halves(adler: nat): Sums { Sums(adler % 65536, adler / 65536) }

  function Pack(s: Sums): nat { s.b * 65536 + s.a }

  /** The checksum of `data` continued from `adler`. */
  function Checksum(adler: nat, data: seq<Byte>): nat { Pack(Fold(Halves(adler), data)) }

  lemma {:induction false} FoldConcat(s: Sums, x: seq<Byte>, y: seq<Byte>)
    ensures Fold(s, x + y) == Fold(Fold(s, x), y)
  {
    if y == [] {
      assert x + y == x;
    } else {
      assert (x + y)[..|x + y| - 1] == x + y[..|y| - 1];
      FoldConcat(s, x, y[..|y| - 1]);
    }
  }

  lemma {:induction false} FoldBounded(s: Sums, data: seq<Byte>)
    requires s.a < 65536 && s.b < 65536
    ensures Fold(s, data).a < 65536 && Fold(s, data).b < 65536
  {
    if data != [] {
      FoldBounded(s, data[..|data| - 1]);
    }
  }

  /** Streamed updates equal one pass. */
  lemma ChecksumConcat(adler: nat, x: seq<Byte>, y: seq<Byte>)
    requires adler < MAX_WORD32
    ensures Checksum(adler, x) < MAX_WORD32 && Checksum(Checksum(adler, x), y) == Checksum(adler, x + y)
  {
    FoldBounded(Halves(adler), x);
    var s := Fold(Halves(adler), x);
    assert Halves(Pack(s)) == s;
    FoldConcat(Halves(adler), x, y);
  }

  // ---------- the closed form

  /** The sum of the bytes. */
  function ByteSum(data: seq<Byte>): nat {
    if data == [] then 0 else ByteSum(data[..|data| - 1]) + data[|data| - 1]
  }

  /** The sum of the bytes, each as often as there are bytes from it to the end. */
  function Weighted(data: seq<Byte>): nat {
    if data == [] then 0 else Weighted(data[..|data| - 1]) + ByteSum(data)
  }

  /** The two sums of section 2.2 of RFC 1950, over the whole text and modulo 65521. */
  lemma {:induction false} FoldClosed(data: seq<Byte>)
    ensures Fold(Sums(1, 0), data) == Sums((1 + ByteSum(data)) % 65521, (|data| + Weighted(data)) % 65521)
  {
    if data != [] {
      var n := |data| - 1;
      var x: nat := data[n];
      var a, b := 1 + ByteSum(data[..n]), n + Weighted(data[..n]);
      FoldClosed(data[..n]);
      ModAdd(a, x);
      ModAdd(a + x, b);
      ModAdd(b, (a + x) % BASE);
    }
  }

  /** The checksum that a text starts with. */
  lemma ChecksumClosed(data: seq<Byte>)
    ensures Checksum(1, data) == (|data| + Weighted(data)) % 65521 * 65536 + (1 + ByteSum(data)) % 65521
  {
    FoldClosed(data);
  }

  // ---------- sums without reduction

  function RawStep(s: Sums, byte: nat): Sums { Sums(s.a + byte, s.b + s.a + byte) }

  function Raw(s: Sums, data: seq<Byte>): Sums {
    if data == [] then s else RawStep(Raw(s, data[..|data| - 1]), data[|data| - 1])
  }

  function Reduced(s: Sums): Sums { Sums(s.a % BASE, s.b % BASE) }

  lemma ModAdd(x: nat, y: nat)
    ensures (x % BASE + y) % BASE == (x + y) % BASE && (y + x % BASE) % BASE == (x + y) % BASE
  {
    assert x == BASE * (x / BASE) + x % BASE;
    assert (x % BASE + y + BASE * (x / BASE)) % BASE == (x % BASE + y) % BASE;
  }

  lemma StepReduced(s: Sums, byte: nat)
    ensures Step(s, byte) == Reduced(RawStep(s, byte)) && Step(Reduced(s), byte) == Step(s, byte)
  {
    ModAdd(s.a + byte, s.b);
    ModAdd(s.a, byte);
    ModAdd(s.b, (s.a + byte) % BASE);
  }

  /** Reducing once at the end is reducing at every byte. */
  lemma {:induction false} RawFold(s: Sums, data: seq<Byte>)
    requires data != []
    ensures Fold(s, data) == Reduced(Raw(s, data)) && Fold(Reduced(s), data) == Fold(s, data)
  {
    hide Step, RawStep;
    var n := |data| - 1;
    if n == 0 {
      StepReduced(s, data[0]);
      assert data[..0] == [];
    } else {
      RawFold(s, data[..n]);
      StepReduced(Raw(s, data[..n]), data[n]);
      StepReduced(s, data[n]);
    }
  }

  function Triangle(n: nat): nat { n * (n + 1) / 2 }

  /** How large the sums of a block can get. */
  lemma {:induction false} RawBound(s: Sums, data: seq<Byte>)
    requires s.a <= 65535 && s.b <= 65535
    ensures Raw(s, data).a <= 65535 + 255 * |data|
    ensures Raw(s, data).b <= 65535 * (1 + |data|) + 255 * Triangle(|data|)
  {
    if data != [] {
      var n := |data| - 1;
      RawBound(s, data[..n]);
      assert (n + 1) * (n + 2) == n * (n + 1) + 2 * (n + 1);
    }
  }

  /** The bound is tight: 5552 bytes stay below 2^32 for any starting halves, whatever the bytes. */
  lemma BlockFits(s: Sums, data: seq<Byte>)
    requires s.a <= 65535 && s.b <= 65535 && |data| <= BLOCK
    ensures Raw(s, data).a < MAX_WORD32 && Raw(s, data).b <= 4294773495 < MAX_WORD32
  {
    RawBound(s, data);
    TriangleMono(|data|, BLOCK);
  }

  lemma TriangleMono(m: nat, n: nat)
    requires m <= n
    ensures Triangle(m) <= Triangle(n)
  {
    MulMono(m, n, m + 1);
    MulMono(m + 1, n + 1, n);
  }

  // ---------- the loop

  /** One byte: `s1 += *ptr++, s2 += s1`. */
  method AddByte(s: Sums, data: array<Byte>, ofs: nat, i: nat, n: nat, ghost start: Sums) returns (r: Sums)
    requires i < n <= BLOCK && ofs + n <= data.Length && start.a <= 65535 && start.b <= 65535
    requires s == Raw(start, data[ofs..ofs + i])
    ensures r == Raw(start, data[ofs..ofs + i + 1]) && r.a < MAX_WORD32 && r.b < MAX_WORD32
  {
    assert data[ofs..ofs + i + 1][..i] == data[ofs..ofs + i];
    BlockFits(start, data[ofs..ofs + i + 1]);
    var a: nat := s.a + data[ofs + i];
    r := Sums(a, s.b + a);
  }

  /** A block, eight bytes at a time while they last. */
  method AddBlock(s: Sums, data: array<Byte>, ofs: nat, n: nat) returns (r: Sums)
    requires n <= BLOCK && ofs + n <= data.Length && s.a <= 65535 && s.b <= 65535
    ensures r == Raw(s, data[ofs..ofs + n]) && r.a < MAX_WORD32 && r.b < MAX_WORD32
  {
    hide Raw;
    r := s;
    RawNone(s, data[ofs..ofs]);
    var i := 0;
    while i + 7 < n
      invariant 0 <= i <= n && r == Raw(s, data[ofs..ofs + i]) && r.a < MAX_WORD32 && r.b < MAX_WORD32
    {
      r := AddByte(r, data, ofs, i, n, s);
      r := AddByte(r, data, ofs, i + 1, n, s);
      r := AddByte(r, data, ofs, i + 2, n, s);
      r := AddByte(r, data, ofs, i + 3, n, s);
      r := AddByte(r, data, ofs, i + 4, n, s);
      r := AddByte(r, data, ofs, i + 5, n, s);
      r := AddByte(r, data, ofs, i + 6, n, s);
      r := AddByte(r, data, ofs, i + 7, n, s);
      i := i + 8;
    }
    while i < n
      invariant 0 <= i <= n && r == Raw(s, data[ofs..ofs + i]) && r.a < MAX_WORD32 && r.b < MAX_WORD32
    {
      r := AddByte(r, data, ofs, i, n, s);
      i := i + 1;
    }
  }

  lemma RawNone(s: Sums, data: seq<Byte>)
    requires data == []
    ensures Raw(s, data) == s
  {
  }

  /** Reducing after a block, even an empty one, leaves the rest of the sum as it was. */
  lemma AfterBlock(s: Sums, block: seq<Byte>, rest: seq<Byte>)
    requires block + rest != []
    ensures rest != [] ==> Fold(Reduced(Raw(s, block)), rest) == Fold(s, block + rest)
    ensures rest == [] ==> Reduced(Raw(s, block)) == Fold(s, block + rest)
  {
    FoldConcat(s, block, rest);
    if block == [] {
      assert block + rest == rest;
      RawFold(s, rest);
    } else {
      RawFold(s, block);
    }
  }

  /** The loop over the blocks: the first is the odd one, and may be empty. */
  method Sum(adler: nat, data: array<Byte>, ofs: nat, bufLen: nat) returns (r: nat)
    requires adler < MAX_WORD32 && ofs + bufLen <= data.Length
    ensures r == Checksum(adler, data[ofs..ofs + bufLen]) && r < MAX_WORD32
  {
    hide Fold, Raw, Reduced;
    var s := Sums(adler % 65536, adler / 65536);
    var left, block, end := bufLen, bufLen % BLOCK, ofs + bufLen;
    ghost var whole := Fold(s, data[ofs..end]);
    FoldBounded(s, data[ofs..end]);
    if bufLen == 0 { FoldNone(s, data[ofs..ofs]); }
    while left > 0
      invariant 0 <= left <= bufLen && s.a <= 65535 && s.b <= 65535 && left % BLOCK == block % BLOCK
      invariant block == BLOCK || block == left % BLOCK
      invariant if left > 0 then Fold(s, data[end - left..end]) == whole else s == whole
      decreases left, if block == BLOCK then 0 else 1
    {
      BlockLength(left, block);
      ghost var rest := data[end - left + block..end];
      assert data[end - left..end - left + block] + rest == data[end - left..end];
      var t := AddBlock(s, data, end - left, block);
      AfterBlock(s, data[end - left..end - left + block], rest);
      s := Sums(t.a % BASE, t.b % BASE);
      ReducedIs(t);
      left := left - block;
      block := BLOCK;
    }
    r := s.b * 65536 + s.a;
  }

  /** `mz_adler32` over the first `bufLen` bytes of `data`; a null pointer gives the initial value. */
  method Adler(adler: nat, data: array?<Byte>, bufLen: nat) returns (r: nat)
    requires adler < MAX_WORD32 && (data != null ==> bufLen <= data.Length)
    ensures data == null ==> r == 1
    ensures data != null ==> r == Checksum(adler, data[..bufLen]) && r < MAX_WORD32
  {
    if data == null { return 1; }
    r := Sum(adler, data, 0, bufLen);
    assert data[0..0 + bufLen] == data[..bufLen];
  }

  lemma BlockLength(left: nat, block: nat)
    requires left > 0 && left % BLOCK == block % BLOCK && (block == BLOCK || block == left % BLOCK)
    ensures block <= left && (left - block) % BLOCK == 0 && (block < BLOCK && block > 0 ==> left - block < left)
  {
  }

  lemma ReducedIs(t: Sums)
    ensures Reduced(t) == Sums(t.a % BASE, t.b % BASE)
  {
  }

  lemma FoldNone(s: Sums, data: seq<Byte>)
    requires data == []
    ensures Fold(s, data) == s
  {
  }
}
