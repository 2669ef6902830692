/** Bit strings. A Deflate stream is a `seq<bool>`: bytes in order, and in each byte the least
    significant bit first (section 3.1.1 of RFC 1951). Plain fields are sent least significant
    bit first, Huffman codes most significant bit first. */
module Bits {
  type Byte = b: int | 0 <= b < 256
  type Bitstring = seq<bool>

  const MAX_WORD32 := 0x1_0000_0000

  /** A number kept in 32 bits. */
  function Wrap32(n: nat): (r: nat)
    ensures r < MAX_WORD32
  {
    n % MAX_WORD32
  }

  function Pow2(n: nat): (p: nat)
    ensures p >= 1
  {
    if n == 0 then 1 else 2 * Pow2(n - 1)
  }

  /** The `n` low bits of `v`, least significant first. */
  function Lsb(v: nat, n: nat): (bs: Bitstring)
    ensures |bs| == n
  {
    if n == 0 then [] else [v % 2 == 1] + Lsb(v / 2, n - 1)
  }

  /** The number that a bit string denotes when its first bit is the least significant. */
  function Val(bs: Bitstring): nat {
    if bs == [] then 0 else (if bs[0] then 1 else 0) + 2 * Val(bs[1..])
  }

  /** The `n` low bits of `v`, most significant first: how a Huffman code is sent. */
  function Msb(v: nat, n: nat): (bs: Bitstring)
    ensures |bs| == n
  {
    if n == 0 then [] else Msb(v / 2, n - 1) + [v % 2 == 1]
  }

  /** The number that a bit string denotes when its first bit is the most significant. */
  function MsbVal(bs: Bitstring): nat {
    if bs == [] then 0 else 2 * MsbVal(bs[..|bs| - 1]) + (if bs[|bs| - 1] then 1 else 0)
  }

  /** `v` shifted right by `k`. */
  function Shr(v: nat, k: nat): nat {
    if k == 0 then v else Shr(v / 2, k - 1)
  }

  /** The bits of a byte string, in stream order. */
  function ByteBits(bytes: seq<Byte>): (bs: Bitstring)
    ensures |bs| == 8 * |bytes|
  {
    if bytes == [] then [] else ByteBits(bytes[..|bytes| - 1]) + Lsb(bytes[|bytes| - 1], 8)
  }

  lemma {:induction false} ValLsb(v: nat, n: nat)
    requires v < Pow2(n)
    ensures Val(Lsb(v, n)) == v
  {
    if n > 0 {
      ValLsb(v / 2, n - 1);
      assert Lsb(v, n)[1..] == Lsb(v / 2, n - 1);
    }
  }

  lemma {:induction false} LsbVal(bs: Bitstring)
    ensures Val(bs) < Pow2(|bs|)
    ensures Lsb(Val(bs), |bs|) == bs
  {
    if bs != [] {
      LsbVal(bs[1..]);
    }
  }

  /** Appending the bits of `b` above the `m` bits of `a`: the step `buffer |= b << bits_in`. */
  lemma {:induction false} LsbAppend(a: nat, m: nat, b: nat, n: nat)
    requires a < Pow2(m)
    ensures Lsb(a + b * Pow2(m), m + n) == Lsb(a, m) + Lsb(b, n)
  {
    if m > 0 {
      var p := b * Pow2(m - 1);
      assert a + b * Pow2(m) == a + 2 * p;
      LsbAppend(a / 2, m - 1, b, n);
      assert (a + 2 * p) / 2 == a / 2 + p && (a + 2 * p) % 2 == a % 2;
      assert Lsb(a, m) + Lsb(b, n) == [a % 2 == 1] + (Lsb(a / 2, m - 1) + Lsb(b, n));
    } else {
      assert Lsb(a, 0) + Lsb(b, n) == Lsb(b, n);
    }
  }

  /** The low `m` bits and the rest: the step `buffer >>= m`. */
  lemma {:induction false} LsbSplit(v: nat, m: nat, n: nat)
    ensures Lsb(v, m + n) == Lsb(v, m) + Lsb(Shr(v, m), n)
  {
    if m > 0 {
      LsbSplit(v / 2, m - 1, n);
    } else {
      assert Lsb(v, 0) + Lsb(v, n) == Lsb(v, n);
    }
  }

  lemma {:induction false} LsbMod(v: nat, n: nat)
    ensures Lsb(v % Pow2(n), n) == Lsb(v, n)
  {
    if n > 0 {
      DivMod2(v, Pow2(n - 1));
      LsbMod(v / 2, n - 1);
    }
  }

  lemma DivMod2(v: nat, p: nat)
    requires p >= 1
    ensures v % (2 * p) == v % 2 + 2 * ((v / 2) % p)
    ensures v / (2 * p) == (v / 2) / p
  {
    var q, r := (v / 2) / p, (v / 2) % p;
    assert v == 2 * (q * p + r) + v % 2;
    assert v == q * (2 * p) + (2 * r + v % 2);
    DivUnique(v, 2 * p, q, 2 * r + v % 2);
  }

  lemma DivUnique(v: nat, d: nat, q: nat, r: nat)
    requires 0 <= r < d && v == q * d + r
    ensures v / d == q && v % d == r
  {
    var q', r' := v / d, v % d;
    assert (q - q') * d == r' - r;
    if q - q' >= 1 {
      MulMono(1, q - q', d);
    } else if q - q' <= -1 {
      MulMono(1, q' - q, d);
    }
  }

  lemma MulMono(a: nat, b: nat, d: nat)
    requires a <= b
    ensures a * d <= b * d
  {
  }

  lemma {:induction false} ShrDiv(v: nat, k: nat)
    ensures Shr(v, k) == v / Pow2(k)
  {
    if k > 0 {
      ShrDiv(v / 2, k - 1);
      DivMod2(v, Pow2(k - 1));
    }
  }

  lemma {:induction false} ShrBound(v: nat, k: nat, n: nat)
    requires v < Pow2(k + n)
    ensures Shr(v, k) < Pow2(n)
  {
    if k > 0 {
      ShrBound(v / 2, k - 1, n);
    }
  }

  lemma {:induction false} ShrStep(v: nat, k: nat)
    ensures Shr(v, k + 1) == Shr(v, k) / 2
  {
    if k > 0 {
      ShrStep(v / 2, k - 1);
    }
  }

  lemma {:induction false} MsbValMsb(v: nat, n: nat)
    requires v < Pow2(n)
    ensures MsbVal(Msb(v, n)) == v
  {
    if n > 0 {
      MsbValMsb(v / 2, n - 1);
      assert Msb(v, n)[..n - 1] == Msb(v / 2, n - 1);
    }
  }

  lemma {:induction false} MsbMsbVal(bs: Bitstring)
    ensures MsbVal(bs) < Pow2(|bs|)
    ensures Msb(MsbVal(bs), |bs|) == bs
  {
    if bs != [] {
      MsbMsbVal(bs[..|bs| - 1]);
    }
  }

  /** The first `k` bits of a code are the code shifted right. */
  lemma {:induction false} MsbPrefix(v: nat, n: nat, k: nat)
    requires k <= n
    ensures Msb(v, n)[..k] == Msb(Shr(v, n - k), k)
  {
    if k < n {
      MsbPrefix(v / 2, n - 1, k);
      assert Msb(v, n)[..k] == Msb(v / 2, n - 1)[..k];
    }
  }

  lemma {:induction false} ByteBitsAppend(a: seq<Byte>, b: seq<Byte>)
    ensures ByteBits(a + b) == ByteBits(a) + ByteBits(b)
  {
    if b == [] {
      assert a + b == a;
    } else {
      var c := b[..|b| - 1];
      assert (a + b)[..|a + b| - 1] == a + c;
      ByteBitsAppend(a, c);
    }
  }

  lemma {:induction false} Pow2Add(m: nat, n: nat)
    ensures Pow2(m + n) == Pow2(m) * Pow2(n)
  {
    if m > 0 {
      Pow2Add(m - 1, n);
    }
  }

  lemma {:induction false} Pow2Mono(m: nat, n: nat)
    requires m <= n
    ensures Pow2(m) <= Pow2(n)
  {
    if m < n {
      Pow2Mono(m, n - 1);
    }
  }
}
