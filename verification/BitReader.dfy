/** The inflater's input side: the bit buffer with its look-ahead, its suspensions and the bytes put
    back, for any chunking of the input. */
module BitReader {
  import opened Bits
  import opened Canonical
  import opened InflateSpec
  import opened Gaps
  import DecodeTable

  /** `v` holds the `n` bits of the stream from bit `decoded` on; `at` bytes were taken in. */
  ghost predicate LookAhead(whole: seq<Byte>, at: nat, v: nat, n: nat, decoded: nat) {
    && at <= |whole| && 8 * at == decoded + n && v < Pow2(n) && Lsb(v, n) == ByteBits(whole)[decoded..8 * at]
  }

  lemma {:induction false} ByteBitsAt(whole: seq<Byte>, i: nat)
    requires i < |whole|
    ensures ByteBits(whole)[8 * i..8 * (i + 1)] == Lsb(whole[i], 8)
    decreases |whole|
  {
    hide Lsb;
    var n := |whole| - 1;
    if i < n {
      ByteBitsAt(whole[..n], i);
      assert ByteBits(whole)[8 * i..8 * (i + 1)] == ByteBits(whole[..n])[8 * i..8 * (i + 1)];
    }
  }

  /** One more byte above the bits in the buffer. */
  lemma TakeByte(whole: seq<Byte>, at: nat, v: nat, n: nat, decoded: nat)
    requires LookAhead(whole, at, v, n, decoded) && at < |whole|
    ensures LookAhead(whole, at + 1, v + whole[at] * Pow2(n), n + 8, decoded)
  {
    hide Lsb, Pow2, ByteBits;
    EightIs();
    ByteBitsAt(whole, at);
    LsbAppend(v, n, whole[at], 8);
    Pow2Add(n, 8);
    Above(v, whole[at], Pow2(n), Pow2(8));
    var bits := ByteBits(whole);
    assert bits[decoded..8 * at] + bits[8 * at..8 * (at + 1)] == bits[decoded..8 * (at + 1)];
  }

  lemma EightIs()
    ensures Pow2(8) == 256
  {
  }

  lemma Above(v: nat, b: nat, p: nat, q: nat)
    requires v < p && b < q
    ensures v + b * p < p * q
  {
    MulMono(b + 1, q, p);
    assert (b + 1) * p == b * p + p;
  }

  /** `k` bits are used. */
  lemma DropBits(whole: seq<Byte>, at: nat, v: nat, n: nat, decoded: nat, k: nat)
    requires LookAhead(whole, at, v, n, decoded) && k <= n
    ensures LookAhead(whole, at, Shr(v, k), n - k, decoded + k)
    ensures decoded <= decoded + k <= |ByteBits(whole)| && Lsb(v, k) == ByteBits(whole)[decoded..decoded + k]
  {
    hide Lsb, Pow2, Shr, ByteBits;
    LsbSplit(v, k, n - k);
    ShrBound(v, k, n - k);
    var bits := ByteBits(whole);
    assert Lsb(v, n)[k..] == Lsb(Shr(v, k), n - k) && Lsb(v, n)[..k] == Lsb(v, k);
    Sub(bits, decoded, 8 * at, k);
  }

  lemma Sub(bits: Bitstring, i: nat, j: nat, k: nat)
    requires i + k <= j <= |bits|
    ensures bits[i..j][k..] == bits[i + k..j] && bits[i..j][..k] == bits[i..i + k]
  {
  }

  /** A whole byte of look-ahead is put back, and the buffer is masked. */
  lemma PutBackByte(whole: seq<Byte>, at: nat, v: nat, n: nat, decoded: nat)
    requires LookAhead(whole, at, v, n, decoded) && n >= 8
    ensures at >= 1 && LookAhead(whole, at - 1, Low(v, n - 8), n - 8, decoded)
  {
    hide Lsb, Pow2, ByteBits;
    LsbPart(v, n - 8, 8);
    LowIs(v, n - 8);
    var bits := ByteBits(whole);
    Sub(bits, decoded, 8 * at, n - 8);
  }

  /** The `n` low bits: `v & ((1 << n) - 1)`. */
  function Low(v: nat, n: nat): nat { v % Pow2(n) }

  lemma LowIs(v: nat, n: nat)
    ensures Low(v, n) < Pow2(n) && Lsb(Low(v, n), n) == Lsb(v, n)
  {
    LsbMod(v, n);
  }

  lemma LsbPart(v: nat, m: nat, n: nat)
    ensures Lsb(v, m + n)[..m] == Lsb(v, m)
  {
    LsbSplit(v, m, n);
  }

  const MAX_HELD := 61

  /** The bit buffer of `tinfl_decompressor`, over the input of the current call. */
  class Reader {
    var bitBuf: nat            // m_bit_buf
    var numBits: nat           // m_num_bits
    var filling: bool          // suspended inside TINFL_HUFF_BITBUF_FILL
    var input: seq<Byte>       // the input of this call
    var pos: nat               // pIn_buf_cur
    ghost var whole: seq<Byte> // the caller's whole input
    ghost var base: nat        // the bytes reported as consumed by earlier calls
    ghost var decoded: nat     // the bits of the stream decoded so far

    /** 8 times the bytes taken in, less the bits still held, is the number of bits decoded, and the
        buffer holds exactly the bits not yet decoded. They fit the 64-bit `tinfl_bit_buf_t`. */
    ghost predicate Valid()
      reads this
    {
      && pos <= |input| && base + |input| <= |whole| && whole[base..base + |input|] == input
      && numBits <= MAX_HELD && 8 * (base + pos) == decoded + numBits && LookAhead(whole, base + pos, bitBuf, numBits, decoded)
    }

    /** What is left of the stream. */
    ghost function Rest(): Bitstring
      requires Valid()
      reads this
    {
      ByteBits(whole)[decoded..]
    }

    constructor (whole: seq<Byte>)
      ensures Valid() && this.whole == whole && base == 0 && decoded == 0 && numBits == 0 && !filling && input == [] && pos == 0
    {
      bitBuf, numBits, filling, input, pos := 0, 0, false, [], 0;
      this.whole, base, decoded := whole, 0, 0;
    }

    /** The next chunk: the caller goes on where the last call stopped. */
    method NextCall(chunk: seq<Byte>)
      requires Valid() && base + pos + |chunk| <= |whole| && whole[base + pos..base + pos + |chunk|] == chunk
      modifies this`input, this`pos, this`base
      ensures Valid() && input == chunk && pos == 0 && base == old(base + pos) && Rest() == old(Rest())
    {
      base := base + pos;
      input, pos := chunk, 0;
    }

    /** A byte above the bits in the buffer. */
    method Load()
      requires Valid() && pos < |input| && numBits + 8 <= MAX_HELD
      modifies this`bitBuf, this`numBits, this`pos
      ensures Valid() && numBits == old(numBits) + 8 && pos == old(pos) + 1
    {
      hide LookAhead, Pow2;
      TakeByte(whole, base + pos, bitBuf, numBits, decoded);
      assert input[pos] == whole[base + pos];
      bitBuf := bitBuf + input[pos] * Pow2(numBits);
      numBits := numBits + 8;
      pos := pos + 1;
    }

    /** `k` bits of the buffer are used. */
    method Use(k: nat)
      requires Valid() && k <= numBits
      modifies this`bitBuf, this`numBits, this`decoded
      ensures Valid() && numBits == old(numBits) - k && decoded == old(decoded) + k
      ensures k <= |old(Rest())| && Rest() == old(Rest())[k..] && old(Rest())[..k] == Lsb(old(bitBuf), k)
    {
      hide LookAhead, Pow2, Lsb, ByteBits, Shr;
      DropBits(whole, base + pos, bitBuf, numBits, decoded, k);
      bitBuf := Shr(bitBuf, k);
      numBits := numBits - k;
      decoded := decoded + k;
    }

    /** `TINFL_NEED_BITS`: not enough input suspends the inflater. */
    method Need(n: nat) returns (ok: bool)
      requires Valid() && n <= 16
      modifies this`bitBuf, this`numBits, this`pos
      ensures Valid() && numBits >= old(numBits) && pos >= old(pos)
      ensures if ok then numBits >= n && (numBits < n + 8 || numBits == old(numBits)) else pos == |input| && numBits < n
      ensures decoded == old(decoded)
    {
      ok := true;
      while numBits < n
        invariant Valid() && numBits >= old(numBits) && pos >= old(pos)
        invariant numBits < n + 8 || numBits == old(numBits)
      {
        if pos >= |input| { return false; }
        Load();
      }
    }

    /** `TINFL_GET_BITS`. */
    method GetBits(n: nat) returns (ok: bool, b: nat)
      requires Valid() && n <= 16
      modifies this`bitBuf, this`numBits, this`pos, this`decoded
      ensures Valid() && pos >= old(pos)
      ensures ok ==> Field(old(Rest()), n) == Got(b, Rest()) && b < Pow2(n) && decoded == old(decoded) + n
      ensures ok ==> numBits < 8 || (numBits + n == old(numBits) && pos == old(pos))
      ensures !ok ==> pos == |input| && numBits < n && decoded == old(decoded) && Rest() == old(Rest())
      ensures !ok && base + |input| == |whole| ==> Field(Rest(), n).Bad?
    {
      hide LookAhead, Pow2, Lsb, ByteBits, Val;
      ok := Need(n);
      b := 0;
      if !ok {
        AllHeld(whole, base + pos, bitBuf, numBits, decoded);
      } else {
        b := Low(bitBuf, n);
        FieldIs(bitBuf, n);
        Use(n);
      }
    }

    /** `TINFL_SKIP_BITS` of bits that are there. */
    method SkipToByte()
      requires Valid()
      modifies this`bitBuf, this`numBits, this`decoded
      ensures Valid() && decoded >= old(decoded) && numBits % 8 == 0 && Rest() == Aligned(old(Rest())) && numBits <= old(numBits) && numBits + 8 > old(numBits)
    {
      hide LookAhead, Pow2, Lsb, ByteBits;
      AlignedHere(whole, base + pos, bitBuf, numBits, decoded);
      Use(numBits % 8);
    }

    /** `TINFL_GET_BYTE` with an empty bit buffer. */
    method GetByte() returns (ok: bool, c: nat)
      requires Valid() && numBits == 0
      modifies this`pos, this`decoded
      ensures Valid() && numBits == 0 && pos >= old(pos)
      ensures ok ==> Field(old(Rest()), 8) == Got(c, Rest()) && c < 256 && decoded == old(decoded) + 8
      ensures !ok ==> pos == |input| && decoded == old(decoded) && Rest() == old(Rest())
      ensures !ok && base + |input| == |whole| ==> Field(Rest(), 8).Bad?
    {
      hide Pow2, Lsb, ByteBits, Val;
      if pos >= |input| {
        AllHeld(whole, base + pos, bitBuf, numBits, decoded);
        return false, 0;
      }
      ByteHere(whole, base + pos);
      EmptyBuffer(whole, base + pos, bitBuf, decoded);
      c := input[pos];
      pos := pos + 1;
      decoded := decoded + 8;
      ok := true;
    }

    /** The stream's next symbol needs more bits than the buffer holds, and no way is left within it. */
    ghost predicate Short(lens: seq<nat>)
      requires Valid()
      reads this
    {
      && (Symbol(Rest(), lens).Got? ==> |Symbol(Rest(), lens).rest| + numBits < |Rest()|)
      && (forall d: nat :: Strays(lens, Rest(), d) ==> numBits < d)
    }

    /** `TINFL_HUFF_BITBUF_FILL`: bytes are taken in one by one, and no more than the next code needs. A
        suspended fill goes on with its next byte. */
    method Fill(t: DecodeTable.Table) returns (ok: bool, ghost len: nat)
      requires Valid() && t.Valid() && numBits < MAX_LEN && (filling ==> Short(t.lens))
      modifies this`bitBuf, this`numBits, this`pos, this`filling
      ensures Valid() && pos >= old(pos) && filling == !ok && (!ok ==> numBits < MAX_LEN && pos == |input| && Short(t.lens))
      ensures ok ==> numBits >= MAX_LEN || Sure(t, len)
    {
      hide LookAhead, Pow2, Lsb, ByteBits, DecodeTable.TableInv, DecodeTable.Ends, Symbol, DecodeTable.AtFront, AnySymbol, Strays, OnWay;
      var resumed := filling;
      filling := false;
      len := 0;
      while numBits < MAX_LEN
        invariant Valid() && pos >= old(pos) && !filling && (resumed ==> Short(t.lens))
        decreases |input| - pos
      {
        if !resumed {
          BufferBound(whole, base + pos, bitBuf, numBits, decoded);
          ghost var sym;
          ok, sym, len := t.Enough(bitBuf, numBits);
          if ok { return; }
          CodeLonger(t, whole, base + pos, bitBuf, numBits, decoded);
        }
        resumed := false;
        if pos >= |input| {
          filling := true;
          return false, 0;
        }
        Load();
      }
      ok := true;
    }

    /** The buffer holds all of what a lookup finds, in `len` bits. */
    ghost predicate Sure(t: DecodeTable.Table, len: nat)
      reads this, t, t.lookUp, t.tree
    {
      0 < len <= numBits && exists sym: nat :: DecodeTable.Ends(t.lookUp[..], t.tree[..], t.nodes, bitBuf, sym, len)
    }

    /** Bytes for the next symbol: two at once, or as many as it needs at the end of the input. */
    method Stock(t: DecodeTable.Table) returns (ok: bool, ghost len: nat)
      requires Valid() && t.Valid() && (filling ==> numBits < MAX_LEN && Short(t.lens))
      modifies this`bitBuf, this`numBits, this`pos, this`filling
      ensures Valid() && pos >= old(pos) && filling == !ok && numBits - 8 * pos == old(numBits - 8 * pos) && Rest() == old(Rest())
      ensures if ok then numBits >= MAX_LEN || Sure(t, len) else numBits < MAX_LEN && Short(t.lens) && pos == |input|
      ensures !ok && base + |input| == |whole| ==> AnySymbol(Rest(), t.lens).Bad?
    {
      hide LookAhead, Pow2, Lsb, ByteBits, DecodeTable.TableInv, DecodeTable.Ends, Symbol, DecodeTable.AtFront, AnySymbol, Strays, OnWay;
      ok, len := true, 0;
      if numBits < MAX_LEN {
        if filling || |input| - pos < 2 {
          ok, len := Fill(t);
          if !ok {
            AllHeld(whole, base + pos, bitBuf, numBits, decoded);
            NothingYet(t.lens, Rest(), numBits);
          }
        } else {
          Load();
          Load();
        }
      }
    }

    /** `TINFL_HUFF_DECODE`: the next symbol of the stream, as a lookup reads it. */
    method HuffDecode(t: DecodeTable.Table) returns (ok: bool, sym: nat)
      requires Valid() && t.Valid() && (filling ==> numBits < MAX_LEN && Short(t.lens))
      modifies this`bitBuf, this`numBits, this`pos, this`filling, this`decoded
      ensures Valid() && pos >= old(pos) && filling == !ok && (filling ==> numBits < MAX_LEN && Short(t.lens))
      ensures ok ==> AnySymbol(old(Rest()), t.lens) == Got(sym, Rest())
      ensures ok ==> (sym == 0 || sym < |t.lens|) && decoded >= old(decoded) && (decoded > old(decoded) || sym == 0)
      ensures ok && Symbol(old(Rest()), t.lens).Got? && (old(filling) || old(numBits) < 8 + 8 * old(pos)) ==> numBits < 8 + 8 * pos
      ensures !ok ==> pos == |input| && Rest() == old(Rest()) && decoded == old(decoded)
      ensures !ok && base + |input| == |whole| ==> AnySymbol(Rest(), t.lens).Bad?
    {
      hide LookAhead, Pow2, Lsb, ByteBits, DecodeTable.TableInv, DecodeTable.Ends, Symbol, DecodeTable.AtFront, AnySymbol, Strays, OnWay, Sure;
      SymbolFirst(Rest(), t.lens);
      ghost var len;
      ok, len := Stock(t);
      sym := 0;
      if ok { sym := Take(t, len); }
    }

    /** The lookup, and the bits of the code leave the buffer. */
    method Take(t: DecodeTable.Table, ghost sure: nat) returns (sym: nat)
      requires Valid() && t.Valid() && (numBits >= MAX_LEN || Sure(t, sure))
      modifies this`bitBuf, this`numBits, this`decoded
      ensures Valid() && AnySymbol(old(Rest()), t.lens) == Got(sym, Rest())
      ensures (sym == 0 || sym < |t.lens|) && decoded >= old(decoded) && (decoded > old(decoded) || sym == 0)
      ensures |Rest()| + decoded == old(|Rest()| + decoded) && decoded + numBits == old(decoded + numBits) && decoded <= old(decoded) + MAX_LEN
    {
      hide LookAhead, Pow2, Lsb, ByteBits, DecodeTable.TableInv, DecodeTable.Ends, Symbol, DecodeTable.AtFront, AnySymbol, Strays, OnWay;
      var len;
      sym, len := t.Decode(bitBuf);
      ghost var rest, held := Rest(), numBits;
      SymbolFirst(rest, t.lens);
      TakeFacts(t, bitBuf, numBits, sym, len, sure);
      HeldBits(whole, base + pos, bitBuf, numBits, decoded);
      if Symbol(rest, t.lens).Got? {
        FrontIs(t, bitBuf, numBits, rest, sym, len, sure);
      } else {
        GapIs(t, bitBuf, numBits, rest, sym, len, sure);
      }
      Use(len);
    }

    /** Whole bytes of look-ahead go back to the caller. */
    method PutBack()
      requires Valid()
      modifies this`bitBuf, this`numBits, this`pos
      ensures Valid() && pos <= old(pos) && (numBits < 8 || pos == 0) && Rest() == old(Rest())
      ensures numBits - 8 * pos == old(numBits - 8 * pos) && numBits <= old(numBits)
    {
      hide Pow2, Lsb, ByteBits, LookAhead, Low;
      while pos > 0 && numBits >= 8
        invariant Valid() && pos <= old(pos) && numBits - 8 * pos == old(numBits - 8 * pos) && numBits <= old(numBits)
      {
        PutBackByte(whole, base + pos, bitBuf, numBits, decoded);
        pos := pos - 1;
        numBits := numBits - 8;
        bitBuf := Low(bitBuf, numBits);
      }
    }
  }

  /** With no more than what is in the buffer there is no symbol. */
  lemma NothingYet(lens: seq<nat>, rest: Bitstring, n: nat)
    requires n < MAX_LEN && (Symbol(rest, lens).Got? ==> |Symbol(rest, lens).rest| + n < |rest|)
    requires forall d: nat :: Strays(lens, rest, d) ==> n < d
    ensures |rest| == n ==> AnySymbol(rest, lens).Bad?
  {
    hide Symbol, OnWay;
  }

  /** At the end of the input the buffer is all that is left. */
  lemma AllHeld(whole: seq<Byte>, at: nat, v: nat, n: nat, decoded: nat)
    requires LookAhead(whole, at, v, n, decoded)
    ensures decoded <= |ByteBits(whole)| && (at == |whole| ==> |ByteBits(whole)[decoded..]| == n)
  {
    hide Lsb, Pow2;
  }

  /** When a fill is not sure yet, the next code is longer than the buffer, and no way is left within it. */
  lemma CodeLonger(t: DecodeTable.Table, whole: seq<Byte>, at: nat, v: nat, n: nat, decoded: nat)
    requires LookAhead(whole, at, v, n, decoded)
    requires forall s: nat :: DecodeTable.AtFront(t.lens, v, s) ==> t.lens[s] > n
    requires forall d: nat :: !Strays(t.lens, Lsb(v, n), d)
    ensures decoded <= |ByteBits(whole)|
    ensures var rest := ByteBits(whole)[decoded..];
            (Symbol(rest, t.lens).Got? ==> |Symbol(rest, t.lens).rest| + n < |rest|) &&
            (forall d: nat :: Strays(t.lens, rest, d) ==> n < d)
  {
    hide Lsb, Pow2, Code, ByteBits, OnWay;
    HeldBits(whole, at, v, n, decoded);
    var rest := ByteBits(whole)[decoded..];
    if Symbol(rest, t.lens).Got? {
      var s := DecodeSym(t.lens, rest).value;
      assert Decodes(t.lens, rest, s);
      if t.lens[s] <= n {
        PrefixFront(t, v, n, rest, s);
      }
    }
    forall d: nat | Strays(t.lens, rest, d) ensures n < d {
      if d <= n { StrayHeld(t.lens, Lsb(v, n), rest, d); }
    }
  }

  lemma StrayHeld(lens: seq<nat>, held: Bitstring, rest: Bitstring, d: nat)
    requires held <= rest && Strays(lens, rest, d) && d <= |held|
    ensures Strays(lens, held, d)
  {
    hide OnWay;
    assert held[..d] == rest[..d] && held[..d - 1] == rest[..d - 1];
  }

  lemma BufferBound(whole: seq<Byte>, at: nat, v: nat, n: nat, decoded: nat)
    requires LookAhead(whole, at, v, n, decoded)
    ensures v < Pow2(n)
  {
  }

  lemma HeldBits(whole: seq<Byte>, at: nat, v: nat, n: nat, decoded: nat)
    requires LookAhead(whole, at, v, n, decoded)
    ensures decoded <= |ByteBits(whole)| && Lsb(v, n) <= ByteBits(whole)[decoded..]
  {
    hide Lsb, Pow2, ByteBits;
    assert ByteBits(whole)[decoded..][..n] == ByteBits(whole)[decoded..8 * at];
  }

  /** The bits found are in the buffer, and the symbol is one of the table's. */
  lemma TakeFacts(t: DecodeTable.Table, v: nat, n: nat, sym: nat, len: nat, sure: nat)
    requires t.Valid() && DecodeTable.Ends(t.lookUp[..], t.tree[..], t.nodes, v, sym, len)
    requires n >= MAX_LEN || (0 < sure <= n && exists s: nat :: DecodeTable.Ends(t.lookUp[..], t.tree[..], t.nodes, v, s, sure))
    ensures len <= n && len <= MAX_LEN && (sym == 0 || (sym < |t.lens| && len > 0)) && (n < MAX_LEN ==> len > 0)
  {
    hide DecodeTable.TableInv, DecodeTable.Ends, DecodeTable.AtFront;
    DecodeTable.EndsSound(t.lookUp[..], t.tree[..], t.nodes, t.lens, v, sym, len);
    EndsLength(t, v, sym, len);
    if n < MAX_LEN {
      var s: nat :| DecodeTable.Ends(t.lookUp[..], t.tree[..], t.nodes, v, s, sure);
      if len <= sure {
        DecodeTable.EndsUnique(t.lookUp[..], t.tree[..], t.nodes, t.lens, v, sym, len, s, sure);
      } else {
        DecodeTable.EndsUnique(t.lookUp[..], t.tree[..], t.nodes, t.lens, v, s, sure, sym, len);
      }
    }
  }

  lemma EndsLength(t: DecodeTable.Table, v: nat, sym: nat, len: nat)
    requires DecodeTable.Ends(t.lookUp[..], t.tree[..], t.nodes, v, sym, len)
    ensures len <= MAX_LEN
    ensures DecodeTable.AtFront(t.lens, v, sym) ==> sym < |t.lens| && t.lens[sym] > 0
  {
    hide DecodeTable.Entry, DecodeTable.HasSlot, Lsb;
  }

  /** When the stream has a next symbol, it is the one found. */
  lemma FrontIs(t: DecodeTable.Table, v: nat, n: nat, rest: Bitstring, sym: nat, len: nat, sure: nat)
    requires t.Valid() && DecodeTable.Ends(t.lookUp[..], t.tree[..], t.nodes, v, sym, len) && Lsb(v, n) <= rest
    requires n >= MAX_LEN || (0 < sure <= n && exists s: nat :: DecodeTable.Ends(t.lookUp[..], t.tree[..], t.nodes, v, s, sure))
    requires Symbol(rest, t.lens).Got?
    ensures len <= |rest| && Symbol(rest, t.lens) == Got(sym, rest[len..])
  {
    hide DecodeTable.TableInv, DecodeTable.Ends, DecodeTable.AtFront, Lsb, Code;
    TableLens(t);
    TakeFacts(t, v, n, sym, len, sure);
    var s := DecodeSym(t.lens, rest).value;
    assert Decodes(t.lens, rest, s);
    LongEnough(t, v, n, rest, sym, len, s);
    PrefixFront(t, v, n, rest, s);
    DecodeTable.EndsCode(t.lookUp[..], t.tree[..], t.nodes, t.lens, v, sym, len, s);
  }

  lemma TableLens(t: DecodeTable.Table)
    requires t.Valid()
    ensures ValidLens(t.lens) && NotOver(t.lens)
  {
    hide DecodeTable.LongCodes, DecodeTable.ShortCodes, DecodeTable.OnlyTaken, DecodeTable.NodesLinked, DecodeTable.NodesNeeded;
  }

  /** The symbol's code is all in the buffer, if it is at the front of the stream or goes on behind it. */
  lemma LongEnough(t: DecodeTable.Table, v: nat, n: nat, rest: Bitstring, sym: nat, len: nat, s: nat)
    requires t.Valid() && DecodeTable.Ends(t.lookUp[..], t.tree[..], t.nodes, v, sym, len) && Lsb(v, n) <= rest
    requires Used(t.lens, s) && (Code(t.lens, s) <= rest || rest <= Code(t.lens, s)) && len <= n && (n < MAX_LEN ==> len > 0)
    ensures t.lens[s] <= n
  {
    hide DecodeTable.TableInv, DecodeTable.Ends, DecodeTable.AtFront, Lsb, Code;
    TableLens(t);
    if n < MAX_LEN {
      LsbTake(v, n, len);
      if len <= FAST_BITS {
        DecodeTable.EndsSound(t.lookUp[..], t.tree[..], t.nodes, t.lens, v, sym, len);
        FrontDecodes(t, v, len, rest, sym);
        SameFront(t.lens, rest, sym, s);
      } else {
        var k := if len <= t.lens[s] then len else t.lens[s];
        assert Code(t.lens, s)[..k] == rest[..k] == Lsb(v, len)[..k];
        DecodeTable.EndsLater(t.lookUp[..], t.tree[..], t.nodes, t.lens, v, sym, len, s);
      }
    }
  }

  /** A code at the front and one that agrees with the stream are the same. */
  lemma SameFront(lens: seq<nat>, rest: Bitstring, sym: nat, s: nat)
    requires ValidLens(lens) && NotOver(lens) && Decodes(lens, rest, sym) && Used(lens, s)
    requires Code(lens, s) <= rest || rest <= Code(lens, s)
    ensures s == sym
  {
    hide Code;
    if s != sym {
      var a, b := Code(lens, sym), Code(lens, s);
      if |a| <= |b| {
        assert a == b[..|a|];
        PrefixFree(lens, sym, s);
      } else {
        assert b == a[..|b|];
        PrefixFree(lens, s, sym);
      }
      assert false;
    }
  }

  /** When no code stands at the front, the lookup ended on an empty slot: down the tree where the way of
      every code was left, or at once. */
  lemma GapIs(t: DecodeTable.Table, v: nat, n: nat, rest: Bitstring, sym: nat, len: nat, sure: nat)
    requires t.Valid() && DecodeTable.Ends(t.lookUp[..], t.tree[..], t.nodes, v, sym, len) && Lsb(v, n) <= rest
    requires n >= MAX_LEN || (0 < sure <= n && exists s: nat :: DecodeTable.Ends(t.lookUp[..], t.tree[..], t.nodes, v, s, sure))
    requires Symbol(rest, t.lens).Bad?
    ensures len <= |rest| && AnySymbol(rest, t.lens) == Got(sym, rest[len..])
  {
    hide DecodeTable.TableInv, DecodeTable.Ends, DecodeTable.AtFront, Lsb, Code, OnWay;
    TakeFacts(t, v, n, sym, len, sure);
    NotAtFront(t, v, n, rest, sym, len);
    DecodeTable.EndsSound(t.lookUp[..], t.tree[..], t.nodes, t.lens, v, sym, len);
    DecodeTable.EndsStray(t.lookUp[..], t.tree[..], t.nodes, t.lens, v, sym, len);
    if len > FAST_BITS {
      StrayedAt(t.lens, v, n, rest, len);
    } else {
      NeverEntered(t.lens, v, n, rest);
    }
  }

  lemma NotAtFront(t: DecodeTable.Table, v: nat, n: nat, rest: Bitstring, sym: nat, len: nat)
    requires Lsb(v, n) <= rest && len <= n && Symbol(rest, t.lens).Bad?
    ensures DecodeTable.AtFront(t.lens, v, sym) ==> len != t.lens[sym]
  {
    hide Lsb, Code;
    if DecodeTable.AtFront(t.lens, v, sym) && len == t.lens[sym] {
      LsbTake(v, n, len);
      FrontDecodes(t, v, len, rest, sym);
    }
  }

  lemma StrayedAt(lens: seq<nat>, v: nat, n: nat, rest: Bitstring, len: nat)
    requires Lsb(v, n) <= rest && FAST_BITS < len <= n && Symbol(rest, lens).Bad?
    requires OnWay(lens, Lsb(v, len - 1)) && !OnWay(lens, Lsb(v, len))
    ensures len <= |rest| && AnySymbol(rest, lens) == Got(0, rest[len..])
  {
    hide Lsb, Symbol, AnySymbol, OnWay;
    LsbTake(v, n, len);
    LsbTake(v, n, len - 1);
    assert rest[..len] == Lsb(v, n)[..len] && rest[..len - 1] == Lsb(v, n)[..len - 1];
    StrayedSymbol(lens, rest, len);
  }

  lemma NeverEntered(lens: seq<nat>, v: nat, n: nat, rest: Bitstring)
    requires Lsb(v, n) <= rest && n >= MAX_LEN && Symbol(rest, lens).Bad? && !OnWay(lens, Lsb(v, FAST_BITS))
    ensures AnySymbol(rest, lens) == Got(0, rest[0..])
  {
    hide Lsb, Symbol, OnWay;
    LsbTake(v, n, FAST_BITS);
    assert rest[..FAST_BITS] == Lsb(v, n)[..FAST_BITS];
    NeverOnWay(lens, rest);
    assert rest[0..] == rest;
  }

  lemma LsbTake(v: nat, n: nat, k: nat)
    requires k <= n
    ensures Lsb(v, n)[..k] == Lsb(v, k)
  {
    LsbSplit(v, k, n - k);
  }

  lemma FrontDecodes(t: DecodeTable.Table, v: nat, len: nat, rest: Bitstring, sym: nat)
    requires DecodeTable.AtFront(t.lens, v, sym) && len == t.lens[sym] && Lsb(v, len) <= rest
    ensures Decodes(t.lens, rest, sym)
  {
  }

  lemma PrefixFront(t: DecodeTable.Table, v: nat, n: nat, rest: Bitstring, s: nat)
    requires Decodes(t.lens, rest, s) && Lsb(v, n) <= rest && t.lens[s] <= n
    ensures DecodeTable.AtFront(t.lens, v, s)
  {
    hide Lsb, Code;
    LsbTake(v, n, t.lens[s]);
    assert Code(t.lens, s) == rest[..t.lens[s]];
  }

  lemma FieldIs(v: nat, n: nat)
    ensures Low(v, n) < Pow2(n)
    ensures forall bits: Bitstring :: |bits| >= n && bits[..n] == Lsb(v, n) ==> Field(bits, n) == Got(Low(v, n), bits[n..])
  {
    hide Lsb, Pow2;
    LowIs(v, n);
    ValLsb(Low(v, n), n);
  }

  lemma AlignedHere(whole: seq<Byte>, at: nat, v: nat, n: nat, decoded: nat)
    requires LookAhead(whole, at, v, n, decoded)
    ensures Aligned(ByteBits(whole)[decoded..]) == ByteBits(whole)[decoded..][n % 8..]
  {
    hide Lsb, Pow2, ByteBits;
    assert |ByteBits(whole)[decoded..]| % 8 == n % 8;
  }

  lemma ByteHere(whole: seq<Byte>, at: nat)
    requires at < |whole|
    ensures Field(ByteBits(whole)[8 * at..], 8) == Got(whole[at], ByteBits(whole)[8 * (at + 1)..])
  {
    hide Lsb, Pow2, ByteBits, Val;
    EightIs();
    ByteBitsAt(whole, at);
    var bits := ByteBits(whole);
    assert bits[8 * at..] == Lsb(whole[at], 8) + bits[8 * (at + 1)..];
    FieldLsb(whole[at], 8, bits[8 * (at + 1)..]);
  }

  lemma EmptyBuffer(whole: seq<Byte>, at: nat, v: nat, decoded: nat)
    requires LookAhead(whole, at, v, 0, decoded) && at < |whole|
    ensures LookAhead(whole, at + 1, v, 0, decoded + 8) && decoded == 8 * at
  {
  }
}
