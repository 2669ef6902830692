/** The sliding dictionary with its mirrored tail: what it holds of the source, and what a match in
    it means for the source. */
module Window {
  import opened Bits
  import opened Tokens
  import opened MatchFinder

  const MIRROR := 257  // MAX_MATCH_LEN - 1

  /** The last 32768 bytes of `source` are in the dictionary, and the first 257 slots twice. */
  ghost predicate Win(dict: seq<Byte>, source: seq<Byte>) {
    && |dict| == DICT_LENGTH
    && forall q :: 0 <= q < |source| && |source| <= q + LZ_DICT_SIZE ==>
         dict[q % LZ_DICT_SIZE] == source[q] && (q % LZ_DICT_SIZE < MIRROR ==> dict[LZ_DICT_SIZE + q % LZ_DICT_SIZE] == source[q])
  }

  /** The dictionary after a byte went in at slot `s`. */
  function Put(dict: seq<Byte>, s: nat, c: Byte): (r: seq<Byte>)
    requires |dict| == DICT_LENGTH && s < LZ_DICT_SIZE
    ensures |r| == DICT_LENGTH
  {
    if s < MIRROR then dict[s := c][LZ_DICT_SIZE + s := c] else dict[s := c]
  }

  lemma OtherSlot(q: nat, n: nat)
    requires q < n < q + LZ_DICT_SIZE
    ensures q % LZ_DICT_SIZE != n % LZ_DICT_SIZE
  {
    assert n - q == LZ_DICT_SIZE * (n / LZ_DICT_SIZE - q / LZ_DICT_SIZE) + n % LZ_DICT_SIZE - q % LZ_DICT_SIZE;
  }

  lemma PutByte(dict: seq<Byte>, source: seq<Byte>, c: Byte)
    requires Win(dict, source)
    ensures Win(Put(dict, |source| % LZ_DICT_SIZE, c), source + [c])
  {
    var n := |source|;
    var dict' := Put(dict, n % LZ_DICT_SIZE, c);
    forall q | 0 <= q < n + 1 && n + 1 <= q + LZ_DICT_SIZE
      ensures dict'[q % LZ_DICT_SIZE] == (source + [c])[q]
      ensures q % LZ_DICT_SIZE < MIRROR ==> dict'[LZ_DICT_SIZE + q % LZ_DICT_SIZE] == (source + [c])[q]
    {
      if q < n {
        OtherSlot(q, n);
        assert source[q] == (source + [c])[q];
      }
    }
  }

  /** A run of up to 258 bytes can be read without wrapping, into the mirrored tail. */
  lemma WinAt(dict: seq<Byte>, source: seq<Byte>, p: nat, k: nat)
    requires Win(dict, source) && p + k < |source| <= p + LZ_DICT_SIZE && k < MAX_MATCH_LEN
    ensures p % LZ_DICT_SIZE + k < DICT_LENGTH && dict[p % LZ_DICT_SIZE + k] == source[p + k]
  {
    var s := p % LZ_DICT_SIZE + k;
    assert p == LZ_DICT_SIZE * (p / LZ_DICT_SIZE) + p % LZ_DICT_SIZE;
    if s < LZ_DICT_SIZE {
      SlotIs(p + k, p / LZ_DICT_SIZE, s);
    } else {
      SlotIs(p + k, p / LZ_DICT_SIZE + 1, s - LZ_DICT_SIZE);
    }
    assert source[p + k] == dict[s];
  }

  lemma SlotIs(q: nat, d: nat, r: nat)
    requires q == LZ_DICT_SIZE * d + r && r < LZ_DICT_SIZE
    ensures q % LZ_DICT_SIZE == r
  {
  }

  /** The `len` bytes of `source` at `p` are those `dist` bytes before. */
  ghost predicate Copies(source: seq<Byte>, p: nat, dist: nat, len: nat) {
    1 <= dist <= p && p + len <= |source| && forall k: nat :: p <= k < p + len ==> source[k] == source[k - dist]
  }

  /** What a match in the dictionary says about the source. */
  lemma MatchCopies(dict: seq<Byte>, source: seq<Byte>, p: nat, dist: nat, len: nat)
    requires Win(dict, source) && 1 <= dist <= p && p + len <= |source| && len <= MAX_MATCH_LEN && |source| <= p - dist + LZ_DICT_SIZE
    requires p % LZ_DICT_SIZE + len <= |dict| && (p - dist) % LZ_DICT_SIZE + len <= |dict|
    requires dict[p % LZ_DICT_SIZE..p % LZ_DICT_SIZE + len] == dict[(p - dist) % LZ_DICT_SIZE..(p - dist) % LZ_DICT_SIZE + len]
    ensures Copies(source, p, dist, len)
  {
    hide Win;
    forall k: nat | p <= k < p + len ensures source[k] == source[k - dist] {
      var i := k - p;
      WinAt(dict, source, p, i);
      WinAt(dict, source, p - dist, i);
      SliceAt(dict, p % LZ_DICT_SIZE, len, i);
      SliceAt(dict, (p - dist) % LZ_DICT_SIZE, len, i);
    }
  }

  lemma SliceAt(dict: seq<Byte>, a: nat, len: nat, i: nat)
    requires a + len <= |dict| && i < len
    ensures dict[a..a + len][i] == dict[a + i]
  {
  }

  /** Copying a match from the source so far gives the source. */
  lemma {:induction false} CopyIs(source: seq<Byte>, p: nat, dist: nat, len: nat)
    requires Copies(source, p, dist, len)
    ensures CopyMatch(source[..p], len, dist) == source[..p + len]
    decreases len
  {
    if len > 0 {
      assert source[p] == source[p - dist];
      assert source[..p] + [source[..p][p - dist]] == source[..p + 1];
      CopyIs(source, p + 1, dist, len - 1);
    }
  }

  lemma CopiesLater(source: seq<Byte>, more: seq<Byte>, p: nat, dist: nat, len: nat)
    requires Copies(source, p, dist, len)
    ensures Copies(source + more, p, dist, len)
  {
    forall k: nat | p <= k < p + len ensures (source + more)[k] == (source + more)[k - dist] {
      assert source[k] == source[k - dist];
    }
  }

  /** Positions wrap at 2^32, slots at 2^15. */
  lemma SlotOf(p: nat)
    ensures Wrap32(p) % LZ_DICT_SIZE == p % LZ_DICT_SIZE
  {
    var r := p % MAX_WORD32;
    assert p == LZ_DICT_SIZE * (131072 * (p / MAX_WORD32)) + r;
    assert r == LZ_DICT_SIZE * (r / LZ_DICT_SIZE) + r % LZ_DICT_SIZE;
    SlotIs(p, 131072 * (p / MAX_WORD32) + r / LZ_DICT_SIZE, r % LZ_DICT_SIZE);
  }

  lemma BackSlot(p: nat, dist: nat, q: Query)
    requires 1 <= dist <= p && dist <= LZ_DICT_SIZE && q.lookaheadPos == Wrap32(p)
    ensures Back(q, dist) == (p - dist) % LZ_DICT_SIZE && Pos(q) == p % LZ_DICT_SIZE
  {
    SlotOf(p);
    var r := p % MAX_WORD32;
    var x := p - dist;
    assert r + 65536 - dist == x + 65536 - MAX_WORD32 * (p / MAX_WORD32);
    var d := x / LZ_DICT_SIZE + 2 - 131072 * (p / MAX_WORD32);
    assert r + 65536 - dist == LZ_DICT_SIZE * d + x % LZ_DICT_SIZE;
    assert (r + 65536 - dist) % LZ_DICT_SIZE == x % LZ_DICT_SIZE;
  }
}
