/** The inflater's output buffer: one that holds the whole output, or a ring that holds the last of it. */
module OutputBuffer {
  import opened Bits
  import opened Tokens
  import opened MatchCopy
  import opened InflateReads

  /** Where the byte at position `q` of the output lies. */
  function Slot(q: nat, size: nat, wraps: bool): nat
    requires wraps ==> size > 0
  {
    if wraps then q % size else q
  }

  /** The buffer holds the output `h` up to the cursor `o`: all of it, or the last `|buf|` bytes. */
  ghost predicate HoldsOut(buf: seq<Byte>, h: seq<Byte>, o: nat, wraps: bool) {
    && (wraps ==> 0 < |buf|) && o <= |buf| && (if wraps then |h| % |buf| == o % |buf| else |h| == o)
    && forall q :: 0 <= q < |h| && |h| <= q + |buf| ==> 0 <= Slot(q, |buf|, wraps) < |buf| && buf[Slot(q, |buf|, wraps)] == h[q]
  }

  lemma SlotsApart(q: nat, n: nat, size: nat)
    requires q < n < q + size
    ensures q % size != n % size
  {
    var a, b := q / size, n / size;
    assert q == size * a + q % size && n == size * b + n % size;
    if q % size == n % size {
      assert size * (b - a) == n - q;
      if b - a >= 1 { MulMono(1, b - a, size); }
      if b - a <= -1 { MulMono(1, a - b, size); }
    }
  }

  lemma AddMod(a: nat, b: nat, k: nat, size: nat)
    requires size > 0 && a % size == b % size
    ensures (a + k) % size == (b + k) % size
  {
    var r := a % size;
    var c, t := (r + k) / size, (r + k) % size;
    assert a + k == (a / size + c) * size + t by { Distribute(a / size, c, size); }
    assert b + k == (b / size + c) * size + t by { Distribute(b / size, c, size); }
    DivUnique(a + k, size, a / size + c, t);
    DivUnique(b + k, size, b / size + c, t);
  }

  lemma Distribute(a: nat, b: nat, c: nat)
    ensures (a + b) * c == a * c + b * c
  {
  }

  /** A byte goes out. */
  lemma PutByte(buf: seq<Byte>, h: seq<Byte>, o: nat, wraps: bool, c: Byte)
    requires HoldsOut(buf, h, o, wraps) && o < |buf|
    ensures HoldsOut(buf[o := c], h + [c], o + 1, wraps)
  {
    var buf', h', size := buf[o := c], h + [c], |buf|;
    if wraps {
      AddMod(|h|, o, 1, size);
      SmallMod(o, size);
    }
    forall q | 0 <= q < |h'| && |h'| <= q + size
      ensures 0 <= Slot(q, size, wraps) < size && buf'[Slot(q, size, wraps)] == h'[q]
    {
      if q < |h| {
        assert 0 <= Slot(q, size, wraps) < size && buf[Slot(q, size, wraps)] == h[q];
        if wraps { SlotsApart(q, |h|, size); }
      }
    }
  }

  lemma SmallMod(o: nat, size: nat)
    requires o < size
    ensures o % size == o
  {
  }

  /** Where a match starts: `(dist_from_out_buf_start - dist) & out_buf_size_mask`. */
  function Source(from: nat, dist: nat, size: nat, wraps: bool): int
    requires wraps ==> size > 0
  {
    if wraps then (from + (size - dist % size)) % size else from - dist
  }

  lemma SourceSlot(h: seq<Byte>, from: nat, dist: nat, size: nat, wraps: bool)
    requires 1 <= dist <= |h| && (if wraps then dist <= size && size > 0 && |h| % size == from % size else |h| == from)
    ensures Source(from, dist, size, wraps) == Slot(|h| - dist, size, wraps)
  {
    if wraps {
      var k := size - dist % size;
      AddMod(from, |h|, k, size);
      if dist == size {
        assert dist % size == 0 by { DivUnique(dist, size, 1, 0); }
        WholeTurn(|h|, size);
        assert |h| - dist + size == |h|;
        WholeTurn(|h| - dist, size);
      } else {
        SmallMod(dist, size);
        assert |h| + k == |h| - dist + size;
        WholeTurn(|h| - dist, size);
      }
    }
  }

  lemma WholeTurn(a: nat, size: nat)
    requires size > 0
    ensures (a + size) % size == a % size
  {
    assert a + size == (a / size + 1) * size + a % size by { Distribute(a / size, 1, size); }
    DivUnique(a + size, size, a / size + 1, a % size);
  }

  /** One byte of a match, taken from the buffer. */
  lemma MatchByte(buf: seq<Byte>, h: seq<Byte>, o: nat, wraps: bool, from: nat, dist: nat)
    requires HoldsOut(buf, h, o, wraps) && 1 <= dist <= |h| && (wraps ==> dist <= |buf|)
    requires if wraps then |buf| > 0 && |h| % |buf| == from % |buf| else |h| == from
    ensures 0 <= Source(from, dist, |buf|, wraps) < |buf| && buf[Source(from, dist, |buf|, wraps)] == h[|h| - dist]
  {
    SourceSlot(h, from, dist, |buf|, wraps);
    var q := |h| - dist;
    assert h[q] == h[|h| - dist];
  }

  lemma SourceShift(o: nat, k: nat, dist: nat, size: nat, wraps: bool)
    requires (wraps ==> size > 0) && 0 <= Source(o, dist, size, wraps) && Source(o, dist, size, wraps) + k < size
    ensures Source(o + k, dist, size, wraps) == Source(o, dist, size, wraps) + k
  {
    if wraps {
      RunSlot(o, size - dist % size, k, size, Source(o, dist, size, wraps));
    }
  }

  lemma RunSlot(o: nat, m: nat, k: nat, size: nat, src: nat)
    requires size > 0 && src == (o + m) % size && src + k < size
    ensures (o + k + m) % size == src + k
  {
    var q := (o + m) / size;
    assert o + k + m == q * size + (src + k);
    DivUnique(o + k + m, size, q, src + k);
  }

  // ---------- with what the buffer held before

  /** The buffer holds the output, and where nothing was written yet, what it held before. For a ring that is
      as if what it held before had been put out ahead of the output. */
  ghost predicate Held(buf: seq<Byte>, p: Room, h: seq<Byte>, o: nat) {
    && |p.init| == |buf|
    && if p.wraps then HoldsOut(buf, p.init + h, o, true) else HoldsOut(buf, h, o, false) && buf[o..] == p.init[o..]
  }

  lemma HeldStart(p: Room)
    requires p.wraps ==> p.init != []
    ensures Held(p.init, p, [], 0)
  {
    if p.wraps {
      var n := |p.init|;
      DivUnique(n, n, 1, 0);
      SmallMod(0, n);
      forall q | 0 <= q < n ensures q % n == q { SmallMod(q, n); }
      assert p.init + [] == p.init;
    }
  }

  lemma HeldPut(buf: seq<Byte>, p: Room, h: seq<Byte>, o: nat, c: Byte)
    requires Held(buf, p, h, o) && o < |buf|
    ensures Held(buf[o := c], p, h + [c], o + 1)
  {
    hide HoldsOut;
    if p.wraps {
      PutByte(buf, p.init + h, o, true, c);
      assert p.init + h + [c] == p.init + (h + [c]);
    } else {
      PutByte(buf, h, o, false, c);
      assert buf[o := c][o + 1..] == buf[o..][1..] == p.init[o..][1..] == p.init[o + 1..];
    }
  }

  lemma HeldCursor(buf: seq<Byte>, p: Room, h: seq<Byte>, o: nat)
    requires Held(buf, p, h, o)
    ensures o <= |buf| && if p.wraps then |buf| > 0 && |h| % |buf| == o % |buf| else |h| == o
  {
    if p.wraps {
      WholeTurn(|h|, |buf|);
      assert |p.init + h| == |h| + |buf|;
    }
  }

  /** A ring starts over. */
  lemma HeldTurn(buf: seq<Byte>, p: Room, h: seq<Byte>, o: nat)
    requires Held(buf, p, h, o) && p.wraps && o == |buf|
    ensures Held(buf, p, h, 0)
  {
    DivUnique(|buf|, |buf|, 1, 0);
    DivUnique(0, |buf|, 0, 0);
  }

  /** What was written last lies before the cursor. */
  lemma HeldLast(buf: seq<Byte>, p: Room, h: seq<Byte>, o: nat, n: nat)
    requires Held(buf, p, h, o) && n <= |h| && n <= o <= |buf|
    ensures buf[o - n..o] == h[|h| - n..]
  {
    hide HoldsOut;
    if p.wraps {
      LastWritten(buf, p.init + h, o, true, n);
      assert (p.init + h)[|p.init + h| - n..] == h[|h| - n..];
    } else {
      LastWritten(buf, h, o, false, n);
    }
  }

  lemma LastWritten(buf: seq<Byte>, h: seq<Byte>, o: nat, wraps: bool, n: nat)
    requires HoldsOut(buf, h, o, wraps) && n <= |h| && n <= o <= |buf|
    ensures buf[o - n..o] == h[|h| - n..]
  {
    hide HoldsOut;
    var x, y := buf[o - n..o], h[|h| - n..];
    forall k | 0 <= k < n ensures x[k] == y[k] {
      LastByte(buf, h, o, wraps, n - k);
    }
  }

  lemma LastByte(buf: seq<Byte>, h: seq<Byte>, o: nat, wraps: bool, j: nat)
    requires HoldsOut(buf, h, o, wraps) && 0 < j <= |h| && j <= o
    ensures buf[o - j] == h[|h| - j]
  {
    var q := |h| - j;
    if wraps { BackSlot(|h|, o, |buf|, j); }
    assert h[q] == buf[Slot(q, |buf|, wraps)];
  }

  lemma BackSlot(n: nat, o: nat, size: nat, j: nat)
    requires 0 < size && 0 < j <= n && j <= o <= size && n % size == o % size
    ensures (n - j) % size == o - j
  {
    var x, y := n / size, o / size;
    assert n - o == size * x - size * y == (x - y) * size;
    if x - y >= 0 {
      DivUnique(n - j, size, x - y, o - j);
    } else {
      MulMono(1, y - x, size);
    }
  }

  // ---------- copies in the buffer

  /** The byte that the code reads for a distance is the one that the reading names. */
  lemma HeldBack(buf: seq<Byte>, p: Room, h: seq<Byte>, o: nat, from: nat, dist: nat)
    requires Held(buf, p, h, o) && o < |buf|
    requires if p.wraps then dist <= |buf| && |h| % |buf| == from % |buf| else |h| == from && dist <= from
    ensures 0 <= Source(from, dist, |buf|, p.wraps) < |buf| && buf[Source(from, dist, |buf|, p.wraps)] == Back(p, h, dist)
  {
    hide HoldsOut;
    HeldCursor(buf, p, h, o);
    if p.wraps {
      var ring, back := p.init + h, if dist == 0 then |buf| else dist;
      WholeTurn(|h|, |buf|);
      assert |ring| == |h| + |buf|;
      SourceZero(from, |buf|);
      MatchByte(buf, ring, o, true, from, back);
    } else if dist > 0 {
      MatchByte(buf, h, o, false, from, dist);
    } else {
      assert buf[o] == buf[o..][0] == p.init[o..][0];
    }
  }

  lemma SourceByte(buf: seq<Byte>, p: Room, h: seq<Byte>, o: nat, from: nat, dist: nat)
    requires Held(buf, p, h, o) && o < |buf|
    requires if p.wraps then |h| % |buf| == from % |buf| else |h| == from && dist <= from
    ensures 0 <= Source(from, dist, |buf|, p.wraps) < |buf|
    ensures !Beyond(p, dist) ==> buf[Source(from, dist, |buf|, p.wraps)] == Back(p, h, dist)
  {
    hide HoldsOut, Back;
    HeldCursor(buf, p, h, o);
    if !Beyond(p, dist) { HeldBack(buf, p, h, o, from, dist); }
  }

  /** In a ring the distance 0 is the ring's size. */
  lemma SourceZero(from: nat, size: nat)
    requires size > 0
    ensures Source(from, 0, size, true) == Source(from, size, size, true)
  {
    DivUnique(size, size, 1, 0);
    SmallMod(0, size);
  }

  lemma {:induction false} CopyOutSnoc(p: Room, h: seq<Byte>, n: nat, d: nat)
    ensures var g := CopyOut(p, h, n, d); CopyOut(p, h, n + 1, d) == g + [Back(p, g, d)]
    decreases n
  {
    hide Back;
    if n > 0 {
      CopyOutSnoc(p, h + [Back(p, h, d)], n - 1, d);
    }
  }

  /** A copy that does not reach the end of the buffer puts out what the reading says. */
  lemma {:induction false} RunIsCopy(buf: seq<Byte>, p: Room, h: seq<Byte>, o: nat, src: nat, n: nat, dist: nat)
    requires Held(buf, p, h, o) && o + n <= |buf| && src + n <= |buf| && src == Source(o, dist, |buf|, p.wraps)
    requires if p.wraps then dist <= |buf| && o < |buf| else dist <= o
    ensures Held(Copied(buf, o, src, n), p, CopyOut(p, h, n, dist), o + n)
    decreases n
  {
    hide Held, CopyOut, Source, Back;
    if n == 0 {
      NoneCopied(buf, o, src);
      NoneOut(p, h, dist);
    } else {
      RunIsCopy(buf, p, h, o, src, n - 1, dist);
      var c, g := Copied(buf, o, src, n - 1), CopyOut(p, h, n - 1, dist);
      CopyOutSnoc(p, h, n - 1, dist);
      HeldCursor(c, p, g, o + n - 1);
      SourceShift(o, n - 1, dist, |buf|, p.wraps);
      HeldBack(c, p, g, o + n - 1, o + n - 1, dist);
      HeldPut(c, p, g, o + n - 1, c[src + n - 1]);
    }
  }

  /** Whatever is written from the cursor on, the buffer holds the output with it. */
  lemma {:induction false} HeldRun(buf: seq<Byte>, buf': seq<Byte>, p: Room, h: seq<Byte>, o: nat, n: nat)
    requires Held(buf, p, h, o) && |buf'| == |buf| && o + n <= |buf|
    requires forall k :: 0 <= k < |buf| && !(o <= k < o + n) ==> buf'[k] == buf[k]
    ensures Held(buf', p, h + buf'[o..o + n], o + n)
    decreases n
  {
    hide Held;
    if n == 0 {
      assert buf' == buf && h + buf'[o..o] == h;
    } else {
      var c := buf'[o + n - 1];
      var mid := buf'[o + n - 1 := buf[o + n - 1]];
      HeldRun(buf, mid, p, h, o, n - 1);
      HeldPut(mid, p, h + mid[o..o + n - 1], o + n - 1, c);
      assert mid[o + n - 1 := c] == buf';
      assert h + mid[o..o + n - 1] + [c] == h + buf'[o..o + n];
    }
  }

  /** The run is what the reading says, unless the distance is longer than the ring. */
  lemma RunHeld(buf: seq<Byte>, buf': seq<Byte>, p: Room, h: seq<Byte>, o: nat, src: nat, n: nat, dist: nat)
    requires Held(buf, p, h, o) && o + n <= |buf| && src + n <= |buf| && src == Source(o, dist, |buf|, p.wraps)
    requires if p.wraps then o < |buf| else dist <= o
    requires Progress(buf, buf', o, src, n, src + dist == o || o <= src)
    ensures Held(buf', p, h + buf'[o..o + n], o + n)
    ensures !Beyond(p, dist) ==> h + buf'[o..o + n] == CopyOut(p, h, n, dist)
  {
    hide HoldsOut, CopyOut, Source, Copied;
    HeldRun(buf, buf', p, h, o, n);
    if !Beyond(p, dist) {
      SourceSide(o, dist, |buf|, p.wraps);
      RunIsCopy(buf, p, h, o, src, n, dist);
      HeldLast(buf', p, CopyOut(p, h, n, dist), o + n, n);
      var out := CopyOut(p, h, n, dist);
      assert out == out[..|h|] + out[|h|..] == h + buf'[o..o + n];
    }
  }

  /** The source lies `dist` before the target, or behind it when it wrapped. */
  lemma SourceSide(o: nat, dist: nat, size: nat, wraps: bool)
    requires if wraps then o < size && dist <= size else dist <= o
    ensures Source(o, dist, size, wraps) + dist == o || o <= Source(o, dist, size, wraps)
  {
    if wraps {
      if dist == size {
        DivUnique(dist, size, 1, 0);
        WholeTurn(o, size);
        SmallMod(o, size);
      } else {
        SmallMod(dist, size);
        if dist <= o && dist > 0 {
          DivUnique(o + (size - dist), size, 1, o - dist);
        } else if dist == 0 {
          WholeTurn(o, size);
          SmallMod(o, size);
        } else {
          SmallMod(o + (size - dist), size);
        }
      }
    }
  }

  lemma NoneOut(p: Room, h: seq<Byte>, dist: nat)
    ensures CopyOut(p, h, 0, dist) == h
  {
  }
}
