/** The match copies of `tinfl_decompress`: eight bytes at a time, three at a time, and one at a time
    around the end of the output buffer. */
module MatchCopy {
  import opened Bits
  import opened Tokens

  // ---------- copying in one buffer, byte by byte

  /** The buffer after `n` bytes went from `src` on to `dst` on, one after the other. */
  function Copied(buf: seq<Byte>, dst: nat, src: nat, n: nat): (r: seq<Byte>)
    requires dst + n <= |buf| && src + n <= |buf|
    ensures |r| == |buf|
    decreases n
  {
    if n == 0 then buf else
    var b := Copied(buf, dst, src, n - 1);
    b[dst + n - 1 := b[src + n - 1]]
  }

  /** Only the target range changes. */
  lemma {:induction false} CopiedElsewhere(buf: seq<Byte>, dst: nat, src: nat, n: nat, k: nat)
    requires dst + n <= |buf| && src + n <= |buf| && k < |buf| && !(dst <= k < dst + n)
    ensures Copied(buf, dst, src, n)[k] == buf[k]
  {
    if n > 0 {
      CopiedElsewhere(buf, dst, src, n - 1, k);
    }
  }

  /** `m` more bytes at once, when no byte written so far or now is read: loading before storing is as
      good as copying one by one. */
  lemma {:induction false} CopiedBlock(buf: seq<Byte>, dst: nat, src: nat, n: nat, m: nat, k: nat)
    requires dst + n + m <= |buf| && src + n + m <= |buf| && (src + m <= dst || dst <= src) && k < |buf|
    ensures var b := Copied(buf, dst, src, n);
            Copied(buf, dst, src, n + m)[k] == if dst + n <= k < dst + n + m then b[src + (k - dst)] else b[k]
    decreases m
  {
    if m > 0 {
      CopiedBlock(buf, dst, src, n, m - 1, k);
      CopiedBlock(buf, dst, src, n, m - 1, src + n + m - 1);
      var b := Copied(buf, dst, src, n + m - 1);
      assert Copied(buf, dst, src, n + m) == b[dst + n + m - 1 := b[src + n + m - 1]];
    }
  }

  /** Four bytes loaded and stored at once. */
  ghost predicate Stored(b: seq<Byte>, b': seq<Byte>, dst: nat, src: nat, m: nat)
    requires src + m <= |b|
  {
    |b'| == |b| && forall k :: 0 <= k < |b| ==> b'[k] == if dst <= k < dst + m then b[src + (k - dst)] else b[k]
  }

  lemma StoredAt(b: seq<Byte>, b': seq<Byte>, dst: nat, src: nat, m: nat, k: nat)
    requires src + m <= |b| && Stored(b, b', dst, src, m) && k < |b|
    ensures |b'| == |b| && b'[k] == if dst <= k < dst + m then b[src + (k - dst)] else b[k]
  {
  }

  lemma StoredCopied(buf: seq<Byte>, dst: nat, src: nat, n: nat, m: nat, b: seq<Byte>, b': seq<Byte>)
    requires dst + n + m <= |buf| && src + n + m <= |buf| && (src + m <= dst || dst <= src)
    requires |b| == |buf| && b == Copied(buf, dst, src, n) && Stored(b, b', dst + n, src + n, m)
    ensures b' == Copied(buf, dst, src, n + m)
  {
    hide Copied;
    forall k | 0 <= k < |buf| ensures b'[k] == Copied(buf, dst, src, n + m)[k] {
      CopiedBlock(buf, dst, src, n, m, k);
      var from, to := src + n, dst + n;
      StoredAt(b, b', to, from, m, k);
      assert b'[k] == if to <= k < to + m then b[from + (k - to)] else b[k];
      assert from + (k - to) == src + (k - dst);
    }
  }

  /** `memcpy` of eight bytes: two 32-bit words are loaded and stored in turn. */
  method CopyWord(buf: array<Byte>, dst: nat, src: nat)
    requires dst + 4 <= buf.Length && src + 4 <= buf.Length
    modifies buf
    ensures Stored(old(buf[..]), buf[..], dst, src, 4)
  {
    var a, b, c, d := buf[src], buf[src + 1], buf[src + 2], buf[src + 3];
    buf[dst] := a;
    buf[dst + 1] := b;
    buf[dst + 2] := c;
    buf[dst + 3] := d;
  }

  /** Nothing but the target range has changed, and when the copy is one that can be done byte by byte, the
      range holds what that gives. */
  ghost predicate Progress(was: seq<Byte>, b: seq<Byte>, dst: nat, src: nat, n: nat, apart: bool)
    requires dst + n <= |was| && src + n <= |was|
  {
    && |b| == |was| && (forall k :: 0 <= k < |b| && !(dst <= k < dst + n) ==> b[k] == was[k])
    && (apart ==> b == Copied(was, dst, src, n))
  }

  lemma StoredProgress(was: seq<Byte>, dst: nat, src: nat, n: nat, m: nat, apart: bool, b: seq<Byte>, b': seq<Byte>)
    requires dst + n + m <= |was| && src + n + m <= |was| && (apart ==> src + m <= dst || dst <= src)
    requires Progress(was, b, dst, src, n, apart) && Stored(b, b', dst + n, src + n, m)
    ensures Progress(was, b', dst, src, n + m, apart)
  {
    hide Copied;
    forall k | 0 <= k < |was| && !(dst <= k < dst + (n + m)) ensures b'[k] == was[k] {
      StoredAt(b, b', dst + n, src + n, m, k);
    }
    if apart { StoredCopied(was, dst, src, n, m, b, b'); }
  }

  /** Two words more, after `n` bytes. */
  method CopyEight(buf: array<Byte>, dst: nat, src: nat, n: nat, ghost was: seq<Byte>, ghost apart: bool)
    requires |was| == buf.Length && dst + n + 8 <= buf.Length && src + n + 8 <= buf.Length && (apart ==> src + 8 <= dst || dst <= src)
    requires Progress(was, buf[..], dst, src, n, apart)
    modifies buf
    ensures Progress(was, buf[..], dst, src, n + 8, apart)
  {
    hide Progress;
    ghost var b0 := buf[..];
    CopyWord(buf, dst + n, src + n);
    StoredProgress(was, dst, src, n, 4, apart, b0, buf[..]);
    ghost var b1 := buf[..];
    CopyWord(buf, dst + n + 4, src + n + 4);
    StoredProgress(was, dst, src, n + 4, 4, apart, b1, buf[..]);
  }

  method CopyByte(buf: array<Byte>, dst: nat, src: nat, n: nat, ghost was: seq<Byte>, ghost apart: bool)
    requires |was| == buf.Length && dst + n < buf.Length && src + n < buf.Length && Progress(was, buf[..], dst, src, n, apart)
    modifies buf
    ensures Progress(was, buf[..], dst, src, n + 1, apart)
  {
    buf[dst + n] := buf[src + n];
  }

  /** The unrolled copies, when source and target do not run past the end: they write the target range only,
      and, when the source lies `dist` before the target or behind it, what the copy one byte at a time
      writes, whatever the length and the distance. */
  method CopyRun(buf: array<Byte>, dst: nat, src: nat, counter: nat, dist: nat)
    requires dst + counter <= buf.Length && src + counter <= buf.Length
    modifies buf
    ensures Progress(old(buf[..]), buf[..], dst, src, counter, src + dist == dst || dst <= src)
  {
    hide Progress;
    ghost var was, apart := buf[..], src + dist == dst || dst <= src;
    NoProgress(was, dst, src, apart);
    var n := 0;
    if 9 <= counter <= dist {
      var words := counter - counter % 8;
      while n < words
        invariant 0 <= n <= words && n % 8 == 0 && Progress(was, buf[..], dst, src, n, apart)
      {
        CopyEight(buf, dst, src, n, was, apart);
        n := n + 8;
      }
      if counter - n < 3 {
        if n < counter { CopyByte(buf, dst, src, n, was, apart); n := n + 1; }
        if n < counter { CopyByte(buf, dst, src, n, was, apart); n := n + 1; }
        return;
      }
    }
    while counter - n > 2
      invariant 0 <= n <= counter && Progress(was, buf[..], dst, src, n, apart)
    {
      CopyByte(buf, dst, src, n, was, apart);
      CopyByte(buf, dst, src, n + 1, was, apart);
      CopyByte(buf, dst, src, n + 2, was, apart);
      n := n + 3;
    }
    if n < counter { CopyByte(buf, dst, src, n, was, apart); n := n + 1; }
    if n < counter { CopyByte(buf, dst, src, n, was, apart); n := n + 1; }
  }

  lemma NoProgress(was: seq<Byte>, dst: nat, src: nat, apart: bool)
    requires dst <= |was| && src <= |was|
    ensures Progress(was, was, dst, src, 0, apart)
  {
    NoneCopied(was, dst, src);
  }

  lemma NoneCopied(buf: seq<Byte>, dst: nat, src: nat)
    requires dst <= |buf| && src <= |buf|
    ensures Copied(buf, dst, src, 0) == buf
  {
  }
}
