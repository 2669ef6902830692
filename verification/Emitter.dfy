/** Sending a block's body: `tdefl_compress_lz_codes`, the portable one and the one that gathers bits
    in a 64-bit register. */
module Emitter {
  import opened Bits
  import opened Canonical
  import opened Tokens
  import opened InflateSpec
  import opened BitWriter
  import opened LzCodes
  import HuffTable
  import HT = HuffmanTheory

  /** The tables hold codes for every symbol of the tokens and for the end of the block. */
  ghost predicate Ready(litCodes: seq<nat>, distCodes: seq<nat>, lit: seq<nat>, dist: seq<nat>, ts: seq<Token>) {
    && HuffTable.GoodCodes(litCodes, lit) && HuffTable.GoodCodes(distCodes, dist)
    && HT.Bounded(lit, MAX_LEN) && HT.Bounded(dist, MAX_LEN)
    && AllCoded(ts, lit, dist) && AllValid(ts) && Used(lit, END_OF_BLOCK)
  }

  /** The buffer is sealed and its tables are ready: what `tdefl_start_dynamic_block` and
      `tdefl_start_static_block` leave behind. */
  ghost predicate Sealed(d: CodeBuffer, lit: seq<nat>, dist: seq<nat>, ts: seq<Token>)
    reads d, d.buf, d.lit.codes, d.lit.sizes, d.dist.codes, d.dist.sizes
  {
    && d.Shape() && d.pos <= d.buf.Length && AllValid(ts) && d.buf[..d.pos] == Layout(ts)
    && lit <= d.lit.sizes[..] && dist <= d.dist.sizes[..] && Ready(d.lit.codes[..], d.dist.codes[..], lit, dist, ts)
  }

  /** What the body of the block adds to the stream. */
  ghost function BodyBits(ts: seq<Token>, lit: seq<nat>, dist: seq<nat>): Bitstring
    requires AllCoded(ts, lit, dist) && Used(lit, END_OF_BLOCK)
  {
    TokensBits(ts, lit, dist) + Code(lit, END_OF_BLOCK)
  }

  // ---------- fields

  lemma CodeReady(codes: seq<nat>, sizes: seq<nat>, lens: seq<nat>, s: nat)
    requires HuffTable.GoodCodes(codes, lens) && HT.Bounded(lens, MAX_LEN) && Used(lens, s) && lens <= sizes
    ensures s < |codes| && codes[s] < Pow2(sizes[s]) && sizes[s] == lens[s] <= MAX_LEN && Lsb(codes[s], sizes[s]) == Code(lens, s)
  {
  }

  lemma ExtraReady(v: nat, n: nat)
    ensures Extra(v, n) < Pow2(n)
  {
  }

  /** The fields of a match, in order. */
  lemma MatchFields(len: nat, d: nat, lit: seq<nat>, dist: seq<nat>, sent: Bitstring)
    requires Coded(Match(len, d), lit, dist)
    ensures sent + TokenBits(Match(len, d), lit, dist) ==
            sent + Code(lit, LenSym(len - 3)) + Lsb(Extra(len - 3, LenExtra(len - 3)), LenExtra(len - 3))
            + Code(dist, DistSym(d - 1)) + Lsb(Extra(d - 1, DistExtra(d - 1)), DistExtra(d - 1))
  {
    hide Code, Lsb, LenSym, LenExtra, DistSym, DistExtra, Extra, Used;
    var a, b := Code(lit, LenSym(len - 3)), Lsb(Extra(len - 3, LenExtra(len - 3)), LenExtra(len - 3));
    var c, e := Code(dist, DistSym(d - 1)), Lsb(Extra(d - 1, DistExtra(d - 1)), DistExtra(d - 1));
    assert sent + (a + b + (c + e)) == sent + a + b + c + e;
  }

  lemma MatchTables(len: nat, d: nat, lit: seq<nat>, dist: seq<nat>)
    requires Coded(Match(len, d), lit, dist)
    ensures ValidToken(Match(len, d)) && Used(lit, LenSym(len - 3)) && Used(dist, DistSym(d - 1))
    ensures LenExtra(len - 3) <= 5 && DistExtra(d - 1) <= 13
  {
    LengthTables(len - 3);
    DistanceTables(d - 1);
  }

  /** The bits of the first `i` tokens. */
  ghost function FirstBits(ts: seq<Token>, i: nat, lit: seq<nat>, dist: seq<nat>): Bitstring
    requires i <= |ts| && AllCoded(ts, lit, dist)
  {
    TokensBits(ts[..i], lit, dist)
  }

  lemma BitsSnoc(ts: seq<Token>, i: nat, lit: seq<nat>, dist: seq<nat>)
    requires i < |ts| && AllCoded(ts, lit, dist)
    ensures FirstBits(ts, i + 1, lit, dist) == FirstBits(ts, i, lit, dist) + TokenBits(ts[i], lit, dist)
  {
    assert ts[..i + 1] == ts[..i] + [ts[i]];
    TokensBitsSnoc(ts[..i], ts[i], lit, dist);
  }

  ghost predicate ReadsToken(b: seq<Byte>, flags: nat, ts: seq<Token>) {
    && flags > 1 && b != [] && ts != []
    && (flags % 2 == 1 ==>
          |b| >= 3 && b[2] < 128 && ts[0] == Match(b[0] + MIN_MATCH_LEN, DistOf(b[1], b[2])) && Reads(b[3..], flags / 2, ts[1..]))
    && (flags % 2 == 0 ==> ts[0] == Literal(b[0]) && Reads(b[1..], flags / 2, ts[1..]))
  }

  lemma FromToken(b: seq<Byte>, flags: nat, ts: seq<Token>)
    requires b != [] && flags > 1 && ReadableToken(b, flags) && ReadFrom(b, flags) == ts
    ensures ReadsToken(b, flags, ts)
  {
    if flags % 2 == 1 {
      assert ts[1..] == ReadTokens(b[3..], flags / 2);
    } else {
      assert ts[1..] == ReadTokens(b[1..], flags / 2);
    }
  }

  /** What the reader finds next, when `flags` is the state of its flags. */
  lemma ReadStep(b: seq<Byte>, flags: nat, ts: seq<Token>)
    requires Reads(b, flags, ts) && b != [] && flags >= 1
    ensures flags == 1 ==> |b| >= 2 && ReadsToken(b[1..], Opened(b[0]), ts)
    ensures flags > 1 ==> ReadsToken(b, flags, ts)
  {
    if flags == 1 {
      FromToken(b[1..], Opened(b[0]), ts);
    } else {
      FromToken(b, flags, ts);
    }
  }

  /** A literal flag that is not the last one is read without fetching a flag byte. */
  lemma NextLiteral(b: seq<Byte>, flags: nat, ts: seq<Token>)
    requires Reads(b, flags, ts) && b != [] && flags >= 1 && flags % 2 == 0
    ensures ReadsToken(b, flags, ts)
  {
    FromToken(b, flags, ts);
  }

  // ---------- the portable emitter

  method PutCode(w: Writer, codes: array<nat>, sizes: array<nat>, s: nat, ghost lens: seq<nat>)
    requires w.Valid() && HuffTable.GoodCodes(codes[..], lens) && HT.Bounded(lens, MAX_LEN) && Used(lens, s) && lens <= sizes[..]
    modifies w`pos, w`bitBuffer, w`bitsIn, w`sent, w.buf
    ensures w.Valid() && w.sent == old(w.sent) + Code(lens, s)
    ensures w.pos >= old(w.pos) && forall k :: 0 <= k < old(w.pos) && k < w.buf.Length ==> w.buf[k] == old(w.buf[k])
  {
    hide HuffTable.GoodCodes, HT.Bounded, Code, Pow2, Lsb, Written;
    CodeReady(codes[..], sizes[..], lens, s);
    w.PutBits(codes[s], sizes[s]);
  }

  method PutMatch(w: Writer, d: CodeBuffer, c: nat, md: nat, ghost lit: seq<nat>, ghost dist: seq<nat>)
    requires w.Valid() && c < 256 && md < LZ_DICT_SIZE && Coded(Match(c + 3, md + 1), lit, dist)
    requires d.Shape() && lit <= d.lit.sizes[..] && dist <= d.dist.sizes[..]
    requires Ready(d.lit.codes[..], d.dist.codes[..], lit, dist, [])
    modifies w`pos, w`bitBuffer, w`bitsIn, w`sent, w.buf
    ensures w.Valid() && w.sent == old(w.sent) + TokenBits(Match(c + 3, md + 1), lit, dist)
    ensures w.pos >= old(w.pos) && forall k :: 0 <= k < old(w.pos) && k < w.buf.Length ==> w.buf[k] == old(w.buf[k])
  {
    hide HuffTable.GoodCodes, HT.Bounded, Code, Pow2, Lsb, LenSym, LenExtra, DistSym, SmallDistSym, SmallDistExtra, LargeDistSym,
      LargeDistExtra, Extra, Coded, AllCoded, Written, Used, TokenBits;
    MatchTables(c + 3, md + 1, lit, dist);
    MatchFields(c + 3, md + 1, lit, dist, w.sent);
    PutCode(w, d.lit.codes, d.lit.sizes, LenSym(c), lit);
    ExtraReady(c, LenExtra(c));
    w.PutBits(Extra(c, LenExtra(c)), LenExtra(c));
    var sym, numExtra;
    if md < 512 {
      sym, numExtra := SmallDistSym(md), SmallDistExtra(md);
    } else {
      sym, numExtra := LargeDistSym(md / 256), LargeDistExtra(md / 256);
    }
    DistFields(md);
    PutCode(w, d.dist.codes, d.dist.sizes, sym, dist);
    ExtraReady(md, numExtra);
    w.PutBits(Extra(md, numExtra), numExtra);
  }

  lemma DistFields(md: nat)
    ensures md < 512 ==> DistSym(md) == SmallDistSym(md) && DistExtra(md) == SmallDistExtra(md)
    ensures md >= 512 ==> DistSym(md) == LargeDistSym(md / 256) && DistExtra(md) == LargeDistExtra(md / 256)
  {
  }

  lemma CodedHere(ts: seq<Token>, i: nat, lit: seq<nat>, dist: seq<nat>)
    requires AllCoded(ts, lit, dist) && i < |ts|
    ensures Coded(ts[i], lit, dist) && ValidToken(ts[i])
    ensures ts[i].Literal? ==> Used(lit, ts[i].b) && TokenBits(ts[i], lit, dist) == Code(lit, ts[i].b)
    ensures ts[i].Match? ==> ts[i].dist <= LZ_DICT_SIZE
  {
  }

  lemma ReadyFacts(litCodes: seq<nat>, distCodes: seq<nat>, lit: seq<nat>, dist: seq<nat>, ts: seq<Token>)
    requires Ready(litCodes, distCodes, lit, dist, ts)
    ensures Ready(litCodes, distCodes, lit, dist, [])
    ensures HuffTable.GoodCodes(litCodes, lit) && HT.Bounded(lit, MAX_LEN) && AllCoded(ts, lit, dist) && Used(lit, END_OF_BLOCK)
    ensures HuffTable.GoodCodes(distCodes, dist) && HT.Bounded(dist, MAX_LEN)
  {
  }

  lemma StartReading(ts: seq<Token>, lit: seq<nat>, dist: seq<nat>, sent: Bitstring)
    requires AllValid(ts) && AllCoded(ts, lit, dist)
    ensures Reads(Layout(ts), 1, ts[0..]) && sent + FirstBits(ts, 0, lit, dist) == sent
  {
    ReadLayout(ts);
    assert ts[0..] == ts;
  }

  lemma Regroup(a: Bitstring, b: Bitstring, c: Bitstring)
    ensures a + b + c == a + (b + c)
  {
  }

  lemma EndReading(b: seq<Byte>, flags: nat, ts: seq<Token>, i: nat, lit: seq<nat>, dist: seq<nat>, sent: Bitstring)
    requires i <= |ts| && AllCoded(ts, lit, dist) && Used(lit, END_OF_BLOCK) && Reads(b, flags, ts[i..]) && b == []
    ensures sent + FirstBits(ts, i, lit, dist) + Code(lit, END_OF_BLOCK) == sent + BodyBits(ts, lit, dist)
  {
    assert ts[i..] == [];
    assert ts[..i] == ts;
  }

  method CompressLzCodes(w: Writer, d: CodeBuffer, ghost lit: seq<nat>, ghost dist: seq<nat>, ghost ts: seq<Token>) returns (ok: bool)
    requires w.Valid() && Sealed(d, lit, dist, ts) && w.buf != d.buf
    modifies w`pos, w`bitBuffer, w`bitsIn, w`sent, w.buf
    ensures w.Valid() && w.sent == old(w.sent) + BodyBits(ts, lit, dist)
    ensures ok == (|old(w.sent) + BodyBits(ts, lit, dist)| / 8 < w.end)
    ensures w.pos >= old(w.pos) && forall k :: 0 <= k < old(w.pos) && k < w.buf.Length ==> w.buf[k] == old(w.buf[k])
  {
    hide Ready, HuffTable.GoodCodes, HT.Bounded, Code, Coded, AllCoded, Used, Reads, Written, TokenBits, Layout, Opened, DistOf, FirstBits, TokensBits;
    ReadyFacts(d.lit.codes[..], d.dist.codes[..], lit, dist, ts);
    StartReading(ts, lit, dist, w.sent);
    var flags, p := 1, 0;
    ghost var i := 0;
    while p < d.pos
      invariant 0 <= p <= d.pos && 0 <= i <= |ts| && flags >= 1 && Reads(d.buf[p..d.pos], flags, ts[i..])
      invariant w.Valid() && w.sent == old(w.sent) + FirstBits(ts, i, lit, dist)
      invariant w.pos >= old(w.pos) && forall k :: 0 <= k < old(w.pos) && k < w.buf.Length ==> w.buf[k] == old(w.buf[k])
    {
      ghost var rest := d.buf[p..d.pos];
      ReadStep(rest, flags, ts[i..]);
      if flags == 1 {
        flags := Opened(d.buf[p]);
        p := p + 1;
        assert d.buf[p..d.pos] == rest[1..];
      }
      assert ReadsToken(d.buf[p..d.pos], flags, ts[i..]);
      BitsSnoc(ts, i, lit, dist);
      p := PutToken(w, d, p, flags, lit, dist, ts, i);
      flags := flags / 2;
      assert w.sent == old(w.sent) + FirstBits(ts, i + 1, lit, dist) by {
        Regroup(old(w.sent), FirstBits(ts, i, lit, dist), TokenBits(ts[i], lit, dist));
      }
      i := i + 1;
    }
    EndReading(d.buf[p..d.pos], flags, ts, i, lit, dist, old(w.sent));
    PutCode(w, d.lit.codes, d.lit.sizes, 256, lit);
    HasRoom(w);
    ok := w.pos < w.end;
  }

  /** The token at `p`; `flags` is odd for a match. */
  method PutToken(w: Writer, d: CodeBuffer, p: nat, flags: nat, ghost lit: seq<nat>, ghost dist: seq<nat>, ghost ts: seq<Token>,
                  ghost i: nat) returns (q: nat)
    requires w.Valid() && Sealed(d, lit, dist, ts) && w.buf != d.buf && p < d.pos && i < |ts|
    requires ReadsToken(d.buf[p..d.pos], flags, ts[i..])
    modifies w`pos, w`bitBuffer, w`bitsIn, w`sent, w.buf
    ensures w.Valid() && p < q <= d.pos && Reads(d.buf[q..d.pos], flags / 2, ts[i + 1..])
    ensures old(w.sent) + TokenBits(ts[i], lit, dist) == w.sent
    ensures w.pos >= old(w.pos) && forall k :: 0 <= k < old(w.pos) && k < w.buf.Length ==> w.buf[k] == old(w.buf[k])
  {
    hide Ready, HuffTable.GoodCodes, HT.Bounded, Code, Coded, AllCoded, Used, Reads, Written, TokenBits, Layout, Opened;
    ReadyFacts(d.lit.codes[..], d.dist.codes[..], lit, dist, ts);
    CodedHere(ts, i, lit, dist);
    ghost var rest := d.buf[p..d.pos];
    assert ts[i..][0] == ts[i] && ts[i..][1..] == ts[i + 1..];
    if flags % 2 == 1 {
      var matchLen, matchDist: nat := d.buf[p], WordAt(d.buf[p + 1], d.buf[p + 2]);
      PutMatch(w, d, matchLen, matchDist, lit, dist);
      q := p + 3;
      assert d.buf[q..d.pos] == rest[3..];
    } else {
      PutCode(w, d.lit.codes, d.lit.sizes, d.buf[p], lit);
      q := p + 1;
      assert d.buf[q..d.pos] == rest[1..];
    }
  }

  function WordAt(low: nat, high: nat): (v: nat)
    ensures v + 1 == DistOf(low, high)
  {
    low + 256 * high
  }

  // ---------- the 64-bit emitter

  /** The register holds what was gathered after the buffered bytes. */
  ghost predicate Gathered(buf: seq<Byte>, pos: nat, end: nat, base: Bitstring, ts: seq<Token>, i: nat, lit: seq<nat>, dist: seq<nat>,
                           all: Bitstring, v: nat, n: nat)
  {
    i <= |ts| && AllCoded(ts, lit, dist) && all == base + FirstBits(ts, i, lit, dist) && Written(buf, pos, end, all, v, n)
  }

  /** `TDEFL_PUT_BITS_FAST` of a code. */
  method FastCode(codes: array<nat>, sizes: array<nat>, s: nat, v: nat, n: nat, ghost lens: seq<nat>, ghost buf: seq<Byte>,
                  ghost pos: nat, ghost end: nat, ghost all: Bitstring) returns (v': nat, n': nat)
    requires HuffTable.GoodCodes(codes[..], lens) && HT.Bounded(lens, MAX_LEN) && Used(lens, s) && lens <= sizes[..]
    requires Written(buf, pos, end, all, v, n)
    ensures Written(buf, pos, end, all + Code(lens, s), v', n') && n <= n' <= n + 15
  {
    hide HuffTable.GoodCodes, HT.Bounded, Code, Pow2, Lsb, Written;
    CodeReady(codes[..], sizes[..], lens, s);
    Gather(buf, pos, end, all, v, n, codes[s], sizes[s]);
    v', n' := v + codes[s] * Pow2(n), n + sizes[s];
  }

  method FastExtra(x: nat, l: nat, v: nat, n: nat, ghost buf: seq<Byte>, ghost pos: nat, ghost end: nat, ghost all: Bitstring)
    returns (v': nat, n': nat)
    requires Written(buf, pos, end, all, v, n)
    ensures Written(buf, pos, end, all + Lsb(Extra(x, l), l), v', n') && n' == n + l
  {
    hide Extra, Pow2, Lsb, Written;
    ExtraReady(x, l);
    Gather(buf, pos, end, all, v, n, Extra(x, l), l);
    v', n' := v + Extra(x, l) * Pow2(n), n + l;
  }

  method FastMatch(d: CodeBuffer, c: nat, md: nat, v: nat, n: nat, ghost lit: seq<nat>, ghost dist: seq<nat>, ghost buf: seq<Byte>,
                   ghost pos: nat, ghost end: nat, ghost all: Bitstring) returns (v': nat, n': nat)
    requires c < 256 && md < LZ_DICT_SIZE && Coded(Match(c + 3, md + 1), lit, dist) && Written(buf, pos, end, all, v, n)
    requires d.Shape() && lit <= d.lit.sizes[..] && dist <= d.dist.sizes[..]
    requires Ready(d.lit.codes[..], d.dist.codes[..], lit, dist, [])
    ensures Written(buf, pos, end, all + TokenBits(Match(c + 3, md + 1), lit, dist), v', n') && n' <= n + 48
  {
    hide HuffTable.GoodCodes, HT.Bounded, Code, Pow2, Lsb, LenSym, LenExtra, DistSym, DistExtra, SmallDistSym, SmallDistExtra,
      LargeDistSym, LargeDistExtra, Extra, Coded, AllCoded, Written, Used, TokenBits;
    MatchTables(c + 3, md + 1, lit, dist);
    MatchFields(c + 3, md + 1, lit, dist, all);
    v', n' := FastCode(d.lit.codes, d.lit.sizes, LenSym(c), v, n, lit, buf, pos, end, all);
    ghost var a := all + Code(lit, LenSym(c));
    v', n' := FastExtra(c, LenExtra(c), v', n', buf, pos, end, a);
    a := a + Lsb(Extra(c, LenExtra(c)), LenExtra(c));
    var s0, n0 := SmallDistSym(md % 512), SmallDistExtra(md % 512);
    var s1, n1 := LargeDistSym(md / 256), LargeDistExtra(md / 256);
    var sym, numExtra := if md < 512 then s0 else s1, if md < 512 then n0 else n1;
    DistFields(md);
    v', n' := FastCode(d.dist.codes, d.dist.sizes, sym, v', n', dist, buf, pos, end, a);
    v', n' := FastExtra(md, numExtra, v', n', buf, pos, end, a + Code(dist, sym));
  }

  /** One literal into the register. */
  method FastLiteral(d: CodeBuffer, p: nat, v: nat, n: nat, ghost lit: seq<nat>, ghost dist: seq<nat>, ghost ts: seq<Token>, ghost i: nat,
                     ghost flags: nat, ghost base: Bitstring, ghost buf: seq<Byte>, ghost pos: nat, ghost end: nat, ghost all: Bitstring)
    returns (v': nat, n': nat, ghost all': Bitstring)
    requires Sealed(d, lit, dist, ts) && p < d.pos && i < |ts| && flags % 2 == 0 && ReadsToken(d.buf[p..d.pos], flags, ts[i..])
    requires Gathered(buf, pos, end, base, ts, i, lit, dist, all, v, n)
    ensures Gathered(buf, pos, end, base, ts, i + 1, lit, dist, all', v', n') && n' <= n + 15 && |all'| >= |all|
    ensures Reads(d.buf[p + 1..d.pos], flags / 2, ts[i + 1..])
  {
    hide Ready, HuffTable.GoodCodes, HT.Bounded, Code, Coded, AllCoded, Used, Reads, Written, TokenBits, Layout, FirstBits;
    ReadyFacts(d.lit.codes[..], d.dist.codes[..], lit, dist, ts);
    CodedHere(ts, i, lit, dist);
    assert d.buf[p..d.pos][1..] == d.buf[p + 1..d.pos] && ts[i..][0] == ts[i] && ts[i..][1..] == ts[i + 1..];
    v', n' := FastCode(d.lit.codes, d.lit.sizes, d.buf[p], v, n, lit, buf, pos, end, all);
    all' := all + Code(lit, d.buf[p]);
    BitsSnoc(ts, i, lit, dist);
    Regroup(base, FirstBits(ts, i, lit, dist), TokenBits(ts[i], lit, dist));
  }

  /** A match, or up to three literals that need no new flag byte. */
  method FastTokens(d: CodeBuffer, flags0: nat, p0: nat, v0: nat, n0: nat, ghost lit: seq<nat>, ghost dist: seq<nat>, ghost ts: seq<Token>,
                    ghost i0: nat, ghost base: Bitstring, ghost buf: seq<Byte>, ghost pos: nat, ghost end: nat, ghost all0: Bitstring)
    returns (flags: nat, p: nat, v: nat, n: nat, ghost i: nat, ghost all: Bitstring)
    requires Sealed(d, lit, dist, ts) && p0 < d.pos && i0 < |ts| && ReadsToken(d.buf[p0..d.pos], flags0, ts[i0..])
    requires Gathered(buf, pos, end, base, ts, i0, lit, dist, all0, v0, n0) && n0 < 8
    ensures p0 < p <= d.pos && i0 < i <= |ts| && flags > 1 && Reads(d.buf[p..d.pos], flags / 2, ts[i..])
    ensures Gathered(buf, pos, end, base, ts, i, lit, dist, all, v, n) && n <= 55 && |all| >= |all0|
  {
    hide Ready, HuffTable.GoodCodes, HT.Bounded, Code, Coded, AllCoded, Used, Reads, Written, TokenBits, Layout, FirstBits, Gathered;
    flags, p, v, n, i, all := flags0, p0, v0, n0, i0, all0;
    if flags % 2 == 1 {
      v, n, all := FastMatchAt(d, p, v, n, lit, dist, ts, i, flags, base, buf, pos, end, all);
      p, i := p + 3, i + 1;
    } else {
      v, n, all := FastLiteral(d, p, v, n, lit, dist, ts, i, flags, base, buf, pos, end, all);
      p, i := p + 1, i + 1;
      if flags / 2 % 2 == 0 && p < d.pos {
        NextLiteral(d.buf[p..d.pos], flags / 2, ts[i..]);
        flags := flags / 2;
        v, n, all := FastLiteral(d, p, v, n, lit, dist, ts, i, flags, base, buf, pos, end, all);
        p, i := p + 1, i + 1;
        if flags / 2 % 2 == 0 && p < d.pos {
          NextLiteral(d.buf[p..d.pos], flags / 2, ts[i..]);
          flags := flags / 2;
          v, n, all := FastLiteral(d, p, v, n, lit, dist, ts, i, flags, base, buf, pos, end, all);
          p, i := p + 1, i + 1;
        }
      }
    }
  }

  method FastMatchAt(d: CodeBuffer, p: nat, v: nat, n: nat, ghost lit: seq<nat>, ghost dist: seq<nat>, ghost ts: seq<Token>, ghost i: nat,
                     ghost flags: nat, ghost base: Bitstring, ghost buf: seq<Byte>, ghost pos: nat, ghost end: nat, ghost all: Bitstring)
    returns (v': nat, n': nat, ghost all': Bitstring)
    requires Sealed(d, lit, dist, ts) && p < d.pos && i < |ts| && flags % 2 == 1 && ReadsToken(d.buf[p..d.pos], flags, ts[i..])
    requires Gathered(buf, pos, end, base, ts, i, lit, dist, all, v, n)
    ensures p + 3 <= d.pos && Reads(d.buf[p + 3..d.pos], flags / 2, ts[i + 1..])
    ensures Gathered(buf, pos, end, base, ts, i + 1, lit, dist, all', v', n') && n' <= n + 48 && |all'| >= |all|
  {
    hide Ready, HuffTable.GoodCodes, HT.Bounded, Code, Coded, AllCoded, Used, Reads, Written, TokenBits, Layout, FirstBits;
    ReadyFacts(d.lit.codes[..], d.dist.codes[..], lit, dist, ts);
    CodedHere(ts, i, lit, dist);
    assert d.buf[p..d.pos][3..] == d.buf[p + 3..d.pos] && ts[i..][0] == ts[i] && ts[i..][1..] == ts[i + 1..];
    var matchLen, matchDist: nat := d.buf[p], WordAt(d.buf[p + 1], d.buf[p + 2]);
    v', n' := FastMatch(d, matchLen, matchDist, v, n, lit, dist, buf, pos, end, all);
    all' := all + TokenBits(ts[i], lit, dist);
    BitsSnoc(ts, i, lit, dist);
    Regroup(base, FirstBits(ts, i, lit, dist), TokenBits(ts[i], lit, dist));
  }

  lemma {:induction false} BitsGrow(ts: seq<Token>, i: nat, lit: seq<nat>, dist: seq<nat>)
    requires i <= |ts| && AllCoded(ts, lit, dist)
    ensures |FirstBits(ts, i, lit, dist)| <= |TokensBits(ts, lit, dist)|
    decreases |ts| - i
  {
    hide TokensBits, TokenBits, Coded;
    if i == |ts| {
      assert ts[..i] == ts;
    } else {
      BitsSnoc(ts, i, lit, dist);
      BitsGrow(ts, i + 1, lit, dist);
    }
  }

  lemma GatherNothing(buf: seq<Byte>, pos: nat, end: nat, base: Bitstring, ts: seq<Token>, lit: seq<nat>, dist: seq<nat>, v: nat, n: nat)
    requires AllCoded(ts, lit, dist) && Written(buf, pos, end, base, v, n)
    ensures Gathered(buf, pos, end, base, ts, 0, lit, dist, base, v, n)
  {
    assert base + [] == base;
  }

  /** The register is stored: the whole bytes are out. */
  lemma GatheredOut(buf: seq<Byte>, buf': seq<Byte>, pos: nat, end: nat, base: Bitstring, ts: seq<Token>, i: nat, lit: seq<nat>,
                    dist: seq<nat>, all: Bitstring, v: nat, n: nat)
    requires Gathered(buf, pos, end, base, ts, i, lit, dist, all, v, n) && pos < end && n <= 64 && |buf'| == |buf|
    requires pos + 8 <= |buf| && buf'[..pos] == buf[..pos] && buf'[pos..pos + 8] == LeBytes(v, 8)
    ensures Gathered(buf', pos + n / 8, end, base, ts, i, lit, dist, all, Shr(v, n / 8 * 8), n % 8)
  {
    hide Written, FirstBits, AllCoded, LeBytes, Shr;
    Drain(buf, buf', pos, end, all, v, n);
  }

  lemma GatheredFacts(buf: seq<Byte>, pos: nat, end: nat, base: Bitstring, ts: seq<Token>, i: nat, lit: seq<nat>, dist: seq<nat>,
                      all: Bitstring, v: nat, n: nat)
    requires Gathered(buf, pos, end, base, ts, i, lit, dist, all, v, n) && n <= 64
    ensures i <= |ts| && AllCoded(ts, lit, dist) && Written(buf, pos, end, all, v, n) && v < MAX_WORD64 && end + 16 <= |buf|
    ensures |base| + |FirstBits(ts, i, lit, dist)| == |all| && n <= |all|
    ensures pos >= end ==> (|all| - n) / 8 >= end
  {
    hide FirstBits, Pow2, Lsb;
    FitsRegister(buf, pos, end, all, v, n);
  }

  /** Nothing more will fit. */
  lemma Overflow(buf: seq<Byte>, pos: nat, end: nat, base: Bitstring, ts: seq<Token>, i: nat, lit: seq<nat>, dist: seq<nat>,
                 all: Bitstring, v: nat, n: nat)
    requires Gathered(buf, pos, end, base, ts, i, lit, dist, all, v, n) && n <= 64 && pos >= end && Used(lit, END_OF_BLOCK)
    ensures AllCoded(ts, lit, dist) && |base + BodyBits(ts, lit, dist)| / 8 >= end
  {
    GatheredFacts(buf, pos, end, base, ts, i, lit, dist, all, v, n);
    BitsGrow(ts, i, lit, dist);
  }

  lemma EndGathering(b: seq<Byte>, flags: nat, buf: seq<Byte>, pos: nat, end: nat, base: Bitstring, ts: seq<Token>, i: nat, lit: seq<nat>,
                     dist: seq<nat>, all: Bitstring, v: nat, n: nat)
    requires Gathered(buf, pos, end, base, ts, i, lit, dist, all, v, n) && Used(lit, END_OF_BLOCK)
    requires i <= |ts| && Reads(b, flags, ts[i..]) && b == []
    ensures all + Code(lit, END_OF_BLOCK) == base + BodyBits(ts, lit, dist)
  {
    EndReading(b, flags, ts, i, lit, dist, base);
  }

  /** The bits left in the register go through the bit buffer. */
  method FlushRegister(w: Writer, v0: nat, n0: nat, ghost all: Bitstring)
    requires Written(w.buf[..], w.pos, w.end, all, v0, n0) && n0 < 8
    modifies w`pos, w`bitBuffer, w`bitsIn, w`sent, w.buf
    ensures w.Valid() && w.sent == all
    ensures w.pos >= old(w.pos) && forall k :: 0 <= k < old(w.pos) && k < w.buf.Length ==> w.buf[k] == old(w.buf[k])
  {
    hide Lsb, Pow2, Written, Extra, Shr;
    NoBits(w.buf[..], w.pos, w.end, all, v0, n0);
    w.bitBuffer, w.bitsIn := 0, 0;
    w.sent := all[..|all| - n0];
    assert all[..|all| - n0] + all[|all| - n0..] == all;
    var v, n := v0, n0;
    while n != 0
      invariant (n == n0 && v == v0 && w.sent == all[..|all| - n0]) || (n == 0 && w.sent == all)
      invariant w.Valid()
      invariant w.pos >= old(w.pos) && forall k :: 0 <= k < old(w.pos) && k < w.buf.Length ==> w.buf[k] == old(w.buf[k])
    {
      var l := if n < 16 then n else 16;
      LowBits(v, l);
      w.PutBits(Extra(v, l), l);
      v := Shr(v, l);
      n := n - l;
    }
  }

  lemma LowBits(v: nat, n: nat)
    requires v < Pow2(n)
    ensures Extra(v, n) == v
  {
    hide Pow2;
    ModSmall(v, Pow2(n));
  }

  lemma ModSmall(v: nat, p: nat)
    requires v < p
    ensures v % p == v
  {
  }

  lemma NoBits(buf: seq<Byte>, pos: nat, end: nat, all: Bitstring, v: nat, n: nat)
    requires Written(buf, pos, end, all, v, n)
    ensures n <= |all| && Written(buf, pos, end, all[..|all| - n], 0, 0) && v < Pow2(n) && Lsb(v, n) == all[|all| - n..]
  {
    var most := all[..|all| - n];
    assert most[|most|..] == [] && most[..|most|] == most;
  }

  method CompressLzCodesFast(w: Writer, d: CodeBuffer, ghost lit: seq<nat>, ghost dist: seq<nat>, ghost ts: seq<Token>) returns (ok: bool)
    requires w.Valid() && Sealed(d, lit, dist, ts) && w.buf != d.buf
    modifies w`pos, w`bitBuffer, w`bitsIn, w`sent, w.buf
    ensures w.Valid() && ok == (|old(w.sent) + BodyBits(ts, lit, dist)| / 8 < w.end)
    ensures w.sent == old(w.sent) + BodyBits(ts, lit, dist) || (!ok && w.sent == old(w.sent) && w.pos == old(w.pos))
    ensures w.pos >= old(w.pos) && forall k :: 0 <= k < old(w.pos) && k < w.buf.Length ==> w.buf[k] == old(w.buf[k])
  {
    hide Ready, HuffTable.GoodCodes, HT.Bounded, Code, Coded, AllCoded, Used, Reads, Written, TokenBits, Layout, FirstBits, Gathered, Opened,
      DistOf, BodyBits, Pow2, Lsb, Shr, LeBytes;
    ReadyFacts(d.lit.codes[..], d.dist.codes[..], lit, dist, ts);
    StartReading(ts, lit, dist, w.sent);
    var pos: nat, v: nat, n: nat := w.pos, w.bitBuffer, w.bitsIn;
    var flags, p := 1, 0;
    ghost var i, base, all := 0, w.sent, w.sent;
    GatherNothing(w.buf[..], pos, w.end, base, ts, lit, dist, v, n);
    while p < d.pos
      invariant 0 <= p <= d.pos && 0 <= i <= |ts| && flags >= 1 && Reads(d.buf[p..d.pos], flags, ts[i..]) && n < 8
      invariant Gathered(w.buf[..], pos, w.end, base, ts, i, lit, dist, all, v, n)
      invariant pos >= w.pos && forall k :: 0 <= k < w.pos && k < w.buf.Length ==> w.buf[k] == old(w.buf[k])
      modifies w.buf
    {
      ghost var rest := d.buf[p..d.pos];
      ReadStep(rest, flags, ts[i..]);
      if flags == 1 {
        flags := Opened(d.buf[p]);
        p := p + 1;
        assert d.buf[p..d.pos] == rest[1..];
      }
      flags, p, v, n, i, all := FastTokens(d, flags, p, v, n, lit, dist, ts, i, base, w.buf[..], pos, w.end, all);
      GatheredFacts(w.buf[..], pos, w.end, base, ts, i, lit, dist, all, v, n);
      if pos >= w.end {
        Overflow(w.buf[..], pos, w.end, base, ts, i, lit, dist, all, v, n);
        SameBytes(old(w.buf[..]), w.buf[..], w.pos, w.end, w.sent, w.bitBuffer, w.bitsIn);
        return false;
      }
      ghost var before := w.buf[..];
      StoreWord(w.buf, pos, v);
      assert w.buf[..][..pos] == before[..pos] && w.buf[..][pos..pos + 8] == LeBytes(v, 8);
      GatheredOut(before, w.buf[..], pos, w.end, base, ts, i, lit, dist, all, v, n);
      pos := pos + n / 8;
      v := Shr(v, n / 8 * 8);
      n := n % 8;
      flags := flags / 2;
    }
    EndGathering(d.buf[p..d.pos], flags, w.buf[..], pos, w.end, base, ts, i, lit, dist, all, v, n);
    GatheredFacts(w.buf[..], pos, w.end, base, ts, i, lit, dist, all, v, n);
    w.pos := pos;
    FlushRegister(w, v, n, all);
    PutCode(w, d.lit.codes, d.lit.sizes, 256, lit);
    HasRoom(w);
    ok := w.pos < w.end;
  }

  /** A valid writer has room exactly when its bits do. */
  lemma HasRoom(w: Writer)
    requires w.Valid()
    ensures w.Fits() == (|w.sent| / 8 < w.end)
  {
    hide Pow2, Lsb;
  }

  /** Two writers have put out the same: the whole bytes, and the bits that do not fill one yet. */
  ghost predicate SameState(w1: Writer, w2: Writer)
    reads w1, w1.buf, w2, w2.buf
  {
    && w1.pos == w2.pos <= w1.buf.Length && w2.pos <= w2.buf.Length && w1.buf[..w1.pos] == w2.buf[..w2.pos]
    && w1.bitBuffer == w2.bitBuffer && w1.bitsIn == w2.bitsIn
  }

  /** Both emitters, run on the same token buffer from the same start: they report the same, and when
      they succeed they leave the same bytes and the same residual bits. */
  method EmittersAgree(w1: Writer, w2: Writer, d: CodeBuffer, ghost lit: seq<nat>, ghost dist: seq<nat>, ghost ts: seq<Token>)
    returns (ok1: bool, ok2: bool)
    requires w1.Valid() && w2.Valid() && Sealed(d, lit, dist, ts) && w1 != w2 && w1.buf != d.buf && w2.buf != d.buf && w1.buf != w2.buf
    requires w1.sent == w2.sent && w1.end == w2.end
    modifies w1`pos, w1`bitBuffer, w1`bitsIn, w1`sent, w1.buf, w2`pos, w2`bitBuffer, w2`bitsIn, w2`sent, w2.buf
    ensures ok1 == ok2 && (ok1 ==> SameState(w1, w2))
  {
    hide Written, Ready, Layout, BodyBits;
    ok1 := CompressLzCodes(w1, d, lit, dist, ts);
    ok2 := CompressLzCodesFast(w2, d, lit, dist, ts);
    if ok1 {
      SameOutput(w1.buf[..], w1.pos, w1.bitBuffer, w1.bitsIn, w2.buf[..], w2.pos, w2.bitBuffer, w2.bitsIn, w1.end, w1.sent);
      PosInside(w1);
      PosInside(w2);
    }
  }

  lemma PosInside(w: Writer)
    requires w.Valid()
    ensures w.pos <= w.buf.Length
  {
    hide Pow2, Lsb;
  }
}
