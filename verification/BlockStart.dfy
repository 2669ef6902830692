/** The start of a block: `tdefl_start_dynamic_block` and `tdefl_start_static_block`. */
module BlockStart {
  import opened Bits
  import opened Canonical
  import opened Tokens
  import opened InflateSpec
  import opened SymFreqs
  import opened BitWriter
  import opened LzCodes
  import opened CodeLengthRle
  import opened DynamicHeader
  import opened Emitter
  import opened FixedCode
  import opened BlockSize
  import HuffTable
  import HT = HuffmanTheory

  // ---------- the code lengths without the unused symbols at their end

  lemma TrimmedLens(lens: seq<nat>, n: nat, codes: seq<nat>)
    requires n <= |lens| && Acceptable(lens) && HuffTable.GoodCodes(codes, lens)
    requires forall i :: n <= i < |lens| ==> lens[i] == 0
    ensures Acceptable(lens[..n]) && HuffTable.GoodCodes(codes, lens[..n])
  {
    TrimmedNext(lens, n, MAX_LEN);
    hide Code, Lsb, First, Next, Pow2;
    forall s | 0 <= s < n && lens[s] > 0
      ensures codes[s] < Pow2(lens[s]) && Lsb(codes[s], lens[s]) == Code(lens[..n], s)
    {
      TrimmedCode(lens, n, s);
    }
  }

  method LastUsed(sizes: array<nat>, start: nat, least: nat) returns (n: nat)
    requires least <= start <= sizes.Length
    ensures least <= n <= start && (n > least ==> sizes[n - 1] > 0) && forall i :: n <= i < start ==> sizes[i] == 0
  {
    n := start;
    while n > least
      invariant least <= n <= start && forall i :: n <= i < start ==> sizes[i] == 0
    {
      if sizes[n - 1] != 0 { return; }
      n := n - 1;
    }
  }

  /** Both alphabets' sizes in one array. */
  method JoinSizes(lit: array<nat>, numLit: nat, dist: array<nat>, numDist: nat) returns (all: array<nat>)
    requires numLit <= lit.Length && numDist <= dist.Length && numLit + numDist <= 320
    ensures fresh(all) && all.Length == 320 && all[..numLit + numDist] == lit[..numLit] + dist[..numDist]
  {
    all := new nat[320](_ => 0);
    var i := 0;
    while i < numLit
      invariant 0 <= i <= numLit && all[..i] == lit[..i]
    {
      all[i] := lit[i];
      i := i + 1;
    }
    i := 0;
    while i < numDist
      invariant 0 <= i <= numDist && all[..numLit] == lit[..numLit] && all[numLit..numLit + i] == dist[..i]
    {
      all[numLit + i] := dist[i];
      i := i + 1;
    }
    assert all[..numLit + numDist] == all[..numLit] + all[numLit..numLit + numDist];
  }

  // ---------- the symbols of the tokens have codes

  lemma {:induction false} NoFarSymbol(ts: seq<Token>, s: nat)
    requires AllValid(ts) && s >= 30
    ensures DistUses(ts, s) == 0
  {
    if ts != [] {
      NoFarSymbol(ts[..|ts| - 1], s);
      if ts[|ts| - 1].Match? { DistanceTables(ts[|ts| - 1].dist - 1); }
    }
  }

  lemma TokensCoded(ts: seq<Token>, lit: seq<nat>, dist: seq<nat>, litCount: seq<Word16>, distCount: seq<Word16>)
    requires LitCounted(litCount, ts) && DistCounted(distCount, ts)
    requires 257 <= |lit| && forall i :: 0 <= i < |litCount| && litCount[i] > 0 ==> i < |lit| && lit[i] > 0
    requires forall i :: 0 <= i < |distCount| && distCount[i] > 0 ==> i < |dist| && dist[i] > 0
    ensures AllCoded(ts, lit, dist)
  {
    hide LitUses, DistUses, HuffTable.Sum, LenSym, DistSym;
    forall i | 0 <= i < |ts| ensures Coded(ts[i], lit, dist) {
      CountedUsed(ts, i);
      LitSymBound(ts[i]);
      if ts[i].Match? { DistanceTables(ts[i].dist - 1); }
    }
  }

  lemma {:induction false} SumBound(count: seq<Word16>, m: nat)
    requires forall i :: 0 <= i < |count| ==> count[i] <= m
    ensures HuffTable.Sum(count) <= |count| * m
  {
    if count != [] {
      SumBound(count[..|count| - 1], m);
      assert |count| * m == (|count| - 1) * m + m;
    }
  }

  /** Both alphabets get their codes. */
  method BuildCodes(d: CodeBuffer, ghost ts: seq<Token>)
    requires d.Shape() && LitCounted(d.lit.count[..], ts) && DistCounted(d.dist.count[..], ts) && |ts| <= 65534
    modifies d.lit.count, d.lit.codes, d.lit.sizes, d.dist.codes, d.dist.sizes
    ensures HuffTable.GoodLens(d.lit.sizes[..], 15) && HuffTable.GoodCodes(d.lit.codes[..], d.lit.sizes[..])
    ensures HuffTable.GoodLens(d.dist.sizes[..32], 15) && HuffTable.GoodCodes(d.dist.codes[..], d.dist.sizes[..32])
    ensures d.lit.sizes[256] > 0 && d.lit.sizes[286] == d.lit.sizes[287] == 0
    ensures forall i :: 30 <= i < d.dist.sizes.Length ==> d.dist.sizes[i] == 0
    ensures forall i :: 0 <= i < 288 && old(d.lit.count[i]) > 0 ==> d.lit.sizes[i] > 0
    ensures forall i :: 0 <= i < 288 && d.dist.count[i] > 0 ==> d.dist.sizes[i] > 0
    ensures HuffTable.NearCheapest(old(d.lit.count[..])[256 := 1], d.lit.sizes[..])
    ensures HuffTable.NearCheapest(d.dist.count[..32], d.dist.sizes[..32])
  {
    hide HuffTable.GoodLens, HuffTable.GoodCodes, HuffTable.Sum, LitUses, DistUses, HuffTable.NearCheapest;
    ghost var c := d.lit.count[..];
    NoEndSymbol(ts, 256);
    NoEndSymbol(ts, 286);
    NoEndSymbol(ts, 287);
    forall i | 30 <= i < 288 ensures d.dist.count[i] == 0 { NoFarSymbol(ts, i); }
    SumSet(c, 256);
    d.lit.count[256] := 1;
    assert d.lit.count[..] == c[256 := 1] && d.lit.count[..288] == d.lit.count[..];
    d.lit.Optimize(288, 15);
    assert d.lit.sizes[..288] == d.lit.sizes[..];
    SumTake(d.dist.count[..], 32);
    assert d.dist.count[..][..32] == d.dist.count[..32];
    d.dist.Optimize(32, 15);
  }

  // ---------- sending the header

  /** The lengths of the code length code. */
  method SendLengths(w: Writer, sizes: array<nat>, n: nat)
    requires w.Valid() && sizes.Length == HuffTable.MAX_SYMBOLS && n <= NUM_LENGTH_SYMBOLS
    requires forall i :: 0 <= i < NUM_LENGTH_SYMBOLS ==> sizes[i] <= 7
    modifies w`pos, w`bitBuffer, w`bitsIn, w`sent, w.buf
    ensures w.Valid() && w.sent == old(w.sent) + LengthsBits(sizes[..NUM_LENGTH_SYMBOLS], 0, n)
    ensures w.pos >= old(w.pos) && forall k :: 0 <= k < old(w.pos) && k < w.buf.Length ==> w.buf[k] == old(w.buf[k])
  {
    hide Lsb, Written, LengthsBits, Pow2;
    ghost var lens := sizes[..NUM_LENGTH_SYMBOLS];
    var i := 0;
    while i < n
      invariant 0 <= i <= n && w.Valid() && w.sent + LengthsBits(lens, i, n) == old(w.sent) + LengthsBits(lens, 0, n)
      invariant w.pos >= old(w.pos) && forall k :: 0 <= k < old(w.pos) && k < w.buf.Length ==> w.buf[k] == old(w.buf[k])
    {
      LengthSent(w.sent, lens, i, n);
      var s := sizes[SWIZZLE[i]];
      assert s == lens[SWIZZLE[i]];
      w.PutBits(s, 3);
      i := i + 1;
    }
    AllSent(w.sent, lens, n);
  }

  lemma LengthSent(sent: Bitstring, lens: seq<nat>, i: nat, n: nat)
    requires |lens| == NUM_LENGTH_SYMBOLS && i < n <= NUM_LENGTH_SYMBOLS && forall k :: 0 <= k < NUM_LENGTH_SYMBOLS ==> lens[k] <= 7
    ensures SWIZZLE[i] < NUM_LENGTH_SYMBOLS && lens[SWIZZLE[i]] < Pow2(3)
    ensures sent + LengthsBits(lens, i, n) == sent + Lsb(lens[SWIZZLE[i]], 3) + LengthsBits(lens, i + 1, n)
  {
    hide Lsb;
    assert Pow2(3) == 8;
  }

  lemma AllSent(sent: Bitstring, lens: seq<nat>, n: nat)
    requires |lens| == NUM_LENGTH_SYMBOLS && n <= NUM_LENGTH_SYMBOLS
    ensures sent + LengthsBits(lens, n, n) == sent
  {
  }

  lemma FirstOpFits(packed: seq<nat>, lens: seq<nat>)
    requires OpsCoded(packed, lens) && packed != []
    ensures ValidOp(packed) && Used(lens, packed[0]) && OpsCoded(packed[OpSize(packed[0])..], lens)
    ensures OpsBits(packed, lens) == OpBits(packed, lens) + OpsBits(packed[OpSize(packed[0])..], lens)
    ensures packed[0] >= 16 ==> |packed| >= 2 && ExtraBits(packed[0]) <= 7 && packed[1] < Pow2(ExtraBits(packed[0]))
  {
    hide OpBits;
  }

  /** The packed code lengths under their code. */
  method SendOps(w: Writer, packed: array<nat>, np: nat, t: HuffTable.Table, ghost lens: seq<nat>)
    requires w.Valid() && t.Valid() && np <= packed.Length && OpsCoded(packed[..np], lens)
    requires HuffTable.GoodCodes(t.codes[..], lens) && HT.Bounded(lens, MAX_LEN) && lens <= t.sizes[..]
    modifies w`pos, w`bitBuffer, w`bitsIn, w`sent, w.buf
    ensures w.Valid() && w.sent == old(w.sent) + OpsBits(packed[..np], lens)
    ensures w.pos >= old(w.pos) && forall k :: 0 <= k < old(w.pos) && k < w.buf.Length ==> w.buf[k] == old(w.buf[k])
  {
    hide Lsb, Pow2, Written, OpsBits, OpsCoded, HuffTable.GoodCodes, HT.Bounded, Code, ValidOp;
    ghost var all := packed[..np];
    var i := 0;
    assert all[0..] == all;
    while i < np
      invariant 0 <= i <= np && OpsCoded(all[i..], lens) && packed[..np] == all
      invariant w.Valid() && w.sent + OpsBits(all[i..], lens) == old(w.sent) + OpsBits(all, lens)
      invariant w.pos >= old(w.pos) && forall k :: 0 <= k < old(w.pos) && k < w.buf.Length ==> w.buf[k] == old(w.buf[k])
    {
      ghost var rest, before := all[i..], w.sent;
      FirstOpFits(rest, lens);
      var code := packed[i];
      assert rest[0] == code;
      i := i + 1;
      PutCode(w, t.codes, t.sizes, code, lens);
      if code >= 16 {
        assert rest[1] == packed[i];
        w.PutBits(packed[i], ExtraBits(code));
        i := i + 1;
      }
      assert w.sent == before + OpBits(rest, lens);
      assert all[i..] == rest[OpSize(code)..];
      Regroup(before, OpBits(rest, lens), OpsBits(all[i..], lens));
    }
    NoOps(all[i..], lens);
    assert w.sent + [] == w.sent;
  }

  lemma NoOps(packed: seq<nat>, lens: seq<nat>)
    requires packed == []
    ensures OpsCoded(packed, lens) && OpsBits(packed, lens) == []
  {
  }

  /** Every operation counted has a code. */
  lemma {:induction false} PackedCoded(packed: seq<nat>, acc: seq<nat>, lens: seq<nat>)
    requires Unpackable(packed, acc)
    requires forall s: nat :: s < NUM_LENGTH_SYMBOLS && OpCount(packed, s) > 0 ==> Used(lens, s)
    ensures OpsCoded(packed, lens)
    decreases |packed|
  {
    hide OpLengths, Used, ExtraBits, Pow2;
    if packed != [] {
      var tail := packed[OpSize(packed[0])..];
      assert OpCount(packed, packed[0]) > 0;
      forall s: nat | s < NUM_LENGTH_SYMBOLS && OpCount(tail, s) > 0 ensures Used(lens, s) {
        assert OpCount(packed, s) > 0;
      }
      PackedCoded(tail, acc + OpLengths(packed, acc), lens);
    }
  }

  /** The counts of the packed operations are small. */
  lemma PackedCounts(packed: seq<nat>, done: seq<nat>, count: seq<Word16>)
    requires Packs(packed, done, count) && |done| <= 320
    ensures HuffTable.Sum(count[..NUM_LENGTH_SYMBOLS]) < 65536
  {
    hide HuffTable.Sum, OpCount, Unpackable, Unpacked;
    forall i | 0 <= i < NUM_LENGTH_SYMBOLS ensures count[i] <= 320 { OpCountBound(packed, i); }
    SumBound(count[..NUM_LENGTH_SYMBOLS], 320);
  }

  lemma PackedOps(packed: seq<nat>, done: seq<nat>, count: seq<Word16>, lens: seq<nat>)
    requires Packs(packed, done, count) && |lens| == NUM_LENGTH_SYMBOLS
    requires forall i :: 0 <= i < NUM_LENGTH_SYMBOLS && count[i] > 0 ==> lens[i] > 0
    ensures OpsCoded(packed, lens) && Unpackable(packed, []) && Unpacked(packed, []) == done
  {
    hide OpCount, Unpackable, Unpacked, OpsCoded;
    PackedCoded(packed, [], lens);
  }

  /** The number of code length code lengths that are sent. */
  method CountLengths(sizes: array<nat>) returns (n: nat)
    requires sizes.Length == HuffTable.MAX_SYMBOLS
    ensures 4 <= n <= NUM_LENGTH_SYMBOLS && forall j :: n <= j < NUM_LENGTH_SYMBOLS ==> sizes[SWIZZLE[j]] == 0
    ensures n > 4 ==> sizes[SWIZZLE[n - 1]] != 0
  {
    var last := 18;
    while last >= 0
      invariant -1 <= last <= 18 && forall j :: last < j < NUM_LENGTH_SYMBOLS ==> sizes[SWIZZLE[j]] == 0
    {
      if sizes[SWIZZLE[last]] != 0 { break; }
      last := last - 1;
    }
    n := if 4 >= last + 1 then 4 else last + 1;
  }

  /** The header's tables as sequences. */
  datatype Header = Header(lit: seq<nat>, dist: seq<nat>, lens: seq<nat>, n: nat, packed: seq<nat>)

  ghost predicate ValidHeader(h: Header) { GoodHeader(h.lit, h.dist, h.lens, h.n, h.packed) }

  ghost function DynamicBits(h: Header): Bitstring
    requires ValidHeader(h)
  {
    Lsb(2, 2) + HeaderBits(|h.lit|, |h.dist|, h.lens, h.n, h.packed)
  }

  lemma GoodLensHere(lens: seq<nat>, limit: nat)
    requires HuffTable.GoodLens(lens, limit)
    ensures Acceptable(lens) && HT.Bounded(lens, limit) && HT.Bounded(lens, MAX_LEN)
  {
  }

  lemma BoundedTake(lens: seq<nat>, n: nat)
    requires HT.Bounded(lens, MAX_LEN) && n <= |lens|
    ensures HT.Bounded(lens[..n], MAX_LEN)
  {
  }

  /** The packing half of `tdefl_start_dynamic_block`, and the code for the packed lengths. */
  method PackSizes(all: array<nat>, total: nat, t: HuffTable.Table) returns (packed: array<nat>, np: nat)
    requires t.Valid() && all.Length == 320 && total <= 320 && forall i :: 0 <= i < total ==> all[i] <= 15
    modifies t.count, t.codes, t.sizes
    ensures fresh(packed) && np <= packed.Length == 320
    ensures HuffTable.GoodLens(t.sizes[..NUM_LENGTH_SYMBOLS], 7)
    ensures HuffTable.GoodCodes(t.codes[..], t.sizes[..NUM_LENGTH_SYMBOLS])
    ensures OpsCoded(packed[..np], t.sizes[..NUM_LENGTH_SYMBOLS]) && Unpackable(packed[..np], [])
    ensures Unpacked(packed[..np], []) == old(all[..total]) && packed[..np] == RunForm(old(all[..total]))
  {
    hide HuffTable.GoodLens, HuffTable.GoodCodes, HuffTable.Sum, Packs, OpsCoded, Unpackable, Unpacked, RunForm;
    ghost var sizes := all[..total];
    packed := new nat[320](_ => 0);
    var i := 0;
    while i < NUM_LENGTH_SYMBOLS
      invariant 0 <= i <= NUM_LENGTH_SYMBOLS && forall k :: 0 <= k < i ==> t.count[k] == 0
    {
      t.count[i] := 0;
      i := i + 1;
    }
    assert forall i :: 0 <= i < total ==> all[i] == sizes[i];
    np := PackCodeSizes(all, total, packed, t.count);
    assert all[..total] == sizes;
    ghost var ops := packed[..np];
    PackedCounts(ops, sizes, t.count[..]);
    assert t.count[..][..NUM_LENGTH_SYMBOLS] == t.count[..NUM_LENGTH_SYMBOLS];
    t.Optimize(NUM_LENGTH_SYMBOLS, 7);
    PackedOps(ops, sizes, t.count[..], t.sizes[..NUM_LENGTH_SYMBOLS]);
    assert packed[..np] == ops;
  }

  /** Nothing is sent that could be left out at the end of a table, and the lengths go out run by run. */
  ghost predicate Tight(h: Header) {
    && (|h.lit| > 257 ==> h.lit[|h.lit| - 1] > 0) && (|h.dist| > 1 ==> h.dist[|h.dist| - 1] > 0)
    && (4 < h.n <= NUM_LENGTH_SYMBOLS && |h.lens| == NUM_LENGTH_SYMBOLS ==> h.lens[SWIZZLE[h.n - 1]] != 0)
    && h.packed == RunForm(h.lit + h.dist)
  }

  ghost predicate Apart(d: CodeBuffer, t: HuffTable.Table) {
    && t.Valid() && t.count != d.lit.count && t.count != d.dist.count
    && {t.codes, t.sizes} !! {d.lit.codes, d.lit.sizes, d.dist.codes, d.dist.sizes}
  }

  /** The buffer holds `ts`, and its symbols are counted. */
  ghost predicate Loaded(d: CodeBuffer, ts: seq<Token>)
    reads d, d.buf, d.lit.count, d.dist.count
  {
    && d.Shape() && AllValid(ts) && d.pos <= LZ_CODE_BUF_SIZE - 2 && d.buf[..d.pos] == Layout(ts)
    && LitCounted(d.lit.count[..], ts) && DistCounted(d.dist.count[..], ts)
  }

  /** Both alphabets trimmed, with the codes in place. */
  method PrepareCodes(d: CodeBuffer, ghost ts: seq<Token>) returns (numLit: nat, numDist: nat)
    requires Loaded(d, ts)
    modifies d.lit.count, d.lit.codes, d.lit.sizes, d.dist.codes, d.dist.sizes
    ensures 257 <= numLit <= 286 && 1 <= numDist <= 30 && Sealed(d, d.lit.sizes[..numLit], d.dist.sizes[..numDist], ts)
    ensures Acceptable(d.lit.sizes[..numLit]) && Acceptable(d.dist.sizes[..numDist])
    ensures |BodyBits(ts, d.lit.sizes[..numLit], d.dist.sizes[..numDist])| <= BODY_LIMIT
    ensures AllWorth(ts) ==> 100 * |BodyBits(ts, d.lit.sizes[..numLit], d.dist.sizes[..numDist])| <= 870 * TotalLen(ts) + 870
    ensures (numLit > 257 ==> d.lit.sizes[numLit - 1] > 0) && (numDist > 1 ==> d.dist.sizes[numDist - 1] > 0)
  {
    hide HuffTable.GoodLens, HuffTable.GoodCodes, Layout, Acceptable, HT.Bounded, AllCoded, Code, HuffTable.NearCheapest, BodyBits, LitUses,
      DistUses, HuffTable.Sum, AllWorth, TotalLen;
    ghost var litCount, distCount := d.lit.count[..], d.dist.count[..];
    LayoutCost(ts);
    BuildCodes(d, ts);
    GoodLensHere(d.lit.sizes[..], 15);
    GoodLensHere(d.dist.sizes[..32], 15);
    numLit := LastUsed(d.lit.sizes, 286, 257);
    numDist := LastUsed(d.dist.sizes, 30, 1);
    ghost var lit, dist := d.lit.sizes[..numLit], d.dist.sizes[..numDist];
    assert lit == d.lit.sizes[..][..numLit] && dist == d.dist.sizes[..32][..numDist];
    TrimmedLens(d.lit.sizes[..], numLit, d.lit.codes[..]);
    TrimmedLens(d.dist.sizes[..32], numDist, d.dist.codes[..]);
    BoundedTake(d.lit.sizes[..], numLit);
    BoundedTake(d.dist.sizes[..32], numDist);
    TokensCoded(ts, lit, dist, litCount, distCount);
    TableCoded(ts, d.lit.codes[..], d.dist.codes[..], lit, dist);
    BodyFits(ts, litCount, distCount, d.lit.sizes[..], d.dist.sizes[..32], lit, dist);
    if AllWorth(ts) { BodyShort(ts, litCount, distCount, d.lit.sizes[..], d.dist.sizes[..32], lit, dist); }
  }

  lemma TableCoded(ts: seq<Token>, litCodes: seq<nat>, distCodes: seq<nat>, lit: seq<nat>, dist: seq<nat>)
    requires HuffTable.GoodCodes(litCodes, lit) && HuffTable.GoodCodes(distCodes, dist)
    requires HT.Bounded(lit, MAX_LEN) && HT.Bounded(dist, MAX_LEN) && AllCoded(ts, lit, dist) && AllValid(ts)
    requires |lit| > 256 && lit[256] > 0
    ensures Ready(litCodes, distCodes, lit, dist, ts)
  {
  }

  /** The header itself. */
  method SendHeader(w: Writer, t: HuffTable.Table, numLit: nat, numDist: nat, packed: array<nat>, np: nat, ghost lit: seq<nat>, ghost dist: seq<nat>)
    returns (ghost h: Header)
    requires w.Valid() && t.Valid() && np <= packed.Length && |lit| == numLit && |dist| == numDist
    requires 257 <= numLit <= 286 && 1 <= numDist <= 30 && Acceptable(lit) && Acceptable(dist)
    requires HuffTable.GoodLens(t.sizes[..NUM_LENGTH_SYMBOLS], 7)
    requires HuffTable.GoodCodes(t.codes[..], t.sizes[..NUM_LENGTH_SYMBOLS])
    requires OpsCoded(packed[..np], t.sizes[..NUM_LENGTH_SYMBOLS]) && Unpackable(packed[..np], [])
    requires Unpacked(packed[..np], []) == lit + dist
    modifies w`pos, w`bitBuffer, w`bitsIn, w`sent, w.buf
    ensures ValidHeader(h) && h.lit == lit && h.dist == dist && h.packed == packed[..np]
    ensures |h.packed| == np && (h.n > 4 ==> h.lens[SWIZZLE[h.n - 1]] != 0)
    ensures w.Valid() && w.sent == old(w.sent) + DynamicBits(h)
    ensures w.pos >= old(w.pos) && forall k :: 0 <= k < old(w.pos) && k < w.buf.Length ==> w.buf[k] == old(w.buf[k])
  {
    hide HuffTable.GoodLens, HuffTable.GoodCodes, Acceptable, OpsCoded, Unpackable, Unpacked, HT.Bounded, Lsb, Pow2, Written, LengthsBits,
      OpsBits;
    ghost var lens, ops, base := t.sizes[..NUM_LENGTH_SYMBOLS], packed[..np], w.sent;
    FiveBits();
    TwoBits();
    GoodLensHere(lens, 7);
    BoundedSizes(lens, 7);
    assert forall i :: 0 <= i < NUM_LENGTH_SYMBOLS ==> t.sizes[i] == lens[i];
    w.PutBits(2, 2);
    w.PutBits(numLit - 257, 5);
    w.PutBits(numDist - 1, 5);
    var n := CountLengths(t.sizes);
    assert forall j :: n <= j < NUM_LENGTH_SYMBOLS ==> lens[SWIZZLE[j]] == t.sizes[SWIZZLE[j]];
    w.PutBits(n - 4, 4);
    SendLengths(w, t.sizes, n);
    SendOps(w, packed, np, t, lens);
    h := Header(lit, dist, lens, n, ops);
    HeaderSent(base, numLit, numDist, lens, n, ops);
  }

  lemma TwoBits()
    ensures Pow2(2) == 4
  {
  }

  lemma BoundedSizes(lens: seq<nat>, limit: nat)
    requires HT.Bounded(lens, limit)
    ensures forall s :: 0 <= s < |lens| ==> lens[s] <= limit
  {
  }

  lemma HeaderSent(base: Bitstring, lit: nat, dist: nat, lens: seq<nat>, n: nat, packed: seq<nat>)
    requires 257 <= lit && 1 <= dist && 4 <= n <= NUM_LENGTH_SYMBOLS == |lens| && OpsCoded(packed, lens)
    ensures base + Lsb(2, 2) + Lsb(lit - 257, 5) + Lsb(dist - 1, 5) + Lsb(n - 4, 4) + LengthsBits(lens, 0, n) + OpsBits(packed, lens) ==
            base + (Lsb(2, 2) + HeaderBits(lit, dist, lens, n, packed))
  {
    hide Lsb, LengthsBits, OpsBits, OpsCoded;
  }

  /** `tdefl_start_dynamic_block`. */
  method StartDynamicBlock(w: Writer, d: CodeBuffer, t: HuffTable.Table, ghost ts: seq<Token>) returns (ghost h: Header)
    requires w.Valid() && Loaded(d, ts) && Apart(d, t) && w.buf != d.buf
    modifies w`pos, w`bitBuffer, w`bitsIn, w`sent, w.buf
    modifies d.lit.count, d.lit.codes, d.lit.sizes, d.dist.codes, d.dist.sizes, t.count, t.codes, t.sizes
    ensures ValidHeader(h) && Sealed(d, h.lit, h.dist, ts) && Tight(h)
    ensures |DynamicBits(h)| <= HEADER_LIMIT && |BodyBits(ts, h.lit, h.dist)| <= BODY_LIMIT
    ensures AllWorth(ts) ==> 100 * |BodyBits(ts, h.lit, h.dist)| <= 870 * TotalLen(ts) + 870
    ensures w.Valid() && w.sent == old(w.sent) + DynamicBits(h)
    ensures w.pos >= old(w.pos) && forall k :: 0 <= k < old(w.pos) && k < w.buf.Length ==> w.buf[k] == old(w.buf[k])
  {
    hide HuffTable.GoodLens, HuffTable.GoodCodes, Acceptable, OpsCoded, Unpackable, Unpacked, HT.Bounded, Lsb, Pow2, Written, LengthsBits,
      OpsBits, Layout, LitCounted, DistCounted, Ready, DynamicBits, ValidHeader, BodyBits, AllWorth, TotalLen, RunForm;
    var numLit, numDist := PrepareCodes(d, ts);
    ghost var lit, dist := d.lit.sizes[..numLit], d.dist.sizes[..numDist];
    var all := JoinSizes(d.lit.sizes, numLit, d.dist.sizes, numDist);
    SizesSmall(lit + dist, d.lit.codes[..], d.dist.codes[..], lit, dist, ts);
    assert forall i :: 0 <= i < numLit + numDist ==> all[i] == (lit + dist)[i];
    var packed, np := PackSizes(all, numLit + numDist, t);
    h := SendHeader(w, t, numLit, numDist, packed, np, lit, dist);
    HeaderSize(h);
  }

  // ---------- the size of the header

  const HEADER_LIMIT := 2313

  lemma {:induction false} OpsSize(packed: seq<nat>, lens: seq<nat>)
    requires OpsCoded(packed, lens) && forall s :: 0 <= s < |lens| ==> lens[s] <= 7
    ensures |OpsBits(packed, lens)| <= 7 * |packed|
    decreases |packed|
  {
    hide Code, Lsb;
    if packed != [] {
      OpsSize(packed[OpSize(packed[0])..], lens);
    }
  }

  lemma {:induction false} LengthsSize(lens: seq<nat>, i: nat, n: nat)
    requires |lens| == NUM_LENGTH_SYMBOLS && i <= n <= NUM_LENGTH_SYMBOLS
    ensures |LengthsBits(lens, i, n)| == 3 * (n - i)
    decreases n - i
  {
    hide Lsb;
    if i < n {
      LengthsSize(lens, i + 1, n);
    }
  }

  lemma HeaderSize(h: Header)
    requires ValidHeader(h) && |h.packed| <= 320
    ensures |DynamicBits(h)| <= HEADER_LIMIT
  {
    hide Lsb, OpsBits, OpsCoded, LengthsBits, Unpackable, Unpacked, Acceptable;
    OpsSize(h.packed, h.lens);
    LengthsSize(h.lens, 0, h.n);
  }

  lemma SizesSmall(all: seq<nat>, litCodes: seq<nat>, distCodes: seq<nat>, lit: seq<nat>, dist: seq<nat>, ts: seq<Token>)
    requires Ready(litCodes, distCodes, lit, dist, ts) && all == lit + dist
    ensures forall i :: 0 <= i < |all| ==> all[i] <= 15
  {
    hide HuffTable.GoodCodes, AllCoded;
  }

  // ---------- the static block

  /** `tdefl_start_static_block`. */
  method StartStaticBlock(w: Writer, d: CodeBuffer, ghost ts: seq<Token>)
    requires w.Valid() && w.buf != d.buf && d.Shape() && AllValid(ts) && d.pos <= d.buf.Length && d.buf[..d.pos] == Layout(ts)
    modifies w`pos, w`bitBuffer, w`bitsIn, w`sent, w.buf, d.lit.codes, d.lit.sizes, d.dist.codes, d.dist.sizes
    ensures Sealed(d, FixedLit(), FixedDist(), ts)
    ensures w.Valid() && w.sent == old(w.sent) + Lsb(1, 2)
    ensures w.pos >= old(w.pos) && forall k :: 0 <= k < old(w.pos) && k < w.buf.Length ==> w.buf[k] == old(w.buf[k])
  {
    hide Lsb, Pow2, Layout, Written, AllCoded, HuffTable.GoodCodes, NotOver, AllValid, TokensBits;
    FillFixed(d);
    FixedReady(d.lit.sizes[..], d.dist.sizes[..32]);
    assert d.lit.sizes[..288] == d.lit.sizes[..];
    d.lit.AssignStatic(288);
    d.dist.AssignStatic(32);
    FixedCosts(ts);
    TableCoded(ts, d.lit.codes[..], d.dist.codes[..], d.lit.sizes[..], d.dist.sizes[..32]);
    TwoBits();
    w.PutBits(1, 2);
  }

  lemma FixedReady(lit: seq<nat>, dist: seq<nat>)
    requires lit == FixedLit() && dist == FixedDist()
    ensures HT.Bounded(lit, MAX_LEN) && NotOver(lit) && HT.Bounded(dist, MAX_LEN) && NotOver(dist)
    ensures |lit| > 256 && lit[256] > 0
  {
    hide Next, Complete;
    FixedComplete();
  }

  method FillFixed(d: CodeBuffer)
    requires d.Shape()
    modifies d.lit.sizes, d.dist.sizes
    ensures d.lit.sizes[..] == FixedLit() && d.dist.sizes[..32] == FixedDist()
  {
    var i := 0;
    while i <= 143
      invariant 0 <= i <= 144 && forall k :: 0 <= k < i ==> d.lit.sizes[k] == 8
    {
      d.lit.sizes[i] := 8;
      i := i + 1;
    }
    while i <= 255
      invariant 144 <= i <= 256 && forall k :: 0 <= k < i ==> d.lit.sizes[k] == FixedLit()[k]
    {
      d.lit.sizes[i] := 9;
      i := i + 1;
    }
    while i <= 279
      invariant 256 <= i <= 280 && forall k :: 0 <= k < i ==> d.lit.sizes[k] == FixedLit()[k]
    {
      d.lit.sizes[i] := 7;
      i := i + 1;
    }
    while i <= 287
      invariant 280 <= i <= 288 && forall k :: 0 <= k < i ==> d.lit.sizes[k] == FixedLit()[k]
    {
      d.lit.sizes[i] := 8;
      i := i + 1;
    }
    i := 0;
    while i < 32
      invariant 0 <= i <= 32 && d.lit.sizes[..] == FixedLit() && forall k :: 0 <= k < i ==> d.dist.sizes[k] == 5
    {
      d.dist.sizes[i] := 5;
      i := i + 1;
    }
  }
}
