/** How long the body of a dynamic block can get: nearly as short as with the fixed codes, which fits
    the output buffer whatever the token buffer holds. */
module BlockSize {
  import opened Bits
  import opened Canonical
  import opened Tokens
  import opened InflateSpec
  import opened SymFreqs
  import opened LzCodes
  import opened Emitter
  import HuffTable
  import HT = HuffmanTheory

  lemma {:induction false} NoEndSymbol(ts: seq<Token>, s: nat)
    requires AllValid(ts) && (s == 256 || s >= 286)
    ensures LitUses(ts, s) == 0
  {
    if ts != [] {
      NoEndSymbol(ts[..|ts| - 1], s);
    }
  }

  // ---------- the fixed codes

  /** What one token costs under the static code. */
  lemma FixedCost(t: Token)
    requires ValidToken(t)
    ensures Coded(t, FixedLit(), FixedDist()) && |TokenBits(t, FixedLit(), FixedDist())| <= StaticCost(t)
  {
    if t.Match? {
      LengthTables(t.len - 3);
      DistanceTables(t.dist - 1);
    }
  }

  lemma {:induction false} FixedCosts(ts: seq<Token>)
    requires AllValid(ts)
    ensures AllCoded(ts, FixedLit(), FixedDist()) && |TokensBits(ts, FixedLit(), FixedDist())| <= StaticCosts(ts)
  {
    hide TokenBits, Coded, StaticCost;
    forall i | 0 <= i < |ts| ensures Coded(ts[i], FixedLit(), FixedDist()) { FixedCost(ts[i]); }
    if ts != [] {
      FixedCosts(ts[..|ts| - 1]);
      FixedCost(ts[|ts| - 1]);
    }
  }

  lemma {:induction false} TotalRepeated(x: nat, n: nat)
    ensures HT.Total(Repeated(x, n)) == n * x
  {
    if n > 0 {
      assert Repeated(x, n)[..n - 1] == Repeated(x, n - 1);
      TotalRepeated(x, n - 1);
      assert n * x == (n - 1) * x + x;
    }
  }

  lemma FixedFeasible()
    ensures HT.Feasible(FixedLit(), 9) && HT.Feasible(FixedDist(), 5)
  {
    assert Pow2(4) == 16 && Pow2(9) == 512 && Pow2(5) == 32 && Pow2(0) == 1 && Pow2(1) == 2 && Pow2(2) == 4;
    var a, b, c, d := Repeated(2, 144), Repeated(1, 112), Repeated(4, 24), Repeated(2, 8);
    assert HT.Terms(FixedLit(), 9) == a + b + c + d;
    HT.TotalConcat(a + b + c, d);
    HT.TotalConcat(a + b, c);
    HT.TotalConcat(a, b);
    TotalRepeated(2, 144);
    TotalRepeated(1, 112);
    TotalRepeated(4, 24);
    TotalRepeated(2, 8);
    assert HT.Terms(FixedDist(), 5) == Repeated(1, 32);
    TotalRepeated(1, 32);
  }

  // ---------- the bits of the tokens, alphabet by alphabet

  function LitTotal(ts: seq<Token>, lens: seq<nat>): nat
    requires AllValid(ts) && |lens| >= 286
  {
    if ts == [] then 0 else LitTotal(ts[..|ts| - 1], lens) + lens[LitSym(ts[|ts| - 1])]
  }

  function DistLen(t: Token, lens: seq<nat>): nat
    requires ValidToken(t) && |lens| >= 30
  {
    if t.Match? then DistanceTables(t.dist - 1); lens[DistSym(t.dist - 1)] else 0
  }

  function DistTotal(ts: seq<Token>, lens: seq<nat>): nat
    requires AllValid(ts) && |lens| >= 30
  {
    if ts == [] then 0 else DistTotal(ts[..|ts| - 1], lens) + DistLen(ts[|ts| - 1], lens)
  }

  function Extras(t: Token): nat
    requires ValidToken(t)
  {
    if t.Match? then LenExtra(t.len - 3) + DistExtra(t.dist - 1) else 0
  }

  function ExtraTotal(ts: seq<Token>): nat
    requires AllValid(ts)
  {
    if ts == [] then 0 else ExtraTotal(ts[..|ts| - 1]) + Extras(ts[|ts| - 1])
  }

  lemma TokenSize(t: Token, lit: seq<nat>, dist: seq<nat>, litAll: seq<nat>, distAll: seq<nat>)
    requires Coded(t, lit, dist) && lit <= litAll && dist <= distAll && |litAll| >= 286 && |distAll| >= 30
    ensures |TokenBits(t, lit, dist)| == litAll[LitSym(t)] + DistLen(t, distAll) + Extras(t)
  {
    hide LenSym, DistSym, LenExtra, DistExtra, Extra, Lsb;
  }

  lemma {:induction false} TokensSize(ts: seq<Token>, lit: seq<nat>, dist: seq<nat>, litAll: seq<nat>, distAll: seq<nat>)
    requires AllValid(ts) && AllCoded(ts, lit, dist) && lit <= litAll && dist <= distAll && |litAll| >= 286 && |distAll| >= 30
    ensures |TokensBits(ts, lit, dist)| == LitTotal(ts, litAll) + DistTotal(ts, distAll) + ExtraTotal(ts)
  {
    hide TokenBits, Coded, LitSym, DistLen, Extras;
    if ts != [] {
      TokensSize(ts[..|ts| - 1], lit, dist, litAll, distAll);
      TokenSize(ts[|ts| - 1], lit, dist, litAll, distAll);
    }
  }

  lemma MoreOften(w: seq<nat>, m: seq<nat>, i: nat)
    requires i < |w| == |m|
    ensures HT.Cost(w[i := w[i] + 1], m) == HT.Cost(w, m) + m[i]
  {
    assert (w[i] + 1) * m[i] == w[i] * m[i] + m[i];
    assert HT.Products(w[i := w[i] + 1], m) == HT.Products(w, m)[i := (w[i] + 1) * m[i]];
    HT.TotalUpdate(HT.Products(w, m), i, (w[i] + 1) * m[i]);
  }

  lemma {:induction false} NoUses(w: seq<nat>, m: seq<nat>)
    requires |w| == |m| && forall i :: 0 <= i < |w| ==> w[i] == 0
    ensures HT.Cost(w, m) == 0
  {
    HT.TotalMono(HT.Products(w, m), Repeated(0, |w|));
    TotalRepeated(0, |w|);
  }

  lemma {:induction false} LitCost(ts: seq<Token>, w: seq<nat>, lens: seq<nat>)
    requires AllValid(ts) && |w| == |lens| >= 286 && forall s :: 0 <= s < |w| ==> w[s] == LitUses(ts, s)
    ensures HT.Cost(w, lens) == LitTotal(ts, lens)
    decreases |ts|
  {
    hide HT.Cost, LitSym;
    if ts == [] {
      NoUses(w, lens);
    } else {
      var init, s := ts[..|ts| - 1], LitSym(ts[|ts| - 1]);
      var w0 := w[s := w[s] - 1];
      LitCost(init, w0, lens);
      assert w == w0[s := w0[s] + 1];
      MoreOften(w0, lens, s);
    }
  }

  lemma {:induction false} DistCost(ts: seq<Token>, w: seq<nat>, lens: seq<nat>)
    requires AllValid(ts) && |w| == |lens| >= 30 && forall s :: 0 <= s < |w| ==> w[s] == DistUses(ts, s)
    ensures HT.Cost(w, lens) == DistTotal(ts, lens)
    decreases |ts|
  {
    hide HT.Cost, DistSym;
    if ts == [] {
      NoUses(w, lens);
    } else {
      var init, t := ts[..|ts| - 1], ts[|ts| - 1];
      if t.Match? {
        DistanceTables(t.dist - 1);
        var s := DistSym(t.dist - 1);
        var w0 := w[s := w[s] - 1];
        DistCost(init, w0, lens);
        assert w == w0[s := w0[s] + 1];
        MoreOften(w0, lens, s);
      } else {
        DistCost(init, w, lens);
      }
    }
  }

  // ---------- sums of counts

  lemma {:induction false} SumSet(count: seq<Word16>, i: nat)
    requires i < |count| && count[i] == 0
    ensures HuffTable.Sum(count[i := 1]) == HuffTable.Sum(count) + 1
  {
    SumUpdate(count, i);
  }

  lemma {:induction false} SumTake(count: seq<Word16>, n: nat)
    requires n <= |count|
    ensures HuffTable.Sum(count[..n]) <= HuffTable.Sum(count)
    decreases |count|
  {
    if n < |count| {
      assert count[..|count| - 1][..n] == count[..n];
      SumTake(count[..|count| - 1], n);
    } else {
      assert count[..n] == count;
    }
  }

  // ---------- the body

  /** The literal and length codes against the fixed ones; the end of the block is one more symbol. */
  lemma LitNear(ts: seq<Token>, count: seq<Word16>, lens: seq<nat>)
    requires LitCounted(count, ts) && |count| == |lens| == 288 && count[256] == 0
    requires HuffTable.NearCheapest(count[256 := 1], lens)
    ensures 270 * (LitTotal(ts, lens) + lens[256]) <= 270 * (LitTotal(ts, FixedLit()) + 7) + 288 * (|ts| + 1)
  {
    hide LitUses, HuffTable.Sum, HT.Cost, HT.Feasible, LitTotal;
    FixedFeasible();
    SumSet(count, 256);
    LitCost(ts, count, lens);
    LitCost(ts, count, FixedLit());
    MoreOften(count, lens, 256);
    MoreOften(count, FixedLit(), 256);
    var fixed := FixedLit();
    assert 0 !in fixed && fixed[256] == 7;
  }

  lemma DistNear(ts: seq<Token>, count: seq<Word16>, lens: seq<nat>)
    requires DistCounted(count, ts) && |lens| == 32 && HuffTable.NearCheapest(count[..32], lens)
    ensures 270 * DistTotal(ts, lens) <= 270 * DistTotal(ts, FixedDist()) + 32 * |ts|
  {
    hide DistUses, HuffTable.Sum, HT.Cost, HT.Feasible, DistTotal;
    FixedFeasible();
    SumTake(count, 32);
    DistCost(ts, count[..32], lens);
    DistCost(ts, count[..32], FixedDist());
    var fixed := FixedDist();
    assert 0 !in fixed;
  }

  const BODY_LIMIT := 674_960

  /** The body of a dynamic block, in bits, for a token buffer that is full to the brim. */
  lemma BodyFits(ts: seq<Token>, litCount: seq<Word16>, distCount: seq<Word16>, litAll: seq<nat>, distAll: seq<nat>,
                 lit: seq<nat>, dist: seq<nat>)
    requires LitCounted(litCount, ts) && DistCounted(distCount, ts) && |litAll| == 288 && |distAll| == 32
    requires HuffTable.NearCheapest(litCount[256 := 1], litAll) && HuffTable.NearCheapest(distCount[..32], distAll)
    requires lit <= litAll && dist <= distAll && AllCoded(ts, lit, dist) && Used(lit, END_OF_BLOCK)
    requires |Layout(ts)| <= LZ_CODE_BUF_SIZE - 2
    ensures |BodyBits(ts, lit, dist)| <= BODY_LIMIT
  {
    hide LitUses, DistUses, HuffTable.Sum, HT.Cost, LitTotal, DistTotal, ExtraTotal, Layout, TokensBits, StaticCosts, AllCoded,
      HuffTable.NearCheapest, Code;
    NoEndSymbol(ts, 256);
    LitNear(ts, litCount, litAll);
    DistNear(ts, distCount, distAll);
    TokensSize(ts, lit, dist, litAll, distAll);
    FixedCosts(ts);
    TokensSize(ts, FixedLit(), FixedDist(), FixedLit(), FixedDist());
    LayoutCost(ts);
  }

  // ---------- against the data

  /** One for each match. */
  function Ones(): (lens: seq<nat>) { Repeated(1, 32) }

  lemma OnesCost(w: seq<Word16>)
    requires |w| == 32
    ensures HT.Cost(w, Ones()) == HuffTable.Sum(w)
  {
    assert HT.Products(w, Ones()) == w;
    HuffTable.SumIsTotal(w);
  }

  lemma DistFlat(ts: seq<Token>, count: seq<Word16>, lens: seq<nat>)
    requires DistCounted(count, ts) && |lens| == 32 && HuffTable.NearCheapest(count[..32], lens)
    ensures 270 * DistTotal(ts, lens) <= 270 * DistTotal(ts, FixedDist()) + 32 * DistTotal(ts, Ones())
  {
    hide DistUses, HuffTable.Sum, HT.Cost, HT.Feasible, DistTotal;
    FixedFeasible();
    DistCost(ts, count[..32], lens);
    DistCost(ts, count[..32], FixedDist());
    DistCost(ts, count[..32], Ones());
    OnesCost(count[..32]);
    var fixed := FixedDist();
    assert 0 !in fixed;
  }

  lemma LitFlat(ts: seq<Token>, count: seq<Word16>, lens: seq<nat>)
    requires LitCounted(count, ts) && |count| == |lens| == 288 && count[256] == 0
    requires HuffTable.NearCheapest(count[256 := 1], lens)
    ensures 100 * (LitTotal(ts, lens) + lens[256]) <= 869 * (|ts| + 1)
  {
    hide LitUses, HuffTable.Sum, HT.Cost, HT.Feasible, LitTotal;
    SumSet(count, 256);
    LitCost(ts, count, lens);
    MoreOften(count, lens, 256);
    forall i | 286 <= i < 288 ensures count[i] == 0 { NoEndSymbol(ts, i); }
    assert HuffTable.NoneFrom(count[256 := 1], 286);
  }

  /** What a token takes, in 27000ths of a bit, against the bytes that it stands for. */
  function Share(t: Token): nat
    requires ValidToken(t)
  {
    234_630 + 100 * (270 * DistLen(t, FixedDist()) + 32 * DistLen(t, Ones())) + 27_000 * Extras(t)
  }

  lemma ShareBound(t: Token)
    requires ValidToken(t) && Worth(t)
    ensures Share(t) <= 234_900 * TokenLen(t)
  {
    if t.Match? {
      DistanceTables(t.dist - 1);
      LengthTables(t.len - 3);
      assert DistLen(t, FixedDist()) == 5 && DistLen(t, Ones()) == 1;
      FewExtras(t);
    }
  }

  lemma FewExtras(t: Token)
    requires t.Match? && ValidToken(t) && Worth(t)
    ensures Extras(t) <= if t.len == 3 then 11 else if t.len == 4 then 13 else 18
  {
  }

  lemma {:induction false} SharesBound(ts: seq<Token>)
    requires AllValid(ts) && AllWorth(ts)
    ensures 234_630 * |ts| + 100 * (270 * DistTotal(ts, FixedDist()) + 32 * DistTotal(ts, Ones())) + 27_000 * ExtraTotal(ts) <= 234_900 * TotalLen(ts)
  {
    hide DistLen, Extras, TokenLen;
    if ts != [] {
      SharesBound(ts[..|ts| - 1]);
      ShareBound(ts[|ts| - 1]);
    }
  }

  /** The body of a dynamic block, in bits, takes at most 8.7 bits for each byte of the data. */
  lemma BodyShort(ts: seq<Token>, litCount: seq<Word16>, distCount: seq<Word16>, litAll: seq<nat>, distAll: seq<nat>,
                  lit: seq<nat>, dist: seq<nat>)
    requires LitCounted(litCount, ts) && DistCounted(distCount, ts) && |litAll| == 288 && |distAll| == 32
    requires HuffTable.NearCheapest(litCount[256 := 1], litAll) && HuffTable.NearCheapest(distCount[..32], distAll)
    requires lit <= litAll && dist <= distAll && AllCoded(ts, lit, dist) && Used(lit, END_OF_BLOCK) && AllWorth(ts)
    ensures 100 * |BodyBits(ts, lit, dist)| <= 870 * TotalLen(ts) + 870
  {
    hide LitUses, DistUses, HuffTable.Sum, HT.Cost, LitTotal, DistTotal, ExtraTotal, Layout, TokensBits, StaticCosts, AllCoded,
      HuffTable.NearCheapest, Code, AllWorth, TotalLen;
    NoEndSymbol(ts, 256);
    LitFlat(ts, litCount, litAll);
    DistFlat(ts, distCount, distAll);
    TokensSize(ts, lit, dist, litAll, distAll);
    SharesBound(ts);
  }

  /** What a token takes under the fixed codes. */
  lemma StaticShare(t: Token)
    requires ValidToken(t) && Worth(t)
    ensures Coded(t, FixedLit(), FixedDist()) && |TokenBits(t, FixedLit(), FixedDist())| <= 9 * TokenLen(t)
  {
    FixedCost(t);
    if t.Match? {
      LengthTables(t.len - 3);
      DistanceTables(t.dist - 1);
      FewExtras(t);
      TokenSize(t, FixedLit(), FixedDist(), FixedLit(), FixedDist());
    }
  }

  lemma {:induction false} StaticShares(ts: seq<Token>)
    requires AllValid(ts) && AllWorth(ts)
    ensures AllCoded(ts, FixedLit(), FixedDist()) && |BodyBits(ts, FixedLit(), FixedDist())| <= 9 * TotalLen(ts) + 7
  {
    hide TokenBits, Coded, FixedLit, FixedDist, TokenLen;
    forall i | 0 <= i < |ts| ensures Coded(ts[i], FixedLit(), FixedDist()) { StaticShare(ts[i]); }
    EndLength();
    StaticTokens(ts);
  }

  lemma EndLength()
    ensures Used(FixedLit(), 256) && FixedLit()[256] == 7
  {
  }

  lemma {:induction false} StaticTokens(ts: seq<Token>)
    requires AllCoded(ts, FixedLit(), FixedDist()) && AllWorth(ts)
    ensures |TokensBits(ts, FixedLit(), FixedDist())| <= 9 * TotalLen(ts)
  {
    hide TokenBits, Coded, FixedLit, FixedDist, TokenLen;
    if ts != [] {
      StaticTokens(ts[..|ts| - 1]);
      assert Coded(ts[|ts| - 1], FixedLit(), FixedDist());
      CodedValid(ts[|ts| - 1], FixedLit(), FixedDist());
      StaticShare(ts[|ts| - 1]);
    }
  }

  lemma CodedValid(t: Token, lit: seq<nat>, dist: seq<nat>)
    requires Coded(t, lit, dist)
    ensures ValidToken(t)
  {
  }
}
