/** What a code of at most 15 bits costs at most, whatever the text: 8.69 bits for each symbol, for an alphabet
    of up to 286 symbols. Either few codes were too long, and limiting them was cheap, or many were, and then
    most symbols are so rare that the text was cheap before. */
module FlatCost {
  import opened Bits
  import opened HuffmanTheory
  import opened MergeTree
  import opened LimitCost
  import CL = CodeSizeLimit
  import MR = MinRedundancy

  // ---------- rivals: lengths by rank

  /** The first `a` symbols get `x` bits, the next `b` get `y`, and the others `z`. */
  function ByRank(n: nat, a: nat, b: nat, x: nat, y: nat, z: nat): (m: seq<nat>)
    requires a + b <= n
    ensures |m| == n
  {
    seq(n, j => Ranked3(j, a, b, x, y, z))
  }

  lemma {:induction false} TotalSame(s: seq<nat>, x: nat)
    requires forall j :: 0 <= j < |s| ==> s[j] == x
    ensures Total(s) == |s| * x
  {
    if s != [] {
      TotalSame(s[..|s| - 1], x);
      assert |s| * x == (|s| - 1) * x + x;
    }
  }

  lemma TotalThree(s: seq<nat>, a: nat, b: nat)
    requires a + b <= |s|
    ensures Total(s) == Total(s[..a]) + Total(s[a..a + b]) + Total(s[a + b..])
  {
    assert s == s[..a] + s[a..a + b] + s[a + b..];
    TotalConcat(s[..a] + s[a..a + b], s[a + b..]);
    TotalConcat(s[..a], s[a..a + b]);
  }

  function Ranked3(j: int, a: nat, b: nat, x: nat, y: nat, z: nat): nat { if j < a then x else if j < a + b then y else z }

  lemma Blocks(t: seq<nat>, a: nat, b: nat, x: nat, y: nat, z: nat)
    requires a + b <= |t| && forall j :: 0 <= j < |t| ==> t[j] == Ranked3(j, a, b, x, y, z)
    ensures Total(t) == a * x + b * y + (|t| - a - b) * z
  {
    hide Total;
    TotalThree(t, a, b);
    TotalSame(t[..a], x);
    TotalSame(t[a..a + b], y);
    TotalSame(t[a + b..], z);
  }

  lemma RankFeasible(n: nat, a: nat, b: nat, x: nat, y: nat, z: nat)
    requires a + b <= n && x <= 12 && y <= 12 && z <= 12
    requires a * Pow2(12 - x) + b * Pow2(12 - y) + (n - a - b) * Pow2(12 - z) <= Pow2(12)
    ensures Feasible(ByRank(n, a, b, x, y, z), 12)
  {
    hide Total, Pow2;
    Blocks(Terms(ByRank(n, a, b, x, y, z), 12), a, b, Pow2(12 - x), Pow2(12 - y), Pow2(12 - z));
  }

  lemma {:induction false} TotalTimes(w: seq<nat>, p: seq<nat>, x: nat)
    requires |p| == |w| && forall j :: 0 <= j < |w| ==> p[j] == w[j] * x
    ensures Total(p) == Total(w) * x
  {
    if w != [] {
      TotalTimes(w[..|w| - 1], p[..|w| - 1], x);
      CL.Distribute(Total(w[..|w| - 1]), w[|w| - 1], x);
    }
  }

  lemma RankCost(w: seq<nat>, a: nat, b: nat, x: nat, y: nat, z: nat)
    requires a + b <= |w|
    ensures Cost(w, ByRank(|w|, a, b, x, y, z)) == Total(w[..a]) * x + Total(w[a..a + b]) * y + Total(w[a + b..]) * z
    ensures Total(w) == Total(w[..a]) + Total(w[a..a + b]) + Total(w[a + b..])
  {
    hide Total;
    TotalThree(w, a, b);
    BlockProducts(w, Products(w, ByRank(|w|, a, b, x, y, z)), a, b, x, y, z);
  }

  lemma BlockProducts(w: seq<nat>, p: seq<nat>, a: nat, b: nat, x: nat, y: nat, z: nat)
    requires a + b <= |w| == |p| && forall j :: 0 <= j < |p| ==> p[j] == w[j] * Ranked3(j, a, b, x, y, z)
    ensures Total(p) == Total(w[..a]) * x + Total(w[a..a + b]) * y + Total(w[a + b..]) * z
  {
    hide Total;
    TotalThree(p, a, b);
    var p1, p2, p3, w1, w2, w3 := p[..a], p[a..a + b], p[a + b..], w[..a], w[a..a + b], w[a + b..];
    assert forall j :: 0 <= j < a ==> p1[j] == w1[j] * x;
    assert forall j :: 0 <= j < b ==> p2[j] == w2[j] * y;
    assert forall j :: 0 <= j < |w3| ==> p3[j] == w3[j] * z;
    TotalTimes(w[..a], p[..a], x);
    TotalTimes(w[a..a + b], p[a..a + b], y);
    TotalTimes(w[a + b..], p[a + b..], z);
  }

  // ---------- light symbols

  lemma {:induction false} AtMostEach(w: seq<nat>, x: nat)
    requires forall j :: 0 <= j < |w| ==> w[j] <= x
    ensures Total(w) <= |w| * x
  {
    if w != [] {
      AtMostEach(w[..|w| - 1], x);
      assert |w| * x == (|w| - 1) * x + x;
    }
  }

  lemma {:induction false} AtLeastEach(w: seq<nat>, x: nat)
    requires forall j :: 0 <= j < |w| ==> w[j] >= x
    ensures Total(w) >= |w| * x
  {
    if w != [] {
      AtLeastEach(w[..|w| - 1], x);
      assert |w| * x == (|w| - 1) * x + x;
    }
  }

  /** The lightest weigh no more than their share. */
  lemma Lightest(w: seq<nat>, b: nat)
    requires Sorted(w) && b <= |w|
    ensures |w| * Total(w[..b]) <= b * Total(w)
  {
    hide Total;
    assert w == w[..b] + w[b..];
    TotalConcat(w[..b], w[b..]);
    if b < |w| {
      SortedHalves(w, b);
      Shares(b, |w| - b, w[b], Total(w[..b]), Total(w[b..]));
    } else {
      assert w[..b] == w;
    }
  }

  lemma SortedHalves(w: seq<nat>, b: nat)
    requires Sorted(w) && b < |w|
    ensures Total(w[..b]) <= b * w[b] && (|w| - b) * w[b] <= Total(w[b..])
  {
    hide Total;
    AtMostEach(w[..b], w[b]);
    AtLeastEach(w[b..], w[b]);
  }

  lemma Shares(b: nat, c: nat, x: nat, low: nat, high: nat)
    requires low <= b * x && c * x <= high
    ensures (b + c) * low <= b * (low + high)
  {
    MulMono(low, b * x, c);
    MulMono(c * x, high, b);
    assert c * (b * x) == b * (c * x);
    assert (b + c) * low == b * low + c * low && b * (low + high) == b * low + b * high;
  }

  /** The codes of 15 bits and more belong to the first symbols, and these are rare. */
  lemma Rare(w: seq<nat>, k: seq<nat>, s: seq<int>, m: nat)
    requires MR.Spread(w, k) && |s| == CL.MAX_SUPPORTED + 1 && CL.NonNegative(s, CL.MAX_SUPPORTED)
    requires Falling(k) && Tallied(k, s, CL.MAX_SUPPORTED) && Bounded(k, CL.MAX_SUPPORTED)
    requires m <= |w| && m == CL.Long(s, LIMIT, |w|)
    ensures 987 * Total(w[..m]) <= m * Total(w)
  {
    FallingRanked(k, s, CL.MAX_SUPPORTED);
    var p: seq<nat> := seq(m, j requires 0 <= j < m => w[j] * 987);
    forall j | 0 <= j < m ensures p[j] <= Total(w) {
      ClassAbove(s, k[j], |w| - 1 - j, LIMIT - 1);
      FibMono(14, k[j] - 1);
      FourteenthFib();
      MulMono(987, Fib(k[j] - 1), w[j]);
    }
    AtMostEach(p, Total(w));
    TotalTimes(w[..m], p, 987);
  }

  lemma FourteenthFib()
    ensures Fib(14) == 987
  {
    assert Fib(7) == 34 && Fib(8) == 55;
    assert Fib(9) == 89 && Fib(10) == 144;
    assert Fib(11) == 233 && Fib(12) == 377;
  }

  // ---------- few long codes

  lemma TwelveBits()
    ensures Pow2(0) == 1 && Pow2(1) == 2 && Pow2(2) == 4 && Pow2(3) == 8 && Pow2(4) == 16 && Pow2(5) == 32 && Pow2(6) == 64 && Pow2(7) == 128
    ensures Pow2(8) == 256 && Pow2(12) == 4096
  {
    assert Pow2(6) == 64;
    assert Pow2(12) == 4096;
  }

  /** A code of 8 and 9 bits for up to 286 symbols. */
  lemma NearlyFlat(w: seq<nat>, k: seq<nat>)
    requires Sorted(w) && |w| <= 286 && MR.Optimal(w, k)
    ensures 286 * Cost(w, k) <= 2348 * Total(w)
  {
    hide Total, Cost, Sorted, Feasible;
    var n := |w|;
    var b := if n <= 256 then 0 else 2 * (n - 256);
    TwelveBits();
    RankFeasible(n, b, 0, 9, 9, 8);
    RankCost(w, b, 0, 9, 9, 8);
    Lightest(w, b);
    NoTotal(w[b..b + 0]);
    if n > 0 { Share(n, b, Total(w[..b]), Total(w)); }
  }

  lemma NoTotal(s: seq<nat>)
    requires s == []
    ensures Total(s) == 0
  {
  }

  lemma Share(n: nat, b: nat, low: nat, all: nat)
    requires n > 0 && n * low <= b * all && 286 * b <= 60 * n
    ensures 286 * low <= 60 * all
  {
    MulMono(286 * b, 60 * n, all);
    assert n * (286 * low) <= n * (60 * all);
    CL.CancelLe(286 * low, 60 * all, n);
  }

  // ---------- many long codes

  /** The first `m` symbols get 10 bits; of the others the lighter ones get 8 and the rest 7. */
  lemma ThreeLevels(w: seq<nat>, k: seq<nat>, m: nat, x: nat)
    requires MR.Optimal(w, k) && m + x <= |w| && m + 4 * x + 8 * (|w| - m - x) <= 1024
    ensures Cost(w, k) <= 7 * Total(w) + 3 * Total(w[..m]) + Total(w[m..m + x])
  {
    hide Total, Cost, Feasible;
    TwelveBits();
    RankFeasible(|w|, m, x, 10, 8, 7);
    RankCost(w, m, x, 10, 8, 7);
  }

  lemma TwoLevels(w: seq<nat>, k: seq<nat>, m: nat)
    requires MR.Optimal(w, k) && m <= |w| && m + 16 * (|w| - m) <= 1024
    ensures Cost(w, k) <= 6 * Total(w) + 4 * Total(w[..m])
  {
    hide Total, Cost, Feasible;
    TwelveBits();
    RankFeasible(|w|, m, 0, 10, 6, 6);
    RankCost(w, m, 0, 10, 6, 6);
  }

  /** How many of the `h` heavier symbols get 8 bits. */
  function Eights(h: nat): (x: nat)
    requires h <= 157
    ensures x <= h
  {
    if h < 105 then 0 else (7 * h - 734) / 4
  }

  /** The share of those that get 8 bits. */
  lemma EightShare(w: seq<nat>, m: nat)
    requires Sorted(w) && m <= |w| && |w| - m <= 157
    ensures var h := |w| - m; h * Total(w[m..m + Eights(h)]) <= Eights(h) * Total(w)
  {
    hide Total, Sorted, Eights;
    var h := |w| - m;
    var x := Eights(h);
    SortedTail(w, m);
    Lightest(w[m..], x);
    assert w[m..][..x] == w[m..m + x] && w == w[..m] + w[m..];
    TotalConcat(w[..m], w[m..]);
    MulMono(Total(w[m..]), Total(w), x);
  }

  lemma SortedTail(w: seq<nat>, m: nat)
    requires Sorted(w) && m <= |w|
    ensures Sorted(w[m..])
  {
  }

  const UNIT := 532_980  // 540 * 987

  /** What is left for the 8-bit codes of `h` symbols when `m` others are long. */
  function Margin(m: nat): int { 649_051 - 2607 * m }

  lemma Parabola(h: nat)
    requires 105 <= h <= 157
    ensures 2607 * (h * h) - 1_029_266 * h + 97_801_830 >= 0
  {
    assert (157 - h) * (619_967 - 2607 * h) >= 0;
    assert (157 - h) * (619_967 - 2607 * h) == 2607 * (h * h) - 1_029_266 * h + 157 * 619_967;
  }

  lemma EightsFit(m: nat, h: nat)
    requires m + h <= 286 && 38 <= h <= 157
    ensures Eights(h) * UNIT <= h * Margin(m) && Margin(m) >= 0
  {
    if h < 105 {
      Scaled(h, 0, Margin(m));
    } else {
      Parabola(h);
      Scaled(h, 2607 * h - 96_551, Margin(m));
      assert h * (2607 * h - 96_551) == 2607 * (h * h) - 96_551 * h;
      EightsLine(Eights(h), h, h * h);
    }
  }

  lemma EightsLine(x: nat, h: nat, square: nat)
    requires 4 * x <= 7 * h - 734 && 2607 * square - 1_029_266 * h + 97_801_830 >= 0
    ensures x * UNIT <= 2607 * square - 96_551 * h
  {
  }

  lemma Scaled(h: nat, a: int, b: int)
    requires a <= b
    ensures h * a <= h * b
  {
  }

  /** `x` of `h` symbols, as a part of the whole text. */
  lemma EightsCost(h: nat, x: nat, margin: nat, low: nat, all: nat)
    requires h > 0 && h * low <= x * all && x * UNIT <= h * margin
    ensures UNIT * low <= margin * all
  {
    MulMono(x * UNIT, h * margin, all);
    assert h * (UNIT * low) <= h * (margin * all) by {
      assert h * (UNIT * low) == UNIT * (h * low);
      assert x * UNIT * all == UNIT * (x * all);
      assert h * margin * all == h * (margin * all);
    }
    CL.CancelLe(UNIT * low, margin * all, h);
  }

  // ---------- any text

  lemma FewLong(cost: nat, all: nat, f: nat, d: nat)
    requires 286 * cost <= 2348 * all && 540 * f <= 540 * cost + all * d && d <= 255
    ensures 100 * f <= 869 * all
  {
    MulMono(d, 255, all);
  }

  lemma ManyLong(m: nat, h: nat, x: nat, cost: nat, all: nat, long: nat, low: nat, f: nat, d: nat)
    requires m + h <= 286 && 38 <= h <= 157 && x == Eights(h) && d <= m + 255
    requires cost <= 7 * all + 3 * long + low && 987 * long <= m * all && h * low <= x * all && 540 * f <= 540 * cost + all * d
    ensures 100 * f <= 869 * all
  {
    EightsFit(m, h);
    EightsCost(h, x, Margin(m), low, all);
    MulMono(d, m + 255, all);
    var ma := m * all;
    assert Margin(m) * all == 649_051 * all - 2607 * ma;
    assert (m + 255) * all == ma + 255 * all && all * d == d * all;
  }

  lemma NearlyAllLong(m: nat, cost: nat, all: nat, long: nat, f: nat, d: nat)
    requires m <= 286 && d <= m + 255 && cost <= 6 * all + 4 * long && 987 * long <= m * all && 540 * f <= 540 * cost + all * d
    ensures 100 * f <= 869 * all
  {
    MulMono(m, 286, all);
    MulMono(d, 541, all);
  }

  lemma SmallPower(p: nat, m: nat)
    requires p <= 15 && (Pow2(p) < 2 * m || p == 0)
    ensures m <= 128 ==> Pow2(p) <= 128
    ensures m <= 286 && Pow2(p) < 287 ==> Pow2(p) <= 256
  {
    TwelveBits();
    if p > 8 { Pow2Mono(9, p); assert Pow2(9) == 512; }
  }

  /** Whatever the text is, a code of at most 15 bits for up to 286 symbols takes at most 8.69 bits a symbol. */
  lemma FlatCode(w: seq<nat>, k: seq<nat>, f: seq<nat>, s: seq<int>, t: seq<int>, pick: nat)
    requires MR.Spread(w, k) && |f| == |k| == |w| <= 286 && |s| == CL.MAX_SUPPORTED + 1
    requires Falling(k) && Tallied(k, s, CL.MAX_SUPPORTED) && Bounded(k, CL.MAX_SUPPORTED) && CL.NonNegative(s, CL.MAX_SUPPORTED)
    requires Ranked(f, t) && Tallied(f, t, LIMIT) && Bounded(f, LIMIT) && CL.NonNegative(t, LIMIT)
    requires CL.Lengthened(s, t, pick, LIMIT, |w|) && Sorted(w) && MR.Optimal(w, k)
    ensures 100 * Cost(w, f) <= 869 * Total(w)
  {
    hide Ranked, Falling, MR.Spread, MR.Optimal, Cost, Total, CL.NonNegative, Tallied, Sorted, CL.Spare, Bounded, Pow2;
    LimitedBy(w, k, f, s, t, pick);
    var m: nat := CL.Long(s, LIMIT, |w|);
    CL.OneUnit();
    SmallPower(LIMIT - pick, m);
    var d: nat := Lengthening(s, pick, |w|);
    if m <= 128 {
      NearlyFlat(w, k);
      FewLong(Cost(w, k), Total(w), Cost(w, f), d);
    } else {
      Rare(w, k, s, m);
      var h := |w| - m;
      if h >= 38 {
        var x := Eights(h);
        ThreeLevels(w, k, m, x);
        EightShare(w, m);
        ManyLong(m, h, x, Cost(w, k), Total(w), Total(w[..m]), Total(w[m..m + x]), Cost(w, f), d);
      } else {
        TwoLevels(w, k, m);
        NearlyAllLong(m, Cost(w, k), Total(w), Total(w[..m]), Cost(w, f), d);
      }
    }
  }
}
