/** What limiting the code lengths to 15 bits costs: the text coded with the limited lengths is at
    most 1/270 of a bit for every symbol of the text and every code longer than the cheapest one. */
module LimitCost {
  import opened Bits
  import opened HuffmanTheory
  import opened MergeTree
  import C = Canonical
  import CL = CodeSizeLimit
  import MR = MinRedundancy

  const LIMIT := 15

  // ---------- length vectors and their counts

  ghost predicate Falling(v: seq<nat>) {
    forall i, j :: 0 <= i <= j < |v| ==> v[i] >= v[j] >= 1
  }

  ghost predicate Tallied(v: seq<nat>, num: seq<int>, m: nat) {
    m < |num| && forall l :: 1 <= l <= m ==> num[l] == C.Count(v, l)
  }

  /** Entry j, counted from the end, falls into the class of its length. */
  ghost predicate InClass(num: seq<int>, l: nat, rank: int) {
    1 <= l < |num| && CL.Codes(num, l - 1) <= rank < CL.Codes(num, l)
  }

  ghost predicate Ranked(v: seq<nat>, num: seq<int>) {
    forall j :: 0 <= j < |v| ==> InClass(num, v[j], |v| - 1 - j)
  }

  /** How many entries are at most `l`. */
  function Upto(v: seq<nat>, l: nat): (n: nat)
    ensures n <= |v|
  {
    if v == [] then 0 else Upto(v[..|v| - 1], l) + (if v[|v| - 1] <= l then 1 else 0)
  }

  lemma {:induction false} UptoStep(v: seq<nat>, l: nat)
    requires l >= 1
    ensures Upto(v, l) == Upto(v, l - 1) + C.Count(v, l)
  {
    if v != [] {
      UptoStep(v[..|v| - 1], l);
    }
  }

  lemma {:induction false} UptoCodes(v: seq<nat>, num: seq<int>, m: nat, l: nat)
    requires Tallied(v, num, m) && l <= m && forall j :: 0 <= j < |v| ==> v[j] >= 1
    ensures Upto(v, l) == CL.Codes(num, l)
  {
    if l > 0 {
      UptoCodes(v, num, m, l - 1);
      UptoStep(v, l);
    } else {
      UptoNone(v, 0, |v|);
    }
  }

  lemma {:induction false} UptoNone(v: seq<nat>, l: nat, j: nat)
    requires j <= |v| && forall i :: 0 <= i < j ==> v[i] > l
    ensures Upto(v, l) <= |v| - j
    decreases |v|
  {
    if v != [] {
      UptoNone(v[..|v| - 1], l, if j < |v| then j else j - 1);
    }
  }

  lemma {:induction false} UptoAll(v: seq<nat>, l: nat, j: nat)
    requires j <= |v| && forall i :: j <= i < |v| ==> v[i] <= l
    ensures Upto(v, l) >= |v| - j
    decreases |v|
  {
    if j < |v| {
      UptoAll(v[..|v| - 1], l, j);
    }
  }

  lemma FallingRanked(v: seq<nat>, num: seq<int>, m: nat)
    requires Falling(v) && Tallied(v, num, m) && Bounded(v, m)
    ensures Ranked(v, num)
  {
    forall j | 0 <= j < |v| ensures InClass(num, v[j], |v| - 1 - j) {
      UptoCodes(v, num, m, v[j]);
      UptoCodes(v, num, m, v[j] - 1);
      UptoAll(v, v[j], j);
      UptoNone(v, v[j] - 1, j + 1);
    }
  }

  /** The room that codes of at most `m` bits leave for codes of `LIMIT` bits, entry by entry. */
  function Rooms(v: seq<nat>, m: nat): (r: seq<nat>)
    requires m <= LIMIT
    ensures |r| == |v|
  {
    seq(|v|, j requires 0 <= j < |v| => if v[j] <= m then Pow2(LIMIT - v[j]) - 1 else 0)
  }

  lemma {:induction false} RoomsGrow(v: seq<nat>, m: nat)
    requires 1 <= m <= LIMIT
    ensures Total(Rooms(v, m)) == Total(Rooms(v, m - 1)) + C.Count(v, m) * (Pow2(LIMIT - m) - 1)
  {
    if v != [] {
      var w := v[..|v| - 1];
      RoomsGrow(w, m);
      assert Rooms(v, m)[..|w|] == Rooms(w, m) && Rooms(v, m - 1)[..|w|] == Rooms(w, m - 1);
      CL.Distribute(C.Count(w, m), 1, Pow2(LIMIT - m) - 1);
    }
  }

  lemma {:induction false} RoomsTotal(v: seq<nat>, num: seq<int>, m: nat)
    requires m <= LIMIT && Tallied(v, num, m) && forall j :: 0 <= j < |v| ==> v[j] >= 1
    ensures Total(Rooms(v, m)) == CL.Spare(num, m, LIMIT)
  {
    if m == 0 {
      AllZero(Rooms(v, 0));
    } else {
      RoomsTotal(v, num, m - 1);
      RoomsGrow(v, m);
      Minus(num[m], Pow2(LIMIT - m));
    }
  }

  lemma Minus(a: int, p: int)
    ensures a * (p - 1) == a * p - a
  {
  }

  lemma {:induction false} AllZero(v: seq<nat>)
    requires forall j :: 0 <= j < |v| ==> v[j] == 0
    ensures Total(v) == 0
  {
    if v != [] {
      AllZero(v[..|v| - 1]);
    }
  }

  // ---------- one symbol

  lemma {:induction false} SameCodes(s: seq<int>, t: seq<int>, pick: nat, k: nat)
    requires k < pick <= |s| == |t| && forall d :: 1 <= d < pick ==> t[d] == s[d]
    ensures CL.Codes(s, k) == CL.Codes(t, k)
  {
    if k > 0 {
      SameCodes(s, t, pick, k - 1);
    }
  }

  /** A rank that is past all codes of at most `a` bits has a longer code. */
  lemma ClassAbove(num: seq<int>, l: nat, rank: int, a: nat)
    requires InClass(num, l, rank) && CL.NonNegative(num, |num| - 1) && a < |num| && CL.Codes(num, a) <= rank
    ensures l > a
  {
    if l <= a { CL.CodesGrow(num, l, a); }
  }

  lemma ClassBelow(num: seq<int>, l: nat, rank: int, a: nat)
    requires InClass(num, l, rank) && CL.NonNegative(num, |num| - 1) && a < |num| && rank < CL.Codes(num, a)
    ensures l <= a
  {
    if l > a { CL.CodesGrow(num, a, l - 1); }
  }

  /** The limited length `b` against the unlimited length `a` of one rank. */
  lemma Lengths(s: seq<int>, t: seq<int>, pick: nat, n: nat, rank: int, a: nat, b: nat)
    requires CL.Lengthened(s, t, pick, LIMIT, n) && CL.NonNegative(s, |s| - 1) && InClass(s, a, rank) && InClass(t, b, rank)
    requires CL.NonNegative(t, LIMIT) && b <= LIMIT
    ensures b <= pick && b < LIMIT ==> a == b
    ensures b <= pick && b == LIMIT ==> a >= b
    ensures b > pick ==> a >= pick
  {
    hide CL.Spare;
    if b <= pick {
      SameCodes(s, t, pick, b - 1);
      ClassAbove(s, a, rank, b - 1);
      if b < LIMIT {
        ClassBelow(s, a, rank, b);
      }
    } else {
      CL.CodesGrow(t, pick - 1, b - 1);
      SameCodes(s, t, pick, pick - 1);
      ClassAbove(s, a, rank, pick - 1);
    }
  }

  /** Fibonacci's numbers against powers of two: what makes the limit cheap. */
  lemma Steep(a: nat)
    requires 7 <= a < LIMIT
    ensures 540 * (LIMIT - a) <= Fib(a - 1) * (Pow2(LIMIT - a) - 1)
  {
    assert Fib(6) == 21 && Fib(7) == 34 && Fib(8) == 55 && Fib(9) == 89;
    assert Fib(10) == 144 && Fib(11) == 233 && Fib(12) == 377 && Fib(13) == 610;
    assert Pow2(4) == 16 && Pow2(8) == 256;
  }

  lemma PickBound(pick: nat, n: nat)
    requires pick <= LIMIT && Pow2(LIMIT - pick) < n <= 288
    ensures pick >= 7
  {
    assert Pow2(4) == 16 && Pow2(9) == 512;
    if pick < 7 {
      Pow2Mono(9, LIMIT - pick);
    }
  }

  lemma Dearer(w: nat, a: nat, b: nat, total: nat)
    requires 7 <= a < LIMIT && b <= LIMIT && Fib(a - 1) * w <= total
    ensures 540 * (w * b) <= 540 * (w * a) + total * (Pow2(LIMIT - a) - 1)
  {
    hide Fib, Pow2;
    Steep(a);
    var p, f := Pow2(LIMIT - a) - 1, Fib(a - 1);
    MulMono(540 * (LIMIT - a), f * p, w);
    MulMono(f * w, total, p);
    MulMono(b, LIMIT, w);
    assert (f * p) * w == (f * w) * p;
    Spread540(w, a);
  }

  lemma Spread540(w: nat, a: nat)
    requires a <= LIMIT
    ensures (540 * (LIMIT - a)) * w + 540 * (w * a) == 540 * (w * LIMIT)
  {
    assert (LIMIT - a) * w + w * a == w * LIMIT;
  }

  /** How much dearer one symbol gets, against the room its code leaves. */
  lemma Point(s: seq<int>, t: seq<int>, pick: nat, n: nat, rank: int, a: nat, b: nat, w: nat, total: nat)
    requires CL.Lengthened(s, t, pick, LIMIT, n) && CL.NonNegative(s, |s| - 1) && InClass(s, a, rank) && InClass(t, b, rank)
    requires CL.NonNegative(t, LIMIT) && b <= LIMIT && n <= 288 && Fib(a - 1) * w <= total
    ensures 540 * (w * b) + total * (if b <= pick then Pow2(LIMIT - b) - 1 else 0) <=
            540 * (w * a) + total * (if a <= LIMIT - 1 then Pow2(LIMIT - a) - 1 else 0)
  {
    hide Fib, CL.Codes, CL.NonNegative, CL.Spare;
    Lengths(s, t, pick, n, rank, a, b);
    CL.OneUnit();
    if b > pick && a < LIMIT {
      PickBound(pick, n);
      Dearer(w, a, b, total);
    } else {
      MulMono(b, a, w);
    }
  }

  // ---------- the whole text

  lemma {:induction false} SumUp(w: seq<nat>, f: seq<nat>, k: seq<nat>, c1: seq<nat>, c0: seq<nat>, total: nat)
    requires |w| == |f| == |k| == |c0| == |c1|
    requires forall j :: 0 <= j < |w| ==> 540 * (w[j] * f[j]) + total * c1[j] <= 540 * (w[j] * k[j]) + total * c0[j]
    ensures 540 * Cost(w, f) + total * Total(c1) <= 540 * Cost(w, k) + total * Total(c0)
  {
    if w != [] {
      var n := |w| - 1;
      SumUp(w[..n], f[..n], k[..n], c1[..n], c0[..n], total);
      assert Products(w, f)[..n] == Products(w[..n], f[..n]) && Products(w, k)[..n] == Products(w[..n], k[..n]);
      Scale(total, Total(c1[..n]), c1[n]);
      Scale(total, Total(c0[..n]), c0[n]);
    }
  }

  lemma Scale(a: nat, x: nat, y: nat)
    ensures a * (x + y) == a * x + a * y
  {
  }

  /** What the limit may cost, in units of 1/540 of a bit for each symbol of the text. */
  function Lengthening(s: seq<int>, pick: nat, n: nat): int
    requires 15 <= |s| && pick <= LIMIT
  {
    CL.Long(s, LIMIT, n) + Pow2(LIMIT - pick) - 1
  }

  /** From the unlimited lengths `k` to the limited ones `f`. */
  lemma LimitedBy(w: seq<nat>, k: seq<nat>, f: seq<nat>, s: seq<int>, t: seq<int>, pick: nat)
    requires MR.Spread(w, k) && |f| == |w| <= 288 && |s| == CL.MAX_SUPPORTED + 1
    requires Falling(k) && Tallied(k, s, CL.MAX_SUPPORTED) && Bounded(k, CL.MAX_SUPPORTED) && CL.NonNegative(s, CL.MAX_SUPPORTED)
    requires Ranked(f, t) && Tallied(f, t, LIMIT) && Bounded(f, LIMIT) && CL.NonNegative(t, LIMIT)
    requires CL.Lengthened(s, t, pick, LIMIT, |w|)
    ensures pick <= LIMIT && 0 <= Lengthening(s, pick, |w|) <= 2 * |w|
    ensures 540 * Cost(w, f) <= 540 * Cost(w, k) + Total(w) * Lengthening(s, pick, |w|)
  {
    FallingRanked(k, s, CL.MAX_SUPPORTED);
    var c0, c1 := Rooms(k, LIMIT - 1), Rooms(f, pick);
    forall j | 0 <= j < |w|
      ensures 540 * (w[j] * f[j]) + Total(w) * c1[j] <= 540 * (w[j] * k[j]) + Total(w) * c0[j]
    {
      EntryCost(w, k, f, s, t, pick, j);
    }
    hide Ranked, Falling, MR.Spread, Cost, Total, Rooms, CL.NonNegative, CL.Spare, Tallied, CL.Codes, InClass;
    SumUp(w, f, k, c1, c0, Total(w));
    RoomsLeft(k, f, s, t, pick, |w|);
    Difference(Cost(w, f), Cost(w, k), Total(w), Total(c0), Total(c1), Lengthening(s, pick, |w|));
  }

  lemma LimitedCost(w: seq<nat>, k: seq<nat>, f: seq<nat>, s: seq<int>, t: seq<int>, pick: nat)
    requires MR.Spread(w, k) && |f| == |w| <= 288 && |s| == CL.MAX_SUPPORTED + 1
    requires Falling(k) && Tallied(k, s, CL.MAX_SUPPORTED) && Bounded(k, CL.MAX_SUPPORTED) && CL.NonNegative(s, CL.MAX_SUPPORTED)
    requires Ranked(f, t) && Tallied(f, t, LIMIT) && Bounded(f, LIMIT) && CL.NonNegative(t, LIMIT)
    requires CL.Lengthened(s, t, pick, LIMIT, |w|)
    ensures 270 * Cost(w, f) <= 270 * Cost(w, k) + |w| * Total(w)
  {
    hide Ranked, Falling, MR.Spread, Cost, Total, CL.NonNegative, Tallied, CL.Lengthened, Lengthening;
    LimitedBy(w, k, f, s, t, pick);
    MulMono(Lengthening(s, pick, |w|), 2 * |w|, Total(w));
  }

  lemma RoomsLeft(k: seq<nat>, f: seq<nat>, s: seq<int>, t: seq<int>, pick: nat, n: nat)
    requires Falling(k) && Tallied(k, s, CL.MAX_SUPPORTED) && Ranked(f, t) && Tallied(f, t, LIMIT)
    requires CL.Lengthened(s, t, pick, LIMIT, n)
    ensures Total(Rooms(k, LIMIT - 1)) <= Total(Rooms(f, pick)) + Lengthening(s, pick, n) && 0 <= Lengthening(s, pick, n)
    ensures n >= 1 ==> Lengthening(s, pick, n) <= 2 * n
  {
    hide Ranked, Falling, Total, Rooms, CL.Spare;
    RankedPositive(f, t);
    FallingPositive(k);
    assert Tallied(k, s, LIMIT - 1) && Tallied(f, t, pick);
    RoomsTotal(k, s, LIMIT - 1);
    RoomsTotal(f, t, pick);
  }

  lemma Difference(f: nat, k: nat, w: nat, c0: nat, c1: nat, n: nat)
    requires 540 * f + w * c1 <= 540 * k + w * c0 && c0 <= c1 + n
    ensures 540 * f <= 540 * k + w * n
  {
    MulMono(c0, c1 + n, w);
    assert (c1 + n) * w == w * c1 + w * n;
  }

  lemma RankedPositive(f: seq<nat>, t: seq<int>)
    requires Ranked(f, t)
    ensures forall j :: 0 <= j < |f| ==> f[j] >= 1
  {
    forall j | 0 <= j < |f| ensures f[j] >= 1 { assert InClass(t, f[j], |f| - 1 - j); }
  }

  lemma FallingPositive(k: seq<nat>)
    requires Falling(k)
    ensures forall j :: 0 <= j < |k| ==> k[j] >= 1
  {
  }

  lemma EntryCost(w: seq<nat>, k: seq<nat>, f: seq<nat>, s: seq<int>, t: seq<int>, pick: nat, j: nat)
    requires MR.Spread(w, k) && |f| == |w| <= 288 && Ranked(k, s) && Ranked(f, t) && j < |w|
    requires |s| == CL.MAX_SUPPORTED + 1 && CL.NonNegative(s, CL.MAX_SUPPORTED) && CL.NonNegative(t, LIMIT) && Bounded(f, LIMIT)
    requires CL.Lengthened(s, t, pick, LIMIT, |w|)
    ensures 540 * (w[j] * f[j]) + Total(w) * Rooms(f, pick)[j] <= 540 * (w[j] * k[j]) + Total(w) * Rooms(k, LIMIT - 1)[j]
  {
    hide Fib, CL.Codes, CL.NonNegative, CL.Spare, Total, InClass;
    assert InClass(s, k[j], |w| - 1 - j) && InClass(t, f[j], |w| - 1 - j);
    Point(s, t, pick, |w|, |w| - 1 - j, k[j], f[j], w[j], Total(w));
  }
}
