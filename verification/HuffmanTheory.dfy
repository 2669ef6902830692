/** Weighted code lengths: Kraft sums, the cost of a length vector, and Huffman's theorem that
    joining the two lightest weights first is optimal. */
module HuffmanTheory {
  import opened Bits

  function Total(s: seq<nat>): nat {
    if s == [] then 0 else Total(s[..|s| - 1]) + s[|s| - 1]
  }

  predicate Sorted(w: seq<nat>) {
    forall i, j :: 0 <= i < j < |w| ==> w[i] <= w[j]
  }

  predicate Bounded(m: seq<nat>, limit: nat) {
    forall i :: 0 <= i < |m| ==> m[i] <= limit
  }

  function Terms(m: seq<nat>, limit: nat): (t: seq<nat>)
    requires Bounded(m, limit)
    ensures |t| == |m|
  {
    seq(|m|, i requires 0 <= i < |m| => Pow2(limit - m[i]))
  }

  /** 2^limit times the Kraft sum of the lengths `m`. */
  function Kraft(m: seq<nat>, limit: nat): nat
    requires Bounded(m, limit)
  {
    Total(Terms(m, limit))
  }

  /** Some prefix code has the lengths `m`. */
  predicate Feasible(m: seq<nat>, limit: nat) {
    Bounded(m, limit) && Kraft(m, limit) <= Pow2(limit)
  }

  function Products(w: seq<nat>, m: seq<nat>): (p: seq<nat>)
    requires |w| == |m|
    ensures |p| == |w|
  {
    seq(|w|, i requires 0 <= i < |w| => w[i] * m[i])
  }

  /** The size of the coded text: weight `w[i]` is sent `m[i]` bits long. */
  function Cost(w: seq<nat>, m: seq<nat>): nat
    requires |w| == |m|
  {
    Total(Products(w, m))
  }

  function Slot(x: nat, w: seq<nat>): (p: nat)
    ensures p <= |w|
  {
    if w == [] || x <= w[0] then 0 else 1 + Slot(x, w[1..])
  }

  /** `x` put in its place in the sorted sequence `w`. */
  function Insert(x: nat, w: seq<nat>): (r: seq<nat>)
    ensures |r| == |w| + 1
  {
    w[..Slot(x, w)] + [x] + w[Slot(x, w)..]
  }

  /** Huffman's algorithm: the total of the weights of all joined pairs. */
  function HuffCost(w: seq<nat>): nat
    decreases |w|
  {
    if |w| <= 1 then 0 else w[0] + w[1] + HuffCost(Insert(w[0] + w[1], w[2..]))
  }

  // ---------- sums

  lemma {:induction false} TotalConcat(a: seq<nat>, b: seq<nat>)
    ensures Total(a + b) == Total(a) + Total(b)
  {
    if b == [] {
      assert a + b == a;
    } else {
      assert (a + b)[..|a + b| - 1] == a + b[..|b| - 1];
      TotalConcat(a, b[..|b| - 1]);
    }
  }

  lemma TotalOne(x: nat)
    ensures Total([x]) == x
  {
    assert [x][..0] == [];
  }

  lemma TotalInsert(a: seq<nat>, x: nat, b: seq<nat>)
    ensures Total(a + [x] + b) == Total(a + b) + x
  {
    TotalConcat(a + [x], b);
    TotalConcat(a, [x]);
    TotalConcat(a, b);
    TotalOne(x);
  }

  lemma TotalUpdate(s: seq<nat>, i: nat, x: nat)
    requires i < |s|
    ensures Total(s[i := x]) == Total(s) - s[i] + x
  {
    var a, b := s[..i], s[i + 1..];
    assert s == a + [s[i]] + b && s[i := x] == a + [x] + b;
    TotalInsert(a, s[i], b);
    TotalInsert(a, x, b);
  }

  lemma TotalSlice(s: seq<nat>, i: nat, j: nat)
    requires i < j <= |s|
    ensures Total(s[i..j]) == s[i] + Total(s[i + 1..j])
  {
    assert s[i..j] == [s[i]] + s[i + 1..j];
    TotalConcat([s[i]], s[i + 1..j]);
    TotalOne(s[i]);
  }

  lemma {:induction false} TotalMono(a: seq<nat>, b: seq<nat>)
    requires |a| == |b| && forall i :: 0 <= i < |a| ==> a[i] <= b[i]
    ensures Total(a) <= Total(b)
  {
    if a != [] {
      TotalMono(a[..|a| - 1], b[..|b| - 1]);
    }
  }

  // ---------- changing one length

  lemma UpdateCost(w: seq<nat>, m: seq<nat>, i: nat, x: nat)
    requires |w| == |m| && i < |w|
    ensures Cost(w, m[i := x]) == Cost(w, m) - w[i] * m[i] + w[i] * x
  {
    assert Products(w, m[i := x]) == Products(w, m)[i := w[i] * x];
    TotalUpdate(Products(w, m), i, w[i] * x);
  }

  lemma UpdateKraft(m: seq<nat>, i: nat, x: nat, limit: nat)
    requires Bounded(m, limit) && i < |m| && x <= limit
    ensures Kraft(m[i := x], limit) == Kraft(m, limit) - Pow2(limit - m[i]) + Pow2(limit - x)
  {
    assert Terms(m[i := x], limit) == Terms(m, limit)[i := Pow2(limit - x)];
    TotalUpdate(Terms(m, limit), i, Pow2(limit - x));
  }

  /** Giving the longer of two codes to the lighter weight costs nothing. */
  lemma Swap(w: seq<nat>, m: seq<nat>, limit: nat, i: nat, k: nat) returns (r: seq<nat>)
    requires |w| == |m| && i < k < |w| && w[i] <= w[k] && m[i] <= m[k]
    requires Feasible(m, limit)
    ensures r == m[i := m[k]][k := m[i]]
    ensures Feasible(r, limit) && Cost(w, r) <= Cost(w, m)
  {
    var m1 := m[i := m[k]];
    r := m1[k := m[i]];
    UpdateKraft(m, i, m[k], limit);
    UpdateKraft(m1, k, m[i], limit);
    UpdateCost(w, m, i, m[k]);
    UpdateCost(w, m1, k, m[i]);
    Rearrange(w[i], w[k], m[i], m[k]);
  }

  lemma Rearrange(a: nat, b: nat, x: nat, y: nat)
    requires a <= b && x <= y
    ensures a * y + b * x <= a * x + b * y
  {
    assert (b - a) * x <= (b - a) * y;
  }

  lemma {:induction false} FindMax(m: seq<nat>, i: nat) returns (k: nat)
    requires i < |m|
    ensures i <= k < |m| && forall j :: i <= j < |m| ==> m[j] <= m[k]
    decreases |m| - i
  {
    if i + 1 == |m| {
      k := i;
    } else {
      k := FindMax(m, i + 1);
      if m[i] > m[k] { k := i; }
    }
  }

  /** The longest code from position `i` on can be given to the weight at `i`. */
  lemma MoveMax(w: seq<nat>, m: seq<nat>, limit: nat, i: nat) returns (r: seq<nat>)
    requires Sorted(w) && |w| == |m| && i < |w| && Feasible(m, limit)
    ensures |r| == |m| && Feasible(r, limit) && Cost(w, r) <= Cost(w, m)
    ensures r[..i] == m[..i]
    ensures forall j :: i <= j < |r| ==> r[j] <= r[i]
    ensures forall x :: x in r ==> x in m
  {
    var k := FindMax(m, i);
    if k == i {
      r := m;
    } else {
      r := Swap(w, m, limit, i, k);
    }
  }

  lemma Rescale(m: seq<nat>, limit: nat)
    requires Bounded(m, limit)
    ensures Kraft(m, limit + 1) == 2 * Kraft(m, limit)
  {
    Double(Terms(m, limit), Terms(m, limit + 1));
  }

  lemma {:induction false} Double(a: seq<nat>, b: seq<nat>)
    requires |a| == |b| && forall i :: 0 <= i < |a| ==> b[i] == 2 * a[i]
    ensures Total(b) == 2 * Total(a)
  {
    if a != [] {
      Double(a[..|a| - 1], b[..|b| - 1]);
    }
  }

  lemma {:induction false} FeasibleAt(m: seq<nat>, low: nat, limit: nat)
    requires Bounded(m, low) && low <= limit
    ensures Feasible(m, low) <==> Feasible(m, limit)
  {
    if low < limit {
      FeasibleAt(m, low, limit - 1);
      Rescale(m, limit - 1);
    }
  }

  lemma KraftCons(x: nat, m: seq<nat>, limit: nat)
    requires Bounded(m, limit) && x <= limit
    ensures Kraft([x] + m, limit) == Pow2(limit - x) + Kraft(m, limit)
  {
    assert Terms([x] + m, limit) == [Pow2(limit - x)] + Terms(m, limit);
    TotalConcat([Pow2(limit - x)], Terms(m, limit));
    TotalOne(Pow2(limit - x));
  }

  /** A longest code without a sibling can lose its last bit. */
  lemma DropBit(a: nat, m: seq<nat>, limit: nat)
    requires a >= 1 && Feasible([a] + m, limit) && Bounded(m, a - 1)
    ensures Feasible([a - 1] + m, limit)
  {
    assert ([a] + m)[0] == a;
    assert Bounded([a] + m, a);
    assert Bounded([a - 1] + m, a - 1);
    FeasibleAt([a] + m, a, limit);
    KraftCons(a, m, a);
    Rescale(m, a - 1);
    KraftCons(a - 1, m, a - 1);
    FeasibleAt([a - 1] + m, a - 1, limit);
  }

  lemma {:induction false} LowerFirst(a: nat, b: nat, m: seq<nat>, limit: nat)
    requires a >= b && Feasible([a] + m, limit) && Bounded(m, b)
    ensures Feasible([b] + m, limit)
    decreases a
  {
    if a > b {
      DropBit(a, m, limit);
      LowerFirst(a - 1, b, m, limit);
    }
  }

  lemma CostCons(x: nat, w: seq<nat>, l: nat, m: seq<nat>)
    requires |w| == |m|
    ensures Cost([x] + w, [l] + m) == x * l + Cost(w, m)
  {
    assert Products([x] + w, [l] + m) == [x * l] + Products(w, m);
    TotalConcat([x * l], Products(w, m));
    TotalOne(x * l);
  }

  // ---------- Huffman's theorem

  lemma {:induction false} InsertSorted(x: nat, w: seq<nat>)
    requires Sorted(w)
    ensures Sorted(Insert(x, w))
    ensures multiset(Insert(x, w)) == multiset(w) + multiset{x}
  {
    SlotPlace(x, w);
    var p := Slot(x, w);
    assert w == w[..p] + w[p..];
  }

  lemma {:induction false} SlotPlace(x: nat, w: seq<nat>)
    requires Sorted(w)
    ensures forall i :: 0 <= i < Slot(x, w) ==> w[i] <= x
    ensures forall i :: Slot(x, w) <= i < |w| ==> x <= w[i]
  {
    if !(w == [] || x <= w[0]) {
      SlotPlace(x, w[1..]);
      assert forall i :: 1 <= i < |w| ==> w[i] == w[1..][i - 1];
    }
  }

  lemma InsertCost(x: nat, w: seq<nat>, l: nat, m: seq<nat>, p: nat)
    requires |w| == |m| && p <= |w|
    ensures Cost(w[..p] + [x] + w[p..], m[..p] + [l] + m[p..]) == x * l + Cost(w, m)
  {
    var w', m' := w[..p] + [x] + w[p..], m[..p] + [l] + m[p..];
    var q := Products(w, m);
    assert Products(w', m') == q[..p] + [x * l] + q[p..];
    assert q == q[..p] + q[p..];
    TotalInsert(q[..p], x * l, q[p..]);
  }

  lemma BoundedTail(l: nat, m: seq<nat>, limit: nat)
    requires Bounded([l] + m, limit)
    ensures Bounded(m, limit) && l <= limit
  {
    assert ([l] + m)[0] == l;
    assert forall i :: 0 <= i < |m| ==> ([l] + m)[i + 1] == m[i];
  }

  lemma InsertFeasible(l: nat, m: seq<nat>, p: nat, limit: nat)
    requires p <= |m| && Feasible([l] + m, limit)
    ensures Feasible(m[..p] + [l] + m[p..], limit)
  {
    BoundedTail(l, m, limit);
    var m' := m[..p] + [l] + m[p..];
    KraftCons(l, m, limit);
    var t := Terms(m, limit);
    assert Bounded(m', limit);
    assert Terms(m', limit) == t[..p] + [Pow2(limit - l)] + t[p..];
    assert t == t[..p] + t[p..];
    TotalInsert(t[..p], Pow2(limit - l), t[p..]);
  }

  /** Two codes of the same greatest length, on the two lightest weights, are joined. */
  lemma Join(w: seq<nat>, m: seq<nat>, limit: nat) returns (r: seq<nat>)
    requires |w| == |m| >= 2 && Feasible(m, limit) && m[0] == m[1]
    ensures |r| == |w| - 1 && Feasible(r, limit)
    ensures Cost(w, m) == Cost(Insert(w[0] + w[1], w[2..]), r) + w[0] + w[1]
  {
    var b, ws, ms := m[1], w[2..], m[2..];
    assert m == [b] + ([b] + ms) && w == [w[0]] + ([w[1]] + ws);
    hide Feasible, Cost, Slot;
    JoinKraft(b, ms, limit);
    var x := w[0] + w[1];
    var p := Slot(x, ws);
    r := ms[..p] + [b - 1] + ms[p..];
    InsertCost(x, ws, b - 1, ms, p);
    InsertFeasible(b - 1, ms, p, limit);
    JoinCost(w[0], w[1], b, ws, ms);
  }

  lemma JoinKraft(b: nat, m: seq<nat>, limit: nat)
    requires Feasible([b] + ([b] + m), limit)
    ensures b >= 1 && Feasible([b - 1] + m, limit)
  {
    var m1 := [b] + m;
    BoundedTail(b, m1, limit);
    BoundedTail(b, m, limit);
    KraftCons(b, m1, limit);
    KraftCons(b, m, limit);
    assert b >= 1;
    Pow2Step(limit - b);
    KraftCons(b - 1, m, limit);
  }

  lemma JoinCost(w0: nat, w1: nat, b: nat, w: seq<nat>, m: seq<nat>)
    requires |w| == |m| && b >= 1
    ensures Cost([w0] + ([w1] + w), [b] + ([b] + m)) == (w0 + w1) * (b - 1) + Cost(w, m) + w0 + w1
  {
    CostCons(w0, [w1] + w, b, [b] + m);
    CostCons(w1, w, b, m);
  }

  lemma Pow2Step(n: nat)
    ensures Pow2(n + 1) == 2 * Pow2(n)
  {
  }

  /** The two lightest weights can be given the two longest codes. */
  lemma DeepestTwo(w: seq<nat>, m: seq<nat>, limit: nat) returns (r: seq<nat>)
    requires Sorted(w) && |w| == |m| >= 2 && Feasible(m, limit)
    ensures |r| == |w| && r[0] >= r[1] && forall j :: 1 <= j < |r| ==> r[j] <= r[1]
    ensures Feasible(r, limit) && Cost(w, r) <= Cost(w, m)
  {
    var m1 := MoveMax(w, m, limit, 0);
    r := MoveMax(w, m1, limit, 1);
    assert r[0] == r[..1][0] == m1[..1][0] == m1[0];
    assert r[1] in m1;
  }

  /** The two lightest weights can be made siblings at the deepest level. */
  lemma MakeSiblings(w: seq<nat>, m: seq<nat>, limit: nat) returns (r: seq<nat>)
    requires Sorted(w) && |w| == |m| >= 2 && Feasible(m, limit)
    ensures |r| == |w| && r[0] == r[1] && Feasible(r, limit) && Cost(w, r) <= Cost(w, m)
  {
    var m2 := DeepestTwo(w, m, limit);
    var a, b, ms := m2[0], m2[1], m2[1..];
    assert m2 == [a] + ms && m2[0 := b] == [b] + ms;
    LowerFirst(a, b, ms, limit);
    r := m2[0 := b];
    UpdateCost(w, m2, 0, b);
    MulMono(b, a, w[0]);
  }

  /** Huffman's theorem: no prefix code is cheaper than the one that joins the two lightest
      weights at every step. */
  lemma {:induction false} HuffmanIsOptimal(w: seq<nat>, m: seq<nat>, limit: nat)
    requires Sorted(w) && |w| == |m| && Feasible(m, limit)
    ensures HuffCost(w) <= Cost(w, m)
    decreases |w|
  {
    if |w| >= 2 {
      var m1 := MakeSiblings(w, m, limit);
      var m2 := Join(w, m1, limit);
      InsertSorted(w[0] + w[1], w[2..]);
      HuffmanIsOptimal(Insert(w[0] + w[1], w[2..]), m2, limit);
    }
  }
}
