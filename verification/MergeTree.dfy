/** The shape of the tree that the in-place Moffat-Katajainen pass builds over n sorted leaves.
    Internal nodes are numbered in the order in which they are made; each takes two items, and both
    internal nodes and leaves are taken in order. So the tree is determined by `took`: `took[j]` is
    the number of internal nodes taken by the first j nodes, and 2j - took[j] the number of leaves. */
module MergeTree {
  import opened Bits
  import opened HuffmanTheory

  /** `took` describes a whole tree over `n` leaves. */
  ghost predicate Shape(took: seq<nat>, n: nat) {
    && n >= 2 && |took| == n && took[0] == 0 && took[n - 1] == n - 2
    && (forall j :: 0 <= j < n - 1 ==> took[j] <= took[j + 1] <= took[j] + 2)
    && (forall j :: 1 <= j < n ==> took[j] < j)
  }

  /** Node `k` is a child of node `j`. */
  ghost predicate ChildNode(took: seq<nat>, j: nat, k: nat) {
    j + 1 < |took| && took[j] <= k < took[j + 1]
  }

  /** Leaf `i` is a child of node `j`. */
  ghost predicate ChildLeaf(took: seq<nat>, j: nat, i: nat) {
    j + 1 < |took| && 2 * j - took[j] <= i < 2 * (j + 1) - took[j + 1]
  }

  lemma {:induction false} TookMono(took: seq<nat>, n: nat, i: nat, j: nat)
    requires Shape(took, n) && i <= j < n
    ensures took[i] <= took[j] && 2 * i - took[i] <= 2 * j - took[j]
    decreases j
  {
    if i < j {
      TookMono(took, n, i, j - 1);
    }
  }

  lemma {:induction false} Parent(took: seq<nat>, n: nat, k: nat, top: nat) returns (j: nat)
    requires Shape(took, n) && top < n && k < took[top]
    ensures ChildNode(took, j, k) && k < j < top
    decreases top
  {
    j := top - 1;
    if k < took[j] {
      j := Parent(took, n, k, j);
    }
  }

  lemma {:induction false} LeafParent(took: seq<nat>, n: nat, i: nat, top: nat) returns (j: nat)
    requires Shape(took, n) && top < n && i < 2 * top - took[top]
    ensures ChildLeaf(took, j, i) && j < top
    decreases top
  {
    j := top - 1;
    if i < 2 * j - took[j] {
      j := LeafParent(took, n, i, j);
    }
  }

  /** `depth` gives the depth of every internal node. */
  ghost predicate Depths(took: seq<nat>, n: nat, depth: seq<nat>) {
    && Shape(took, n) && |depth| == n - 1 && depth[n - 2] == 0
    && (forall j: nat, k: nat :: ChildNode(took, j, k) && k < n - 2 ==> depth[k] == depth[j] + 1)
  }

  /** `lens` gives the depth of every leaf. */
  ghost predicate LeafDepths(took: seq<nat>, n: nat, depth: seq<nat>, lens: seq<nat>) {
    && Depths(took, n, depth) && |lens| == n
    && (forall j: nat, i: nat :: ChildLeaf(took, j, i) && i < n ==> lens[i] == depth[j] + 1)
  }

  lemma {:induction false} DepthMono(took: seq<nat>, n: nat, depth: seq<nat>, i: nat, j: nat)
    requires Depths(took, n, depth) && i <= j < n - 1
    ensures depth[i] >= depth[j]
    decreases n - i
  {
    if i < j && j < n - 2 {
      var a := Parent(took, n, i, n - 1);
      var b := Parent(took, n, j, n - 1);
      if a > b {
        TookMono(took, n, b + 1, a);
      }
      DepthMono(took, n, depth, a, b);
    }
  }

  lemma LeafDepthMono(took: seq<nat>, n: nat, depth: seq<nat>, lens: seq<nat>, i: nat, j: nat)
    requires LeafDepths(took, n, depth, lens) && i <= j < n
    ensures lens[i] >= lens[j] >= 1
  {
    var a := LeafParent(took, n, i, n - 1);
    var b := LeafParent(took, n, j, n - 1);
    if a > b {
      TookMono(took, n, b + 1, a);
    }
    DepthMono(took, n, depth, a, b);
  }

  // ---------- sums over the tree

  /** If every node's children together weigh the node's own `p` plus `c`, the leaves together weigh
      the root's `p` plus all the `c`. */
  lemma {:induction false} Telescope(took: seq<nat>, n: nat, p: seq<nat>, q: seq<nat>, c: seq<nat>, j: nat)
    requires Shape(took, n) && |p| == |c| == n - 1 && |q| == n && j < n
    requires forall i :: 0 <= i < n - 1 ==> NodeSum(took, n, p, q, c, i)
    ensures took[j] <= j && 2 * j - took[j] <= n
    ensures Total(p[took[j]..j]) + Total(q[2 * j - took[j]..]) == p[n - 2] + Total(c[j..])
    decreases n - j
  {
    TookMono(took, n, j, n - 1);
    if j == n - 1 {
      assert p[n - 2..n - 1] == [p[n - 2]];
      TotalOne(p[n - 2]);
    } else {
      Telescope(took, n, p, q, c, j + 1);
      assert NodeSum(took, n, p, q, c, j);
      TelescopeStep(p, q, c, took[j], took[j + 1], 2 * j - took[j], 2 * (j + 1) - took[j + 1], j);
    }
  }

  lemma TelescopeStep(p: seq<nat>, q: seq<nat>, c: seq<nat>, a: nat, b: nat, l: nat, m: nat, j: nat)
    requires a <= b <= j < |p| && |c| == |p| && l <= m <= |q|
    requires Total(p[a..b]) + Total(q[l..m]) == p[j] + c[j]
    ensures Total(p[a..j]) + Total(q[l..]) + Total(c[j + 1..]) == Total(p[b..j + 1]) + Total(q[m..]) + Total(c[j..])
  {
    MoveBound(p, a, b, j);
    SplitTail(q, l, m);
    SplitTail(c, j, j + 1);
    TotalSlice(c, j, j + 1);
  }

  lemma SplitTail(q: seq<nat>, l: nat, m: nat)
    requires l <= m <= |q|
    ensures Total(q[l..]) == Total(q[l..m]) + Total(q[m..])
  {
    assert q[l..] == q[l..m] + q[m..];
    TotalConcat(q[l..m], q[m..]);
  }

  lemma MoveBound(p: seq<nat>, a: nat, b: nat, j: nat)
    requires a <= b <= j < |p|
    ensures Total(p[a..b]) + Total(p[b..j + 1]) == Total(p[a..j]) + p[j]
  {
    assert p[a..j + 1] == p[a..b] + p[b..j + 1] && p[a..j + 1] == p[a..j] + [p[j]];
    TotalConcat(p[a..b], p[b..j + 1]);
    TotalConcat(p[a..j], [p[j]]);
    TotalOne(p[j]);
  }

  ghost predicate NodeSum(took: seq<nat>, n: nat, p: seq<nat>, q: seq<nat>, c: seq<nat>, j: nat) {
    && Shape(took, n) && |p| == |c| == n - 1 && |q| == n && j < n - 1
    && took[j + 1] <= n - 1 && 2 * (j + 1) - took[j + 1] <= n
    && Total(p[took[j]..took[j + 1]]) + Total(q[2 * j - took[j]..2 * (j + 1) - took[j + 1]]) == p[j] + c[j]
  }

  lemma {:induction false} TotalScaled(x: seq<nat>, p: seq<nat>, a: nat, b: nat, f: nat)
    requires |x| == |p| && a <= b <= |x|
    requires forall k :: a <= k < b ==> p[k] == x[k] * f
    ensures Total(p[a..b]) == Total(x[a..b]) * f
    decreases b - a
  {
    if a < b {
      TotalSlice(p, a, b);
      TotalSlice(x, a, b);
      TotalScaled(x, p, a + 1, b, f);
    }
  }

  lemma {:induction false} TotalConst(p: seq<nat>, a: nat, b: nat, v: nat)
    requires a <= b <= |p|
    requires forall k :: a <= k < b ==> p[k] == v
    ensures Total(p[a..b]) == (b - a) * v
    decreases b - a
  {
    if a < b {
      TotalSlice(p, a, b);
      TotalConst(p, a + 1, b, v);
    }
  }

  /** The tree's leaf depths have Kraft sum exactly one. */
  lemma TreeKraft(took: seq<nat>, n: nat, depth: seq<nat>, lens: seq<nat>, limit: nat)
    requires LeafDepths(took, n, depth, lens) && Bounded(lens, limit) && Bounded(depth, limit)
    ensures Kraft(lens, limit) == Pow2(limit)
  {
    var p, q, c := Terms(depth, limit), Terms(lens, limit), seq(n - 1, _ => 0);
    forall j | 0 <= j < n - 1
      ensures NodeSum(took, n, p, q, c, j)
    {
      KraftNode(took, n, depth, lens, limit, j);
    }
    TookMono(took, n, 0, n - 1);
    assert p[n - 2] == Pow2(limit);
    hide LeafDepths, Depths, Bounded, Shape, NodeSum, Terms;
    Telescope(took, n, p, q, c, 0);
    TotalConst(c, 0, n - 1, 0);
    assert p[0..0] == [] && c[0..] == c[0..n - 1] && q[0..] == q;
  }

  lemma KraftNode(took: seq<nat>, n: nat, depth: seq<nat>, lens: seq<nat>, limit: nat, j: nat)
    requires LeafDepths(took, n, depth, lens) && Bounded(lens, limit) && Bounded(depth, limit) && j < n - 1
    ensures NodeSum(took, n, Terms(depth, limit), Terms(lens, limit), seq(n - 1, _ => 0), j)
  {
    var p, q := Terms(depth, limit), Terms(lens, limit);
    TookMono(took, n, j + 1, n - 1);
    var a, b := took[j], took[j + 1];
    var l, m := 2 * j - a, 2 * (j + 1) - b;
    var e := ChildTerm(took, n, depth, lens, limit, j);
    hide Depths, LeafDepths, Bounded, Terms;
    TotalConst(p, a, b, e);
    TotalConst(q, l, m, e);
    TwoOf(b - a, e);
  }

  /** Both children of node `j` have half its weight. */
  lemma ChildTerm(took: seq<nat>, n: nat, depth: seq<nat>, lens: seq<nat>, limit: nat, j: nat) returns (e: nat)
    requires LeafDepths(took, n, depth, lens) && Bounded(lens, limit) && Bounded(depth, limit) && j < n - 1
    ensures Terms(depth, limit)[j] == 2 * e
    ensures forall k :: took[j] <= k < took[j + 1] && k < n - 1 ==> Terms(depth, limit)[k] == e
    ensures forall i :: 2 * j - took[j] <= i < 2 * (j + 1) - took[j + 1] && 0 <= i < n ==> Terms(lens, limit)[i] == e
  {
    TookMono(took, n, j + 1, n - 1);
    var a, l := took[j], 2 * j - took[j];
    if took[j + 1] < a + 2 {
      assert ChildLeaf(took, j, l);
      assert lens[l] <= limit;
    } else {
      assert ChildNode(took, j, a);
    }
    e := Pow2(limit - depth[j] - 1);
    forall k | a <= k < took[j + 1] && k < n - 1 ensures Terms(depth, limit)[k] == e { assert ChildNode(took, j, k); }
    forall i | l <= i < 2 * (j + 1) - took[j + 1] && 0 <= i < n ensures Terms(lens, limit)[i] == e {
      assert ChildLeaf(took, j, i);
    }
  }

  lemma TwoOf(t: nat, v: nat)
    requires t <= 2
    ensures t * v + (2 - t) * v == 2 * v
  {
  }

  /** Node `j` weighs what its children weigh. */
  ghost predicate Weights(took: seq<nat>, n: nat, w: seq<nat>, weight: seq<nat>) {
    && Shape(took, n) && |w| == n && |weight| == n - 1
    && forall j :: 0 <= j < n - 1 ==> NodeWeight(took, n, w, weight, j)
  }

  ghost predicate NodeWeight(took: seq<nat>, n: nat, w: seq<nat>, weight: seq<nat>, j: nat) {
    && j + 1 < |took| && took[j] <= took[j + 1] <= |weight|
    && 0 <= 2 * j - took[j] <= 2 * (j + 1) - took[j + 1] <= |w|
    && j < |weight|
    && weight[j] == Total(weight[took[j]..took[j + 1]]) + Total(w[2 * j - took[j]..2 * (j + 1) - took[j + 1]])
  }

  /** The weighted leaf depths add up to the weights of the internal nodes. */
  lemma TreeCost(took: seq<nat>, n: nat, depth: seq<nat>, lens: seq<nat>, w: seq<nat>, weight: seq<nat>)
    requires LeafDepths(took, n, depth, lens) && Weights(took, n, w, weight)
    ensures Cost(w, lens) == Total(weight)
  {
    var p, q := Products(weight, depth), Products(w, lens);
    forall j | 0 <= j < n - 1
      ensures NodeSum(took, n, p, q, weight, j)
    {
      CostNode(took, n, depth, lens, w, weight, j);
    }
    Telescope(took, n, p, q, weight, 0);
    assert weight[0..] == weight && q[0..] == q;
  }

  lemma CostNode(took: seq<nat>, n: nat, depth: seq<nat>, lens: seq<nat>, w: seq<nat>, weight: seq<nat>, j: nat)
    requires LeafDepths(took, n, depth, lens) && Weights(took, n, w, weight) && j < n - 1
    ensures NodeSum(took, n, Products(weight, depth), Products(w, lens), weight, j)
  {
    hide Depths, LeafDepths, Weights, Shape, Products, NodeWeight;
    var a, b, l, m := NodeParts(took, n, w, weight, j);
    DepthsFacts(took, n, depth, lens, j);
    var p, q := Products(weight, depth), Products(w, lens);
    var e := depth[j] + 1;
    ChildProducts(took, n, depth, lens, w, weight, j);
    TotalScaled(weight, p, a, b, e);
    TotalScaled(w, q, l, m, e);
    AddScaled(Total(weight[a..b]), Total(w[l..m]), weight[j], depth[j]);
  }

  lemma DepthsFacts(took: seq<nat>, n: nat, depth: seq<nat>, lens: seq<nat>, j: nat)
    requires LeafDepths(took, n, depth, lens) && j < n - 1
    ensures Shape(took, n) && |depth| == n - 1 && |lens| == n
  {
  }

  /** The children of a node, and what they weigh. */
  lemma NodeParts(took: seq<nat>, n: nat, w: seq<nat>, weight: seq<nat>, j: nat) returns (a: nat, b: nat, l: nat, m: nat)
    requires Weights(took, n, w, weight) && j < n - 1
    ensures |took| > j + 1 && a == took[j] <= b == took[j + 1] <= n - 1 == |weight|
    ensures l == 2 * j - a <= m == 2 * (j + 1) - b <= n == |w|
    ensures weight[j] == Total(weight[a..b]) + Total(w[l..m])
  {
    TookMono(took, n, j + 1, n - 1);
    assert NodeWeight(took, n, w, weight, j);
    a, b, l, m := took[j], took[j + 1], 2 * j - took[j], 2 * (j + 1) - took[j + 1];
  }

  /** A child counts its weight once more than its parent does. */
  lemma ChildProducts(took: seq<nat>, n: nat, depth: seq<nat>, lens: seq<nat>, w: seq<nat>, weight: seq<nat>, j: nat)
    requires LeafDepths(took, n, depth, lens) && Weights(took, n, w, weight) && j < n - 1
    ensures |took| > j + 1 && |Products(weight, depth)| == |weight| == n - 1 && |Products(w, lens)| == |w| == n
    ensures forall k :: took[j] <= k < took[j + 1] && k < n - 1 ==> Products(weight, depth)[k] == weight[k] * (depth[j] + 1)
    ensures forall i :: 2 * j - took[j] <= i < 2 * (j + 1) - took[j + 1] && 0 <= i < n ==> Products(w, lens)[i] == w[i] * (depth[j] + 1)
    ensures Products(weight, depth)[j] == weight[j] * depth[j]
  {
    var p, q, e := Products(weight, depth), Products(w, lens), depth[j] + 1;
    TookMono(took, n, j + 1, n - 1);
    forall k | took[j] <= k < took[j + 1] && k < n - 1 ensures p[k] == weight[k] * e {
      assert ChildNode(took, j, k);
      ChildDepth(took, n, depth, j, k);
    }
    forall i | 2 * j - took[j] <= i < 2 * (j + 1) - took[j + 1] && 0 <= i < n ensures q[i] == w[i] * e {
      assert ChildLeaf(took, j, i);
      assert lens[i] == e;
    }
  }

  lemma ChildDepth(took: seq<nat>, n: nat, depth: seq<nat>, j: nat, k: nat)
    requires Depths(took, n, depth) && ChildNode(took, j, k) && j < n - 1 && k < n - 1
    ensures depth[k] == depth[j] + 1
  {
  }

  lemma AddScaled(a: nat, b: nat, w: nat, d: nat)
    requires a + b == w
    ensures a * (d + 1) + b * (d + 1) == w * d + w
  {
  }

  // ---------- depth is logarithmic in weight

  /** What greedy choice gives: a grandparent outweighs its grandchild and child together. */
  ghost predicate Greedy(took: seq<nat>, n: nat, weight: seq<nat>) {
    && Shape(took, n) && |weight| == n - 1
    && (forall k :: 0 <= k < n - 1 ==> weight[k] >= 2)
    && (forall p: nat, k: nat :: ChildNode(took, p, k) && k < n - 2 && p < n - 1 ==> weight[p] >= weight[k] + 1)
    && (forall g: nat, p: nat, k: nat :: ChildNode(took, g, p) && ChildNode(took, p, k) && k < n - 2 && p < n - 1 && g < n - 1 ==>
        weight[g] >= weight[p] + weight[k])
  }

  function Fib(d: nat): (r: nat)
  {
    if d <= 1 then d + 1 else Fib(d - 1) + Fib(d - 2)
  }

  /** Going up from a node, the weights grow at least as fast as Fibonacci's numbers. */
  lemma {:induction false} FibAt(took: seq<nat>, n: nat, depth: seq<nat>, weight: seq<nat>, k: nat, p: nat, d: nat, x: nat)
    requires Depths(took, n, depth) && Greedy(took, n, weight)
    requires ChildNode(took, p, k) && k < n - 2 && p < n - 1
    requires weight[k] >= Fib(d) * x && weight[p] >= Fib(d + 1) * x
    ensures weight[n - 2] >= Fib(d + depth[k]) * x
    decreases n - k
  {
    if p < n - 2 {
      var g := Parent(took, n, p, n - 1);
      assert weight[g] >= weight[p] + weight[k];
      FibStep(d, x);
      FibAt(took, n, depth, weight, p, g, d + 1, x);
    }
  }

  lemma FibStep(d: nat, x: nat)
    ensures Fib(d + 2) * x == Fib(d + 1) * x + Fib(d) * x
  {
  }

  lemma {:induction false} FibMono(a: nat, b: nat)
    requires a <= b
    ensures Fib(a) <= Fib(b)
  {
    if a < b {
      FibMono(a, b - 1);
    }
  }

  lemma Fib23()
    ensures Fib(23) == 75025
  {
    assert Fib(6) == 21 && Fib(7) == 34;
    assert Fib(10) == 144 && Fib(11) == 233;
    assert Fib(14) == 987 && Fib(15) == 1597;
    assert Fib(18) == 6765 && Fib(19) == 10946;
    assert Fib(21) == 28657 && Fib(22) == 46368;
  }

  /** With a total weight below 2^16 no internal node is deeper than 21. */
  lemma DepthBound(took: seq<nat>, n: nat, depth: seq<nat>, weight: seq<nat>, k: nat)
    requires Depths(took, n, depth) && Greedy(took, n, weight)
    requires weight[n - 2] < 65536 && k < n - 1
    ensures depth[k] <= 21
  {
    if k < n - 2 {
      var p := Parent(took, n, k, n - 1);
      assert Fib(1) == 2 && Fib(2) == 3;
      FibAt(took, n, depth, weight, k, p, 1, 1);
      if depth[k] >= 22 {
        FibMono(23, depth[k] + 1);
        Fib23();
      }
    }
  }

  /** The same for leaves: a node's leaf and its child together do not outweigh its parent. */
  ghost predicate LeafGreedy(took: seq<nat>, n: nat, w: seq<nat>, weight: seq<nat>) {
    && Shape(took, n) && |w| == n && |weight| == n - 1
    && (forall p: nat, i: nat :: ChildLeaf(took, p, i) && i < n && p < n - 1 ==> weight[p] >= w[i])
    && (forall g: nat, p: nat, i: nat :: ChildNode(took, g, p) && ChildLeaf(took, p, i) && i < n && p < n - 1 && g < n - 1 ==>
        weight[g] >= weight[p] + w[i])
  }

  /** A long code is a rare symbol's: at depth l its weight is at most the whole by Fib(l - 1). */
  lemma LeafWeight(took: seq<nat>, n: nat, depth: seq<nat>, lens: seq<nat>, w: seq<nat>, weight: seq<nat>, i: nat)
    requires LeafDepths(took, n, depth, lens) && Greedy(took, n, weight) && LeafGreedy(took, n, w, weight) && i < n
    ensures lens[i] >= 1 && Fib(lens[i] - 1) * w[i] <= weight[n - 2]
  {
    var p := LeafParent(took, n, i, n - 1);
    if p < n - 2 {
      var g := Parent(took, n, p, n - 1);
      FibAt(took, n, depth, weight, p, g, 0, w[i]);
    }
  }
}
