/** `tdefl_calculate_minimum_redundancy`: the in-place Moffat-Katajainen algorithm. */
module MinRedundancy {
  import opened Bits
  import opened HuffmanTheory
  import opened MergeTree
  import opened SymFreqs

  // ---------- the pool of items that are not yet joined

  /** The source's choice between the next internal node and the next leaf. */
  predicate PickNode(weight: seq<nat>, w: seq<nat>, root: nat, leaf: nat) {
    leaf >= |w| || (root < |weight| && weight[root] < w[leaf])
  }

  ghost predicate Pool(weight: seq<nat>, w: seq<nat>, root: nat, leaf: nat, avail: seq<nat>) {
    && root <= |weight| && leaf <= |w| && Sorted(avail)
    && multiset(avail) == multiset(weight[root..]) + multiset(w[leaf..])
  }

  /** In a sorted sequence the least item stands first. */
  lemma LeastFirst(avail: seq<nat>, x: nat, others: multiset<nat>)
    requires Sorted(avail) && avail != [] && multiset(avail) == multiset{x} + others && AtMostAll(x, others)
    ensures avail[0] == x && multiset(avail[1..]) == others
  {
    assert avail == [avail[0]] + avail[1..];
    assert x in multiset(avail) && avail[0] in multiset(avail);
    CancelOne(x, multiset(avail[1..]), others);
  }

  lemma CancelOne(x: nat, a: multiset<nat>, b: multiset<nat>)
    requires multiset{x} + a == multiset{x} + b
    ensures a == b
  {
    forall y ensures a[y] == b[y] {
      assert (multiset{x} + a)[y] == (multiset{x} + b)[y];
    }
  }

  lemma Pick(weight: seq<nat>, w: seq<nat>, root: nat, leaf: nat, avail: seq<nat>)
    requires Sorted(weight) && Sorted(w) && Pool(weight, w, root, leaf, avail) && avail != []
    ensures PickNode(weight, w, root, leaf) ==>
              root < |weight| && avail[0] == weight[root] && Pool(weight, w, root + 1, leaf, avail[1..])
    ensures !PickNode(weight, w, root, leaf) ==>
              leaf < |w| && avail[0] == w[leaf] && Pool(weight, w, root, leaf + 1, avail[1..])
  {
    assert |avail| == |multiset(avail)| == |weight[root..]| + |w[leaf..]|;
    SortedTail(avail);
    LeastOfTwo(weight, w, root, leaf);
    hide Sorted;
    if PickNode(weight, w, root, leaf) {
      assert weight[root..] == [weight[root]] + weight[root + 1..];
      LeastFirst(avail, weight[root], multiset(weight[root + 1..]) + multiset(w[leaf..]));
    } else {
      assert w[leaf..] == [w[leaf]] + w[leaf + 1..];
      LeastFirst(avail, w[leaf], multiset(weight[root..]) + multiset(w[leaf + 1..]));
    }
  }

  lemma SortedTail(s: seq<nat>)
    requires Sorted(s) && s != []
    ensures Sorted(s[1..])
  {
  }

  ghost predicate AtMostAll(x: nat, m: multiset<nat>) { forall y :: y in m ==> x <= y }

  lemma LeastOfTwo(weight: seq<nat>, w: seq<nat>, root: nat, leaf: nat)
    requires Sorted(weight) && Sorted(w) && root <= |weight| && leaf <= |w|
    ensures root < |weight| && PickNode(weight, w, root, leaf) ==>
              AtMostAll(weight[root], multiset(weight[root + 1..]) + multiset(w[leaf..]))
    ensures !PickNode(weight, w, root, leaf) ==>
              AtMostAll(w[leaf], multiset(weight[root..]) + multiset(w[leaf + 1..]))
  {
  }

  // ---------- the state of the joining pass

  ghost predicate Counts(took: seq<nat>, next: nat, root: nat, leaf: nat, n: nat) {
    && |took| == next + 1 && took[0] == 0 && took[next] == root && root + leaf == 2 * next && leaf <= n
    && (forall j :: 0 <= j < next ==> took[j] <= took[j + 1] <= took[j] + 2)
    && (forall j :: 1 <= j <= next ==> took[j] < j)
  }

  ghost predicate Sums(took: seq<nat>, w: seq<nat>, weight: seq<nat>) {
    forall j :: 0 <= j < |took| - 1 ==> NodeWeight(took, |w|, w, weight, j)
  }

  /** `last[j]` is the heavier of the two items joined into node `j`. */
  ghost predicate Order(took: seq<nat>, weight: seq<nat>, last: seq<nat>) {
    && |weight| == |last| && |took| == |weight| + 1 && Sorted(weight) && Sorted(last)
    && (forall j :: 0 <= j < |weight| ==> last[j] + 1 <= weight[j] <= 2 * last[j])
    && ChildrenLighter(took, weight, last)
  }

  ghost predicate ChildrenLighter(took: seq<nat>, weight: seq<nat>, last: seq<nat>)
    requires |weight| == |last|
  {
    forall j: nat, k: nat :: ChildNode(took, j, k) && k < |weight| && j < |last| ==>
        weight[k] <= last[j] && weight[j] >= weight[k] + 1 && (j >= 1 ==> weight[j] >= weight[k] + last[j - 1])
  }

  ghost predicate LeavesLighter(took: seq<nat>, w: seq<nat>, last: seq<nat>) {
    forall j: nat, i: nat :: ChildLeaf(took, j, i) && i < |w| && j < |last| ==> w[i] <= last[j]
  }

  ghost predicate Built(took: seq<nat>, w: seq<nat>, weight: seq<nat>, last: seq<nat>, next: nat, root: nat, leaf: nat) {
    |weight| == next && Counts(took, next, root, leaf, |w|) && Sums(took, w, weight) && Order(took, weight, last)
    && LeavesLighter(took, w, last)
  }

  /** The items left are all at least as heavy as those joined, and Huffman's cost is on course. */
  ghost predicate Left(w: seq<nat>, weight: seq<nat>, last: seq<nat>, avail: seq<nat>, root: nat, leaf: nat) {
    && Pool(weight, w, root, leaf, avail) && |avail| == |w| - |weight| && |last| == |weight|
    && (forall i :: 0 <= i < |avail| ==> avail[i] >= 1)
    && (weight != [] && avail != [] ==> last[|last| - 1] <= avail[0])
    && OnCourse(w, weight, avail)
  }

  ghost predicate OnCourse(w: seq<nat>, weight: seq<nat>, avail: seq<nat>) {
    Total(avail) == Total(w) && Total(weight) + HuffCost(avail) == HuffCost(w)
  }

  /** The items that node `next` takes: nodes `root..root2` and leaves `leaf..leaf2`. */
  ghost predicate Takes(w: seq<nat>, weight: seq<nat>, root: nat, leaf: nat, root2: nat, leaf2: nat, x1: nat, x2: nat) {
    && root <= root2 <= |weight| && leaf <= leaf2 <= |w| && root2 + leaf2 == root + leaf + 2
    && (forall k :: root <= k < root2 ==> weight[k] <= x2 && (weight[k] == x1 || weight[k] == x2))
    && (forall i :: leaf <= i < leaf2 ==> w[i] <= x2)
    && Total(weight[root..root2]) + Total(w[leaf..leaf2]) == x1 + x2
  }

  lemma CountsStep(took: seq<nat>, next: nat, root: nat, leaf: nat, n: nat, root2: nat, leaf2: nat)
    requires Counts(took, next, root, leaf, n)
    requires root <= root2 <= next && leaf <= leaf2 <= n && root2 + leaf2 == root + leaf + 2
    ensures Counts(took + [root2], next + 1, root2, leaf2, n)
  {
  }

  lemma SumsStep(took: seq<nat>, w: seq<nat>, weight: seq<nat>, root: nat, leaf: nat, root2: nat, leaf2: nat,
                 x1: nat, x2: nat)
    requires Counts(took, |weight|, root, leaf, |w|) && Sums(took, w, weight)
    requires Takes(w, weight, root, leaf, root2, leaf2, x1, x2)
    ensures Sums(took + [root2], w, weight + [x1 + x2])
  {
    var took', weight', next := took + [root2], weight + [x1 + x2], |weight|;
    forall j | 0 <= j < |took'| - 1
      ensures NodeWeight(took', |w|, w, weight', j)
    {
      if j < next {
        assert NodeWeight(took, |w|, w, weight, j);
        assert weight'[took[j]..took[j + 1]] == weight[took[j]..took[j + 1]];
      } else {
        assert weight'[root..root2] == weight[root..root2];
        assert 2 * next - root == leaf && 2 * (next + 1) - root2 == leaf2;
      }
    }
  }

  lemma OrderChild(took: seq<nat>, weight: seq<nat>, last: seq<nat>, w: seq<nat>, root: nat, leaf: nat,
                   root2: nat, leaf2: nat, x1: nat, x2: nat, j: nat, k: nat)
    requires Order(took, weight, last) && 1 <= x1 <= x2
    requires Counts(took, |weight|, root, leaf, |w|) && Takes(w, weight, root, leaf, root2, leaf2, x1, x2)
    requires weight != [] ==> last[|weight| - 1] <= x1
    requires ChildNode(took + [root2], j, k)
    ensures k < |weight| && j <= |weight|
    ensures weight[k] <= (last + [x2])[j] && (weight + [x1 + x2])[j] >= weight[k] + 1
    ensures j >= 1 ==> (weight + [x1 + x2])[j] >= weight[k] + last[j - 1]
  {
    var next := |weight|;
    if j < next {
      assert (took + [root2])[j] == took[j] && (took + [root2])[j + 1] == took[j + 1];
      assert ChildNode(took, j, k);
      assert took[j + 1] < j + 1;
    } else {
      assert weight[k] == x1 || weight[k] == x2;
    }
  }

  lemma SortedSnoc(s: seq<nat>, x: nat)
    requires Sorted(s) && (s != [] ==> s[|s| - 1] <= x)
    ensures Sorted(s + [x])
  {
  }

  lemma ChildrenStep(took: seq<nat>, weight: seq<nat>, last: seq<nat>, w: seq<nat>, root: nat, leaf: nat,
                     root2: nat, leaf2: nat, x1: nat, x2: nat)
    requires Order(took, weight, last) && 1 <= x1 <= x2
    requires Counts(took, |weight|, root, leaf, |w|) && Takes(w, weight, root, leaf, root2, leaf2, x1, x2)
    requires weight != [] ==> last[|weight| - 1] <= x1
    ensures ChildrenLighter(took + [root2], weight + [x1 + x2], last + [x2])
  {
    var weight', last' := weight + [x1 + x2], last + [x2];
    assert |weight'| == |last'|;
    hide Order, Takes, Counts;
    forall j: nat, k: nat | ChildNode(took + [root2], j, k) && k < |weight'| && j < |last'|
      ensures weight'[k] <= last'[j] && weight'[j] >= weight'[k] + 1
      ensures j >= 1 ==> weight'[j] >= weight'[k] + last'[j - 1]
    {
      OrderChild(took, weight, last, w, root, leaf, root2, leaf2, x1, x2, j, k);
    }
  }

  lemma OrderStep(took: seq<nat>, weight: seq<nat>, last: seq<nat>, w: seq<nat>, root: nat, leaf: nat,
                  root2: nat, leaf2: nat, x1: nat, x2: nat)
    requires Order(took, weight, last) && 1 <= x1 <= x2
    requires Counts(took, |weight|, root, leaf, |w|) && Takes(w, weight, root, leaf, root2, leaf2, x1, x2)
    requires weight != [] ==> last[|weight| - 1] <= x1
    ensures Order(took + [root2], weight + [x1 + x2], last + [x2])
  {
    SortedSnoc(weight, x1 + x2);
    SortedSnoc(last, x2);
    hide ChildrenLighter, Takes, Sorted, Counts;
    ChildrenStep(took, weight, last, w, root, leaf, root2, leaf2, x1, x2);
  }

  lemma LeavesStep(took: seq<nat>, w: seq<nat>, weight: seq<nat>, last: seq<nat>, root: nat, leaf: nat, root2: nat, leaf2: nat,
                   x1: nat, x2: nat)
    requires Counts(took, |weight|, root, leaf, |w|) && |last| == |weight| && LeavesLighter(took, w, last)
    requires Takes(w, weight, root, leaf, root2, leaf2, x1, x2)
    ensures LeavesLighter(took + [root2], w, last + [x2])
  {
    var took', last' := took + [root2], last + [x2];
    forall j: nat, i: nat | ChildLeaf(took', j, i) && i < |w| && j < |last'|
      ensures w[i] <= last'[j]
    {
      if j < |weight| {
        assert ChildLeaf(took, j, i);
      }
    }
  }

  lemma PoolStep(w: seq<nat>, weight: seq<nat>, root: nat, leaf: nat, x: nat, avail: seq<nat>)
    requires Pool(weight, w, root, leaf, avail)
    ensures Pool(weight + [x], w, root, leaf, Insert(x, avail))
  {
    InsertSorted(x, avail);
    assert (weight + [x])[root..] == weight[root..] + [x];
  }

  lemma InsertTotal(x: nat, rest: seq<nat>)
    ensures Total(Insert(x, rest)) == Total(rest) + x
  {
    var p := Slot(x, rest);
    assert rest[..p] + rest[p..] == rest;
    TotalInsert(rest[..p], x, rest[p..]);
  }

  lemma TotalTwo(avail: seq<nat>)
    requires |avail| >= 2
    ensures Total(avail) == avail[0] + avail[1] + Total(avail[2..])
  {
    assert avail[0..|avail|] == avail && avail[2..|avail|] == avail[2..];
    TotalSlice(avail, 0, |avail|);
    TotalSlice(avail, 1, |avail|);
  }

  lemma TakesTwo(w: seq<nat>, weight: seq<nat>, root: nat, leaf: nat, root1: nat, leaf1: nat, root2: nat, leaf2: nat,
                 x1: nat, x2: nat)
    requires x1 <= x2
    requires (root1 == root + 1 && leaf1 == leaf && root < |weight| && x1 == weight[root]) ||
             (root1 == root && leaf1 == leaf + 1 && leaf < |w| && x1 == w[leaf])
    requires (root2 == root1 + 1 && leaf2 == leaf1 && root1 < |weight| && x2 == weight[root1]) ||
             (root2 == root1 && leaf2 == leaf1 + 1 && leaf1 < |w| && x2 == w[leaf1])
    requires root2 <= |weight| && leaf2 <= |w|
    ensures Takes(w, weight, root, leaf, root2, leaf2, x1, x2)
  {
    ShortTotal(weight, root, root2);
    ShortTotal(w, leaf, leaf2);
  }

  lemma ShortTotal(s: seq<nat>, a: nat, b: nat)
    requires a <= b <= a + 2 && b <= |s|
    ensures Total(s[a..b]) == (if b == a then 0 else if b == a + 1 then s[a] else s[a] + s[a + 1])
  {
    if b >= a + 1 {
      TotalSlice(s, a, b);
    }
    if b >= a + 2 {
      TotalSlice(s, a + 1, b);
    }
  }

  lemma InsertBound(x: nat, rest: seq<nat>, b: nat)
    requires x >= b && forall i :: 0 <= i < |rest| ==> rest[i] >= b
    ensures forall i :: 0 <= i <= |rest| ==> Insert(x, rest)[i] >= b
  {
  }

  lemma LeftStep(w: seq<nat>, weight: seq<nat>, last: seq<nat>, avail: seq<nat>, root: nat, leaf: nat)
    requires |avail| == |w| - |weight| >= 2 && |last| == |weight| && avail[0] >= 1
    requires forall i :: 2 <= i < |avail| ==> avail[0] <= avail[1] <= avail[i]
    requires avail[0] <= avail[1] && OnCourse(w, weight, avail) && Pool(weight, w, root, leaf, avail[2..])
    ensures Left(w, weight + [avail[0] + avail[1]], last + [avail[1]], Insert(avail[0] + avail[1], avail[2..]), root, leaf)
  {
    hide OnCourse, Pool, Insert, Total, HuffCost, Sorted;
    var x, rest := avail[0] + avail[1], avail[2..];
    PoolStep(w, weight, root, leaf, x, rest);
    OnCourseStep(w, weight, avail);
    RestBound(avail);
    InsertBound(x, rest, avail[1]);
    InsertLength(x, rest);
  }

  lemma RestBound(avail: seq<nat>)
    requires |avail| >= 2 && forall i :: 2 <= i < |avail| ==> avail[0] <= avail[1] <= avail[i]
    ensures forall i :: 0 <= i < |avail[2..]| ==> avail[2..][i] >= avail[1]
  {
  }

  lemma InsertLength(x: nat, rest: seq<nat>)
    ensures |Insert(x, rest)| == |rest| + 1
  {
  }

  lemma OnCourseStep(w: seq<nat>, weight: seq<nat>, avail: seq<nat>)
    requires OnCourse(w, weight, avail) && |avail| >= 2
    ensures OnCourse(w, weight + [avail[0] + avail[1]], Insert(avail[0] + avail[1], avail[2..]))
  {
    var x := avail[0] + avail[1];
    TotalConcat(weight, [x]);
    TotalOne(x);
    InsertTotal(x, avail[2..]);
    TotalTwo(avail);
  }

  lemma BuiltStep(took: seq<nat>, w: seq<nat>, weight: seq<nat>, last: seq<nat>,
                  next: nat, root: nat, leaf: nat, root2: nat, leaf2: nat, x1: nat, x2: nat)
    requires Built(took, w, weight, last, next, root, leaf) && 1 <= x1 <= x2
    requires Takes(w, weight, root, leaf, root2, leaf2, x1, x2)
    requires weight != [] ==> last[|weight| - 1] <= x1
    ensures Built(took + [root2], w, weight + [x1 + x2], last + [x2], next + 1, root2, leaf2)
  {
    CountsStep(took, next, root, leaf, |w|, root2, leaf2);
    SumsStep(took, w, weight, root, leaf, root2, leaf2, x1, x2);
    LeavesStep(took, w, weight, last, root, leaf, root2, leaf2, x1, x2);
    OrderStep(took, weight, last, w, root, leaf, root2, leaf2, x1, x2);
  }

  /** `parent[k]` is the node that took node `k`. */
  ghost predicate Parents(took: seq<nat>, parent: seq<nat>) {
    forall j: nat, k: nat :: ChildNode(took, j, k) && k < |parent| ==> parent[k] == j
  }

  lemma {:induction false} TookTop(took: seq<nat>, next: nat, root: nat, leaf: nat, n: nat, j: nat)
    requires Counts(took, next, root, leaf, n) && j <= next
    ensures took[j] <= root
    decreases next - j
  {
    if j < next {
      TookTop(took, next, root, leaf, n, j + 1);
    }
  }

  lemma {:induction false} AtLeastOneEach(w: seq<nat>)
    requires forall i :: 0 <= i < |w| ==> w[i] >= 1
    ensures Total(w) >= |w|
  {
    if w != [] {
      AtLeastOneEach(w[..|w| - 1]);
    }
  }

  /** What the joining pass builds: the tree and the weights of its nodes. */
  datatype Tree = Tree(took: seq<nat>, weight: seq<nat>)

  ghost predicate HuffmanTree(w: seq<nat>, t: Tree) {
    && Weights(t.took, |w|, w, t.weight) && Greedy(t.took, |w|, t.weight) && LeafGreedy(t.took, |w|, w, t.weight)
    && Total(t.weight) == HuffCost(w) && t.weight[|w| - 2] == Total(w)
  }

  // ---------- one round of joining

  function Pop(weight: seq<nat>, w: seq<nat>, root: nat, leaf: nat): (nat, nat) {
    if PickNode(weight, w, root, leaf) then (root + 1, leaf) else (root, leaf + 1)
  }

  lemma TwoPicks(w: seq<nat>, weight: seq<nat>, avail: seq<nat>, root: nat, leaf: nat)
    requires Sorted(w) && Sorted(weight) && |avail| >= 2 && Pool(weight, w, root, leaf, avail)
    ensures var (r1, l1) := Pop(weight, w, root, leaf);
            var (r2, l2) := Pop(weight, w, r1, l1);
            && r1 <= |weight| && l1 <= |w| && r2 <= |weight| && l2 <= |w|
            && avail[0] == (if r1 > root then weight[root] else w[leaf])
            && avail[1] == (if r2 > r1 then weight[r1] else w[l1])
            && Takes(w, weight, root, leaf, r2, l2, avail[0], avail[1])
            && Pool(weight, w, r2, l2, avail[2..])
  {
    var (r1, l1) := Pop(weight, w, root, leaf);
    var (r2, l2) := Pop(weight, w, r1, l1);
    Pick(weight, w, root, leaf, avail);
    Pick(weight, w, r1, l1, avail[1..]);
    assert avail[1..][1..] == avail[2..];
    TakesTwo(w, weight, root, leaf, r1, l1, r2, l2, avail[0], avail[1]);
  }

  lemma LeftFacts(w: seq<nat>, weight: seq<nat>, last: seq<nat>, avail: seq<nat>, root: nat, leaf: nat)
    requires Left(w, weight, last, avail, root, leaf) && |avail| >= 2
    ensures |avail| == |w| - |weight| && |last| == |weight| && 1 <= avail[0] <= avail[1]
    ensures forall i :: 2 <= i < |avail| ==> avail[0] <= avail[1] <= avail[i]
    ensures OnCourse(w, weight, avail) && (weight != [] ==> last[|last| - 1] <= avail[0])
    ensures Pool(weight, w, root, leaf, avail)
  {
  }

  lemma BuiltFacts(took: seq<nat>, w: seq<nat>, weight: seq<nat>, last: seq<nat>, next: nat, root: nat, leaf: nat)
    requires Built(took, w, weight, last, next, root, leaf)
    ensures |weight| == next && Sorted(weight) && Counts(took, next, root, leaf, |w|)
    ensures root + leaf == 2 * next && root <= next && leaf <= |w| && (next >= 1 ==> root < next)
  {
  }

  /** The ghost state of the joining pass. */
  datatype Pass = Pass(took: seq<nat>, weight: seq<nat>, last: seq<nat>, avail: seq<nat>)

  ghost predicate PassInv(w: seq<nat>, p: Pass, root: nat, leaf: nat) {
    && Built(p.took, w, p.weight, p.last, |p.weight|, root, leaf)
    && Left(w, p.weight, p.last, p.avail, root, leaf)
  }

  ghost function NextPass(p: Pass, root: nat): Pass
    requires |p.avail| >= 2
  {
    var x1, x2 := p.avail[0], p.avail[1];
    Pass(p.took + [root], p.weight + [x1 + x2], p.last + [x2], Insert(x1 + x2, p.avail[2..]))
  }

  lemma RoundParts(took: seq<nat>, w: seq<nat>, weight: seq<nat>, last: seq<nat>, avail: seq<nat>, root: nat, leaf: nat)
    requires Sorted(w) && |avail| >= 2 && Total(w) < 65536
    requires Built(took, w, weight, last, |weight|, root, leaf) && Left(w, weight, last, avail, root, leaf)
    ensures var (r1, l1) := Pop(weight, w, root, leaf);
            var (r2, l2) := Pop(weight, w, r1, l1);
            && r1 <= |weight| && l1 <= |w| && r2 <= |weight| && l2 <= |w|
            && avail[0] == (if r1 > root then weight[root] else w[leaf])
            && avail[1] == (if r2 > r1 then weight[r1] else w[l1])
            && Built(took + [r2], w, weight + [avail[0] + avail[1]], last + [avail[1]], |weight| + 1, r2, l2)
            && Left(w, weight + [avail[0] + avail[1]], last + [avail[1]], Insert(avail[0] + avail[1], avail[2..]), r2, l2)
    ensures avail[0] + avail[1] < 65536
  {
    hide *;
    var (r1, l1) := Pop(weight, w, root, leaf);
    var (r2, l2) := Pop(weight, w, r1, l1);
    LeftFacts(w, weight, last, avail, root, leaf);
    BuiltFacts(took, w, weight, last, |weight|, root, leaf);
    TwoPicks(w, weight, avail, root, leaf);
    LeftTotal(w, weight, last, avail, root, leaf);
    BuiltStep(took, w, weight, last, |weight|, root, leaf, r2, l2, avail[0], avail[1]);
    LeftStep(w, weight, last, avail, r2, l2);
  }

  lemma LeftTotal(w: seq<nat>, weight: seq<nat>, last: seq<nat>, avail: seq<nat>, root: nat, leaf: nat)
    requires Left(w, weight, last, avail, root, leaf) && |avail| >= 2
    ensures avail[0] + avail[1] <= Total(w)
  {
    TotalTwo(avail);
  }

  lemma PassSize(w: seq<nat>, p: Pass, root: nat, leaf: nat)
    requires PassInv(w, p, root, leaf)
    ensures |p.avail| == |w| - |p.weight|
  {
  }

  /** Two picks make a node out of the two lightest items. */
  lemma Round(w: seq<nat>, p: Pass, root: nat, leaf: nat)
    requires Sorted(w) && Total(w) < 65536 && |p.weight| + 2 <= |w| && PassInv(w, p, root, leaf)
    ensures |p.avail| >= 2
    ensures var (r1, l1) := Pop(p.weight, w, root, leaf);
            var (r2, l2) := Pop(p.weight, w, r1, l1);
            && r1 <= |p.weight| && l1 <= |w| && r2 <= |p.weight| && l2 <= |w|
            && p.avail[0] == (if r1 > root then p.weight[root] else w[leaf])
            && p.avail[1] == (if r2 > r1 then p.weight[r1] else w[l1])
            && PassInv(w, NextPass(p, r2), r2, l2) && |NextPass(p, r2).weight| == |p.weight| + 1
    ensures p.avail[0] + p.avail[1] < 65536
  {
    hide Built, Left, Sorted, Total, Insert, PickNode, Pop;
    PassSize(w, p, root, leaf);
    RoundParts(p.took, w, p.weight, p.last, p.avail, root, leaf);
  }

  lemma PassFacts(w: seq<nat>, p: Pass, root: nat, leaf: nat)
    requires PassInv(w, p, root, leaf)
    ensures root + leaf == 2 * |p.weight| && root <= |p.weight| && leaf <= |w| && (|p.weight| >= 1 ==> root < |p.weight|)
  {
  }

  lemma Start(w: seq<nat>)
    requires |w| >= 2 && Sorted(w) && forall i :: 0 <= i < |w| ==> w[i] >= 1
    ensures PassInv(w, Pass([0], [], [], w), 0, 0)
  {
    assert w[0..] == w;
  }

  lemma ParentsStep(w: seq<nat>, p: Pass, parent: seq<nat>, root: nat, leaf: nat, root2: nat, more: seq<nat>)
    requires PassInv(w, p, root, leaf) && root == |parent| && root2 == root + |more| && |p.avail| >= 2
    requires Parents(p.took, parent) && forall i :: 0 <= i < |more| ==> more[i] == |p.weight|
    ensures Parents(NextPass(p, root2).took, parent + more)
  {
    var took, next := p.took, |p.weight|;
    forall j: nat, k: nat | ChildNode(took + [root2], j, k) && k < root2
      ensures (parent + more)[k] == j
    {
      if j < next {
        assert ChildNode(took, j, k);
        TookTop(took, next, root, leaf, |w|, j + 1);
      }
    }
  }

  lemma FirstRound(w: seq<nat>)
    requires |w| >= 2
    ensures Pop([], w, 0, 0) == (0, 1) && Pop([], w, 0, 1) == (0, 2)
    ensures Parents([0, 0], [])
  {
  }

  lemma Finish(w: seq<nat>, p: Pass, root: nat, leaf: nat)
    requires |w| >= 2 && |p.weight| == |w| - 1 && PassInv(w, p, root, leaf)
    ensures root == |w| - 2 && HuffmanTree(w, Tree(p.took, p.weight))
  {
    hide Weights, Greedy, LeafGreedy, Built, Left, HuffCost, Total, Counts;
    FinishPlace(p.took, w, p.weight, p.last, root, leaf);
    FinishWeight(w, p.weight, p.last, p.avail, leaf);
    FinishTree(w, p.took, p.weight, p.last, leaf);
  }

  lemma FinishPlace(took: seq<nat>, w: seq<nat>, weight: seq<nat>, last: seq<nat>, root: nat, leaf: nat)
    requires |w| >= 2 && Built(took, w, weight, last, |w| - 1, root, leaf)
    ensures root == |w| - 2 && leaf == |w| && |last| == |weight| && forall j :: 0 <= j < |last| ==> last[j] >= 1
  {
    hide Sums, LeavesLighter, ChildrenLighter, Sorted;
    assert took[|w| - 1] < |w| - 1 && leaf <= |w|;
  }

  /** The one item left is the whole. */
  lemma FinishWeight(w: seq<nat>, weight: seq<nat>, last: seq<nat>, avail: seq<nat>, leaf: nat)
    requires |w| >= 2 && |weight| == |w| - 1 && Left(w, weight, last, avail, |w| - 2, leaf) && leaf == |w|
    ensures Total(weight) == HuffCost(w) && weight[|w| - 2] == Total(w)
  {
    var n := |w|;
    assert weight[n - 2..] == [weight[n - 2]] && w[n..] == [];
    assert avail == [avail[0]] && avail[0] in multiset(avail);
    TotalOne(avail[0]);
  }

  lemma FinishTree(w: seq<nat>, took: seq<nat>, weight: seq<nat>, last: seq<nat>, leaf: nat)
    requires |w| >= 2 && Built(took, w, weight, last, |w| - 1, |w| - 2, leaf)
    requires forall j :: 0 <= j < |last| ==> last[j] >= 1
    ensures Weights(took, |w|, w, weight) && Greedy(took, |w|, weight) && LeafGreedy(took, |w|, w, weight)
  {
    hide Greedy, Weights, LeafGreedy;
    BuiltWeights(w, took, weight, last, leaf);
    BuiltGreedy(w, took, weight, last, leaf);
    BuiltLeaves(w, took, weight, last, leaf);
  }

  lemma BuiltWeights(w: seq<nat>, took: seq<nat>, weight: seq<nat>, last: seq<nat>, leaf: nat)
    requires |w| >= 2 && Built(took, w, weight, last, |w| - 1, |w| - 2, leaf)
    ensures Weights(took, |w|, w, weight)
  {
    hide Order, NodeWeight;
    BuiltShape(w, took, weight, last, leaf);
  }

  lemma BuiltShape(w: seq<nat>, took: seq<nat>, weight: seq<nat>, last: seq<nat>, leaf: nat)
    requires |w| >= 2 && Built(took, w, weight, last, |w| - 1, |w| - 2, leaf)
    ensures Shape(took, |w|)
  {
    hide Order, Sums;
  }

  lemma BuiltGreedy(w: seq<nat>, took: seq<nat>, weight: seq<nat>, last: seq<nat>, leaf: nat)
    requires |w| >= 2 && Built(took, w, weight, last, |w| - 1, |w| - 2, leaf)
    requires forall j :: 0 <= j < |last| ==> last[j] >= 1
    ensures Greedy(took, |w|, weight)
  {
    hide Sums, Counts;
    BuiltShape(w, took, weight, last, leaf);
    var n := |w|;
    forall g: nat, p: nat, k: nat | ChildNode(took, g, p) && ChildNode(took, p, k) && k < n - 2 && p < n - 1 && g < n - 1
      ensures weight[g] >= weight[p] + weight[k]
    {
      assert took[g + 1] < g + 1;
      assert last[p] <= last[g - 1];
    }
  }

  lemma BuiltLeaves(w: seq<nat>, took: seq<nat>, weight: seq<nat>, last: seq<nat>, leaf: nat)
    requires |w| >= 2 && Built(took, w, weight, last, |w| - 1, |w| - 2, leaf)
    ensures LeafGreedy(took, |w|, w, weight)
  {
    hide Sums, Counts;
    BuiltShape(w, took, weight, last, leaf);
    var n := |w|;
    forall p: nat, i: nat | ChildLeaf(took, p, i) && i < n && p < n - 1 ensures weight[p] >= w[i] {
      assert w[i] <= last[p];
    }
    forall g: nat, p: nat, i: nat | ChildNode(took, g, p) && ChildLeaf(took, p, i) && i < n && p < n - 1 && g < n - 1
      ensures weight[g] >= weight[p] + w[i]
    {
      assert took[g + 1] < g + 1;
      assert w[i] <= last[p] <= last[g - 1];
    }
  }

  // ---------- the three passes

  /** `s` holds the pass's mixture: parents of nodes already taken, weights of nodes and leaves not taken. */
  ghost predicate Mixed(s: seq<SymFreq>, parent: seq<nat>, weight: seq<nat>, w: seq<nat>, leaf: nat) {
    && |parent| <= |weight| <= leaf <= |w| <= |s|
    && (forall k :: 0 <= k < |parent| ==> s[k].key == parent[k])
    && (forall k :: |parent| <= k < |weight| ==> s[k].key == weight[k])
    && (forall k :: leaf <= k < |w| ==> s[k].key == w[k])
  }

  ghost predicate SameSyms(s: seq<SymFreq>, t: seq<SymFreq>, n: nat) {
    && n <= |s| == |t| && s[n..] == t[n..]
    && (forall k :: 0 <= k < |s| ==> s[k].sym == t[k].sym)
  }

  lemma MixedStep(s0: seq<SymFreq>, s1: seq<SymFreq>, parent: seq<nat>, more: seq<nat>, weight: seq<nat>, x: nat,
                  w: seq<nat>, leaf: nat, leaf2: nat)
    requires Mixed(s0, parent, weight, w, leaf) && |s1| == |s0| && |weight| < leaf2
    requires |parent + more| <= |weight| && leaf <= leaf2 <= |w|
    requires forall i :: 0 <= i < |more| ==> more[i] == |weight|
    requires forall k :: |parent| <= k < |parent| + |more| ==> s1[k].key == |weight|
    requires s1[|weight|].key == x
    requires forall k :: 0 <= k < |w| && !(|parent| <= k < |parent| + |more|) && k != |weight| ==> s1[k].key == s0[k].key
    ensures Mixed(s1, parent + more, weight + [x], w, leaf2)
  {
  }

  lemma ParentKeys(s: seq<SymFreq>, took: seq<nat>, parent: seq<nat>, weight: seq<nat>, w: seq<nat>, leaf: nat)
    requires Parents(took, parent) && Mixed(s, parent, weight, w, leaf)
    ensures |parent| <= |s|
    ensures forall j: nat, k: nat :: ChildNode(took, j, k) && k < |parent| ==> s[k].key == j
  {
  }

  /** One round of the first pass: the two lightest items become node `next`. */
  method TakeTwo(a: array<SymFreq>, n: nat, next: nat, root: nat, leaf: nat,
                 ghost parent: seq<nat>, ghost weight: seq<nat>, ghost w: seq<nat>) returns (root2: nat, leaf2: nat)
    requires n == |w| <= a.Length && next == |weight| < n - 1 && next < 65536 && root == |parent| < next < leaf
    requires root + leaf == 2 * next && Mixed(a[..], parent, weight, w, leaf)
    requires var (r1, l1) := Pop(weight, w, root, leaf);
             (if r1 > root then weight[root] else w[leaf]) +
             (if Pop(weight, w, r1, l1).0 > r1 then weight[r1] else w[l1]) < 65536
    modifies a
    ensures var (r1, l1) := Pop(weight, w, root, leaf);
            && (root2, leaf2) == Pop(weight, w, r1, l1)
            && a[next].key == (if r1 > root then weight[root] else w[leaf]) + (if root2 > r1 then weight[r1] else w[l1])
    ensures root <= root2 && leaf <= leaf2 && root2 + leaf2 == root + leaf + 2
    ensures forall k :: root <= k < root2 ==> a[k].key == next
    ensures forall k :: 0 <= k < a.Length && !(root <= k < root2) && k != next ==> a[k].key == old(a[k].key)
    ensures forall k :: 0 <= k < a.Length ==> a[k].sym == old(a[k].sym)
  {
    root2, leaf2 := root, leaf;
    if leaf2 >= n || a[root2].key < a[leaf2].key {
      a[next] := a[next].(key := a[root2].key);
      a[root2] := a[root2].(key := next);
      root2 := root2 + 1;
    } else {
      a[next] := a[next].(key := a[leaf2].key);
      leaf2 := leaf2 + 1;
    }
    if leaf2 >= n || (root2 < next && a[root2].key < a[leaf2].key) {
      a[next] := a[next].(key := a[next].key + a[root2].key);
      a[root2] := a[root2].(key := next);
      root2 := root2 + 1;
    } else {
      a[next] := a[next].(key := a[next].key + a[leaf2].key);
      leaf2 := leaf2 + 1;
    }
  }

  lemma SameSymsTrans(s: seq<SymFreq>, t: seq<SymFreq>, u: seq<SymFreq>, n: nat)
    requires SameSyms(s, t, n) && SameSyms(t, u, n)
    ensures SameSyms(s, u, n)
  {
  }

  /** A round of the first pass, with the state of the pass. */
  method JoinRound(a: array<SymFreq>, n: nat, next: nat, root: nat, leaf: nat, ghost w: seq<nat>, ghost p: Pass,
                   ghost parent: seq<nat>) returns (root2: nat, leaf2: nat, ghost parent2: seq<nat>)
    requires n == |w| <= a.Length && Sorted(w) && Total(w) < 65536 && next < 65536
    requires |p.weight| == next < n - 1 && root == |parent| < next < leaf
    requires PassInv(w, p, root, leaf) && Parents(p.took, parent) && Mixed(a[..], parent, p.weight, w, leaf)
    modifies a
    ensures |p.avail| >= 2
    ensures |parent2| == root2 && PassInv(w, NextPass(p, root2), root2, leaf2)
    ensures Parents(NextPass(p, root2).took, parent2) && Mixed(a[..], parent2, NextPass(p, root2).weight, w, leaf2)
    ensures |NextPass(p, root2).weight| == next + 1 && root2 <= next && next + 1 < leaf2
    ensures SameSyms(a[..], old(a[..]), n)
  {
    hide PassInv, Parents, Sorted, Total, Insert, Slot, Pop, PickNode;
    Round(w, p, root, leaf);
    PassFacts(w, p, root, leaf);
    ghost var s := a[..];
    root2, leaf2 := TakeTwo(a, n, next, root, leaf, parent, p.weight, w);
    ghost var more: seq<nat> := seq(root2 - root, _ => next);
    ParentsStep(w, p, parent, root, leaf, root2, more);
    MixedStep(s, a[..], parent, more, p.weight, p.avail[0] + p.avail[1], w, leaf, leaf2);
    parent2 := parent + more;
  }

  /** First pass: joins the two lightest items until one is left; a taken node's weight is
      overwritten by the number of the node that took it. */
  method JoinPairs(a: array<SymFreq>, n: nat, ghost w: seq<nat>) returns (ghost t: Tree)
    requires 2 <= n <= a.Length && |w| == n && Sorted(w) && Total(w) < 65536
    requires forall k :: 0 <= k < n ==> a[k].key == w[k] >= 1
    modifies a
    ensures SameSyms(a[..], old(a[..]), n)
    ensures HuffmanTree(w, t)
    ensures forall j: nat, k: nat :: ChildNode(t.took, j, k) && k < n - 2 ==> a[k].key == j
  {
    hide PassInv, Parents, HuffmanTree, Sorted, Total, Insert, Slot, Pop;
    AtLeastOneEach(w);
    ghost var p, parent: seq<nat> := Pass([0], [], [], w), [];
    Start(w);
    Round(w, p, 0, 0);
    FirstRound(w);
    a[0] := a[0].(key := a[0].key + a[1].key);
    p := NextPass(p, 0);
    assert p.took == [0, 0];
    var root: nat, leaf: nat, next: nat := 0, 2, 1;
    assert Mixed(a[..], parent, p.weight, w, leaf) && SameSyms(a[..], old(a[..]), n);
    hide Mixed, SameSyms, NextPass;
    while next < n - 1
      invariant 1 <= next <= n - 1 && root == |parent| < next < leaf && next == |p.weight|
      invariant PassInv(w, p, root, leaf) && Parents(p.took, parent)
      invariant Mixed(a[..], parent, p.weight, w, leaf)
      invariant SameSyms(a[..], old(a[..]), n)
    {
      ghost var s := a[..];
      root, leaf, parent := JoinRound(a, n, next, root, leaf, w, p, parent);
      SameSymsTrans(a[..], s, old(a[..]), n);
      p := NextPass(p, root);
      next := next + 1;
    }
    t := Tree(p.took, p.weight);
    Finish(w, p, root, leaf);
    ParentKeys(a[..], p.took, parent, p.weight, w, leaf);
  }

  /** The second pass has reached node `next`: above it are depths, from it on down are parents. */
  ghost predicate Deepened(s: seq<SymFreq>, took: seq<nat>, n: nat, next: int) {
    && Shape(took, n) && n <= |s| && -1 <= next <= n - 3 && s[n - 2].key == 0
    && (forall k :: next < k <= n - 2 ==> s[k].key <= n - 2 - k)
    && (forall j: nat, k: nat :: ChildNode(took, j, k) && k <= next ==> s[k].key == j)
    && (forall j: nat, k: nat :: ChildNode(took, j, k) && next < k < n - 2 ==> k < j < n - 1 && s[k].key == s[j].key + 1)
  }

  lemma DeepenStep(s: seq<SymFreq>, took: seq<nat>, n: nat, next: nat)
    requires Deepened(s, took, n, next) && n < 65536
    ensures next < s[next].key < n - 1 && s[s[next].key].key + 1 <= n - 2 - next
    ensures Deepened(s[next := s[next].(key := s[s[next].key].key + 1)], took, n, next - 1)
  {
    var parent := Parent(took, n, next, n - 1);
    OneParent(took, n, next);
  }

  lemma Deepest(s: seq<SymFreq>, took: seq<nat>, n: nat)
    requires Deepened(s, took, n, -1)
    ensures Depths(took, n, Keys(s[..n - 1]))
  {
    var depth := Keys(s[..n - 1]);
    assert forall k :: 0 <= k < n - 1 ==> depth[k] == s[k].key;
  }

  /** Second pass, from the root down: a node's depth is one more than its parent's. */
  method AssignDepths(a: array<SymFreq>, n: nat, ghost took: seq<nat>)
    requires 2 <= n <= a.Length && n < 65536 && Shape(took, n)
    requires forall j: nat, k: nat :: ChildNode(took, j, k) && k < n - 2 ==> a[k].key == j
    modifies a
    ensures SameSyms(a[..], old(a[..]), n)
    ensures Depths(took, n, Keys(a[..n - 1]))
  {
    a[n - 2] := a[n - 2].(key := 0);
    var next := n - 3;
    assert Deepened(a[..], took, n, next);
    hide Deepened, Shape, Depths, ChildNode;
    while next >= 0
      invariant -1 <= next <= n - 3
      invariant Deepened(a[..], took, n, next) && SameSyms(a[..], old(a[..]), n)
    {
      ghost var s := a[..];
      DeepenStep(s, took, n, next);
      a[next] := a[next].(key := a[a[next].key].key + 1);
      assert a[..] == s[next := s[next].(key := s[s[next].key].key + 1)];
      next := next - 1;
    }
    Deepest(a[..], took, n);
    assert a[..][..n - 1] == a[..n - 1];
  }

  lemma OneParent(took: seq<nat>, n: nat, k: nat)
    requires Shape(took, n)
    ensures forall i: nat, j: nat :: ChildNode(took, i, k) && ChildNode(took, j, k) ==> i == j
  {
    forall i: nat, j: nat | ChildNode(took, i, k) && ChildNode(took, j, k)
      ensures i == j
    {
      if i < j {
        TookMono(took, n, i + 1, j);
      } else if j < i {
        TookMono(took, n, j + 1, i);
      }
    }
  }

  // ---------- levels of the tree

  /** The nodes at depth `d` or more are the first `r`. */
  ghost predicate Level(depth: seq<nat>, r: nat, d: nat) {
    && r <= |depth|
    && (forall k :: 0 <= k < r ==> depth[k] >= d)
    && (forall k :: r <= k < |depth| ==> depth[k] < d)
  }

  /** The nodes one level further down are those that the first `r` nodes took. */
  lemma NextLevel(took: seq<nat>, n: nat, depth: seq<nat>, r: nat, r2: nat, d: nat)
    requires Depths(took, n, depth) && Level(depth, r, d) && Level(depth, r2, d + 1)
    ensures r2 == took[r]
  {
    if r2 < took[r] {
      var j := Parent(took, n, r2, r);
    } else if r2 > took[r] {
      var k := took[r];
      assert k < n - 2;
      var j := Parent(took, n, k, n - 1);
      assert j < r;
      TookMono(took, n, j + 1, r);
    }
  }

  lemma {:induction false} TookSlope(took: seq<nat>, n: nat, i: nat, j: nat)
    requires Shape(took, n) && i <= j < n
    ensures took[j] - took[i] <= 2 * (j - i)
    decreases j
  {
    if i < j {
      TookSlope(took, n, i, j - 1);
    }
  }

  /** Leaves between the children of the first `r` and of the first `prev` nodes lie at depth `d`. */
  lemma LeafLevel(took: seq<nat>, n: nat, depth: seq<nat>, r: nat, prev: nat, d: nat, i: nat, j: nat)
    requires Depths(took, n, depth) && d >= 1 && Level(depth, r, d) && Level(depth, prev, d - 1)
    requires 2 * r - took[r] <= i < 2 * prev - took[prev] && ChildLeaf(took, j, i)
    ensures depth[j] + 1 == d
  {
    if j < r {
      TookMono(took, n, j + 1, r);
    } else if j >= prev {
      TookMono(took, n, prev, j);
    }
  }

  /** The bookkeeping of the third pass: which leaves have their length. */
  ghost predicate Sized(s: seq<SymFreq>, took: seq<nat>, n: nat, depth: seq<nat>, from: int) {
    && n <= |s|
    && forall j: nat, i: nat :: ChildLeaf(took, j, i) && from < i < n && j < |depth| ==> s[i].key == depth[j] + 1
  }

  ghost predicate Frontier(took: seq<nat>, n: nat, depth: seq<nat>, root: int, next: int, avbl: int, dpth: nat, prev: nat) {
    && Depths(took, n, depth) && -1 <= root && next == root + avbl <= n - 1 && avbl >= 0
    && Level(depth, root + 1, dpth)
    && if dpth == 0 then root == n - 2 && avbl == 1
       else Level(depth, prev, dpth - 1) && root + 1 == took[prev] && next + 1 == 2 * prev - took[prev]
  }

  /** The nodes of a level never outnumber its places, and the next level's places are their children. */
  lemma FrontierStep(took: seq<nat>, n: nat, depth: seq<nat>, root: int, next: int, avbl: int, dpth: nat, prev: nat,
                     root2: int)
    requires Frontier(took, n, depth, root, next, avbl, dpth, prev)
    requires -1 <= root2 <= root && Level(depth, root2 + 1, dpth + 1)
    ensures root - root2 <= avbl
    ensures Frontier(took, n, depth, root2, 2 * root - root2, 2 * (root - root2), dpth + 1, root + 1)
    ensures dpth == 0 ==> root - root2 == avbl
    ensures dpth >= 1 ==> 2 * (root + 1) - took[root + 1] == 2 * root - root2 + 1
  {
    NextLevel(took, n, depth, root + 1, root2 + 1, dpth);
    if dpth > 0 {
      TookSlope(took, n, root + 1, prev);
    }
  }

  lemma FrontierShallow(took: seq<nat>, n: nat, depth: seq<nat>, root: int, next: int, avbl: int, dpth: nat, prev: nat)
    requires Frontier(took, n, depth, root, next, avbl, dpth, prev) && avbl > 0
    requires forall k :: 0 <= k < n - 1 ==> depth[k] <= 21
    ensures dpth <= 22
  {
    assert prev > 0 ==> depth[0] >= dpth - 1;
  }

  lemma FrontierEnd(took: seq<nat>, n: nat, depth: seq<nat>, root: int, next: int, dpth: nat, prev: nat)
    requires Frontier(took, n, depth, root, next, 0, dpth, prev)
    ensures next == -1
  {
  }

  /** What one level of the third pass leaves to do: the leaves down to `stop` get length `dpth`. */
  ghost predicate LevelLeaves(took: seq<nat>, depth: seq<nat>, dpth: nat, stop: int, next: int) {
    forall j: nat, i: nat :: ChildLeaf(took, j, i) && stop < i <= next && j < |depth| ==> depth[j] + 1 == dpth
  }

  lemma FrontierLeaves(took: seq<nat>, n: nat, depth: seq<nat>, root: int, next: int, avbl: int, dpth: nat, prev: nat,
                       root2: int)
    requires Frontier(took, n, depth, root, next, avbl, dpth, prev)
    requires -1 <= root2 <= root && Level(depth, root2 + 1, dpth + 1)
    ensures LevelLeaves(took, depth, dpth, 2 * root - root2, next)
  {
    FrontierStep(took, n, depth, root, next, avbl, dpth, prev, root2);
    forall j: nat, i: nat | ChildLeaf(took, j, i) && 2 * root - root2 < i <= next && j < |depth|
      ensures depth[j] + 1 == dpth
    {
      LeafLevel(took, n, depth, root + 1, prev, dpth, i, j);
    }
  }

  /** Third pass: from the top level down, the places that no internal node takes become leaves. */
  method AssignLengths(a: array<SymFreq>, n: nat, ghost took: seq<nat>, ghost depth: seq<nat>)
    requires 2 <= n <= a.Length && Depths(took, n, depth) && Keys(a[..n - 1]) == depth
    requires forall k :: 0 <= k < n - 1 ==> depth[k] <= 21
    modifies a
    ensures SameSyms(a[..], old(a[..]), n)
    ensures Sized(a[..], took, n, depth, -1)
  {
    assert forall k :: 0 <= k < n - 1 ==> a[k].key == Keys(a[..n - 1])[k];
    var avbl, used, dpth, root, next := 1, 0, 0, n - 2, n - 1;
    ghost var prev: nat := 0;
    assert Level(depth, root + 1, 0);
    hide Level;
    while avbl > 0
      invariant used == 0 && dpth >= 0 && Frontier(took, n, depth, root, next, avbl, dpth, prev)
      invariant forall k :: 0 <= k <= root ==> a[k].key == depth[k]
      invariant Sized(a[..], took, n, depth, next)
      invariant SameSyms(a[..], old(a[..]), n)
      decreases root + next + 2
    {
      FrontierShallow(took, n, depth, root, next, avbl, dpth, prev);
      ghost var root0 := root;
      root, used := SkipNodes(a, n, root, dpth, took, depth);
      FrontierStep(took, n, depth, root0, next, avbl, dpth, prev, root);
      FrontierLeaves(took, n, depth, root0, next, avbl, dpth, prev, root);
      next := FillLeaves(a, n, root, next, avbl - used, dpth, took, depth);
      prev := root0 + 1;
      avbl := 2 * used;
      dpth := dpth + 1;
      used := 0;
    }
    FrontierEnd(took, n, depth, root, next, dpth, prev);
  }

  /** The third pass's first inner loop: steps over the internal nodes of depth `dpth`. */
  method SkipNodes(a: array<SymFreq>, n: nat, root0: int, dpth: nat, ghost took: seq<nat>, ghost depth: seq<nat>)
    returns (root: int, used: nat)
    requires n <= a.Length && Depths(took, n, depth) && -1 <= root0 < n - 1 && Level(depth, root0 + 1, dpth)
    requires forall k :: 0 <= k <= root0 ==> a[k].key == depth[k]
    ensures -1 <= root <= root0 && used == root0 - root && Level(depth, root + 1, dpth + 1)
    ensures root0 >= 0 ==> root < root0
  {
    root, used := root0, 0;
    while root >= 0 && a[root].key == dpth
      invariant -1 <= root <= root0 && used == root0 - root
      invariant forall k :: root < k < |depth| ==> depth[k] < dpth + 1
    {
      used := used + 1;
      root := root - 1;
    }
    if root >= 0 {
      forall k | 0 <= k <= root
        ensures depth[k] >= dpth + 1
      {
        DepthMono(took, n, depth, k, root);
      }
      NoGap(took, n, depth, root0, dpth);
    }
  }

  /** No level above the deepest is empty. */
  lemma NoGap(took: seq<nat>, n: nat, depth: seq<nat>, root: nat, d: nat)
    requires Depths(took, n, depth) && root < n - 1 && Level(depth, root + 1, d)
    ensures depth[root] == d
  {
    if root < n - 2 {
      var j := Parent(took, n, root, n - 1);
    }
  }

  /** The third pass's second inner loop: `count` leaves get length `dpth`. */
  method FillLeaves(a: array<SymFreq>, n: nat, root: int, next0: int, count: nat, dpth: nat,
                    ghost took: seq<nat>, ghost depth: seq<nat>) returns (next: int)
    requires n <= a.Length && -1 <= root <= next0 - count && next0 < n && dpth < 65536
    requires LevelLeaves(took, depth, dpth, next0 - count, next0) && Sized(a[..], took, n, depth, next0)
    modifies a
    ensures next == next0 - count && Sized(a[..], took, n, depth, next)
    ensures forall k :: 0 <= k <= root ==> a[k] == old(a[k])
    ensures SameSyms(a[..], old(a[..]), n)
  {
    next := next0;
    var left := count;
    while left > 0
      invariant next == next0 - count + left && 0 <= left <= count
      invariant forall k :: 0 <= k <= root ==> a[k] == old(a[k])
      invariant forall k :: n <= k < a.Length ==> a[k] == old(a[k])
      invariant forall k :: 0 <= k < a.Length ==> a[k].sym == old(a[k].sym)
      invariant Sized(a[..], took, n, depth, next)
    {
      a[next] := a[next].(key := dpth);
      next := next - 1;
      left := left - 1;
    }
  }

  // ---------- the whole algorithm

  lemma SizedLens(s: seq<SymFreq>, w: seq<nat>, t: Tree, depth: seq<nat>)
    requires |w| >= 2 && |w| <= |s| && HuffmanTree(w, t) && Sorted(w) && Total(w) < 65536
    requires Depths(t.took, |w|, depth) && Sized(s, t.took, |w|, depth, -1)
    requires forall k :: 0 <= k < |w| - 1 ==> depth[k] <= 21
    ensures forall i, j :: 0 <= i <= j < |w| ==> s[i].key >= s[j].key >= 1
    ensures Bounded(Keys(s[..|w|]), 32) && Kraft(Keys(s[..|w|]), 32) == Pow2(32)
    ensures Cost(w, Keys(s[..|w|])) == HuffCost(w) && Spread(w, Keys(s[..|w|]))
  {
    hide HuffCost, Sorted, Bounded, Kraft, Cost, HuffmanTree, LeafDepths, Depths, Sized, Weights, Greedy, LeafGreedy, Spread;
    var n, lens := |w|, Keys(s[..|w|]);
    SizedDepths(s, t.took, n, depth);
    HuffmanFacts(w, t);
    LensShape(t.took, n, depth, lens);
    TreeKraft(t.took, n, depth, lens, 32);
    TreeCost(t.took, n, depth, lens, w, t.weight);
    TreeSpread(t.took, n, depth, lens, w, t.weight);
  }

  /** Only rare symbols have long codes. */
  ghost predicate Spread(w: seq<nat>, lens: seq<nat>) {
    |lens| == |w| && forall i :: 0 <= i < |w| ==> lens[i] >= 1 && Fib(lens[i] - 1) * w[i] <= Total(w)
  }

  lemma TreeSpread(took: seq<nat>, n: nat, depth: seq<nat>, lens: seq<nat>, w: seq<nat>, weight: seq<nat>)
    requires LeafDepths(took, n, depth, lens) && Greedy(took, n, weight) && LeafGreedy(took, n, w, weight)
    requires weight[n - 2] == Total(w)
    ensures Spread(w, lens)
  {
    forall i | 0 <= i < n ensures lens[i] >= 1 && Fib(lens[i] - 1) * w[i] <= Total(w) {
      LeafWeight(took, n, depth, lens, w, weight, i);
    }
  }

  lemma HuffmanFacts(w: seq<nat>, t: Tree)
    requires |w| >= 2 && HuffmanTree(w, t)
    ensures Greedy(t.took, |w|, t.weight) && LeafGreedy(t.took, |w|, w, t.weight) && |t.weight| == |w| - 1
    ensures t.weight[|w| - 2] == Total(w)
    ensures Weights(t.took, |w|, w, t.weight) && Total(t.weight) == HuffCost(w)
  {
  }

  lemma SizedDepths(s: seq<SymFreq>, took: seq<nat>, n: nat, depth: seq<nat>)
    requires n <= |s| && Depths(took, n, depth) && Sized(s, took, n, depth, -1)
    ensures LeafDepths(took, n, depth, Keys(s[..n])) && forall i :: 0 <= i < n ==> Keys(s[..n])[i] == s[i].key
  {
  }

  lemma LensShape(took: seq<nat>, n: nat, depth: seq<nat>, lens: seq<nat>)
    requires LeafDepths(took, n, depth, lens) && forall k :: 0 <= k < n - 1 ==> depth[k] <= 21
    ensures Bounded(lens, 32) && Bounded(depth, 32)
    ensures forall i, j :: 0 <= i <= j < n ==> lens[i] >= lens[j] >= 1
  {
    forall i, j | 0 <= i <= j < n
      ensures lens[i] >= lens[j] >= 1
    {
      LeafDepthMono(took, n, depth, lens, i, j);
    }
    forall i | 0 <= i < n
      ensures lens[i] <= 32
    {
      var j := LeafParent(took, n, i, n - 1);
    }
  }

  /** The length vector `lens` is a cheapest one for the weights `w`. */
  ghost predicate Optimal(w: seq<nat>, lens: seq<nat>) {
    && |lens| == |w|
    && forall m: seq<nat>, limit: nat :: |m| == |w| && Feasible(m, limit) ==> Cost(w, lens) <= Cost(w, m)
  }

  /** For sorted positive weights below 2^16 in total, the three passes replace the weights by code
      lengths that do not increase along the array, satisfy Kraft's equation exactly, stay within
      32 bits, are long only for rare symbols, and give the shortest coded text of all prefix codes. One symbol gets length 1. */
  method CalculateMinimumRedundancy(a: array<SymFreq>, n: nat)
    requires n <= a.Length && Sorted(Keys(a[..n])) && Total(Keys(a[..n])) < 65536
    requires forall k :: 0 <= k < n ==> a[k].key >= 1
    modifies a
    ensures SameSyms(a[..], old(a[..]), n)
    ensures n == 1 ==> a[0].key == 1
    ensures forall i, j :: 0 <= i <= j < n ==> a[i].key >= a[j].key >= 1
    ensures Bounded(Keys(a[..n]), 32)
    ensures n >= 2 ==> Kraft(Keys(a[..n]), 32) == Pow2(32)
    ensures n >= 2 ==> Optimal(Keys(old(a[..n])), Keys(a[..n])) && Spread(Keys(old(a[..n])), Keys(a[..n]))
  {
    if n == 0 {
      return;
    } else if n == 1 {
      a[0] := a[0].(key := 1);
      return;
    }
    ghost var w, s0 := Keys(a[..n]), a[..];
    assert forall k :: 0 <= k < n ==> w[k] == a[k].key;
    AtLeastOneEach(w);
    ghost var t := JoinPairs(a, n, w);
    ghost var s1 := a[..];
    AssignDepths(a, n, t.took);
    ghost var s2, depth := a[..], Keys(a[..n - 1]);
    BoundDepths(w, t, depth);
    AssignLengths(a, n, t.took, depth);
    SizedLens(a[..], w, t, depth);
    assert a[..][..n] == a[..n];
    SameSymsTrans(s2, s1, s0, n);
    SameSymsTrans(a[..], s2, s0, n);
    TreeOptimal(w, Keys(a[..n]));
  }

  lemma BoundDepths(w: seq<nat>, t: Tree, depth: seq<nat>)
    requires |w| >= 2 && HuffmanTree(w, t) && Total(w) < 65536 && Depths(t.took, |w|, depth)
    ensures forall k :: 0 <= k < |w| - 1 ==> depth[k] <= 21
  {
    forall k | 0 <= k < |w| - 1
      ensures depth[k] <= 21
    {
      DepthBound(t.took, |w|, depth, t.weight, k);
    }
  }

  lemma TreeOptimal(w: seq<nat>, lens: seq<nat>)
    requires Sorted(w) && |lens| == |w| && Cost(w, lens) == HuffCost(w)
    ensures Optimal(w, lens)
  {
    forall m: seq<nat>, limit: nat | |m| == |w| && Feasible(m, limit)
      ensures Cost(w, lens) <= Cost(w, m)
    {
      HuffmanIsOptimal(w, m, limit);
    }
  }
}
