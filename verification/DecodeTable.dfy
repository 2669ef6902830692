/** The decoder's form of a canonical code: a table indexed by the next 10 bits, and a binary tree
    for the codes that are longer (`tinfl_huff_table`). */
module DecodeTable {
  import opened Bits
  import opened Canonical
  import opened Gaps
  import HT = HuffTable

  const FAST_SIZE := 1024
  const TREE_SIZE := 576

  // ---------- what the two arrays mean

  /** The tree nodes that exist: the bits that lead to a node, and its number. Node k owns the tree
      slots 2k and 2k + 1 and is referred to as -1 - 2k. */
  type Nodes = map<Bitstring, nat>

  function Bit(b: bool): nat { if b then 1 else 0 }

  function NodeRef(k: nat): int { -1 - 2 * (k as int) }

  /** The bits `p` lead to a slot: of the table if there are 10 of them, of the tree otherwise. */
  predicate HasSlot(nodes: Nodes, p: Bitstring) {
    |p| == FAST_BITS || (FAST_BITS < |p| <= MAX_LEN && p[..|p| - 1] in nodes)
  }

  function TreeSlot(nodes: Nodes, p: Bitstring): nat
    requires HasSlot(nodes, p) && |p| > FAST_BITS
  {
    2 * nodes[p[..|p| - 1]] + Bit(p[|p| - 1])
  }

  /** Where the arrays are in shape. */
  predicate Sized(look: seq<int>, tree: seq<int>, nodes: Nodes) {
    |look| == FAST_SIZE && |tree| == TREE_SIZE && |nodes| <= MAX_NODES && Rooted(nodes) && Distinct(nodes)
  }

  predicate Rooted(nodes: Nodes) {
    forall p :: p in nodes ==> FAST_BITS <= |p| < MAX_LEN && nodes[p] < |nodes| && HasSlot(nodes, p)
  }

  predicate Distinct(nodes: Nodes) {
    forall p, q :: p in nodes && q in nodes && nodes[p] == nodes[q] ==> p == q
  }

  const MAX_NODES := 288

  lemma SlotInRange(look: seq<int>, tree: seq<int>, nodes: Nodes, p: Bitstring)
    requires Sized(look, tree, nodes) && HasSlot(nodes, p)
    ensures |p| == FAST_BITS ==> Val(p) < FAST_SIZE
    ensures |p| > FAST_BITS ==> TreeSlot(nodes, p) < 2 * |nodes| <= TREE_SIZE
  {
    LsbVal(p);
    assert Pow2(10) == 1024;
  }

  function Entry(look: seq<int>, tree: seq<int>, nodes: Nodes, p: Bitstring): int
    requires Sized(look, tree, nodes) && HasSlot(nodes, p)
  {
    SlotInRange(look, tree, nodes, p);
    if |p| == FAST_BITS then look[Val(p)] else tree[TreeSlot(nodes, p)]
  }

  /** `lens`' first `done` symbols are in the table. */
  predicate Done(lens: seq<nat>, done: nat, s: nat) { s < done && Used(lens, s) }

  ghost predicate NodesLinked(look: seq<int>, tree: seq<int>, nodes: Nodes)
    requires Sized(look, tree, nodes)
  {
    && (forall p :: p in nodes ==> Entry(look, tree, nodes, p) == NodeRef(nodes[p]))
    && (forall k :: 2 * |nodes| <= k < TREE_SIZE ==> tree[k] == 0)
  }

  ghost predicate LongCodes(look: seq<int>, tree: seq<int>, nodes: Nodes, lens: seq<nat>, done: nat)
    requires Sized(look, tree, nodes)
  {
    forall s: nat :: Done(lens, done, s) && lens[s] > FAST_BITS ==>
      HasSlot(nodes, Code(lens, s)) && Entry(look, tree, nodes, Code(lens, s)) == s
  }

  ghost predicate ShortCodes(look: seq<int>, tree: seq<int>, nodes: Nodes, lens: seq<nat>, done: nat)
    requires Sized(look, tree, nodes)
  {
    forall s: nat, p: Bitstring :: Done(lens, done, s) && lens[s] <= FAST_BITS && |p| == FAST_BITS && Code(lens, s) <= p ==>
      Entry(look, tree, nodes, p) == 512 * lens[s] + s
  }

  /** A slot is only taken by a node, or by a symbol whose code leads to it. */
  ghost predicate Taken(nodes: Nodes, lens: seq<nat>, done: nat, p: Bitstring) {
    p in nodes || exists s: nat :: Done(lens, done, s) && Code(lens, s) <= p && (|p| > FAST_BITS ==> Code(lens, s) == p)
  }

  ghost predicate OnlyTaken(look: seq<int>, tree: seq<int>, nodes: Nodes, lens: seq<nat>, done: nat)
    requires Sized(look, tree, nodes)
  {
    forall p: Bitstring :: HasSlot(nodes, p) && Entry(look, tree, nodes, p) != 0 ==> Taken(nodes, lens, done, p)
  }

  /** Every node is a proper prefix of some code. */
  ghost predicate NodesNeeded(nodes: Nodes, lens: seq<nat>) {
    forall p :: p in nodes ==> exists s: nat :: Used(lens, s) && |p| < lens[s] && p == Code(lens, s)[..|p|]
  }

  ghost predicate TableInv(look: seq<int>, tree: seq<int>, nodes: Nodes, lens: seq<nat>, done: nat) {
    && ValidLens(lens) && NotOver(lens) && done <= |lens| <= HT.MAX_SYMBOLS
    && Sized(look, tree, nodes) && NodesLinked(look, tree, nodes)
    && LongCodes(look, tree, nodes, lens, done) && ShortCodes(look, tree, nodes, lens, done)
    && OnlyTaken(look, tree, nodes, lens, done) && NodesNeeded(nodes, lens)
  }

  // ---------- writing one slot

  lemma ValInjective(p: Bitstring, q: Bitstring)
    requires |p| == |q| && Val(p) == Val(q)
    ensures p == q
  {
    LsbVal(p);
    LsbVal(q);
  }

  lemma SlotInjective(nodes: Nodes, p: Bitstring, q: Bitstring)
    requires Distinct(nodes) && HasSlot(nodes, p) && HasSlot(nodes, q)
    requires |p| > FAST_BITS && |q| > FAST_BITS && TreeSlot(nodes, p) == TreeSlot(nodes, q)
    ensures p == q
  {
    var a, b, x, y := p[..|p| - 1], q[..|q| - 1], p[|p| - 1], q[|q| - 1];
    assert p == a + [x] && q == b + [y];
    assert nodes[a] == nodes[b] && x == y;
    assert a == b;
  }

  /** The arrays after slot `p` is set to `v`. */
  ghost predicate Put(look: seq<int>, tree: seq<int>, nodes: Nodes, p: Bitstring, v: int, look': seq<int>, tree': seq<int>)
    requires Sized(look, tree, nodes) && HasSlot(nodes, p)
  {
    if |p| == FAST_BITS then Val(p) < FAST_SIZE && look' == look[Val(p) := v] && tree' == tree
    else TreeSlot(nodes, p) < TREE_SIZE && tree' == tree[TreeSlot(nodes, p) := v] && look' == look
  }

  lemma PutEntry(look: seq<int>, tree: seq<int>, nodes: Nodes, p: Bitstring, v: int, look': seq<int>, tree': seq<int>,
                 q: Bitstring)
    requires Sized(look, tree, nodes) && HasSlot(nodes, p) && Put(look, tree, nodes, p, v, look', tree')
    requires HasSlot(nodes, q)
    ensures Sized(look', tree', nodes)
    ensures Entry(look', tree', nodes, q) == if p == q then v else Entry(look, tree, nodes, q)
  {
    SlotInRange(look, tree, nodes, q);
    if |p| == |q| == FAST_BITS {
      if Val(p) == Val(q) { ValInjective(p, q); }
    } else if |p| > FAST_BITS && |q| > FAST_BITS {
      if TreeSlot(nodes, p) == TreeSlot(nodes, q) { SlotInjective(nodes, p, q); }
    }
  }

  lemma GrowNodes(nodes: Nodes, p: Bitstring)
    requires Rooted(nodes) && Distinct(nodes) && HasSlot(nodes, p) && |p| < MAX_LEN && p !in nodes
    ensures Rooted(nodes[p := |nodes|]) && Distinct(nodes[p := |nodes|])
  {
    var nodes' := nodes[p := |nodes|];
    assert |nodes'| == |nodes| + 1;
    forall q | q in nodes'
      ensures FAST_BITS <= |q| < MAX_LEN && nodes'[q] < |nodes'| && HasSlot(nodes', q)
    {
      assert q != p ==> q in nodes;
      assert HasSlot(nodes, q);
      SlotKept(nodes, p, q);
    }
  }

  lemma SlotKept(nodes: Nodes, p: Bitstring, q: Bitstring)
    requires HasSlot(nodes, q)
    ensures HasSlot(nodes[p := |nodes|], q)
  {
  }

  /** The slots after a new node is hung at `p`. */
  lemma GrowEntry(look: seq<int>, tree: seq<int>, nodes: Nodes, p: Bitstring, look': seq<int>, tree': seq<int>, q: Bitstring)
    requires Sized(look, tree, nodes) && NodesLinked(look, tree, nodes) && |nodes| < MAX_NODES
    requires HasSlot(nodes, p) && |p| < MAX_LEN && p !in nodes
    requires Put(look, tree, nodes, p, NodeRef(|nodes|), look', tree')
    ensures Sized(look', tree', nodes[p := |nodes|])
    ensures HasSlot(nodes, q) ==> HasSlot(nodes[p := |nodes|], q)
    ensures HasSlot(nodes, q) ==> (Entry(look', tree', nodes[p := |nodes|], q) ==
            if q == p then NodeRef(|nodes|) else Entry(look, tree, nodes, q))
    ensures HasSlot(nodes[p := |nodes|], q) && !HasSlot(nodes, q) ==> Entry(look', tree', nodes[p := |nodes|], q) == 0
  {
    hide NodesLinked, Entry, HasSlot;
    var nodes' := nodes[p := |nodes|];
    GrowSized(look, tree, nodes, p, look', tree');
    if HasSlot(nodes, q) {
      SlotKept(nodes, p, q);
      PutEntry(look, tree, nodes, p, NodeRef(|nodes|), look', tree', q);
      KeptEntry(look', tree', nodes, p, q);
    } else if HasSlot(nodes', q) {
      FreshEntry(look, tree, nodes, p, look', tree', q);
    }
  }

  lemma GrowSized(look: seq<int>, tree: seq<int>, nodes: Nodes, p: Bitstring, look': seq<int>, tree': seq<int>)
    requires Sized(look, tree, nodes) && |nodes| < MAX_NODES && HasSlot(nodes, p) && |p| < MAX_LEN && p !in nodes
    requires Put(look, tree, nodes, p, NodeRef(|nodes|), look', tree')
    ensures Sized(look', tree', nodes) && Sized(look', tree', nodes[p := |nodes|])
  {
    GrowNodes(nodes, p);
    SlotInRange(look, tree, nodes, p);
  }

  lemma KeptEntry(look: seq<int>, tree: seq<int>, nodes: Nodes, p: Bitstring, q: Bitstring)
    requires Sized(look, tree, nodes) && Sized(look, tree, nodes[p := |nodes|]) && p !in nodes && HasSlot(nodes, q)
    requires HasSlot(nodes[p := |nodes|], q)
    ensures Entry(look, tree, nodes[p := |nodes|], q) == Entry(look, tree, nodes, q)
  {
    hide Rooted, Distinct;
  }

  lemma FreshEntry(look: seq<int>, tree: seq<int>, nodes: Nodes, p: Bitstring, look': seq<int>, tree': seq<int>, q: Bitstring)
    requires Sized(look, tree, nodes) && NodesLinked(look, tree, nodes) && HasSlot(nodes, p) && p !in nodes
    requires Put(look, tree, nodes, p, NodeRef(|nodes|), look', tree') && Sized(look', tree', nodes[p := |nodes|])
    requires HasSlot(nodes[p := |nodes|], q) && !HasSlot(nodes, q)
    ensures Entry(look', tree', nodes[p := |nodes|], q) == 0
  {
    hide Entry;
    var nodes' := nodes[p := |nodes|];
    SlotInRange(look, tree, nodes, p);
    SlotInRange(look', tree', nodes', q);
    assert |q| > FAST_BITS && q[..|q| - 1] == p;
    assert TreeSlot(nodes', q) >= 2 * |nodes|;
    TreeEntry(look', tree', nodes', q);
  }

  lemma TreeEntry(look: seq<int>, tree: seq<int>, nodes: Nodes, q: Bitstring)
    requires Sized(look, tree, nodes) && HasSlot(nodes, q) && |q| > FAST_BITS
    ensures TreeSlot(nodes, q) < |tree| && Entry(look, tree, nodes, q) == tree[TreeSlot(nodes, q)]
  {
    SlotInRange(look, tree, nodes, q);
  }

  // ---------- prefixes and codes

  /** A proper prefix of a code is not a code, and does not extend one. */
  lemma ProperPrefix(lens: seq<nat>, p: Bitstring, t: nat, s: nat)
    requires ValidLens(lens) && NotOver(lens) && Used(lens, s)
    requires Used(lens, t) && |p| < lens[t] && p == Code(lens, t)[..|p|]
    ensures !(Code(lens, s) <= p)
  {
    if Code(lens, s) <= p {
      assert Code(lens, s) <= Code(lens, t);
      assert s != t;
      PrefixFree(lens, s, t);
    }
  }

  /** Two codes do not start the same bits. */
  lemma OneCode(lens: seq<nat>, p: Bitstring, s: nat, t: nat)
    requires ValidLens(lens) && NotOver(lens) && Decodes(lens, p, s) && Decodes(lens, p, t)
    ensures s == t
  {
    DecodeUnique(lens, p, s, t);
  }

  // ---------- a new node keeps the invariant

  lemma AddNodeLinked(look: seq<int>, tree: seq<int>, nodes: Nodes, p: Bitstring, look': seq<int>, tree': seq<int>)
    requires Sized(look, tree, nodes) && NodesLinked(look, tree, nodes) && |nodes| < MAX_NODES
    requires HasSlot(nodes, p) && |p| < MAX_LEN && p !in nodes
    requires Put(look, tree, nodes, p, NodeRef(|nodes|), look', tree')
    ensures Sized(look', tree', nodes[p := |nodes|]) && NodesLinked(look', tree', nodes[p := |nodes|])
  {
    var nodes' := nodes[p := |nodes|];
    GrowEntry(look, tree, nodes, p, look', tree', p);
    forall q | q in nodes'
      ensures Entry(look', tree', nodes', q) == NodeRef(nodes'[q])
    {
      GrowEntry(look, tree, nodes, p, look', tree', q);
    }
    SlotInRange(look, tree, nodes, p);
  }

  lemma AddNodeLong(look: seq<int>, tree: seq<int>, nodes: Nodes, lens: seq<nat>, done: nat, p: Bitstring, s: nat,
                    look': seq<int>, tree': seq<int>)
    requires TableInv(look, tree, nodes, lens, done) && |nodes| < MAX_NODES
    requires HasSlot(nodes, p) && |p| < MAX_LEN && p !in nodes
    requires Used(lens, s) && |p| < lens[s] && p == Code(lens, s)[..|p|]
    requires Put(look, tree, nodes, p, NodeRef(|nodes|), look', tree')
    ensures Sized(look', tree', nodes[p := |nodes|]) && LongCodes(look', tree', nodes[p := |nodes|], lens, done)
  {
    var nodes' := nodes[p := |nodes|];
    GrowEntry(look, tree, nodes, p, look', tree', p);
    forall t: nat | Done(lens, done, t) && lens[t] > FAST_BITS
      ensures HasSlot(nodes', Code(lens, t)) && Entry(look', tree', nodes', Code(lens, t)) == t
    {
      ProperPrefix(lens, p, s, t);
      GrowEntry(look, tree, nodes, p, look', tree', Code(lens, t));
    }
  }

  lemma AddNodeShort(look: seq<int>, tree: seq<int>, nodes: Nodes, lens: seq<nat>, done: nat, p: Bitstring,
                     look': seq<int>, tree': seq<int>)
    requires TableInv(look, tree, nodes, lens, done) && |nodes| < MAX_NODES
    requires HasSlot(nodes, p) && |p| < MAX_LEN && p !in nodes && Entry(look, tree, nodes, p) == 0
    requires Put(look, tree, nodes, p, NodeRef(|nodes|), look', tree')
    ensures Sized(look', tree', nodes[p := |nodes|]) && ShortCodes(look', tree', nodes[p := |nodes|], lens, done)
  {
    var nodes' := nodes[p := |nodes|];
    GrowEntry(look, tree, nodes, p, look', tree', p);
    forall t: nat, q: Bitstring | Done(lens, done, t) && lens[t] <= FAST_BITS && |q| == FAST_BITS && Code(lens, t) <= q
      ensures Entry(look', tree', nodes', q) == 512 * lens[t] + t
    {
      assert Entry(look, tree, nodes, q) == 512 * lens[t] + t;
      GrowEntry(look, tree, nodes, p, look', tree', q);
    }
  }

  lemma AddNodeTaken(look: seq<int>, tree: seq<int>, nodes: Nodes, lens: seq<nat>, done: nat, p: Bitstring,
                     look': seq<int>, tree': seq<int>)
    requires TableInv(look, tree, nodes, lens, done) && |nodes| < MAX_NODES
    requires HasSlot(nodes, p) && |p| < MAX_LEN && p !in nodes
    requires Put(look, tree, nodes, p, NodeRef(|nodes|), look', tree')
    ensures Sized(look', tree', nodes[p := |nodes|]) && OnlyTaken(look', tree', nodes[p := |nodes|], lens, done)
  {
    var nodes' := nodes[p := |nodes|];
    GrowEntry(look, tree, nodes, p, look', tree', p);
    forall q: Bitstring | HasSlot(nodes', q) && Entry(look', tree', nodes', q) != 0
      ensures Taken(nodes', lens, done, q)
    {
      TakenAfter(look, tree, nodes, lens, done, p, look', tree', q);
    }
  }

  lemma TakenAfter(look: seq<int>, tree: seq<int>, nodes: Nodes, lens: seq<nat>, done: nat, p: Bitstring,
                   look': seq<int>, tree': seq<int>, q: Bitstring)
    requires TableInv(look, tree, nodes, lens, done) && |nodes| < MAX_NODES
    requires HasSlot(nodes, p) && |p| < MAX_LEN && p !in nodes
    requires Put(look, tree, nodes, p, NodeRef(|nodes|), look', tree') && Sized(look', tree', nodes[p := |nodes|])
    requires HasSlot(nodes[p := |nodes|], q) && Entry(look', tree', nodes[p := |nodes|], q) != 0
    ensures Taken(nodes[p := |nodes|], lens, done, q)
  {
    hide Entry, Put, Sized, LongCodes, ShortCodes, NodesNeeded, NodesLinked, Rooted, Distinct, HasSlot;
    GrowEntry(look, tree, nodes, p, look', tree', q);
    if q != p {
      assert Taken(nodes, lens, done, q);
    }
  }

  /** An empty slot on the way of a code is no node and no code's end. */
  lemma EmptySlot(look: seq<int>, tree: seq<int>, nodes: Nodes, lens: seq<nat>, done: nat, p: Bitstring)
    requires TableInv(look, tree, nodes, lens, done) && HasSlot(nodes, p) && Entry(look, tree, nodes, p) == 0
    ensures p !in nodes
  {
  }

  /** A new node at the empty slot of a proper prefix of a code. */
  lemma AddNode(look: seq<int>, tree: seq<int>, nodes: Nodes, lens: seq<nat>, done: nat, p: Bitstring, s: nat,
                look': seq<int>, tree': seq<int>)
    requires TableInv(look, tree, nodes, lens, done) && |nodes| < MAX_NODES
    requires HasSlot(nodes, p) && |p| < MAX_LEN && Entry(look, tree, nodes, p) == 0
    requires Used(lens, s) && |p| < lens[s] && p == Code(lens, s)[..|p|]
    requires Put(look, tree, nodes, p, NodeRef(|nodes|), look', tree')
    ensures TableInv(look', tree', nodes[p := |nodes|], lens, done)
  {
    EmptySlot(look, tree, nodes, lens, done, p);
    AddNodeLinked(look, tree, nodes, p, look', tree');
    AddNodeLong(look, tree, nodes, lens, done, p, s, look', tree');
    AddNodeShort(look, tree, nodes, lens, done, p, look', tree');
    AddNodeTaken(look, tree, nodes, lens, done, p, look', tree');
    hide Sized, NodesLinked, LongCodes, ShortCodes, OnlyTaken, HasSlot, Entry, Put, NotOver, ValidLens, Code;
    AddNodeNeeded(nodes, lens, p, s);
  }

  lemma AddNodeNeeded(nodes: Nodes, lens: seq<nat>, p: Bitstring, s: nat)
    requires NodesNeeded(nodes, lens) && Used(lens, s) && |p| < lens[s] && p == Code(lens, s)[..|p|]
    ensures NodesNeeded(nodes[p := |nodes|], lens)
  {
  }

  // ---------- a long code keeps the invariant

  lemma NotNode(nodes: Nodes, lens: seq<nat>, s: nat)
    requires ValidLens(lens) && NotOver(lens) && NodesNeeded(nodes, lens) && Used(lens, s)
    ensures forall p :: p in nodes ==> !(Code(lens, s) <= p)
  {
    forall p | p in nodes
      ensures !(Code(lens, s) <= p)
    {
      var t: nat :| Used(lens, t) && |p| < lens[t] && p == Code(lens, t)[..|p|];
      ProperPrefix(lens, p, t, s);
    }
  }

  lemma AddLong(look: seq<int>, tree: seq<int>, nodes: Nodes, lens: seq<nat>, s: nat, look': seq<int>, tree': seq<int>)
    requires TableInv(look, tree, nodes, lens, s) && Used(lens, s) && lens[s] > FAST_BITS
    requires HasSlot(nodes, Code(lens, s)) && Put(look, tree, nodes, Code(lens, s), s, look', tree')
    ensures TableInv(look', tree', nodes, lens, s + 1)
  {
    NotNode(nodes, lens, s);
    AddLongLinked(look, tree, nodes, Code(lens, s), s, look', tree');
    hide HasSlot, Entry, Put, Code, NotOver, ValidLens;
    AddLongCodes(look, tree, nodes, lens, s, look', tree');
    AddLongShort(look, tree, nodes, lens, s, look', tree');
    AddLongTaken(look, tree, nodes, lens, s, look', tree');
    hide NodesLinked, LongCodes, ShortCodes, OnlyTaken, NodesNeeded, Sized, Entry, Put, HasSlot;
  }

  lemma AddLongLinked(look: seq<int>, tree: seq<int>, nodes: Nodes, c: Bitstring, v: int, look': seq<int>, tree': seq<int>)
    requires Sized(look, tree, nodes) && NodesLinked(look, tree, nodes) && HasSlot(nodes, c) && c !in nodes
    requires Put(look, tree, nodes, c, v, look', tree')
    ensures Sized(look', tree', nodes) && NodesLinked(look', tree', nodes)
  {
    SlotInRange(look, tree, nodes, c);
    PutEntry(look, tree, nodes, c, v, look', tree', c);
    forall q | q in nodes
      ensures Entry(look', tree', nodes, q) == NodeRef(nodes[q])
    {
      PutEntry(look, tree, nodes, c, v, look', tree', q);
    }
  }

  lemma AddLongCodes(look: seq<int>, tree: seq<int>, nodes: Nodes, lens: seq<nat>, s: nat, look': seq<int>, tree': seq<int>)
    requires TableInv(look, tree, nodes, lens, s) && Used(lens, s) && lens[s] > FAST_BITS
    requires HasSlot(nodes, Code(lens, s)) && Put(look, tree, nodes, Code(lens, s), s, look', tree')
    requires Sized(look', tree', nodes)
    ensures LongCodes(look', tree', nodes, lens, s + 1)
  {
    var c := Code(lens, s);
    forall t: nat | Done(lens, s + 1, t) && lens[t] > FAST_BITS
      ensures HasSlot(nodes, Code(lens, t)) && Entry(look', tree', nodes, Code(lens, t)) == t
    {
      if t == s {
        PutEntry(look, tree, nodes, c, s, look', tree', c);
      } else {
        assert Done(lens, s, t);
        PutEntry(look, tree, nodes, c, s, look', tree', Code(lens, t));
        PrefixFree(lens, s, t);
      }
    }
  }

  lemma AddLongShort(look: seq<int>, tree: seq<int>, nodes: Nodes, lens: seq<nat>, s: nat, look': seq<int>, tree': seq<int>)
    requires TableInv(look, tree, nodes, lens, s) && Used(lens, s) && lens[s] > FAST_BITS
    requires HasSlot(nodes, Code(lens, s)) && Put(look, tree, nodes, Code(lens, s), s, look', tree')
    requires Sized(look', tree', nodes)
    ensures ShortCodes(look', tree', nodes, lens, s + 1)
  {
    forall t: nat, q: Bitstring | Done(lens, s + 1, t) && lens[t] <= FAST_BITS && |q| == FAST_BITS && Code(lens, t) <= q
      ensures Entry(look', tree', nodes, q) == 512 * lens[t] + t
    {
      assert Done(lens, s, t) && HasSlot(nodes, q);
      PutEntry(look, tree, nodes, Code(lens, s), s, look', tree', q);
    }
  }

  lemma AddLongTaken(look: seq<int>, tree: seq<int>, nodes: Nodes, lens: seq<nat>, s: nat, look': seq<int>, tree': seq<int>)
    requires TableInv(look, tree, nodes, lens, s) && Used(lens, s) && lens[s] > FAST_BITS
    requires HasSlot(nodes, Code(lens, s)) && Put(look, tree, nodes, Code(lens, s), s, look', tree')
    requires Sized(look', tree', nodes)
    ensures OnlyTaken(look', tree', nodes, lens, s + 1)
  {
    var c := Code(lens, s);
    forall q: Bitstring | HasSlot(nodes, q) && Entry(look', tree', nodes, q) != 0
      ensures Taken(nodes, lens, s + 1, q)
    {
      PutEntry(look, tree, nodes, c, s, look', tree', q);
      if q == c {
        assert Done(lens, s + 1, s);
      } else {
        assert Taken(nodes, lens, s, q);
        StillTaken(nodes, lens, s, q);
      }
    }
  }

  lemma StillTaken(nodes: Nodes, lens: seq<nat>, s: nat, q: Bitstring)
    requires Taken(nodes, lens, s, q)
    ensures Taken(nodes, lens, s + 1, q)
  {
    if q !in nodes {
      var t: nat :| Done(lens, s, t) && Code(lens, t) <= q && (|q| > FAST_BITS ==> Code(lens, t) == q);
      assert Done(lens, s + 1, t);
    }
  }

  // ---------- a short code keeps the invariant

  /** The table after every index that starts with the code of `s` is set. */
  ghost predicate Filled(look: seq<int>, look': seq<int>, lens: seq<nat>, s: nat) {
    && |look| == |look'| == FAST_SIZE && Used(lens, s)
    && forall q: Bitstring :: |q| == FAST_BITS ==>
         Val(q) < FAST_SIZE && look'[Val(q)] == if Code(lens, s) <= q then 512 * lens[s] + s else look[Val(q)]
  }

  lemma FilledEntry(look: seq<int>, tree: seq<int>, nodes: Nodes, lens: seq<nat>, s: nat, look': seq<int>, q: Bitstring)
    requires Sized(look, tree, nodes) && Filled(look, look', lens, s) && HasSlot(nodes, q)
    ensures Sized(look', tree, nodes)
    ensures Entry(look', tree, nodes, q) ==
            if |q| == FAST_BITS && Code(lens, s) <= q then 512 * lens[s] + s else Entry(look, tree, nodes, q)
  {
    SlotInRange(look, tree, nodes, q);
  }

  lemma AddShort(look: seq<int>, tree: seq<int>, nodes: Nodes, lens: seq<nat>, s: nat, look': seq<int>)
    requires TableInv(look, tree, nodes, lens, s) && Used(lens, s) && lens[s] <= FAST_BITS && Filled(look, look', lens, s)
    ensures TableInv(look', tree, nodes, lens, s + 1)
  {
    NotNode(nodes, lens, s);
    assert Sized(look', tree, nodes);
    forall q | q in nodes
      ensures Entry(look', tree, nodes, q) == NodeRef(nodes[q])
    {
      FilledEntry(look, tree, nodes, lens, s, look', q);
    }
    assert NodesLinked(look', tree, nodes);
    AddShortLong(look, tree, nodes, lens, s, look');
    AddShortShort(look, tree, nodes, lens, s, look');
    AddShortTaken(look, tree, nodes, lens, s, look');
    hide NodesLinked, LongCodes, ShortCodes, OnlyTaken, NodesNeeded, Sized, Entry, HasSlot;
  }

  lemma AddShortLong(look: seq<int>, tree: seq<int>, nodes: Nodes, lens: seq<nat>, s: nat, look': seq<int>)
    requires Sized(look, tree, nodes) && LongCodes(look, tree, nodes, lens, s)
    requires Used(lens, s) && lens[s] <= FAST_BITS && Filled(look, look', lens, s)
    requires Sized(look', tree, nodes)
    ensures LongCodes(look', tree, nodes, lens, s + 1)
  {
    forall t: nat | Done(lens, s + 1, t) && lens[t] > FAST_BITS
      ensures HasSlot(nodes, Code(lens, t)) && Entry(look', tree, nodes, Code(lens, t)) == t
    {
      assert t != s;
      LongUntouched(look, tree, nodes, lens, s, look', t);
    }
  }

  lemma LongUntouched(look: seq<int>, tree: seq<int>, nodes: Nodes, lens: seq<nat>, s: nat, look': seq<int>, t: nat)
    requires Sized(look, tree, nodes) && LongCodes(look, tree, nodes, lens, s) && Filled(look, look', lens, s)
    requires Done(lens, s, t) && lens[t] > FAST_BITS
    ensures Sized(look', tree, nodes)
    ensures HasSlot(nodes, Code(lens, t)) && Entry(look', tree, nodes, Code(lens, t)) == t
  {
    var c := Code(lens, t);
    assert HasSlot(nodes, c) && Entry(look, tree, nodes, c) == t && |c| > FAST_BITS;
    hide LongCodes, Code, Done, Used;
    FilledEntry(look, tree, nodes, lens, s, look', c);
  }

  lemma AddShortShort(look: seq<int>, tree: seq<int>, nodes: Nodes, lens: seq<nat>, s: nat, look': seq<int>)
    requires TableInv(look, tree, nodes, lens, s) && Used(lens, s) && lens[s] <= FAST_BITS && Filled(look, look', lens, s)
    requires Sized(look', tree, nodes)
    ensures ShortCodes(look', tree, nodes, lens, s + 1)
  {
    forall t: nat, q: Bitstring | Done(lens, s + 1, t) && lens[t] <= FAST_BITS && |q| == FAST_BITS && Code(lens, t) <= q
      ensures Entry(look', tree, nodes, q) == 512 * lens[t] + t
    {
      assert HasSlot(nodes, q);
      FilledEntry(look, tree, nodes, lens, s, look', q);
      if t != s {
        assert Done(lens, s, t);
        if Code(lens, s) <= q {
          OneCode(lens, q, s, t);
        }
      }
    }
  }

  lemma AddShortTaken(look: seq<int>, tree: seq<int>, nodes: Nodes, lens: seq<nat>, s: nat, look': seq<int>)
    requires TableInv(look, tree, nodes, lens, s) && Used(lens, s) && lens[s] <= FAST_BITS && Filled(look, look', lens, s)
    requires Sized(look', tree, nodes)
    ensures OnlyTaken(look', tree, nodes, lens, s + 1)
  {
    forall q: Bitstring | HasSlot(nodes, q) && Entry(look', tree, nodes, q) != 0
      ensures Taken(nodes, lens, s + 1, q)
    {
      FilledEntry(look, tree, nodes, lens, s, look', q);
      if |q| == FAST_BITS && Code(lens, s) <= q {
        assert Done(lens, s + 1, s);
      } else {
        assert Taken(nodes, lens, s, q);
        StillTaken(nodes, lens, s, q);
      }
    }
  }

  lemma AddUnused(look: seq<int>, tree: seq<int>, nodes: Nodes, lens: seq<nat>, s: nat)
    requires TableInv(look, tree, nodes, lens, s) && s < |lens| && lens[s] == 0
    ensures TableInv(look, tree, nodes, lens, s + 1)
  {
    SameDone(lens, s);
    UnusedTaken(look, tree, nodes, lens, s);
    hide Sized, NodesLinked, OnlyTaken, NodesNeeded, HasSlot, Entry;
  }

  lemma SameDone(lens: seq<nat>, s: nat)
    requires s < |lens| && lens[s] == 0
    ensures forall t: nat :: Done(lens, s + 1, t) == Done(lens, s, t)
  {
  }

  lemma UnusedTaken(look: seq<int>, tree: seq<int>, nodes: Nodes, lens: seq<nat>, s: nat)
    requires Sized(look, tree, nodes) && OnlyTaken(look, tree, nodes, lens, s)
    ensures OnlyTaken(look, tree, nodes, lens, s + 1)
  {
    forall q: Bitstring | HasSlot(nodes, q) && Entry(look, tree, nodes, q) != 0
      ensures Taken(nodes, lens, s + 1, q)
    {
      StillTaken(nodes, lens, s, q);
    }
  }

  // ---------- the tree is large enough

  /** How many internal nodes the code has on level d. */
  function Inner(lens: seq<nat>, d: nat): int {
    Pow2(d) - Next(lens, d)
  }

  function InnerFrom(lens: seq<nat>, d: nat): int
    requires d <= MAX_LEN
    decreases MAX_LEN - d
  {
    if d == MAX_LEN then 0 else Inner(lens, d) + InnerFrom(lens, d + 1)
  }

  function CountFrom(lens: seq<nat>, d: nat): nat
    requires d <= MAX_LEN + 1
    decreases MAX_LEN + 1 - d
  {
    if d == MAX_LEN + 1 then 0 else Count(lens, d) + CountFrom(lens, d + 1)
  }

  lemma {:induction false} CountFromBound(lens: seq<nat>, d: nat)
    requires d <= MAX_LEN + 1
    ensures CountFrom(lens, d) <= |lens|
  {
    if lens == [] {
      CountFromEmpty(d);
    } else {
      CountFromBound(lens[..|lens| - 1], d);
      CountFromSnoc(lens, d);
    }
  }

  lemma {:induction false} CountFromEmpty(d: nat)
    requires d <= MAX_LEN + 1
    ensures CountFrom([], d) == 0
    decreases MAX_LEN + 1 - d
  {
    if d <= MAX_LEN {
      CountFromEmpty(d + 1);
    }
  }

  lemma {:induction false} CountFromSnoc(lens: seq<nat>, d: nat)
    requires lens != [] && d <= MAX_LEN + 1
    ensures CountFrom(lens, d) <= CountFrom(lens[..|lens| - 1], d) + 1
    ensures lens[|lens| - 1] < d ==> CountFrom(lens, d) == CountFrom(lens[..|lens| - 1], d)
    decreases MAX_LEN + 1 - d
  {
    if d <= MAX_LEN {
      CountFromSnoc(lens, d + 1);
    }
  }

  /** In a complete code the inner nodes from level d on and those of level d together are as many as
      the codes longer than d. */
  lemma {:induction false} InnerSum(lens: seq<nat>, d: nat)
    requires Complete(lens) && 1 <= d <= MAX_LEN
    ensures InnerFrom(lens, d) + Inner(lens, d) == CountFrom(lens, d + 1)
    ensures Inner(lens, d) >= 0 && InnerFrom(lens, d) >= 0
    ensures Inner(lens, d) == 0 ==> InnerFrom(lens, d) == 0
    decreases MAX_LEN - d
  {
    NextBound(lens, d);
    if d == MAX_LEN {
      Pow2Of15();
    } else {
      InnerSum(lens, d + 1);
      assert Next(lens, d + 1) == 2 * Next(lens, d) + Count(lens, d + 1);
      assert Inner(lens, d) + Inner(lens, d) == Inner(lens, d + 1) + Count(lens, d + 1);
    }
  }

  lemma InnerBound(lens: seq<nat>)
    requires Complete(lens) && |lens| <= HT.MAX_SYMBOLS
    ensures InnerFrom(lens, FAST_BITS) < MAX_NODES
  {
    InnerSum(lens, FAST_BITS);
    CountFromBound(lens, FAST_BITS + 1);
  }

  /** Where a node stands among all inner nodes from level 10 on, level by level. */
  function Rank(lens: seq<nat>, p: Bitstring): int
    requires FAST_BITS <= |p| <= MAX_LEN
  {
    InnerFrom(lens, FAST_BITS) - InnerFrom(lens, |p|) + MsbVal(p) - Next(lens, |p|)
  }

  lemma {:induction false} InnerFromMono(lens: seq<nat>, d: nat, e: nat)
    requires NotOver(lens) && d <= e <= MAX_LEN
    ensures InnerFrom(lens, d) >= InnerFrom(lens, e)
    decreases e - d
  {
    if d < e {
      NextBound(lens, d);
      InnerFromMono(lens, d + 1, e);
    }
  }

  /** A proper prefix of a code lies among the inner nodes of its level. */
  lemma PrefixIsInner(lens: seq<nat>, p: Bitstring, t: nat)
    requires ValidLens(lens) && NotOver(lens) && Used(lens, t) && 1 <= |p| < lens[t] && p == Code(lens, t)[..|p|]
    ensures Next(lens, |p|) <= MsbVal(p) < Pow2(|p|)
  {
    var v, l, d := CodeVal(lens, t), lens[t], |p|;
    CodeBound(lens, t);
    PrefixAbove(lens, v, l, d);
    ShrBound(v, l - d, d);
    MsbPrefix(v, l, d);
    MsbValMsb(Shr(v, l - d), d);
  }

  lemma RankInRange(lens: seq<nat>, p: Bitstring)
    requires NotOver(lens) && FAST_BITS <= |p| < MAX_LEN && Next(lens, |p|) <= MsbVal(p) < Pow2(|p|)
    ensures 0 <= Rank(lens, p) < InnerFrom(lens, FAST_BITS)
    ensures InnerFrom(lens, FAST_BITS) - InnerFrom(lens, |p|) <= Rank(lens, p)
    ensures Rank(lens, p) < InnerFrom(lens, FAST_BITS) - InnerFrom(lens, |p| + 1)
  {
    InnerFromMono(lens, FAST_BITS, |p|);
    InnerFromMono(lens, |p| + 1, MAX_LEN);
  }

  lemma RankInjective(lens: seq<nat>, p: Bitstring, q: Bitstring)
    requires NotOver(lens) && FAST_BITS <= |p| <= |q| < MAX_LEN && Rank(lens, p) == Rank(lens, q)
    requires Next(lens, |p|) <= MsbVal(p) < Pow2(|p|) && Next(lens, |q|) <= MsbVal(q) < Pow2(|q|)
    ensures p == q
  {
    hide InnerFrom, Next, Pow2, NotOver;
    RankInRange(lens, p);
    RankInRange(lens, q);
    if |p| < |q| {
      InnerFromMono(lens, |p| + 1, |q|);
    } else {
      MsbMsbVal(p);
      MsbMsbVal(q);
    }
  }

  lemma {:induction false} Pigeonhole(keys: set<Bitstring>, rank: Bitstring -> int, n: nat)
    requires forall p :: p in keys ==> 0 <= rank(p) < n
    requires forall p, q :: p in keys && q in keys && rank(p) == rank(q) ==> p == q
    ensures |keys| <= n
  {
    if n == 0 {
      assert keys == {};
    } else if p :| p in keys && rank(p) == n - 1 {
      Pigeonhole(keys - {p}, rank, n - 1);
    } else {
      Pigeonhole(keys, rank, n - 1);
    }
  }

  /** A length vector that `Build` accepts. */
  predicate Accepted(lens: seq<nat>) {
    Acceptable(lens) && |lens| <= HT.MAX_SYMBOLS
  }

  /** The tree array has room for all nodes that any accepted code needs. */
  lemma NodesFit(nodes: Nodes, lens: seq<nat>)
    requires Accepted(lens) && NodesNeeded(nodes, lens) && forall p :: p in nodes ==> FAST_BITS <= |p| < MAX_LEN
    ensures |nodes| < MAX_NODES
  {
    if Complete(lens) {
      CompleteFit(nodes.Keys, lens);
    } else {
      SingleFit(nodes.Keys, lens);
    }
  }

  ghost predicate Prefixes(keys: set<Bitstring>, lens: seq<nat>) {
    && (forall p :: p in keys ==> FAST_BITS <= |p| < MAX_LEN)
    && (forall p :: p in keys ==> exists s: nat :: Used(lens, s) && |p| < lens[s] && p == Code(lens, s)[..|p|])
  }

  /** The prefix lies among the inner nodes of its level. */
  predicate IsInner(lens: seq<nat>, p: Bitstring) { FAST_BITS <= |p| < MAX_LEN && Next(lens, |p|) <= MsbVal(p) < Pow2(|p|) }

  lemma PrefixesInner(keys: set<Bitstring>, lens: seq<nat>)
    requires ValidLens(lens) && NotOver(lens) && Prefixes(keys, lens)
    ensures forall p :: p in keys ==> IsInner(lens, p)
  {
    hide Next, Pow2, MsbVal, NotOver, ValidLens, Code;
    forall p | p in keys ensures IsInner(lens, p) {
      var t: nat :| Used(lens, t) && |p| < lens[t] && p == Code(lens, t)[..|p|];
      PrefixIsInner(lens, p, t);
    }
  }

  lemma InnerRank(lens: seq<nat>, p: Bitstring, q: Bitstring)
    requires NotOver(lens) && IsInner(lens, p) && IsInner(lens, q)
    ensures 0 <= Rank(lens, p) < InnerFrom(lens, FAST_BITS) && (Rank(lens, p) == Rank(lens, q) ==> p == q)
  {
    hide Rank, Next, Pow2, MsbVal, InnerFrom, NotOver;
    RankInRange(lens, p);
    if Rank(lens, p) == Rank(lens, q) {
      if |p| <= |q| { RankInjective(lens, p, q); } else { RankInjective(lens, q, p); }
    }
  }

  lemma CompleteFit(keys: set<Bitstring>, lens: seq<nat>)
    requires Accepted(lens) && Complete(lens) && Prefixes(keys, lens)
    ensures |keys| < MAX_NODES
  {
    AcceptedFacts(lens);
    PrefixesInner(keys, lens);
    InnerBound(lens);
    InnerSum(lens, FAST_BITS);
    var rank := (p: Bitstring) => if FAST_BITS <= |p| <= MAX_LEN then Rank(lens, p) else 0;
    hide Rank, Next, Prefixes, InnerFrom, ValidLens, NotOver, Accepted, Complete;
    forall p, q | p in keys && q in keys ensures 0 <= rank(p) < InnerFrom(lens, FAST_BITS) && (rank(p) == rank(q) ==> p == q) {
      assert IsInner(lens, p) && IsInner(lens, q);
      InnerRank(lens, p, q);
    }
    Pigeonhole(keys, rank, InnerFrom(lens, FAST_BITS));
  }

  lemma SingleFit(keys: set<Bitstring>, lens: seq<nat>)
    requires Prefixes(keys, lens)
    requires AtMostOneUsed(lens)
    ensures |keys| < MAX_NODES
  {
    forall p, q | p in keys && q in keys && |p| - FAST_BITS == |q| - FAST_BITS
      ensures p == q
    {
      var s: nat :| Used(lens, s) && |p| < lens[s] && p == Code(lens, s)[..|p|];
      var t: nat :| Used(lens, t) && |q| < lens[t] && q == Code(lens, t)[..|q|];
      assert s == t;
    }
    Pigeonhole(keys, (p: Bitstring) => |p| - FAST_BITS, 5);
  }

  // ---------- bits of the code in the source's registers

  lemma {:induction false} LsbBit(v: nat, n: nat, k: nat)
    requires k < n
    ensures Lsb(v, n)[k] == (Shr(v, k) % 2 == 1)
  {
    if k > 0 {
      LsbBit(v / 2, n - 1, k - 1);
    }
  }

  /** The low bits of a register are a prefix of all of them. */
  lemma LsbPrefix(v: nat, n: nat, k: nat)
    requires k <= n
    ensures Lsb(v, n)[..k] == Lsb(v, k) == Lsb(v % Pow2(k), k)
  {
    LsbSplit(v, k, n - k);
    LsbMod(v, k);
  }

  lemma LowTen(v: nat)
    ensures Val(Lsb(v, FAST_BITS)) == v % FAST_SIZE < FAST_SIZE
  {
    LsbMod(v, FAST_BITS);
    assert Pow2(10) == 1024;
    ValLsb(v % FAST_SIZE, FAST_BITS);
  }

  lemma ValTen(q: Bitstring)
    requires |q| == FAST_BITS
    ensures Val(q) < FAST_SIZE && Lsb(Val(q), FAST_BITS) == q
  {
    LsbVal(q);
    assert Pow2(10) == 1024;
  }

  lemma LsbEqual(a: nat, b: nat, l: nat)
    requires a < Pow2(l) && b < Pow2(l)
    ensures Lsb(a, l) == Lsb(b, l) <==> a == b
  {
    ValLsb(a, l);
    ValLsb(b, l);
  }

  /** A table index starts with a code exactly when its low bits are the reversed code. */
  lemma IndexStarts(q: Bitstring, rev: nat, l: nat)
    requires |q| == FAST_BITS && l <= FAST_BITS && rev < Pow2(l)
    ensures Val(q) < FAST_SIZE
    ensures Lsb(rev, l) <= q <==> Val(q) % Pow2(l) == rev
  {
    hide Lsb, Val, Pow2;
    ValTen(q);
    LsbPrefix(Val(q), FAST_BITS, l);
    LsbEqual(Val(q) % Pow2(l), rev, l);
  }

  lemma PrefixNode(nodes: Nodes, p: Bitstring, k: nat)
    requires Rooted(nodes) && p in nodes && FAST_BITS <= k <= |p|
    ensures p[..k] in nodes
    decreases |p|
  {
    if k == |p| {
      assert p[..k] == p;
    } else {
      var q := p[..|p| - 1];
      assert HasSlot(nodes, p);
      PrefixNode(nodes, q, k);
      assert q[..k] == p[..k];
    }
  }

  /** A slot on the way of a code that is being put in: a node, or empty. */
  lemma SlotOnWay(look: seq<int>, tree: seq<int>, nodes: Nodes, lens: seq<nat>, done: nat, s: nat, d: nat)
    requires TableInv(look, tree, nodes, lens, done) && Used(lens, s) && FAST_BITS <= d < lens[s]
    requires HasSlot(nodes, Code(lens, s)[..d])
    ensures var p := Code(lens, s)[..d];
            Entry(look, tree, nodes, p) == if p in nodes then NodeRef(nodes[p]) else 0
  {
    var p := Code(lens, s)[..d];
    if p !in nodes && Entry(look, tree, nodes, p) != 0 {
      assert Taken(nodes, lens, done, p);
      var t: nat :| Done(lens, done, t) && Code(lens, t) <= p;
      ProperPrefix(lens, p, s, t);
    }
  }

  // ---------- reading the table

  lemma NegativeIsNode(look: seq<int>, tree: seq<int>, nodes: Nodes, lens: seq<nat>, p: Bitstring)
    requires TableInv(look, tree, nodes, lens, |lens|) && HasSlot(nodes, p) && Entry(look, tree, nodes, p) < 0
    ensures p in nodes && |p| < MAX_LEN && Entry(look, tree, nodes, p) == NodeRef(nodes[p])
  {
  }

  /** The bits of a used symbol's code stand at the front of the buffer. */
  predicate AtFront(lens: seq<nat>, bitBuf: nat, s: nat) {
    Used(lens, s) && Lsb(bitBuf, lens[s]) == Code(lens, s)
  }

  lemma ShortAt(look: seq<int>, tree: seq<int>, nodes: Nodes, lens: seq<nat>, p: Bitstring, s: nat)
    requires Sized(look, tree, nodes) && ShortCodes(look, tree, nodes, lens, |lens|)
    requires Used(lens, s) && lens[s] <= FAST_BITS == |p| && Code(lens, s) <= p
    ensures Entry(look, tree, nodes, p) == 512 * lens[s] + s
  {
    assert Done(lens, |lens|, s);
  }

  lemma LongWay(look: seq<int>, tree: seq<int>, nodes: Nodes, lens: seq<nat>, s: nat, d: nat)
    requires Sized(look, tree, nodes) && LongCodes(look, tree, nodes, lens, |lens|) && NodesLinked(look, tree, nodes)
    requires Used(lens, s) && FAST_BITS <= d < lens[s]
    ensures Code(lens, s)[..d] in nodes && Entry(look, tree, nodes, Code(lens, s)[..d]) < 0
  {
    assert Done(lens, |lens|, s);
    var c := Code(lens, s);
    assert HasSlot(nodes, c);
    PrefixNode(nodes, c[..|c| - 1], d);
    assert c[..|c| - 1][..d] == c[..d];
  }

  lemma LongEnd(look: seq<int>, tree: seq<int>, nodes: Nodes, lens: seq<nat>, s: nat)
    requires Sized(look, tree, nodes) && LongCodes(look, tree, nodes, lens, |lens|)
    requires Used(lens, s) && FAST_BITS < lens[s]
    ensures HasSlot(nodes, Code(lens, s)) && Entry(look, tree, nodes, Code(lens, s)) == s
  {
    assert Done(lens, |lens|, s);
  }

  lemma InvSized(look: seq<int>, tree: seq<int>, nodes: Nodes, lens: seq<nat>)
    requires TableInv(look, tree, nodes, lens, |lens|)
    ensures Sized(look, tree, nodes)
  {
  }

  lemma FirstSlot(look: seq<int>, tree: seq<int>, nodes: Nodes, lens: seq<nat>, bitBuf: nat)
    requires TableInv(look, tree, nodes, lens, |lens|)
    ensures Sized(look, tree, nodes) && |look| == FAST_SIZE && HasSlot(nodes, Lsb(bitBuf, FAST_BITS))
    ensures Entry(look, tree, nodes, Lsb(bitBuf, FAST_BITS)) == look[bitBuf % FAST_SIZE]
  {
    LowTen(bitBuf);
  }

  lemma FastDecode(look: seq<int>, tree: seq<int>, nodes: Nodes, lens: seq<nat>, bitBuf: nat, s: nat)
    requires TableInv(look, tree, nodes, lens, |lens|) && AtFront(lens, bitBuf, s)
    requires HasSlot(nodes, Lsb(bitBuf, FAST_BITS)) && Entry(look, tree, nodes, Lsb(bitBuf, FAST_BITS)) >= 0
    ensures s < |lens| && Entry(look, tree, nodes, Lsb(bitBuf, FAST_BITS)) == 512 * lens[s] + s && s < 512
  {
    hide LongCodes, ShortCodes, OnlyTaken, NodesLinked, NodesNeeded, Rooted, Distinct, Entry, Code, Lsb;
    if lens[s] <= FAST_BITS {
      LsbPrefix(bitBuf, FAST_BITS, lens[s]);
      ShortAt(look, tree, nodes, lens, Lsb(bitBuf, FAST_BITS), s);
    } else {
      LsbPrefix(bitBuf, lens[s], FAST_BITS);
      LongWay(look, tree, nodes, lens, s, FAST_BITS);
    }
  }

  lemma SlowDecode(look: seq<int>, tree: seq<int>, nodes: Nodes, lens: seq<nat>, bitBuf: nat, len: nat, s: nat)
    requires TableInv(look, tree, nodes, lens, |lens|) && AtFront(lens, bitBuf, s) && FAST_BITS < len <= MAX_LEN
    requires HasSlot(nodes, Lsb(bitBuf, len)) && Entry(look, tree, nodes, Lsb(bitBuf, len)) >= 0
    ensures s < |lens| && lens[s] == len && Entry(look, tree, nodes, Lsb(bitBuf, len)) == s
  {
    hide LongCodes, ShortCodes, OnlyTaken, NodesLinked, NodesNeeded, Rooted, Distinct, Entry, Code, Lsb;
    var q, l := Lsb(bitBuf, len), lens[s];
    if l < len {
      assert q[..len - 1][..l] == q[..l];
      LsbPrefix(bitBuf, len, l);
      NotNode(nodes, lens, s);
    } else if l > len {
      LsbPrefix(bitBuf, l, len);
      LongWay(look, tree, nodes, lens, s, len);
    } else {
      LongEnd(look, tree, nodes, lens, s);
    }
  }

  // ---------- every lookup

  /** What a lookup of `bitBuf` finds: a short entry, or the end of a walk down the tree. */
  ghost predicate Ends(look: seq<int>, tree: seq<int>, nodes: Nodes, bitBuf: nat, sym: nat, len: nat) {
    && Sized(look, tree, nodes) && HasSlot(nodes, Lsb(bitBuf, FAST_BITS))
    && (if len <= FAST_BITS then sym < 512 && Entry(look, tree, nodes, Lsb(bitBuf, FAST_BITS)) == 512 * len + sym
        else len <= MAX_LEN && Lsb(bitBuf, len - 1) in nodes && HasSlot(nodes, Lsb(bitBuf, len)) &&
             Entry(look, tree, nodes, Lsb(bitBuf, len)) == sym)
  }

  lemma PrefixIn(nodes: Nodes, bitBuf: nat, d: nat, k: nat)
    requires Rooted(nodes) && Lsb(bitBuf, d) in nodes && FAST_BITS <= k <= d
    ensures Lsb(bitBuf, k) in nodes
  {
    hide Lsb;
    LsbPrefix(bitBuf, d, k);
    PrefixNode(nodes, Lsb(bitBuf, d), k);
  }

  lemma NodeNegative(look: seq<int>, tree: seq<int>, nodes: Nodes, p: Bitstring)
    requires Sized(look, tree, nodes) && NodesLinked(look, tree, nodes) && p in nodes
    ensures HasSlot(nodes, p) && Entry(look, tree, nodes, p) < 0
  {
  }

  /** A lookup finds one thing only. */
  lemma EndsUnique(look: seq<int>, tree: seq<int>, nodes: Nodes, lens: seq<nat>, bitBuf: nat, sym: nat, len: nat, sym': nat, len': nat)
    requires TableInv(look, tree, nodes, lens, |lens|)
    requires Ends(look, tree, nodes, bitBuf, sym, len) && Ends(look, tree, nodes, bitBuf, sym', len') && len <= len'
    ensures sym == sym' && len == len'
  {
    hide LongCodes, ShortCodes, OnlyTaken, NodesNeeded, Entry, Lsb, NodesLinked, HasSlot, Distinct, Rooted;
    if len' > FAST_BITS {
      InvRooted(look, tree, nodes, lens);
      if len <= FAST_BITS {
        PrefixIn(nodes, bitBuf, len' - 1, FAST_BITS);
        NodeNegative(look, tree, nodes, Lsb(bitBuf, FAST_BITS));
      } else if len < len' {
        PrefixIn(nodes, bitBuf, len' - 1, len);
        NodeNegative(look, tree, nodes, Lsb(bitBuf, len));
      }
    }
  }

  lemma InvRooted(look: seq<int>, tree: seq<int>, nodes: Nodes, lens: seq<nat>)
    requires TableInv(look, tree, nodes, lens, |lens|)
    ensures Rooted(nodes)
  {
    hide LongCodes, ShortCodes, OnlyTaken, NodesNeeded, Entry, Lsb, NodesLinked, HasSlot, Distinct, Rooted;
  }

  /** Something found at the end of a lookup is the symbol at the front, or an empty slot's 0. */
  lemma EndsSound(look: seq<int>, tree: seq<int>, nodes: Nodes, lens: seq<nat>, bitBuf: nat, sym: nat, len: nat)
    requires TableInv(look, tree, nodes, lens, |lens|) && Ends(look, tree, nodes, bitBuf, sym, len)
    ensures (sym == 0 && (len == 0 || len > FAST_BITS)) || (AtFront(lens, bitBuf, sym) && len == lens[sym])
  {
    hide LongCodes, ShortCodes, NodesNeeded, Entry, Lsb, NodesLinked, HasSlot, Distinct, Rooted, Code, AtFront;
    var l := if len <= FAST_BITS then FAST_BITS else len;
    var p := Lsb(bitBuf, l);
    if Entry(look, tree, nodes, p) != 0 {
      if p in nodes {
        NodeNegative(look, tree, nodes, p);
        assert false;
      } else {
        assert Taken(nodes, lens, |lens|, p);
        var s: nat :| Done(lens, |lens|, s) && Code(lens, s) <= p && (|p| > FAST_BITS ==> Code(lens, s) == p);
        FrontOf(lens, bitBuf, l, s);
        if l == FAST_BITS {
          FastDecode(look, tree, nodes, lens, bitBuf, s);
        } else {
          SlowDecode(look, tree, nodes, lens, bitBuf, len, s);
        }
      }
    }
  }

  lemma FrontOf(lens: seq<nat>, bitBuf: nat, l: nat, s: nat)
    requires Used(lens, s) && Code(lens, s) <= Lsb(bitBuf, l)
    ensures AtFront(lens, bitBuf, s) && lens[s] <= l
  {
    hide Lsb;
    LsbPrefix(bitBuf, l, lens[s]);
  }

  /** The symbol at the front is what a lookup finds. */
  lemma EndsCode(look: seq<int>, tree: seq<int>, nodes: Nodes, lens: seq<nat>, bitBuf: nat, sym: nat, len: nat, s: nat)
    requires TableInv(look, tree, nodes, lens, |lens|) && Ends(look, tree, nodes, bitBuf, sym, len) && AtFront(lens, bitBuf, s)
    ensures s < |lens| && sym == s && len == lens[s]
  {
    hide LongCodes, ShortCodes, OnlyTaken, NodesNeeded, Entry, Lsb, NodesLinked, HasSlot, Distinct, Rooted, Code, AtFront;
    if len <= FAST_BITS {
      FastDecode(look, tree, nodes, lens, bitBuf, s);
    } else {
      SlowDecode(look, tree, nodes, lens, bitBuf, len, s);
    }
  }

  /** The tree does not end before the code of a longer symbol does. */
  lemma EndsLater(look: seq<int>, tree: seq<int>, nodes: Nodes, lens: seq<nat>, bitBuf: nat, sym: nat, len: nat, s: nat)
    requires TableInv(look, tree, nodes, lens, |lens|) && Ends(look, tree, nodes, bitBuf, sym, len) && len > FAST_BITS
    requires Used(lens, s) && Code(lens, s)[..if len <= lens[s] then len else lens[s]] == Lsb(bitBuf, len)[..if len <= lens[s] then len else lens[s]]
    ensures lens[s] <= len
  {
    hide ShortCodes, OnlyTaken, NodesNeeded, Entry, Lsb, HasSlot, Distinct, Rooted, Code;
    if len < lens[s] {
      assert Lsb(bitBuf, len)[..len] == Lsb(bitBuf, len);
      LongWay(look, tree, nodes, lens, s, len);
    }
  }

  /** Where a lookup finds no node, the bits are on the way of no longer code. */
  lemma NoNodeNoWay(look: seq<int>, tree: seq<int>, nodes: Nodes, lens: seq<nat>, bitBuf: nat, len: nat)
    requires TableInv(look, tree, nodes, lens, |lens|) && Sized(look, tree, nodes) && FAST_BITS <= len
    requires HasSlot(nodes, Lsb(bitBuf, len)) && Entry(look, tree, nodes, Lsb(bitBuf, len)) >= 0
    ensures !OnWay(lens, Lsb(bitBuf, len))
  {
    hide ShortCodes, OnlyTaken, NodesNeeded, Entry, Lsb, HasSlot, Distinct, Rooted, Code;
    var p := Lsb(bitBuf, len);
    if OnWay(lens, p) {
      var s: nat :| Used(lens, s) && |p| < lens[s] && p == Code(lens, s)[..|p|];
      LongWay(look, tree, nodes, lens, s, len);
      assert false;
    }
  }

  lemma NodeOnWay(look: seq<int>, tree: seq<int>, nodes: Nodes, lens: seq<nat>, p: Bitstring)
    requires TableInv(look, tree, nodes, lens, |lens|) && p in nodes
    ensures OnWay(lens, p)
  {
    hide ShortCodes, OnlyTaken, Entry, HasSlot, Distinct, Rooted, Code, LongCodes, NodesLinked;
  }

  /** An empty slot found down the tree is where the bits leave the way of every code. */
  lemma EndsStray(look: seq<int>, tree: seq<int>, nodes: Nodes, lens: seq<nat>, bitBuf: nat, sym: nat, len: nat)
    requires TableInv(look, tree, nodes, lens, |lens|) && Ends(look, tree, nodes, bitBuf, sym, len)
    ensures len > FAST_BITS ==> OnWay(lens, Lsb(bitBuf, len - 1)) && !OnWay(lens, Lsb(bitBuf, len))
    ensures len <= FAST_BITS ==> !OnWay(lens, Lsb(bitBuf, FAST_BITS))
  {
    hide TableInv, Entry, HasSlot, Lsb, Sized, OnWay;
    InvSized(look, tree, nodes, lens);
    if len > FAST_BITS {
      NodeOnWay(look, tree, nodes, lens, Lsb(bitBuf, len - 1));
      NoNodeNoWay(look, tree, nodes, lens, bitBuf, len);
    } else {
      NoNodeNoWay(look, tree, nodes, lens, bitBuf, FAST_BITS);
    }
  }

  /** A walk that found no node at the root leaves no way. */
  lemma NoStrayFast(look: seq<int>, tree: seq<int>, nodes: Nodes, lens: seq<nat>, bitBuf: nat, numBits: nat)
    requires TableInv(look, tree, nodes, lens, |lens|) && Sized(look, tree, nodes)
    requires HasSlot(nodes, Lsb(bitBuf, FAST_BITS))
    requires Entry(look, tree, nodes, Lsb(bitBuf, FAST_BITS)) >= 0 || numBits <= FAST_BITS
    ensures forall d: nat :: !Strays(lens, Lsb(bitBuf, numBits), d)
  {
    hide TableInv, Entry, HasSlot, Lsb, Sized, OnWay;
    if numBits > FAST_BITS {
      NoNodeNoWay(look, tree, nodes, lens, bitBuf, FAST_BITS);
      LsbPrefix(bitBuf, numBits, FAST_BITS);
      NeverOnWay(lens, Lsb(bitBuf, numBits));
    }
  }

  /** A walk of `len` bits has come to `temp`. */
  ghost predicate OnWalk(look: seq<int>, tree: seq<int>, nodes: Nodes, bitBuf: nat, temp: int, len: nat) {
    && Sized(look, tree, nodes) && HasSlot(nodes, Lsb(bitBuf, FAST_BITS)) && HasSlot(nodes, Lsb(bitBuf, len))
    && temp == Entry(look, tree, nodes, Lsb(bitBuf, len))
    && (temp < 0 ==> len < MAX_LEN && Lsb(bitBuf, len) in nodes && temp == NodeRef(nodes[Lsb(bitBuf, len)]))
    && (len > FAST_BITS ==> Lsb(bitBuf, len - 1) in nodes)
  }

  lemma FrontUsed(lens: seq<nat>, bitBuf: nat, s: nat)
    requires AtFront(lens, bitBuf, s)
    ensures s < |lens| && lens[s] > 0
  {
  }

  /** A walk that is still on its way has not come to the end of any code. */
  lemma NotYet(look: seq<int>, tree: seq<int>, nodes: Nodes, lens: seq<nat>, bitBuf: nat, temp: int, len: nat)
    requires TableInv(look, tree, nodes, lens, |lens|) && FAST_BITS <= len && temp < 0 && Sized(look, tree, nodes)
    requires HasSlot(nodes, Lsb(bitBuf, len)) && temp == Entry(look, tree, nodes, Lsb(bitBuf, len))
    requires len == FAST_BITS || Lsb(bitBuf, len) in nodes
    ensures forall s: nat :: AtFront(lens, bitBuf, s) ==> s < |lens| && lens[s] > len
  {
    hide LongCodes, ShortCodes, OnlyTaken, NodesLinked, NodesNeeded, Rooted, Distinct, Entry, Code, Lsb;
    forall s: nat | AtFront(lens, bitBuf, s) ensures s < |lens| && lens[s] > len {
      if lens[s] <= FAST_BITS {
        LsbPrefix(bitBuf, FAST_BITS, lens[s]);
        if len == FAST_BITS {
          ShortAt(look, tree, nodes, lens, Lsb(bitBuf, FAST_BITS), s);
          assert false;
        } else {
          NodePast(nodes, lens, bitBuf, len, s);
        }
      } else if lens[s] <= len {
        NodePast(nodes, lens, bitBuf, len, s);
      }
    }
  }

  /** A node on the way does not lie at or past the end of a code. */
  lemma NodePast(nodes: Nodes, lens: seq<nat>, bitBuf: nat, len: nat, s: nat)
    requires NodesNeeded(nodes, lens) && ValidLens(lens) && NotOver(lens) && Lsb(bitBuf, len) in nodes
    requires Used(lens, s) && Lsb(bitBuf, lens[s]) == Code(lens, s)
    ensures lens[s] > len
  {
    hide Code, Lsb;
    var q := Lsb(bitBuf, len);
    var t: nat :| Used(lens, t) && |q| < lens[t] && q == Code(lens, t)[..|q|];
    if lens[s] <= len {
      LsbPrefix(bitBuf, len, lens[s]);
      assert Code(lens, s) == Code(lens, t)[..lens[s]];
      PrefixFree(lens, s, t);
      assert false;
    }
  }

  lemma ShortEnds(look: seq<int>, tree: seq<int>, nodes: Nodes, lens: seq<nat>, bitBuf: nat, temp: int)
    requires TableInv(look, tree, nodes, lens, |lens|) && HasSlot(nodes, Lsb(bitBuf, FAST_BITS)) && Sized(look, tree, nodes)
    requires temp == Entry(look, tree, nodes, Lsb(bitBuf, FAST_BITS)) && temp >= 0
    ensures temp / 512 <= FAST_BITS && Ends(look, tree, nodes, bitBuf, temp % 512, temp / 512)
  {
    hide LongCodes, NodesNeeded, Entry, Lsb, NodesLinked, HasSlot, Distinct, Rooted, Code, AtFront;
    var p := Lsb(bitBuf, FAST_BITS);
    if temp != 0 {
      if p in nodes {
        NodeNegative(look, tree, nodes, p);
        assert false;
      } else {
        assert Taken(nodes, lens, |lens|, p);
        var s: nat :| Done(lens, |lens|, s) && Code(lens, s) <= p;
        FrontOf(lens, bitBuf, FAST_BITS, s);
        FastDecode(look, tree, nodes, lens, bitBuf, s);
      }
    }
  }

  // ---------- the table object

  /** `tinfl_huff_table`. */
  class Table {
    const codeSize: array<nat>
    const lookUp: array<int>
    const tree: array<int>
    ghost var lens: seq<nat>
    ghost var nodes: Nodes

    ghost predicate Shape() {
      && codeSize.Length == HT.MAX_SYMBOLS && lookUp.Length == FAST_SIZE && tree.Length == TREE_SIZE
      && lookUp != tree && codeSize as object != lookUp && codeSize as object != tree
    }

    /** The table decodes the code of `lens`. */
    ghost predicate Valid()
      reads this, lookUp, tree
    {
      Shape() && TableInv(lookUp[..], tree[..], nodes, lens, |lens|)
    }

    constructor ()
      ensures Shape() && fresh(codeSize) && fresh(lookUp) && fresh(tree)
    {
      codeSize := new nat[HT.MAX_SYMBOLS](_ => 0);
      lookUp := new int[FAST_SIZE](_ => 0);
      tree := new int[TREE_SIZE](_ => 0);
      lens, nodes := [], map[];
    }

    /** The lookup of `TINFL_HUFF_DECODE`, whatever the bits are: the symbol at their front, if there is one. */
    method Decode(bitBuf: nat) returns (sym: nat, len: nat)
      requires Valid()
      ensures Ends(lookUp[..], tree[..], nodes, bitBuf, sym, len)
      ensures forall s: nat :: AtFront(lens, bitBuf, s) ==> s < |lens| && sym == s && len == lens[s]
    {
      hide TableInv, Sized, Code, Lsb, Entry, HasSlot, AtFront, Used;
      ghost var look, slots := lookUp[..], tree[..];
      LowTen(bitBuf);
      FirstSlot(look, slots, nodes, lens, bitBuf);
      InvSized(look, slots, nodes, lens);
      var temp := lookUp[bitBuf % FAST_SIZE];
      if temp >= 0 {
        sym, len := temp % 512, temp / 512;
        ShortEnds(look, slots, nodes, lens, bitBuf, temp);
      } else {
        sym, len := WalkTree(bitBuf, temp);
      }
      forall s: nat | AtFront(lens, bitBuf, s)
        ensures s < |lens| && sym == s && len == lens[s]
      {
        EndsCode(look, slots, nodes, lens, bitBuf, sym, len, s);
      }
    }

    /** The walk down the tree: it ends on a slot within 15 bits, whatever the bits are. */
    method WalkTree(bitBuf: nat, start: int) returns (sym: nat, len: nat)
      requires Valid() && HasSlot(nodes, Lsb(bitBuf, FAST_BITS)) && start < 0
      requires start == Entry(lookUp[..], tree[..], nodes, Lsb(bitBuf, FAST_BITS))
      ensures FAST_BITS < len <= MAX_LEN && Ends(lookUp[..], tree[..], nodes, bitBuf, sym, len)
    {
      hide TableInv, Sized, Code, Lsb, Entry, HasSlot, Shr;
      ghost var look, slots := lookUp[..], tree[..];
      InvSized(look, slots, nodes, lens);
      NegativeIsNode(look, slots, nodes, lens, Lsb(bitBuf, FAST_BITS));
      var temp := start;
      len := FAST_BITS;
      while temp < 0
        invariant FAST_BITS <= len <= MAX_LEN && OnWalk(look, slots, nodes, bitBuf, temp, len)
        decreases MAX_LEN - len, if temp < 0 then 1 else 0
      {
        temp, len := StepDown(bitBuf, temp, len);
      }
      sym := temp;
    }

    /** One bit further down the tree. */
    method StepDown(bitBuf: nat, temp0: int, len0: nat) returns (temp: int, len: nat)
      requires Valid() && temp0 < 0 && FAST_BITS <= len0 <= MAX_LEN && OnWalk(lookUp[..], tree[..], nodes, bitBuf, temp0, len0)
      ensures len == len0 + 1 <= MAX_LEN && OnWalk(lookUp[..], tree[..], nodes, bitBuf, temp, len)
    {
      hide TableInv, Sized, Code, Lsb, Entry, HasSlot, Shr;
      ghost var look, slots := lookUp[..], tree[..];
      InvSized(look, slots, nodes, lens);
      ghost var q := NextSlot(look, slots, nodes, bitBuf, len0);
      assert tree[..] == slots;
      temp := tree[-temp0 - 1 + Shr(bitBuf, len0) % 2];
      len := len0 + 1;
      if temp < 0 {
        NegativeIsNode(look, slots, nodes, lens, q);
      }
    }

    /** The test of `TINFL_HUFF_BITBUF_FILL`: with `numBits` bits in the buffer, is a lookup sure? */
    method Enough(bitBuf: nat, numBits: nat) returns (enough: bool, ghost sym: nat, ghost len: nat)
      requires Valid() && bitBuf < Pow2(numBits)
      ensures enough ==> len <= numBits && Ends(lookUp[..], tree[..], nodes, bitBuf, sym, len) && len > 0
      ensures !enough ==> forall s: nat :: AtFront(lens, bitBuf, s) ==> lens[s] > numBits
      ensures !enough ==> forall d: nat :: !Strays(lens, Lsb(bitBuf, numBits), d)
    {
      hide TableInv, Sized, Code, Lsb, Entry, HasSlot, Shr, Strays, OnWay;
      ghost var look, slots := lookUp[..], tree[..];
      LowTen(bitBuf);
      FirstSlot(look, slots, nodes, lens, bitBuf);
      InvSized(look, slots, nodes, lens);
      var temp := lookUp[bitBuf % FAST_SIZE];
      enough, sym, len := false, 0, 0;
      if temp >= 0 {
        var codeLen := temp / 512;
        ShortEnds(look, slots, nodes, lens, bitBuf, temp);
        if codeLen > 0 && numBits >= codeLen {
          return true, temp % 512, codeLen;
        }
        forall s: nat | AtFront(lens, bitBuf, s) ensures lens[s] > numBits {
          FrontUsed(lens, bitBuf, s);
          EndsCode(look, slots, nodes, lens, bitBuf, temp % 512, temp / 512, s);
        }
        NoStrayFast(look, slots, nodes, lens, bitBuf, numBits);
      } else if numBits > FAST_BITS {
        var codeLen := FAST_BITS;
        NegativeIsNode(look, slots, nodes, lens, Lsb(bitBuf, FAST_BITS));
        temp, codeLen := StepDown(bitBuf, temp, codeLen);
        while temp < 0 && numBits >= codeLen + 1
          invariant FAST_BITS < codeLen <= MAX_LEN && codeLen <= numBits && OnWalk(look, slots, nodes, bitBuf, temp, codeLen)
          decreases MAX_LEN - codeLen, if temp < 0 then 1 else 0
        {
          temp, codeLen := StepDown(bitBuf, temp, codeLen);
        }
        if temp >= 0 { return true, temp, codeLen; }
        NotYet(look, slots, nodes, lens, bitBuf, temp, codeLen);
        NodeOnWay(look, slots, nodes, lens, Lsb(bitBuf, codeLen));
        StillOnWay(lens, Lsb(bitBuf, numBits));
      } else {
        NotYet(look, slots, nodes, lens, bitBuf, temp, FAST_BITS);
        NoStrayFast(look, slots, nodes, lens, bitBuf, numBits);
      }
    }

    /** Sets every index that starts with the reversed code `rev`. */
    method FillShort(rev: nat, size: nat, sym: nat)
      requires Shape() && 1 <= size <= FAST_BITS && rev < Pow2(size)
      modifies lookUp
      ensures forall i :: 0 <= i < FAST_SIZE ==>
                lookUp[i] == if StartsAt(i, Pow2(size), rev) then 512 * size + sym else old(lookUp[i])
    {
      hide StartsAt, Pow2;
      var k := 512 * size + sym;
      var i, step := rev, Pow2(size);
      ghost var m := 0;
      NoneBefore(rev, step);
      while i < FAST_SIZE
        invariant i == rev + m * step && m >= 0
        invariant forall j :: 0 <= j < FAST_SIZE ==>
                    lookUp[j] == if j < i && StartsAt(j, step, rev) then k else old(lookUp[j])
      {
        NextIndex(i, rev, step, m);
        lookUp[i] := k;
        i := i + step;
        m := m + 1;
      }
    }

    /** One bit further on the way of a long code, to a node that is there or a new one. */
    method StepInto(rev: nat, size: nat, sym: nat, treeCur0: int, treeNext0: int, ghost rev0: nat, ghost d: nat) returns (treeCur: int, treeNext: int)
      requires Shape() && TableInv(lookUp[..], tree[..], nodes, lens, sym) && Accepted(lens)
      requires Used(lens, sym) && lens[sym] == size && Lsb(rev0, size) == Code(lens, sym) && rev == Shr(rev0, d) && d + 1 < size
      requires treeNext0 == NodeRef(|nodes|) && OnNode(nodes, lens, sym, d, treeCur0)
      modifies this`nodes, tree
      ensures TableInv(lookUp[..], tree[..], nodes, lens, sym) && treeNext == NodeRef(|nodes|) && OnNode(nodes, lens, sym, d + 1, treeCur)
    {
      hide TableInv, Sized, Code, Lsb, Entry, HasSlot, Used, Accepted, Pow2, Shr, Val;
      ghost var q := BitSlot(lookUp[..], tree[..], nodes, lens, sym, d, treeCur0, rev0, size);
      var slot := -(treeCur0 - rev % 2) - 1;
      if tree[slot] == 0 {
        NewInner(lookUp[..], tree[..], nodes, lens, sym, q);
        ghost var t := tree[..];
        tree[slot] := treeNext0;
        assert tree[..] == t[slot := treeNext0];
        nodes := nodes[q := |nodes|];
        treeCur, treeNext := treeNext0, treeNext0 - 2;
      } else {
        treeCur, treeNext := tree[slot], treeNext0;
      }
    }

    /** Hangs a long code into the tree, making the nodes that are missing on its way. */
    method InsertLong(rev0: nat, size: nat, sym: nat, treeNext0: int) returns (treeNext: int)
      requires Shape() && TableInv(lookUp[..], tree[..], nodes, lens, sym) && Accepted(lens)
      requires Used(lens, sym) && lens[sym] == size > FAST_BITS && Lsb(rev0, size) == Code(lens, sym)
      requires treeNext0 == NodeRef(|nodes|)
      modifies this`nodes, lookUp, tree
      ensures TableInv(lookUp[..], tree[..], nodes, lens, sym + 1) && treeNext == NodeRef(|nodes|)
    {
      hide TableInv, Sized, Code, Lsb, Entry, HasSlot, Used, Accepted, Pow2, Shr, Val;
      treeNext := treeNext0;
      var idx := rev0 % FAST_SIZE;
      ghost var p := RootSlot(lookUp[..], tree[..], nodes, lens, sym, rev0, size);
      var treeCur := lookUp[idx];
      if treeCur == 0 {
        NewRoot(lookUp[..], tree[..], nodes, lens, sym, p);
        ghost var look := lookUp[..];
        lookUp[idx] := treeNext;
        assert lookUp[..] == look[idx := treeNext];
        treeCur := treeNext;
        nodes := nodes[p := |nodes|];
        treeNext := treeNext - 2;
      }
      var j, rev := size, rev0 / 512;
      ShrNine(rev0);
      while j > FAST_BITS + 1
        invariant FAST_BITS < j <= size && rev == Shr(rev0, FAST_BITS - 1 + size - j)
        invariant TableInv(lookUp[..], tree[..], nodes, lens, sym) && treeNext == NodeRef(|nodes|)
        invariant OnNode(nodes, lens, sym, FAST_BITS + size - j, treeCur)
      {
        ShrStep(rev0, FAST_BITS + size - j - 1);
        rev := rev / 2;
        treeCur, treeNext := StepInto(rev, size, sym, treeCur, treeNext, rev0, FAST_BITS + size - j);
        j := j - 1;
      }
      ghost var q := BitSlot(lookUp[..], tree[..], nodes, lens, sym, size - 1, treeCur, rev0, size);
      ShrStep(rev0, size - 2);
      rev := rev / 2;
      treeCur := treeCur - rev % 2;
      ghost var t := tree[..];
      NewLeaf(lookUp[..], t, nodes, lens, sym, q);
      tree[-treeCur - 1] := sym;
      assert tree[..] == t[-treeCur - 1 := sym];
    }

    /** The source's test of the length counts: a code that is not complete is refused, unless it has
        at most one symbol. `next` gets the first code of each length. */
    method CheckLengths(size: nat) returns (ok: bool, next: array<nat>)
      requires Shape() && size <= HT.MAX_SYMBOLS && ValidLens(codeSize[..size])
      ensures fresh(next) && next.Length == 17
      ensures ok <==> Accepted(codeSize[..size])
      ensures forall l :: 1 <= l <= MAX_LEN ==> next[l] == First(codeSize[..size], l)
    {
      ghost var lens := codeSize[..size];
      var totalSyms := new nat[16](_ => 0);
      var i := 0;
      while i < size
        invariant 0 <= i <= size
        invariant forall l :: 0 <= l <= MAX_LEN ==> totalSyms[l] == Count(lens[..i], l)
      {
        assert lens[..i + 1][..i] == lens[..i] && lens[i] == codeSize[i];
        totalSyms[codeSize[i]] := totalSyms[codeSize[i]] + 1;
        i := i + 1;
      }
      assert lens[..size] == lens;
      next := new nat[17](_ => 0);
      var usedSyms, total := 0, 0;
      i := 1;
      while i <= 15
        invariant 1 <= i <= 16 && total == First(lens, i) && usedSyms == CountTo(lens, i - 1)
        invariant forall l :: 1 <= l <= i ==> next[l] == First(lens, l)
        invariant forall l :: 0 <= l <= MAX_LEN ==> totalSyms[l] == Count(lens, l)
      {
        FirstStep(lens, i);
        usedSyms := usedSyms + totalSyms[i];
        total := (total + totalSyms[i]) * 2;
        next[i + 1] := total;
        i := i + 1;
      }
      ok := !(total != 65536 && usedSyms > 1);
      AcceptedTest(lens);
    }

    /** Builds the table for the first `size` code sizes. */
    method Build(size: nat) returns (ok: bool)
      requires Shape() && size <= HT.MAX_SYMBOLS && ValidLens(codeSize[..size])
      modifies this, lookUp, tree
      ensures ok <==> Accepted(codeSize[..size])
      ensures ok ==> Valid() && lens == codeSize[..size]
    {
      forall k | 0 <= k < FAST_SIZE { lookUp[k] := 0; }
      forall k | 0 <= k < TREE_SIZE { tree[k] := 0; }
      var next;
      ok, next := CheckLengths(size);
      if !ok { return; }
      nodes, lens := map[], codeSize[..size];
      EmptyTable(lookUp[..], tree[..], lens);
      InsertAll(size, next);
    }

    method InsertAll(size: nat, next: array<nat>)
      requires Shape() && size == |lens| <= HT.MAX_SYMBOLS && lens == codeSize[..size] && Accepted(lens) && nodes == map[]
      requires TableInv(lookUp[..], tree[..], nodes, lens, 0)
      requires next.Length == 17 && forall l :: 1 <= l <= MAX_LEN ==> next[l] == First(lens, l)
      requires next as object != codeSize && next as object != lookUp && next as object != tree
      modifies this`nodes, lookUp, tree, next
      ensures Valid()
    {
      hide TableInv, Sized, Accepted, First, Count, Code, NodeRef, Pow2, CodeVal;
      AcceptedFacts(lens);
      var treeNext, symIndex := -1, 0;
      CountNone(lens);
      assert NodeRef(0) == -1 by { FirstRef(); }
      while symIndex < size
        invariant 0 <= symIndex <= size && size == |lens| && codeSize[..size] == lens == old(lens)
        invariant TableInv(lookUp[..], tree[..], nodes, lens, symIndex) && treeNext == NodeRef(|nodes|)
        invariant forall l :: 1 <= l <= MAX_LEN ==> next[l] == First(lens, l) + Count(lens[..symIndex], l)
      {
        var size' := codeSize[symIndex];
        assert size' == lens[symIndex];
        CountOne(lens, symIndex);
        if size' == 0 {
          AddUnused(lookUp[..], tree[..], nodes, lens, symIndex);
        } else {
          var code := next[size'];
          next[size'] := next[size'] + 1;
          CodeFacts(lens, symIndex);
          var rev := HT.ReverseCode(code, size');
          if size' <= FAST_BITS {
            ghost var look := lookUp[..];
            FillShort(rev, size', symIndex);
            FillGivesFilled(look, lookUp[..], lens, symIndex, rev);
            AddShort(look, tree[..], nodes, lens, symIndex, lookUp[..]);
          } else {
            treeNext := InsertLong(rev, size', symIndex, treeNext);
          }
        }
        symIndex := symIndex + 1;
      }
    }
  }

  lemma FirstRef()
    ensures NodeRef(0) == -1
  {
  }

  lemma AcceptedFacts(lens: seq<nat>)
    requires Accepted(lens)
    ensures ValidLens(lens) && NotOver(lens) && |lens| <= HT.MAX_SYMBOLS
  {
  }

  lemma CountNone(lens: seq<nat>)
    ensures forall l :: 0 <= l ==> Count(lens[..0], l) == 0
  {
  }

  lemma FirstStep(lens: seq<nat>, l: nat)
    requires l >= 1
    ensures First(lens, l + 1) == 2 * (First(lens, l) + Count(lens, l))
  {
  }

  lemma CountOne(lens: seq<nat>, i: nat)
    requires i < |lens|
    ensures forall l :: 0 <= l ==> Count(lens[..i + 1], l) == Count(lens[..i], l) + (if lens[i] == l then 1 else 0)
  {
    assert lens[..i + 1][..i] == lens[..i];
  }

  lemma CodeFacts(lens: seq<nat>, s: nat)
    requires ValidLens(lens) && NotOver(lens) && Used(lens, s)
    ensures CodeVal(lens, s) == First(lens, lens[s]) + Count(lens[..s], lens[s]) < Pow2(lens[s])
    ensures Code(lens, s) == Msb(CodeVal(lens, s), lens[s])
  {
    CodeBound(lens, s);
  }

  lemma EmptyTable(look: seq<int>, tree: seq<int>, lens: seq<nat>)
    requires |look| == FAST_SIZE && |tree| == TREE_SIZE && Accepted(lens)
    requires (forall k :: 0 <= k < FAST_SIZE ==> look[k] == 0) && (forall k :: 0 <= k < TREE_SIZE ==> tree[k] == 0)
    ensures TableInv(look, tree, map[], lens, 0)
  {
    var none: Nodes := map[];
    assert Sized(look, tree, none);
    forall p: Bitstring | HasSlot(none, p)
      ensures Entry(look, tree, none, p) == 0
    {
      SlotInRange(look, tree, none, p);
    }
  }

  lemma FillGivesFilled(look: seq<int>, look': seq<int>, lens: seq<nat>, s: nat, rev: nat)
    requires |look| == |look'| == FAST_SIZE && Used(lens, s) && lens[s] <= FAST_BITS
    requires rev < Pow2(lens[s]) && Lsb(rev, lens[s]) == Code(lens, s)
    requires forall i :: 0 <= i < FAST_SIZE ==> look'[i] == if StartsAt(i, Pow2(lens[s]), rev) then 512 * lens[s] + s else look[i]
    ensures Filled(look, look', lens, s)
  {
    forall q: Bitstring | |q| == FAST_BITS
      ensures Val(q) < FAST_SIZE && look'[Val(q)] == if Code(lens, s) <= q then 512 * lens[s] + s else look[Val(q)]
    {
      IndexStarts(q, rev, lens[s]);
    }
  }

  // ---------- which length vectors are accepted

  function CountTo(lens: seq<nat>, l: nat): nat {
    if l == 0 then 0 else CountTo(lens, l - 1) + Count(lens, l)
  }

  lemma {:induction false} CountToSnoc(lens: seq<nat>, l: nat)
    requires lens != []
    ensures var x := lens[|lens| - 1];
            CountTo(lens, l) == CountTo(lens[..|lens| - 1], l) + (if 1 <= x <= l then 1 else 0)
  {
    if l > 0 {
      CountToSnoc(lens, l - 1);
    }
  }

  lemma {:induction false} CountToEmpty(l: nat)
    ensures CountTo([], l) == 0
  {
    if l > 0 {
      CountToEmpty(l - 1);
    }
  }

  /** At most one used symbol, counted and said of pairs. */
  lemma {:induction false} FewUsed(lens: seq<nat>)
    requires ValidLens(lens)
    ensures CountTo(lens, MAX_LEN) == 0 <==> forall i :: 0 <= i < |lens| ==> lens[i] == 0
    ensures CountTo(lens, MAX_LEN) <= 1 <==>
            AtMostOneUsed(lens)
  {
    if lens == [] {
      CountToEmpty(MAX_LEN);
    } else {
      var n := |lens| - 1;
      var init := lens[..n];
      FewUsed(init);
      CountToSnoc(lens, MAX_LEN);
      assert forall i :: 0 <= i < n ==> init[i] == lens[i];
    }
  }

  lemma {:induction false} FewFit(lens: seq<nat>, l: nat)
    requires CountTo(lens, l) <= 1
    ensures CountTo(lens, l) == 0 ==> Next(lens, l) == 0
    ensures Next(lens, l) <= Pow2(l)
  {
    if l > 0 {
      FewFit(lens, l - 1);
    }
  }

  lemma AcceptedTest(lens: seq<nat>)
    requires ValidLens(lens) && |lens| <= HT.MAX_SYMBOLS
    ensures Accepted(lens) <==> First(lens, 16) == 65536 || CountTo(lens, 15) <= 1
  {
    FewUsed(lens);
    Pow2Of15();
    if CountTo(lens, 15) <= 1 {
      FewFit(lens, 15);
    }
  }

  lemma ShrNine(v: nat)
    ensures v / 512 == Shr(v, FAST_BITS - 1)
  {
    ShrDiv(v, 9);
    assert Pow2(9) == 512 by { assert Pow2(5) == 32; }
  }

  /** The first slot on the way of a long code. */
  lemma RootSlot(look: seq<int>, tree: seq<int>, nodes: Nodes, lens: seq<nat>, s: nat, rev: nat, size: nat) returns (p: Bitstring)
    requires TableInv(look, tree, nodes, lens, s) && Used(lens, s) && lens[s] == size > FAST_BITS
    requires Lsb(rev, size) == Code(lens, s)
    ensures |p| == FAST_BITS < lens[s] && p == Code(lens, s)[..FAST_BITS] && HasSlot(nodes, p)
    ensures Sized(look, tree, nodes) && Val(p) == rev % FAST_SIZE < |look| && Entry(look, tree, nodes, p) == look[rev % FAST_SIZE]
    ensures look[rev % FAST_SIZE] != 0 ==> OnNode(nodes, lens, s, FAST_BITS, look[rev % FAST_SIZE])
  {
    p := Code(lens, s)[..FAST_BITS];
    LsbPrefix(rev, size, FAST_BITS);
    LowTen(rev);
    SlotOnWay(look, tree, nodes, lens, s, s, FAST_BITS);
  }

  lemma CodeShort(lens: seq<nat>, s: nat)
    requires ValidLens(lens) && Used(lens, s)
    ensures |Code(lens, s)| == lens[s] <= MAX_LEN
  {
  }

  /** The slot that the next bit of a long code leads to. */
  lemma BitSlot(look: seq<int>, tree: seq<int>, nodes: Nodes, lens: seq<nat>, s: nat, d: nat, treeCur: int, rev: nat, size: nat)
    returns (q: Bitstring)
    requires TableInv(look, tree, nodes, lens, s) && OnNode(nodes, lens, s, d, treeCur) && lens[s] == size
    requires Lsb(rev, size) == Code(lens, s)
    ensures |q| == d + 1 <= lens[s] && q == Code(lens, s)[..d + 1] && HasSlot(nodes, q) && |q| > FAST_BITS
    ensures Sized(look, tree, nodes)
    ensures var slot := -(treeCur - Shr(rev, d) % 2) - 1;
            slot == TreeSlot(nodes, q) < |tree| && Entry(look, tree, nodes, q) == tree[slot] &&
            (d + 1 < size && tree[slot] != 0 ==> OnNode(nodes, lens, s, d + 1, tree[slot]))
  {
    hide Lsb, Code, NodesLinked, LongCodes, ShortCodes, OnlyTaken, NodesNeeded, Rooted, Distinct, Shr;
    var c := Code(lens, s);
    CodeShort(lens, s);
    q := c[..d + 1];
    assert q[..d] == c[..d];
    LsbBit(rev, size, d);
    SlotInRange(look, tree, nodes, q);
    if d + 1 < size {
      SlotOnWay(look, tree, nodes, lens, s, s, d + 1);
    }
  }

  lemma NewNode(look: seq<int>, tree: seq<int>, nodes: Nodes, lens: seq<nat>, s: nat, p: Bitstring, look': seq<int>, tree': seq<int>)
    requires TableInv(look, tree, nodes, lens, s) && Accepted(lens) && Used(lens, s)
    requires FAST_BITS <= |p| < lens[s] && p == Code(lens, s)[..|p|] && HasSlot(nodes, p) && Entry(look, tree, nodes, p) == 0
    requires Put(look, tree, nodes, p, NodeRef(|nodes|), look', tree')
    ensures TableInv(look', tree', nodes[p := |nodes|], lens, s) && |nodes[p := |nodes|]| == |nodes| + 1
    ensures OnNode(nodes[p := |nodes|], lens, s, |p|, NodeRef(|nodes|))
  {
    hide NodesLinked, LongCodes, ShortCodes, OnlyTaken, NodesNeeded, Distinct, Entry, Put;
    NodesFit(nodes, lens);
    EmptySlot(look, tree, nodes, lens, s, p);
    AddNode(look, tree, nodes, lens, s, p, s, look', tree');
  }

  lemma NewRoot(look: seq<int>, tree: seq<int>, nodes: Nodes, lens: seq<nat>, s: nat, p: Bitstring)
    requires TableInv(look, tree, nodes, lens, s) && Accepted(lens) && Used(lens, s)
    requires |p| == FAST_BITS < lens[s] && p == Code(lens, s)[..|p|] && HasSlot(nodes, p) && Entry(look, tree, nodes, p) == 0
    ensures Val(p) < |look|
    ensures TableInv(look[Val(p) := NodeRef(|nodes|)], tree, nodes[p := |nodes|], lens, s)
    ensures |nodes[p := |nodes|]| == |nodes| + 1 && OnNode(nodes[p := |nodes|], lens, s, FAST_BITS, NodeRef(|nodes|))
  {
    hide NodesLinked, LongCodes, ShortCodes, OnlyTaken, NodesNeeded, Rooted, Distinct, Entry, OnNode;
    SlotInRange(look, tree, nodes, p);
    NewNode(look, tree, nodes, lens, s, p, look[Val(p) := NodeRef(|nodes|)], tree);
  }

  lemma NewInner(look: seq<int>, tree: seq<int>, nodes: Nodes, lens: seq<nat>, s: nat, p: Bitstring)
    requires TableInv(look, tree, nodes, lens, s) && Accepted(lens) && Used(lens, s)
    requires FAST_BITS < |p| < lens[s] && p == Code(lens, s)[..|p|] && HasSlot(nodes, p) && Entry(look, tree, nodes, p) == 0
    ensures TreeSlot(nodes, p) < |tree|
    ensures TableInv(look, tree[TreeSlot(nodes, p) := NodeRef(|nodes|)], nodes[p := |nodes|], lens, s)
    ensures |nodes[p := |nodes|]| == |nodes| + 1 && OnNode(nodes[p := |nodes|], lens, s, |p|, NodeRef(|nodes|))
  {
    hide NodesLinked, LongCodes, ShortCodes, OnlyTaken, NodesNeeded, Rooted, Distinct, Entry, OnNode;
    SlotInRange(look, tree, nodes, p);
    NewNode(look, tree, nodes, lens, s, p, look, tree[TreeSlot(nodes, p) := NodeRef(|nodes|)]);
  }

  lemma NewLeaf(look: seq<int>, tree: seq<int>, nodes: Nodes, lens: seq<nat>, s: nat, c: Bitstring)
    requires TableInv(look, tree, nodes, lens, s) && Used(lens, s) && lens[s] > FAST_BITS
    requires |c| == lens[s] && c == Code(lens, s)[..lens[s]] && HasSlot(nodes, c)
    ensures TreeSlot(nodes, c) < |tree|
    ensures TableInv(look, tree[TreeSlot(nodes, c) := s], nodes, lens, s + 1)
  {
    hide NodesLinked, LongCodes, ShortCodes, OnlyTaken, NodesNeeded, Rooted, Distinct, Entry;
    assert c == Code(lens, s);
    SlotInRange(look, tree, nodes, c);
    AddLong(look, tree, nodes, lens, s, look, tree[TreeSlot(nodes, c) := s]);
  }

  ghost predicate OnNode(nodes: Nodes, lens: seq<nat>, s: nat, d: nat, treeCur: int)
  {
    Used(lens, s) && FAST_BITS <= d < lens[s] && Code(lens, s)[..d] in nodes && treeCur == NodeRef(nodes[Code(lens, s)[..d]])
  }

  /** The low bits of a table index are the reversed code. */
  predicate StartsAt(i: nat, step: nat, rev: nat)
    requires step > 0
  {
    i % step == rev
  }

  lemma NextIndex(i: nat, rev: nat, step: nat, m: nat)
    requires rev < step && i == rev + m * step
    ensures StartsAt(i, step, rev)
    ensures forall j :: i < j < i + step ==> !StartsAt(j, step, rev)
    ensures i + step == rev + (m + 1) * step
  {
    DivUnique(i, step, m, rev);
    forall j | i < j < i + step
      ensures j % step != rev
    {
      var r := rev + (j - i);
      if r < step {
        DivUnique(j, step, m, r);
      } else {
        DivUnique(j, step, m + 1, r - step);
      }
    }
  }

  /** No index before the reversed code itself. */
  lemma NoneBefore(rev: nat, step: nat)
    requires rev < step
    ensures forall j: nat :: j < rev ==> !StartsAt(j, step, rev)
  {
    forall j: nat | j < rev ensures !StartsAt(j, step, rev) { DivUnique(j, step, 0, j); }
  }

  lemma NextSlot(look: seq<int>, tree: seq<int>, nodes: Nodes, bitBuf: nat, len: nat) returns (q: Bitstring)
    requires Sized(look, tree, nodes) && FAST_BITS <= len < MAX_LEN && Lsb(bitBuf, len) in nodes
    ensures q == Lsb(bitBuf, len + 1) && HasSlot(nodes, q)
    ensures var k := nodes[Lsb(bitBuf, len)];
            2 * k + Shr(bitBuf, len) % 2 < TREE_SIZE && Entry(look, tree, nodes, q) == tree[2 * k + Shr(bitBuf, len) % 2]
  {
    hide Rooted, Distinct, Lsb, Shr;
    q := Lsb(bitBuf, len + 1);
    LsbPrefix(bitBuf, len + 1, len);
    LsbBit(bitBuf, len + 1, len);
    SlotInRange(look, tree, nodes, q);
  }
}
