/** What the match finder finds in the source, when all of its positions are in the chains. */
module ChainSearch {
  import opened Bits
  import opened SymFreqs
  import opened Tokens
  import opened Window
  import opened MatchFinder
  import opened HashChains

  /** The i latest positions that hash like `p` are in the window, and none of them ends the chain because its number
      is 0 in 16 bits. */
  ghost predicate Within(source: seq<Byte>, base: nat, p: nat, maxDist: nat, i: nat)
    requires base <= p && p + 2 < |source|
  {
    forall j :: 1 <= j <= i ==> InReach(source, base, p, maxDist, j)
  }

  ghost predicate InReach(source: seq<Byte>, base: nat, p: nat, maxDist: nat, j: nat)
    requires base <= p && p + 2 < |source|
  {
    var y := Earlier(source, base, p, j);
    y != -1 && p - y <= maxDist && y % 65536 != 0
  }

  /** A search at the position `p` of the source, whose dictionary and chains hold what they should. */
  ghost predicate Placed(q: Query, hash: seq<Word16>, first: Chains, source: seq<Byte>, base: nat, p: nat) {
    && ValidQuery(q) && Win(q.dict, source) && AllIn(Chains(q.next, hash), first, source, base, |source|)
    && base <= p && p + 2 < |source| && q.lookaheadPos == Wrap32(p) && q.maxDist + q.maxLen <= LZ_DICT_SIZE
    && |source| == p + q.maxLen
  }

  lemma {:induction false} EarlierDown(source: seq<Byte>, base: nat, p: nat, i: nat)
    requires base <= p && p + 2 < |source| && i > 0 && Earlier(source, base, p, i) != -1
    ensures Earlier(source, base, p, i - 1) != -1 && Earlier(source, base, p, i) < Earlier(source, base, p, i - 1)
  {
    hide HashAt;
  }

  /** The position of a chain entry, 16 bits of it. */
  lemma EntryBack(p: nat, y: nat)
    requires y <= p <= y + LZ_DICT_SIZE
    ensures Distance(Wrap32(p), y % 65536) == p - y && y % 65536 % LZ_DICT_SIZE == y % LZ_DICT_SIZE
  {
    var r := p % MAX_WORD32;
    assert r + 65536 - y % 65536 == p - y + 65536 * (y / 65536 + 1 - 65536 * (p / MAX_WORD32));
    SlotIs(y % 65536, y % 65536 / LZ_DICT_SIZE, y % 65536 % LZ_DICT_SIZE);
    SlotIs(y, 2 * (y / 65536) + y % 65536 / LZ_DICT_SIZE, y % 65536 % LZ_DICT_SIZE);
  }

  /** The chain of a position leads to the positions before it that hash alike, the latest first. */
  lemma {:induction false} OnChain(q: Query, hash: seq<Word16>, first: Chains, source: seq<Byte>, base: nat, p: nat, i: nat)
    requires Placed(q, hash, first, source, base, p) && Within(source, base, p, q.maxDist, i)
    ensures Earlier(source, base, p, i) != -1 && p - Earlier(source, base, p, i) <= q.maxDist
    ensures Link(q, i) == Earlier(source, base, p, i) % LZ_DICT_SIZE
    ensures i > 0 ==> Entry(q, i - 1) % LZ_DICT_SIZE == Earlier(source, base, p, i) % LZ_DICT_SIZE && Going(q, i - 1)
  {
    hide HashAt, Win, Distance, Latest;
    if i == 0 {
      SlotOf(p);
    } else {
      assert Within(source, base, p, q.maxDist, i - 1);
      OnChain(q, hash, first, source, base, p, i - 1);
      assert InReach(source, base, p, q.maxDist, i);
      EarlierDown(source, base, p, i);
      var x, y := Earlier(source, base, p, i - 1), Earlier(source, base, p, i);
      assert Entry(q, i - 1) == q.next[x % LZ_DICT_SIZE];
      assert Entry(q, i - 1) == y % 65536;
      EntryBack(p, y);
    }
  }

  /** What agrees in the dictionary agrees in the source, as far as the lookahead goes. */
  lemma {:induction false} CommonIs(dict: seq<Byte>, source: seq<Byte>, p: nat, y: nat, k: nat, max: nat)
    requires Win(dict, source) && |dict| == DICT_LENGTH && y <= p && p + k + max == |source| <= y + LZ_DICT_SIZE && k + max <= MAX_MATCH_LEN
    ensures Common(dict, p % LZ_DICT_SIZE + k, y % LZ_DICT_SIZE + k, max) == Common(source, p + k, y + k, max)
    decreases max
  {
    hide Win;
    if max > 0 {
      WinAt(dict, source, p, k);
      WinAt(dict, source, y, k);
      CommonIs(dict, source, p, y, k + 1, max - 1);
    }
  }

  lemma ReachedTo(q: Query, hash: seq<Word16>, first: Chains, source: seq<Byte>, base: nat, p: nat, i: nat)
    requires Placed(q, hash, first, source, base, p) && 1 <= i && Within(source, base, p, q.maxDist, i)
    ensures Reached(q, i - 1)
  {
    hide HashAt, Win, Earlier, Going, Link, Entry;
    forall j | 0 <= j <= i - 1 ensures Going(q, j) {
      assert Within(source, base, p, q.maxDist, j + 1);
      OnChain(q, hash, first, source, base, p, j + 1);
    }
  }

  /** If the i-th of the latest positions is in reach, it agrees with `p` in `len` bytes at most. */
  ghost predicate NoLonger(source: seq<Byte>, base: nat, p: nat, maxDist: nat, i: nat, len: nat)
    requires base <= p && p + 2 < |source|
  {
    Within(source, base, p, maxDist, i) ==>
      var y := Earlier(source, base, p, i);
      base <= y < p && Common(source, p, y, |source| - p) <= len
  }

  /** The search compares the position with the latest `probes - 1` of those that hash alike and are in reach:
      none of them agrees with it any further than what is found. */
  lemma SearchReaches(q: Query, hash: seq<Word16>, first: Chains, source: seq<Byte>, base: nat, p: nat, best: Best, probes: nat, i: nat)
    requires Placed(q, hash, first, source, base, p) && 1 <= best.len && 1 <= i < probes
    ensures NoLonger(source, base, p, q.maxDist, i, FindBest(q, best, probes).len)
  {
    hide HashAt, Win, Earlier, Going, FindBest, Common, Link, Entry, Within, Reached, AllIn;
    FindLongest(q, best, probes);
    if Within(source, base, p, q.maxDist, i) {
      ReachedTo(q, hash, first, source, base, p, i);
      OnChain(q, hash, first, source, base, p, i);
      EarlierBefore(source, base, p, i);
      SlotOf(p);
      CommonIs(q.dict, source, p, Earlier(source, base, p, i), 0, q.maxLen);
    }
  }

  lemma {:induction false} EarlierBefore(source: seq<Byte>, base: nat, p: nat, i: nat)
    requires base <= p && p + 2 < |source| && i > 0 && Earlier(source, base, p, i) != -1
    ensures Earlier(source, base, p, i) < p
  {
    EarlierDown(source, base, p, i);
    if i > 1 { EarlierBefore(source, base, p, i - 1); }
  }
}
