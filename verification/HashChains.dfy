/** The hash chains of `tdefl_compress_normal`: every position of the source goes into the chain of its first
    three bytes. */
module HashChains {
  import opened Bits
  import opened SymFreqs
  import opened Tokens
  import opened Window

  const HASH_SIZE := 32768

  // ---------- hashing

  function Wide(c: Byte): bv32 { c as bv32 }

  /** `((hash << TDEFL_LZ_HASH_SHIFT) ^ c) & (TDEFL_LZ_HASH_SIZE - 1)`. */
  function NextHash(hash: bv32, c: Byte): (r: bv32)
    ensures r < 0x8000
  {
    ((hash << 5) ^ Wide(c)) & 0x7FFF
  }

  /** The hash of the two bytes before the ones to come. */
  function FirstHash(a: Byte, b: Byte): bv32 { (Wide(a) << 5) ^ Wide(b) }

  /** The hash of three bytes at the start of a stream. */
  function TrigramHash(a: Byte, b: Byte, c: Byte): (r: bv32)
    ensures r < 0x8000
  {
    ((Wide(a) << 10) ^ (Wide(b) << 5) ^ Wide(c)) & 0x7FFF
  }

  function Index(h: bv32): (i: nat)
    requires h < 0x8000
    ensures i < HASH_SIZE
  {
    h as nat
  }

  /** Rolling the hash on by a byte is hashing the last three bytes: five bits a byte, fifteen in all. */
  lemma Roll(a: Byte, b: Byte, c: Byte, d: Byte)
    ensures NextHash(FirstHash(a, b), c) == TrigramHash(a, b, c)
    ensures NextHash(TrigramHash(a, b, c), d) == TrigramHash(b, c, d)
  {
    hide Wide;
    RollBits(Wide(a), Wide(b), Wide(c), Wide(d));
  }

  lemma RollBits(a: bv32, b: bv32, c: bv32, d: bv32)
    ensures ((((a << 5) ^ b) << 5) ^ c) & 0x7FFF == ((a << 10) ^ (b << 5) ^ c) & 0x7FFF
    ensures (((((a << 10) ^ (b << 5) ^ c) & 0x7FFF) << 5) ^ d) & 0x7FFF == ((b << 10) ^ (c << 5) ^ d) & 0x7FFF
  {
  }

  // ---------- the chains

  /** `m_next` and `m_hash`. */
  datatype Chains = Chains(next: seq<Word16>, hash: seq<Word16>)

  predicate ValidChains(c: Chains) { |c.next| == LZ_DICT_SIZE && |c.hash| == HASH_SIZE }

  function EmptyChains(): (c: Chains)
    ensures ValidChains(c)
  {
    Chains(seq(LZ_DICT_SIZE, _ => 0), seq(HASH_SIZE, _ => 0))
  }

  /** The position `i` goes to the head of the chain of the three bytes that start there. */
  function Inserted(c: Chains, source: seq<Byte>, i: nat): (r: Chains)
    requires ValidChains(c) && i + 2 < |source|
    ensures ValidChains(r)
  {
    var h := Index(TrigramHash(source[i], source[i + 1], source[i + 2]));
    Chains(c.next[i % LZ_DICT_SIZE := c.hash[h]], c.hash[h := i % 65536])
  }

  /** The positions from `lo` on whose three bytes end in source[start..end] go in, one after the other. */
  function Hashed(c: Chains, source: seq<Byte>, lo: nat, start: nat, end: nat): (r: Chains)
    requires ValidChains(c) && start <= end <= |source|
    ensures ValidChains(r)
    decreases end
  {
    if start == end then c
    else if end >= lo + 3 then Inserted(Hashed(c, source, lo, start, end - 1), source, end - 3)
    else Hashed(c, source, lo, start, end - 1)
  }

  lemma {:induction false} HashedLater(c: Chains, source: seq<Byte>, more: seq<Byte>, lo: nat, start: nat, end: nat)
    requires ValidChains(c) && start <= end <= |source|
    ensures Hashed(c, source + more, lo, start, end) == Hashed(c, source, lo, start, end)
    decreases end
  {
    hide TrigramHash, Index;
    if start < end {
      HashedLater(c, source, more, lo, start, end - 1);
    }
  }

  /** One byte more of the source. */
  lemma HashedByte(c: Chains, source: seq<Byte>, b: Byte, lo: nat, start: nat)
    requires ValidChains(c) && start <= |source|
    ensures var all := source + [b];
            Hashed(c, all, lo, start, |all|) ==
            if |all| >= lo + 3 then Inserted(Hashed(c, source, lo, start, |source|), all, |all| - 3) else Hashed(c, source, lo, start, |source|)
  {
    hide TrigramHash, Index, Inserted;
    HashedLater(c, source, [b], lo, start, |source|);
  }

  // ---------- what the chains hold

  function HashAt(source: seq<Byte>, x: nat): (h: nat)
    requires x + 2 < |source|
    ensures h < HASH_SIZE
  {
    Index(TrigramHash(source[x], source[x + 1], source[x + 2]))
  }

  /** The latest position in base..x with the hash `h`, or -1. */
  function Latest(source: seq<Byte>, base: nat, x: nat, h: nat): (y: int)
    requires x + 2 <= |source|
    ensures y == -1 || (base <= y < x && HashAt(source, y) == h)
    decreases x
  {
    if x <= base then -1 else if HashAt(source, x - 1) == h then x - 1 else Latest(source, base, x - 1, h)
  }

  /** None of the positions behind it has that hash. */
  lemma {:induction false} NoneLater(source: seq<Byte>, base: nat, x: nat, h: nat, z: nat)
    requires x + 2 <= |source| && base <= z < x && z > Latest(source, base, x, h)
    ensures HashAt(source, z) != h
    decreases x
  {
    hide HashAt;
    if z < x - 1 { NoneLater(source, base, x - 1, h, z); }
  }

  /** The entry for the latest position `y`; where there is none, it is as it was at first. */
  function EntryFor(first: Chains, h: nat, y: int): Word16
    requires ValidChains(first) && h < HASH_SIZE && y >= -1
  {
    if y == -1 then first.hash[h] else y % 65536
  }

  /** The positions base..m are in: each chain starts at the latest of its hash, and each position of the last 32768
      leads to the latest one before it. */
  ghost predicate Holding(c: Chains, first: Chains, source: seq<Byte>, base: nat, m: nat) {
    && ValidChains(c) && ValidChains(first) && m + 2 <= |source|
    && (forall h :: 0 <= h < HASH_SIZE ==> c.hash[h] == EntryFor(first, h, Latest(source, base, m, h)))
    && (forall x :: base <= x < m <= x + LZ_DICT_SIZE ==>
          c.next[x % LZ_DICT_SIZE] == EntryFor(first, HashAt(source, x), Latest(source, base, x, HashAt(source, x))))
  }

  lemma LatestOn(source: seq<Byte>, base: nat, m: nat, h: nat)
    requires base <= m && m + 2 < |source|
    ensures Latest(source, base, m + 1, h) == if HashAt(source, m) == h then m else Latest(source, base, m, h)
  {
    hide HashAt;
  }

  lemma EntryIs(first: Chains, h: nat, y: nat)
    requires ValidChains(first) && h < HASH_SIZE
    ensures EntryFor(first, h, y) == y % 65536
  {
  }

  /** One position more. */
  lemma HoldingOn(c: Chains, first: Chains, source: seq<Byte>, base: nat, m: nat)
    requires Holding(c, first, source, base, m) && base <= m && m + 2 < |source|
    ensures Holding(Inserted(c, source, m), first, source, base, m + 1)
  {
    hide HashAt, EntryFor, Latest, Inserted;
    var r := Inserted(c, source, m);
    InsertedAt(c, source, m);
    forall h | 0 <= h < HASH_SIZE ensures r.hash[h] == EntryFor(first, h, Latest(source, base, m + 1, h)) {
      LatestOn(source, base, m, h);
      EntryIs(first, h, m);
    }
    forall x | base <= x < m + 1 <= x + LZ_DICT_SIZE
      ensures r.next[x % LZ_DICT_SIZE] == EntryFor(first, HashAt(source, x), Latest(source, base, x, HashAt(source, x)))
    {
      NextOn(c, r, first, source, base, m, x);
    }
  }

  lemma NextOn(c: Chains, r: Chains, first: Chains, source: seq<Byte>, base: nat, m: nat, x: nat)
    requires Holding(c, first, source, base, m) && base <= x < m + 1 <= x + LZ_DICT_SIZE && m + 2 < |source|
    requires r.next == c.next[m % LZ_DICT_SIZE := c.hash[HashAt(source, m)]]
    ensures r.next[x % LZ_DICT_SIZE] == EntryFor(first, HashAt(source, x), Latest(source, base, x, HashAt(source, x)))
  {
    hide HashAt, EntryFor, Latest;
    if x < m { OtherSlot(x, m); }
  }

  lemma InsertedAt(c: Chains, source: seq<Byte>, m: nat)
    requires ValidChains(c) && m + 2 < |source|
    ensures var r := Inserted(c, source, m);
            ValidChains(r) && r.next == c.next[m % LZ_DICT_SIZE := c.hash[HashAt(source, m)]] && r.hash == c.hash[HashAt(source, m) := m % 65536]
  {
    hide TrigramHash, Index;
  }

  /** More source does not change that. */
  lemma {:induction false} LatestLater(source: seq<Byte>, more: seq<Byte>, base: nat, x: nat, h: nat)
    requires x + 2 <= |source|
    ensures Latest(source + more, base, x, h) == Latest(source, base, x, h)
    decreases x
  {
    hide HashAt;
    if x > base {
      HashLater(source, more, x - 1);
      LatestLater(source, more, base, x - 1, h);
    }
  }

  lemma HashLater(source: seq<Byte>, more: seq<Byte>, x: nat)
    requires x + 2 < |source|
    ensures HashAt(source + more, x) == HashAt(source, x)
  {
    hide TrigramHash, Index;
  }

  lemma HoldingLater(c: Chains, first: Chains, source: seq<Byte>, more: seq<Byte>, base: nat, m: nat)
    requires Holding(c, first, source, base, m)
    ensures Holding(c, first, source + more, base, m)
  {
    hide HashAt, EntryFor;
    forall h | 0 <= h < HASH_SIZE ensures Latest(source + more, base, m, h) == Latest(source, base, m, h) {
      LatestLater(source, more, base, m, h);
    }
    forall x | base <= x < m <= x + LZ_DICT_SIZE
      ensures HashAt(source + more, x) == HashAt(source, x)
      ensures Latest(source + more, base, x, HashAt(source, x)) == Latest(source, base, x, HashAt(source, x))
    {
      HashLater(source, more, x);
      LatestLater(source, more, base, x, HashAt(source, x));
    }
  }

  /** All positions from `base` on are in, whose three bytes end before `end`. */
  ghost predicate AllIn(c: Chains, first: Chains, source: seq<Byte>, base: nat, end: nat) {
    && ValidChains(c) && ValidChains(first) && base <= end <= |source|
    && if end >= base + 2 then Holding(c, first, source, base, end - 2) else c.hash == first.hash
  }

  lemma AllInStart(c: Chains, source: seq<Byte>)
    requires ValidChains(c)
    ensures AllIn(c, c, source, |source|, |source|)
  {
  }

  lemma AllInLater(c: Chains, first: Chains, source: seq<Byte>, more: seq<Byte>, base: nat, end: nat)
    requires AllIn(c, first, source, base, end)
    ensures AllIn(c, first, source + more, base, end)
  {
    hide Holding;
    if end >= base + 2 { HoldingLater(c, first, source, more, base, end - 2); }
  }

  lemma NoneIn(c: Chains, first: Chains, source: seq<Byte>, base: nat)
    requires ValidChains(c) && ValidChains(first) && c.hash == first.hash && base + 2 <= |source|
    ensures Holding(c, first, source, base, base)
  {
    hide HashAt;
  }

  /** Filling the lookahead puts in all that comes in, when it starts from `base` or behind it with two bytes. */
  lemma {:induction false} HashedIn(c: Chains, first: Chains, source: seq<Byte>, base: nat, lo: nat, start: nat, end: nat)
    requires AllIn(c, first, source, base, start) && start <= end <= |source|
    requires lo == base || (start >= lo + 2 && start >= base + 2)
    ensures AllIn(Hashed(c, source, lo, start, end), first, source, base, end)
    decreases end
  {
    hide Inserted, Holding;
    if start < end {
      HashedIn(c, first, source, base, lo, start, end - 1);
      var d := Hashed(c, source, lo, start, end - 1);
      if end >= lo + 3 {
        HoldingOn(d, first, source, base, end - 3);
      } else if end == base + 2 {
        NoneIn(d, first, source, base);
      }
    }
  }

  /** The i-th latest position before `p` that hashes like `p`, or -1; `p` itself for i = 0. */
  function Earlier(source: seq<Byte>, base: nat, p: nat, i: nat): (y: int)
    requires base <= p && p + 2 < |source|
    ensures y == -1 || (base <= y <= p && HashAt(source, y) == HashAt(source, p))
  {
    if i == 0 then p else
    var x := Earlier(source, base, p, i - 1);
    if x == -1 then -1 else Latest(source, base, x, HashAt(source, p))
  }
}
