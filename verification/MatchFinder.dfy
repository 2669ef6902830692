/** The hash-chain match finder, `tdefl_find_match`: the byte variant and the 16-bit-word variant,
    both against one search function, for chains of any contents. */
module MatchFinder {
  import opened Bits
  import opened SymFreqs
  import opened Tokens

  const DICT_LENGTH := 33025  // LZ_DICT_SIZE + MAX_MATCH_LEN - 1

  datatype Best = Best(dist: nat, len: nat)

  /** How many bytes from `a` and from `b` on agree, up to `max`. */
  function Common(dict: seq<Byte>, a: nat, b: nat, max: nat): (n: nat)
    requires a + max <= |dict| && b + max <= |dict|
    ensures n <= max
    decreases max
  {
    if max == 0 || dict[a] != dict[b] then 0 else 1 + Common(dict, a + 1, b + 1, max - 1)
  }

  /** `(mz_uint16)(lookahead_pos - next_probe_pos)`. */
  function Distance(lookaheadPos: nat, probe: Word16): (d: nat)
    ensures d < 65536
  {
    (lookaheadPos + 65536 - probe) % 65536
  }

  /** What a search looks at, and its bounds. */
  datatype Query = Query(dict: seq<Byte>, next: seq<Word16>, lookaheadPos: nat, maxDist: nat, maxLen: nat)

  function Pos(q: Query): (p: nat)
    ensures p < LZ_DICT_SIZE
  {
    q.lookaheadPos % LZ_DICT_SIZE
  }

  predicate ValidQuery(q: Query) {
    |q.dict| == DICT_LENGTH && |q.next| == LZ_DICT_SIZE && q.maxDist <= LZ_DICT_SIZE && q.maxLen <= MAX_MATCH_LEN
  }

  /** The search from the chain entry `probe` on. `probes` limits the rounds; each round makes three
      probes, of which `k` are done. */
  function Search(q: Query, best: Best, probe: nat, probes: nat, k: nat): Best
    requires ValidQuery(q) && 1 <= best.len < q.maxLen && probe < LZ_DICT_SIZE && k < 3
    decreases probes, if k == 0 then 0 else 4 - k
  {
    if k == 0 && probes <= 1 then best else
    var left := if k == 0 then probes - 1 else probes;
    var at, d := q.next[probe], Distance(q.lookaheadPos, q.next[probe]);
    if at == 0 || d > q.maxDist then best else
    var p := at % LZ_DICT_SIZE;
    if q.dict[p + best.len] != q.dict[Pos(q) + best.len] || q.dict[p + best.len - 1] != q.dict[Pos(q) + best.len - 1] then
      Search(q, best, p, left, (k + 1) % 3)
    else if d == 0 then best
    else Compared(q, best, p, d, left)
  }

  /** A candidate at `p`, `d` bytes back, is compared in full. */
  function Compared(q: Query, best: Best, p: nat, d: nat, left: nat): Best
    requires ValidQuery(q) && 1 <= best.len < q.maxLen && p < LZ_DICT_SIZE
    decreases left, 1
  {
    var m := Common(q.dict, Pos(q), p, q.maxLen);
    if m <= best.len then Search(q, best, p, left, 0)
    else if m == q.maxLen then Best(d, m)
    else Search(q, Best(d, m), p, left, 0)
  }

  function FindBest(q: Query, best: Best, probes: nat): Best
    requires ValidQuery(q) && 1 <= best.len
  {
    if q.maxLen <= best.len then best else Search(q, best, Pos(q), probes, 0)
  }

  // ---------- soundness

  /** The `len` bytes at the current position stand `dist` bytes before it too. */
  predicate Repeats(q: Query, dist: nat, len: nat)
    requires |q.dict| == DICT_LENGTH && len <= MAX_MATCH_LEN && dist <= 65536
  {
    q.dict[Pos(q)..Pos(q) + len] == q.dict[Back(q, dist)..Back(q, dist) + len]
  }

  function Back(q: Query, dist: nat): (p: nat)
    requires dist <= 65536
    ensures p < LZ_DICT_SIZE
  {
    (q.lookaheadPos + 65536 - dist) % LZ_DICT_SIZE
  }

  /** A search gives back what it was given, or something better that is a real match. */
  ghost predicate Sound(q: Query, best: Best, r: Best)
    requires ValidQuery(q)
  {
    r == best || (1 <= r.dist <= q.maxDist && best.len < r.len <= q.maxLen && Repeats(q, r.dist, r.len))
  }

  lemma {:induction false} CommonRepeats(dict: seq<Byte>, a: nat, b: nat, max: nat)
    requires a + max <= |dict| && b + max <= |dict|
    ensures var n := Common(dict, a, b, max);
            dict[a..a + n] == dict[b..b + n] && (n < max ==> dict[a + n] != dict[b + n])
    decreases max
  {
    if max > 0 && dict[a] == dict[b] {
      CommonRepeats(dict, a + 1, b + 1, max - 1);
      var n := Common(dict, a + 1, b + 1, max - 1);
      assert dict[a..a + n + 1] == [dict[a]] + dict[a + 1..a + 1 + n];
      assert dict[b..b + n + 1] == [dict[b]] + dict[b + 1..b + 1 + n];
    }
  }

  /** The place of a chain entry is `d` bytes back. */
  lemma ProbeIsBack(q: Query, at: Word16)
    ensures at % LZ_DICT_SIZE == Back(q, Distance(q.lookaheadPos, at))
  {
    var s := q.lookaheadPos + 65536 - at;
    assert s == 65536 * (s / 65536) + s % 65536;
    assert q.lookaheadPos + 65536 - s % 65536 == at + 65536 * (s / 65536);
    assert (at + LZ_DICT_SIZE * (2 * (s / 65536))) % LZ_DICT_SIZE == at % LZ_DICT_SIZE;
  }

  /** Whatever the chains hold, a better result is a real match within the bounds. */
  lemma {:induction false} SearchSound(q: Query, best: Best, probe: nat, probes: nat, k: nat)
    requires ValidQuery(q) && 1 <= best.len < q.maxLen && probe < LZ_DICT_SIZE && k < 3
    ensures Sound(q, best, Search(q, best, probe, probes, k))
    decreases probes, if k == 0 then 0 else 4 - k
  {
    hide Distance, Pos, Back, Common;
    if k == 0 && probes <= 1 {
    } else {
      var left := if k == 0 then probes - 1 else probes;
      var at, d := q.next[probe], Distance(q.lookaheadPos, q.next[probe]);
      if at == 0 || d > q.maxDist {
      } else {
        var p := at % LZ_DICT_SIZE;
        if q.dict[p + best.len] != q.dict[Pos(q) + best.len] || q.dict[p + best.len - 1] != q.dict[Pos(q) + best.len - 1] {
          SearchSound(q, best, p, left, (k + 1) % 3);
        } else if d > 0 {
          ProbeIsBack(q, at);
          ComparedSound(q, best, p, d, left);
        }
      }
    }
  }

  lemma {:induction false} ComparedSound(q: Query, best: Best, p: nat, d: nat, left: nat)
    requires ValidQuery(q) && 1 <= best.len < q.maxLen && p < LZ_DICT_SIZE && 1 <= d <= q.maxDist && p == Back(q, d)
    ensures Sound(q, best, Compared(q, best, p, d, left))
    decreases left, 1
  {
    hide Distance, Pos, Back, Common;
    var m := Common(q.dict, Pos(q), p, q.maxLen);
    CommonRepeats(q.dict, Pos(q), p, q.maxLen);
    if m <= best.len {
      SearchSound(q, best, p, left, 0);
    } else if m < q.maxLen {
      SearchSound(q, Best(d, m), p, left, 0);
    }
  }

  lemma FindSound(q: Query, best: Best, probes: nat)
    requires ValidQuery(q) && 1 <= best.len
    ensures Sound(q, best, FindBest(q, best, probes))
  {
    if best.len < q.maxLen {
      SearchSound(q, best, Pos(q), probes, 0);
    }
  }

  // ---------- the longest match

  /** The chain of the current position: where its i-th link leads from, and the entry that stands there. */
  function Link(q: Query, i: nat): (p: nat)
    requires ValidQuery(q)
    ensures p < LZ_DICT_SIZE
    decreases i, 0
  {
    if i == 0 then Pos(q) else Entry(q, i - 1) % LZ_DICT_SIZE
  }

  function Entry(q: Query, i: nat): Word16
    requires ValidQuery(q)
    decreases i, 1
  {
    q.next[Link(q, i)]
  }

  /** The i-th entry does not end the chain: it is not 0, nor too far away, nor the position itself. */
  predicate Going(q: Query, i: nat)
    requires ValidQuery(q)
  {
    Entry(q, i) != 0 && 1 <= Distance(q.lookaheadPos, Entry(q, i)) <= q.maxDist
  }

  predicate Reached(q: Query, i: nat)
    requires ValidQuery(q)
  {
    forall j :: 0 <= j <= i ==> Going(q, j)
  }

  /** How far the candidate of the i-th entry agrees with the current position. */
  function Agreeing(q: Query, i: nat): nat
    requires ValidQuery(q)
  {
    Common(q.dict, Pos(q), Entry(q, i) % LZ_DICT_SIZE, q.maxLen)
  }

  /** `r` is the candidate of the i-th entry, and the entries from `from` on that come before are shorter. */
  ghost predicate Candidate(q: Query, from: nat, i: nat, r: Best)
    requires ValidQuery(q)
  {
    && from <= i && Going(q, i) && r == Best(Distance(q.lookaheadPos, Entry(q, i)), Agreeing(q, i))
    && forall j :: from <= j < i ==> Going(q, j) && Agreeing(q, j) < r.len
  }

  /** Of the entries from `from` on, `n` at least and `most` at most are looked at, and `r` is the first of
      the longest among them, if any is longer than `best`. */
  ghost predicate Longest(q: Query, best: Best, from: nat, n: nat, most: nat, r: Best)
    requires ValidQuery(q)
  {
    && r.len >= best.len
    && (r == best || (r.len > best.len && exists i :: from <= i < from + most && Candidate(q, from, i, r)))
    && (forall i :: from <= i < from + n && (forall j :: from <= j <= i ==> Going(q, j)) ==> Agreeing(q, i) <= r.len)
  }

  /** The rounds still to come, counted in entries. */
  function AtLeast(probes: nat, k: nat): nat { if k == 0 then if probes == 0 then 0 else probes - 1 else probes }

  function AtMost(probes: nat, k: nat): nat { (if probes == 0 then 0 else 3 * (probes - 1)) + (if 1 <= k < 3 then 3 - k else 0) }

  /** Where the byte behind `len` bytes, or the last of them, differs, no more than that agrees. */
  lemma QuickCheck(dict: seq<Byte>, a: nat, b: nat, max: nat, len: nat)
    requires a + max <= |dict| && b + max <= |dict| && 1 <= len < max
    requires dict[b + len] != dict[a + len] || dict[b + len - 1] != dict[a + len - 1]
    ensures Common(dict, a, b, max) <= len
  {
    hide Common;
    var n := Common(dict, a, b, max);
    CommonRepeats(dict, a, b, max);
    if n > len {
      if dict[b + len] != dict[a + len] { SliceAt(dict, a, b, n, len); } else { SliceAt(dict, a, b, n, len - 1); }
    }
  }

  lemma SliceAt(dict: seq<Byte>, a: nat, b: nat, n: nat, k: nat)
    requires a + n <= |dict| && b + n <= |dict| && dict[a..a + n] == dict[b..b + n] && k < n
    ensures dict[a + k] == dict[b + k]
  {
    assert dict[a + k] == dict[a..a + n][k] && dict[b + k] == dict[b..b + n][k];
  }

  /** An entry that does not improve `best` is passed over. */
  lemma Passed(q: Query, best: Best, from: nat, n: nat, most: nat, r: Best)
    requires ValidQuery(q) && Longest(q, best, from + 1, n, most, r) && Going(q, from) && Agreeing(q, from) <= best.len
    ensures Longest(q, best, from, n + 1, most + 1, r)
  {
    hide Going, Agreeing;
    if r != best {
      var i :| from + 1 <= i < from + 1 + most && Candidate(q, from + 1, i, r);
      OneBefore(q, from, i, r);
    }
  }

  lemma OneBefore(q: Query, from: nat, i: nat, r: Best)
    requires ValidQuery(q) && Candidate(q, from + 1, i, r) && Going(q, from) && Agreeing(q, from) < r.len
    ensures Candidate(q, from, i, r)
  {
    hide Going, Agreeing;
  }

  /** An entry that improves `best` takes its place. */
  lemma Improved(q: Query, best: Best, from: nat, n: nat, most: nat, c: Best, r: Best)
    requires ValidQuery(q) && Longest(q, c, from + 1, n, most, r) && Candidate(q, from, from, c) && c.len > best.len
    ensures Longest(q, best, from, n + 1, most + 1, r)
  {
    hide Going, Agreeing;
    if r != c {
      var i :| from + 1 <= i < from + 1 + most && Candidate(q, from + 1, i, r);
      OneBefore(q, from, i, r);
    }
  }

  /** The position itself agrees with itself. */
  lemma SelfAgrees(q: Query, at: Word16)
    requires Distance(q.lookaheadPos, at) == 0
    ensures at % LZ_DICT_SIZE == Pos(q)
  {
    ProbeIsBack(q, at);
    assert (q.lookaheadPos + LZ_DICT_SIZE * 2) % LZ_DICT_SIZE == q.lookaheadPos % LZ_DICT_SIZE;
  }

  lemma LinkAfter(q: Query, i: nat)
    requires ValidQuery(q)
    ensures Link(q, i + 1) == Entry(q, i) % LZ_DICT_SIZE && Entry(q, i) == q.next[Link(q, i)] && Link(q, 0) == Pos(q)
  {
  }

  lemma Ended(q: Query, best: Best, from: nat, n: nat, most: nat)
    requires ValidQuery(q) && (n == 0 || !Going(q, from))
    ensures Longest(q, best, from, n, most, best)
  {
    hide Going, Agreeing;
  }

  lemma {:induction false} SearchLongest(q: Query, best: Best, i: nat, probes: nat, k: nat)
    requires ValidQuery(q) && 1 <= best.len < q.maxLen && k < 3
    ensures Longest(q, best, i, AtLeast(probes, k), AtMost(probes, k), Search(q, best, Link(q, i), probes, k))
    decreases probes, if k == 0 then 0 else 4 - k
  {
    hide Distance, Pos, Common, Longest, Link, Entry;
    LinkAfter(q, i);
    if k == 0 && probes <= 1 {
      Ended(q, best, i, 0, 0);
    } else {
      var left := if k == 0 then probes - 1 else probes;
      var at, d := Entry(q, i), Distance(q.lookaheadPos, Entry(q, i));
      if at == 0 || d > q.maxDist {
        Ended(q, best, i, AtLeast(probes, k), AtMost(probes, k));
      } else {
        var p := at % LZ_DICT_SIZE;
        if q.dict[p + best.len] != q.dict[Pos(q) + best.len] || q.dict[p + best.len - 1] != q.dict[Pos(q) + best.len - 1] {
          if d == 0 { SelfAgrees(q, at); }
          QuickCheck(q.dict, Pos(q), p, q.maxLen, best.len);
          SearchLongest(q, best, i + 1, left, (k + 1) % 3);
          var r := Search(q, best, p, left, (k + 1) % 3);
          Passed(q, best, i, AtLeast(left, (k + 1) % 3), AtMost(left, (k + 1) % 3), r);
          Weaker(q, best, i, AtLeast(left, (k + 1) % 3) + 1, AtMost(left, (k + 1) % 3) + 1, AtLeast(probes, k), AtMost(probes, k), r);
        } else if d == 0 {
          Ended(q, best, i, AtLeast(probes, k), AtMost(probes, k));
        } else {
          ComparedLongest(q, best, i, d, left);
          Weaker(q, best, i, AtLeast(left, 0) + 1, AtMost(left, 0) + 1, AtLeast(probes, k), AtMost(probes, k), Compared(q, best, p, d, left));
        }
      }
    }
  }

  lemma Weaker(q: Query, best: Best, from: nat, n: nat, most: nat, fewer: nat, more: nat, r: Best)
    requires ValidQuery(q) && Longest(q, best, from, n, most, r) && fewer <= n && most <= more
    ensures Longest(q, best, from, fewer, more, r)
  {
    hide Going, Agreeing;
  }

  lemma {:induction false} ComparedLongest(q: Query, best: Best, i: nat, d: nat, left: nat)
    requires ValidQuery(q) && 1 <= best.len < q.maxLen && Going(q, i) && d == Distance(q.lookaheadPos, Entry(q, i))
    ensures Longest(q, best, i, AtLeast(left, 0) + 1, AtMost(left, 0) + 1, Compared(q, best, Entry(q, i) % LZ_DICT_SIZE, d, left))
    decreases left, 1
  {
    hide Distance, Pos, Common, Longest, Link, Entry;
    LinkAfter(q, i);
    var p := Entry(q, i) % LZ_DICT_SIZE;
    var m := Common(q.dict, Pos(q), p, q.maxLen);
    var n, most := AtLeast(left, 0), AtMost(left, 0);
    if m <= best.len {
      SearchLongest(q, best, i + 1, left, 0);
      Passed(q, best, i, n, most, Search(q, best, p, left, 0));
    } else if m == q.maxLen {
      AllOfIt(q, best, i, n + 1, most + 1, Best(d, m));
    } else {
      SearchLongest(q, Best(d, m), i + 1, left, 0);
      Improved(q, best, i, n, most, Best(d, m), Search(q, Best(d, m), p, left, 0));
    }
  }

  lemma AllOfIt(q: Query, best: Best, from: nat, n: nat, most: nat, r: Best)
    requires ValidQuery(q) && Candidate(q, from, from, r) && r.len == q.maxLen > best.len && most >= 1
    ensures Longest(q, best, from, n, most, r)
  {
    hide Going, Common;
  }

  /** The search looks at as many entries of the chain as it has probes, less one, and at three times as many
      at most, as far as the chain goes. What it gives back is the first of the longest candidates; none that
      is looked at agrees any further. */
  lemma FindLongest(q: Query, best: Best, probes: nat)
    requires ValidQuery(q) && 1 <= best.len && probes >= 1
    ensures var r := FindBest(q, best, probes);
            && (r == best || (r.len > best.len && exists i :: 0 <= i < 3 * (probes - 1) && Candidate(q, 0, i, r)))
            && r.len >= best.len && (forall i :: 0 <= i < probes - 1 && Reached(q, i) ==> Agreeing(q, i) <= r.len)
  {
    hide Going, Search;
    if best.len < q.maxLen {
      SearchLongest(q, best, 0, probes, 0);
    }
  }

  // ---------- the byte variant

  method CommonBytes(dict: array<Byte>, a: nat, b: nat, max: nat) returns (n: nat)
    requires a + max <= dict.Length && b + max <= dict.Length
    ensures n == Common(dict[..], a, b, max)
  {
    n := 0;
    while n < max
      invariant 0 <= n <= max && Common(dict[..], a, b, max) == n + Common(dict[..], a + n, b + n, max - n)
    {
      if dict[a + n] != dict[b + n] { return; }
      n := n + 1;
    }
  }

  /** What one `TDEFL_PROBE` leads to: the search ends, the last two bytes agree, or they do not. */
  datatype Probe = Stop | Hit(p: nat, dist: nat) | Miss(p: nat)

  function Probed(q: Query, len: nat, probe: nat): (r: Probe)
    requires ValidQuery(q) && 1 <= len < q.maxLen && probe < LZ_DICT_SIZE
    ensures r.Hit? ==> r.p < LZ_DICT_SIZE && r.dist <= q.maxDist
    ensures r.Miss? ==> r.p < LZ_DICT_SIZE
  {
    var at, d := q.next[probe], Distance(q.lookaheadPos, q.next[probe]);
    if at == 0 || d > q.maxDist then Stop else
    var p := at % LZ_DICT_SIZE;
    if q.dict[p + len] == q.dict[Pos(q) + len] && q.dict[p + len - 1] == q.dict[Pos(q) + len - 1] then Hit(p, d) else Miss(p)
  }

  lemma SearchProbe(q: Query, best: Best, probe: nat, probes: nat, k: nat)
    requires ValidQuery(q) && 1 <= best.len < q.maxLen && probe < LZ_DICT_SIZE && k < 3 && (k == 0 ==> probes >= 2)
    ensures var left := if k == 0 then probes - 1 else probes;
            Search(q, best, probe, probes, k) ==
            match Probed(q, best.len, probe)
            case Stop => best
            case Hit(p, d) => if d == 0 then best else Compared(q, best, p, d, left)
            case Miss(p) => Search(q, best, p, left, (k + 1) % 3)
  {
  }

  /** `TDEFL_PROBE` on bytes. */
  method ProbeBytes(dict: array<Byte>, next: array<Word16>, lookaheadPos: nat, maxDist: nat, maxLen: nat, len: nat, c0: Byte, c1: Byte, probe: nat)
    returns (r: Probe)
    requires dict.Length == DICT_LENGTH && next.Length == LZ_DICT_SIZE && maxDist <= LZ_DICT_SIZE && maxLen <= MAX_MATCH_LEN
    requires 1 <= len < maxLen && probe < LZ_DICT_SIZE
    requires c0 == dict[lookaheadPos % LZ_DICT_SIZE + len] && c1 == dict[lookaheadPos % LZ_DICT_SIZE + len - 1]
    ensures r == Probed(Query(dict[..], next[..], lookaheadPos, maxDist, maxLen), len, probe)
  {
    var nextProbe := next[probe];
    if nextProbe == 0 { return Stop; }
    var dist := Distance(lookaheadPos, nextProbe);
    if dist > maxDist { return Stop; }
    var p := nextProbe % LZ_DICT_SIZE;
    if dict[p + len] == c0 && dict[p + len - 1] == c1 { return Hit(p, dist); }
    return Miss(p);
  }

  /** The rounds of three probes, up to the next candidate or the end of the search. */
  method NextCandidate(dict: array<Byte>, next: array<Word16>, lookaheadPos: nat, maxDist: nat, maxLen: nat, c0: Byte, c1: Byte,
                       probe0: nat, left0: nat, best: Best) returns (o: Probe, left: nat)
    requires dict.Length == DICT_LENGTH && next.Length == LZ_DICT_SIZE && maxDist <= LZ_DICT_SIZE && maxLen <= MAX_MATCH_LEN
    requires 1 <= best.len < maxLen && probe0 < LZ_DICT_SIZE && left0 >= 1
    requires c0 == dict[lookaheadPos % LZ_DICT_SIZE + best.len] && c1 == dict[lookaheadPos % LZ_DICT_SIZE + best.len - 1]
    ensures !o.Miss? && (o.Hit? ==> o.p < LZ_DICT_SIZE && o.dist <= maxDist && 1 <= left < left0)
    ensures Search(Query(dict[..], next[..], lookaheadPos, maxDist, maxLen), best, probe0, left0, 0) ==
            Outcome(Query(dict[..], next[..], lookaheadPos, maxDist, maxLen), best, o, left)
  {
    hide Search, Probed, Compared, Distance;
    ghost var q := Query(dict[..], next[..], lookaheadPos, maxDist, maxLen);
    left := left0;
    var probe: nat := probe0;
    while true
      invariant probe < LZ_DICT_SIZE && 1 <= left <= left0 && Search(q, best, probe0, left0, 0) == Search(q, best, probe, left, 0)
      decreases left
    {
      if left == 1 { LastProbe(q, best, probe); return Stop, 0; }
      left := left - 1;
      SearchProbe(q, best, probe, left + 1, 0);
      o := ProbeBytes(dict, next, lookaheadPos, maxDist, maxLen, best.len, c0, c1, probe);
      if o.Miss? {
        SearchProbe(q, best, o.p, left, 1);
        o := ProbeBytes(dict, next, lookaheadPos, maxDist, maxLen, best.len, c0, c1, o.p);
        if o.Miss? {
          SearchProbe(q, best, o.p, left, 2);
          o := ProbeBytes(dict, next, lookaheadPos, maxDist, maxLen, best.len, c0, c1, o.p);
        }
      }
      match o {
        case Miss(p) => probe := p;
        case _ => return;
      }
    }
  }

  lemma LastProbe(q: Query, best: Best, probe: nat)
    requires ValidQuery(q) && 1 <= best.len < q.maxLen && probe < LZ_DICT_SIZE
    ensures Search(q, best, probe, 1, 0) == best
  {
  }

  /** The search's result when a round of probes ended in `o`. */
  function Outcome(q: Query, best: Best, o: Probe, left: nat): Best
    requires ValidQuery(q) && 1 <= best.len < q.maxLen && !o.Miss? && (o.Hit? ==> o.p < LZ_DICT_SIZE)
  {
    if o.Stop? || o.dist == 0 then best else Compared(q, best, o.p, o.dist, left)
  }

  /** `tdefl_find_match` on bytes. */
  method FindMatch(dict: array<Byte>, next: array<Word16>, lookaheadPos: nat, maxDist: nat, maxLen: nat, probes: nat, best: Best) returns (r: Best)
    requires dict.Length == DICT_LENGTH && next.Length == LZ_DICT_SIZE && maxDist <= LZ_DICT_SIZE && maxLen <= MAX_MATCH_LEN
    requires 1 <= best.len < MAX_MATCH_LEN && probes >= 1
    ensures r == FindBest(Query(dict[..], next[..], lookaheadPos, maxDist, maxLen), best, probes)
  {
    hide Search, Distance, Common;
    ghost var q := Query(dict[..], next[..], lookaheadPos, maxDist, maxLen);
    var pos := lookaheadPos % LZ_DICT_SIZE;
    r := best;
    var c0, c1 := dict[pos + r.len], dict[pos + r.len - 1];
    if maxLen <= r.len { return; }
    var probe: nat, left: nat := pos, probes;
    while true
      invariant probe < LZ_DICT_SIZE && 1 <= r.len < maxLen && left >= 1
      invariant c0 == dict[pos + r.len] && c1 == dict[pos + r.len - 1]
      invariant FindBest(q, best, probes) == Search(q, r, probe, left, 0)
      decreases left
    {
      var o;
      o, left := NextCandidate(dict, next, lookaheadPos, maxDist, maxLen, c0, c1, probe, left, r);
      if o.Stop? || o.dist == 0 { return; }
      probe := o.p;
      var probeLen := CommonBytes(dict, pos, probe, maxLen);
      if probeLen > r.len {
        r := Best(o.dist, probeLen);
        if r.len == maxLen { return; }
        c0, c1 := dict[pos + r.len], dict[pos + r.len - 1];
      }
    }
  }

  // ---------- the word variant

  /** A little-endian 16-bit read. */
  function Word(low: Byte, high: Byte): (w: nat)
    ensures w < 65536
  {
    var l: nat, h: nat := low, high;
    l + 256 * h
  }

  lemma SameWord(a: Byte, b: Byte, c: Byte, d: Byte)
    ensures Word(a, b) == Word(c, d) <==> a == c && b == d
  {
  }

  function WordAt(dict: seq<Byte>, i: nat): nat
    requires i + 1 < |dict|
  {
    Word(dict[i], dict[i + 1])
  }

  /** `TDEFL_PROBE` on words: the last two bytes are compared at once. */
  method ProbeWords(dict: array<Byte>, next: array<Word16>, lookaheadPos: nat, maxDist: nat, maxLen: nat, len: nat, c01: nat, probe: nat)
    returns (r: Probe)
    requires dict.Length == DICT_LENGTH && next.Length == LZ_DICT_SIZE && maxDist <= LZ_DICT_SIZE && maxLen <= MAX_MATCH_LEN
    requires 1 <= len < maxLen && probe < LZ_DICT_SIZE && c01 == WordAt(dict[..], lookaheadPos % LZ_DICT_SIZE + len - 1)
    ensures r == Probed(Query(dict[..], next[..], lookaheadPos, maxDist, maxLen), len, probe)
  {
    var nextProbe := next[probe];
    if nextProbe == 0 { return Stop; }
    var dist := Distance(lookaheadPos, nextProbe);
    if dist > maxDist { return Stop; }
    var p := nextProbe % LZ_DICT_SIZE;
    var pos := lookaheadPos % LZ_DICT_SIZE;
    SameWord(dict[p + len - 1], dict[p + len], dict[pos + len - 1], dict[pos + len]);
    if Word(dict[p + len - 1], dict[p + len]) == c01 { return Hit(p, dist); }
    return Miss(p);
  }

  method NextCandidateWords(dict: array<Byte>, next: array<Word16>, lookaheadPos: nat, maxDist: nat, maxLen: nat, c01: nat,
                            probe0: nat, left0: nat, best: Best) returns (o: Probe, left: nat)
    requires dict.Length == DICT_LENGTH && next.Length == LZ_DICT_SIZE && maxDist <= LZ_DICT_SIZE && maxLen <= MAX_MATCH_LEN
    requires 1 <= best.len < maxLen && probe0 < LZ_DICT_SIZE && left0 >= 1
    requires c01 == WordAt(dict[..], lookaheadPos % LZ_DICT_SIZE + best.len - 1)
    ensures !o.Miss? && (o.Hit? ==> o.p < LZ_DICT_SIZE && o.dist <= maxDist && 1 <= left < left0)
    ensures Search(Query(dict[..], next[..], lookaheadPos, maxDist, maxLen), best, probe0, left0, 0) ==
            Outcome(Query(dict[..], next[..], lookaheadPos, maxDist, maxLen), best, o, left)
  {
    hide Search, Probed, Compared, Distance, Word;
    ghost var q := Query(dict[..], next[..], lookaheadPos, maxDist, maxLen);
    left := left0;
    var probe: nat := probe0;
    while true
      invariant probe < LZ_DICT_SIZE && 1 <= left <= left0 && Search(q, best, probe0, left0, 0) == Search(q, best, probe, left, 0)
      decreases left
    {
      if left == 1 { LastProbe(q, best, probe); return Stop, 0; }
      left := left - 1;
      SearchProbe(q, best, probe, left + 1, 0);
      o := ProbeWords(dict, next, lookaheadPos, maxDist, maxLen, best.len, c01, probe);
      if o.Miss? {
        SearchProbe(q, best, o.p, left, 1);
        o := ProbeWords(dict, next, lookaheadPos, maxDist, maxLen, best.len, c01, o.p);
        if o.Miss? {
          SearchProbe(q, best, o.p, left, 2);
          o := ProbeWords(dict, next, lookaheadPos, maxDist, maxLen, best.len, c01, o.p);
        }
      }
      match o {
        case Miss(p) => probe := p;
        case _ => return;
      }
    }
  }

  /** The first `i` words at `a` and at `b` agree. */
  predicate SameWords(dict: seq<Byte>, a: nat, b: nat, i: nat) {
    a + 2 * i <= |dict| && b + 2 * i <= |dict| && dict[a..a + 2 * i] == dict[b..b + 2 * i]
  }

  lemma OneMoreWord(dict: seq<Byte>, a: nat, b: nat, i: nat)
    requires SameWords(dict, a, b, i) && a + 2 * i + 1 < |dict| && b + 2 * i + 1 < |dict|
    requires WordAt(dict, a + 2 * i) == WordAt(dict, b + 2 * i)
    ensures SameWords(dict, a, b, i + 1)
  {
    SameWord(dict[a + 2 * i], dict[a + 2 * i + 1], dict[b + 2 * i], dict[b + 2 * i + 1]);
    assert dict[a..a + 2 * (i + 1)] == dict[a..a + 2 * i] + [dict[a + 2 * i], dict[a + 2 * i + 1]];
    assert dict[b..b + 2 * (i + 1)] == dict[b..b + 2 * i] + [dict[b + 2 * i], dict[b + 2 * i + 1]];
  }

  /** Four words at a time, after the first; `left` is 0 when 129 words agree. */
  method CompareWords(dict: array<Byte>, s: nat, q: nat) returns (i: nat, left: nat)
    requires dict.Length == DICT_LENGTH && s < LZ_DICT_SIZE && q < LZ_DICT_SIZE
    requires WordAt(dict[..], s) == WordAt(dict[..], q)
    ensures left == 0 ==> SameWords(dict[..], s, q, 129)
    ensures left > 0 ==> 1 <= i <= 128 && SameWords(dict[..], s, q, i) && WordAt(dict[..], s + 2 * i) != WordAt(dict[..], q + 2 * i)
  {
    hide Word, SameWords, WordAt;
    FirstWord(dict[..], s, q);
    i, left := 0, 32;
    var same := true;
    while same && left > 0
      invariant left <= 32 && (same ==> i == 4 * (32 - left) && SameWords(dict[..], s, q, i + 1))
      invariant !same ==> left > 0 && 1 <= i <= 128 && SameWords(dict[..], s, q, i) && WordAt(dict[..], s + 2 * i) != WordAt(dict[..], q + 2 * i)
      decreases left, same
    {
      i, same := NextWord(dict, s, q, i);
      if same { i, same := NextWord(dict, s, q, i); }
      if same { i, same := NextWord(dict, s, q, i); }
      if same { i, same := NextWord(dict, s, q, i); }
      if same { left := left - 1; }
    }
  }

  lemma FirstWord(dict: seq<Byte>, a: nat, b: nat)
    requires a + 1 < |dict| && b + 1 < |dict| && WordAt(dict, a) == WordAt(dict, b)
    ensures SameWords(dict, a, b, 1)
  {
    OneMoreWord(dict, a, b, 0);
  }

  method NextWord(dict: array<Byte>, s: nat, q: nat, i: nat) returns (j: nat, same: bool)
    requires dict.Length == DICT_LENGTH && s < LZ_DICT_SIZE && q < LZ_DICT_SIZE && i < 128 && SameWords(dict[..], s, q, i + 1)
    ensures j == i + 1 && SameWords(dict[..], s, q, j)
    ensures same == (WordAt(dict[..], s + 2 * j) == WordAt(dict[..], q + 2 * j)) && (same ==> SameWords(dict[..], s, q, j + 1))
  {
    hide Word;
    j := i + 1;
    same := Word(dict[s + 2 * j], dict[s + 2 * j + 1]) == Word(dict[q + 2 * j], dict[q + 2 * j + 1]);
    if same { OneMoreWord(dict[..], s, q, j); }
  }

  lemma {:induction false} CommonIs(dict: seq<Byte>, a: nat, b: nat, max: nat, n: nat)
    requires a + max <= |dict| && b + max <= |dict| && n <= max && dict[a..a + n] == dict[b..b + n]
    requires n < max ==> dict[a + n] != dict[b + n]
    ensures Common(dict, a, b, max) == n
    decreases n
  {
    if n > 0 {
      assert dict[a] == dict[a..a + n][0] && dict[b] == dict[b..b + n][0];
      assert dict[a + 1..a + n] == dict[a..a + n][1..] && dict[b + 1..b + n] == dict[b..b + n][1..];
      CommonIs(dict, a + 1, b + 1, max - 1, n - 1);
    }
  }

  lemma SliceSnoc(dict: seq<Byte>, a: nat, n: nat)
    requires a + n < |dict|
    ensures dict[a..a + (n + 1)] == dict[a..a + n] + [dict[a + n]]
  {
  }

  lemma SliceTake(dict: seq<Byte>, a: nat, n: nat, m: nat)
    requires m <= n && a + n <= |dict|
    ensures dict[a..a + m] == dict[a..a + n][..m]
  {
  }

  /** The length found word by word, cut to the bound, is the common length. */
  lemma WordLength(dict: seq<Byte>, a: nat, b: nat, i: nat, max: nat)
    requires |dict| == DICT_LENGTH && a < LZ_DICT_SIZE && b < LZ_DICT_SIZE && i <= 128 && SameWords(dict, a, b, i) && max <= MAX_MATCH_LEN
    requires WordAt(dict, a + 2 * i) != WordAt(dict, b + 2 * i)
    ensures var n := 2 * i + (if dict[a + 2 * i] == dict[b + 2 * i] then 1 else 0);
            Common(dict, a, b, max) == if n <= max then n else max
  {
    var n := 2 * i + (if dict[a + 2 * i] == dict[b + 2 * i] then 1 else 0);
    SameWord(dict[a + 2 * i], dict[a + 2 * i + 1], dict[b + 2 * i], dict[b + 2 * i + 1]);
    if n > 2 * i {
      SliceSnoc(dict, a, 2 * i);
      SliceSnoc(dict, b, 2 * i);
    }
    assert dict[a..a + n] == dict[b..b + n] && dict[a + n] != dict[b + n];
    var m := if n <= max then n else max;
    SliceTake(dict, a, n, m);
    SliceTake(dict, b, n, m);
    CommonIs(dict, a, b, max, m);
  }

  lemma AllWords(dict: seq<Byte>, a: nat, b: nat, max: nat)
    requires |dict| == DICT_LENGTH && a < LZ_DICT_SIZE && b < LZ_DICT_SIZE && SameWords(dict, a, b, 129) && max <= MAX_MATCH_LEN
    ensures Common(dict, a, b, max) == max
  {
    SliceTake(dict, a, 258, max);
    SliceTake(dict, b, 258, max);
    CommonIs(dict, a, b, max, max);
  }

  /** `tdefl_find_match` on 16-bit words: the same answer for every query. */
  method FindMatchWords(dict: array<Byte>, next: array<Word16>, lookaheadPos: nat, maxDist: nat, maxLen: nat, probes: nat, best: Best)
    returns (r: Best)
    requires dict.Length == DICT_LENGTH && next.Length == LZ_DICT_SIZE && maxDist <= LZ_DICT_SIZE && maxLen <= MAX_MATCH_LEN
    requires 1 <= best.len < MAX_MATCH_LEN && probes >= 1
    ensures r == FindBest(Query(dict[..], next[..], lookaheadPos, maxDist, maxLen), best, probes)
  {
    hide Search, Distance, Common, Word, SameWords, WordAt;
    ghost var q := Query(dict[..], next[..], lookaheadPos, maxDist, maxLen);
    var pos := lookaheadPos % LZ_DICT_SIZE;
    r := best;
    var c01 := ReadWord(dict, pos + r.len - 1);
    var s01 := ReadWord(dict, pos);
    if maxLen <= r.len { return; }
    var probe: nat, left: nat := pos, probes;
    while true
      invariant probe < LZ_DICT_SIZE && 1 <= r.len < maxLen && left >= 1
      invariant c01 == WordAt(dict[..], pos + r.len - 1)
      invariant FindBest(q, best, probes) == Search(q, r, probe, left, 0)
      decreases left
    {
      var o;
      o, left := NextCandidateWords(dict, next, lookaheadPos, maxDist, maxLen, c01, probe, left, r);
      if o.Stop? || o.dist == 0 { return; }
      probe := o.p;
      var first := ReadWord(dict, probe);
      if first != s01 {
        ShortCommon(dict[..], pos, probe, maxLen);
        continue;
      }
      var i, same := CompareWords(dict, pos, probe);
      if same == 0 {
        AllWords(dict[..], pos, probe, maxLen);
        return Best(o.dist, if maxLen < MAX_MATCH_LEN then maxLen else MAX_MATCH_LEN);
      }
      WordLength(dict[..], pos, probe, i, maxLen);
      var probeLen := i * 2 + (if dict[pos + 2 * i] == dict[probe + 2 * i] then 1 else 0);
      if probeLen > r.len {
        r := Best(o.dist, if maxLen < probeLen then maxLen else probeLen);
        if r.len == maxLen { return; }
        c01 := ReadWord(dict, pos + r.len - 1);
      }
    }
  }

  method ReadWord(dict: array<Byte>, i: nat) returns (w: nat)
    requires i + 1 < dict.Length
    ensures w == WordAt(dict[..], i)
  {
    w := Word(dict[i], dict[i + 1]);
  }

  lemma ShortCommon(dict: seq<Byte>, a: nat, b: nat, max: nat)
    requires |dict| == DICT_LENGTH && a < LZ_DICT_SIZE && b < LZ_DICT_SIZE && max <= MAX_MATCH_LEN
    requires WordAt(dict, a) != WordAt(dict, b)
    ensures Common(dict, a, b, max) <= 1
  {
    assert dict[a..a + 2 * 0] == [] && dict[b..b + 2 * 0] == [];
    WordLength(dict, a, b, 0, max);
  }
}
