/** `tdefl_optimize_huffman_table`: from symbol counts to canonical codes of limited length. */
module HuffTable {
  import opened Bits
  import opened Canonical
  import opened SymFreqs
  import HT = HuffmanTheory
  import RS = RadixSort
  import MR = MinRedundancy
  import CL = CodeSizeLimit
  import LC = LimitCost
  import FC = FlatCost

  const MAX_SYMBOLS := 288

  // ---------- bit reversal

  lemma {:induction false} MsbBit(v: nat, n: nat, k: nat)
    requires k < n
    ensures Msb(v, n)[n - 1 - k] == (Shr(v, k) % 2 == 1)
  {
    if k > 0 {
      MsbBit(v / 2, n - 1, k - 1);
    }
  }

  /** The source's loop over the bits of a code: sending the result least significant bit first
      sends the code most significant bit first. */
  method ReverseCode(code0: nat, size: nat) returns (rev: nat)
    requires code0 < Pow2(size)
    ensures rev < Pow2(size) && Lsb(rev, size) == Msb(code0, size)
  {
    hide Lsb, Msb, Shr, Pow2;
    rev := 0;
    var code, l := code0, size;
    ReverseStart(code0, size);
    while l > 0
      invariant 0 <= l <= size && code == Shr(code0, size - l) && rev < Pow2(size - l)
      invariant Lsb(rev, size - l) == Msb(code0, size)[l..]
    {
      MsbBit(code0, size, size - l);
      ShrStep(code0, size - l);
      ReverseBit(rev, code, size - l);
      assert Msb(code0, size)[l - 1..] == [code % 2 == 1] + Msb(code0, size)[l..];
      rev := rev * 2 + code % 2;
      code := code / 2;
      l := l - 1;
    }
    assert Msb(code0, size)[0..] == Msb(code0, size);
  }

  lemma ReverseStart(code: nat, size: nat)
    ensures code == Shr(code, 0) && Pow2(0) == 1 && Lsb(0, 0) == Msb(code, size)[size..]
  {
    assert |Msb(code, size)| == size;
  }

  lemma ReverseBit(rev: nat, code: nat, n: nat)
    requires rev < Pow2(n)
    ensures rev * 2 + code % 2 < Pow2(n + 1) && Lsb(rev * 2 + code % 2, n + 1) == [code % 2 == 1] + Lsb(rev, n)
  {
    assert (rev * 2 + code % 2) / 2 == rev;
  }

  // ---------- gathering and sorting the used symbols

  /** `s` lists the symbols with a non-zero count, each once, with its count. */
  ghost predicate Gathered(s: seq<SymFreq>, count: seq<Word16>) {
    && (forall k :: 0 <= k < |s| ==> s[k].sym < |count| && s[k].key == count[s[k].sym] > 0)
    && (forall j, k :: 0 <= j < k < |s| ==> s[j].sym != s[k].sym)
    && (forall i :: 0 <= i < |count| && count[i] > 0 ==> i in Syms(s))
  }

  function Sum(count: seq<Word16>): nat {
    if count == [] then 0 else Sum(count[..|count| - 1]) + count[|count| - 1]
  }

  lemma SymsIn(s: seq<SymFreq>, i: nat)
    ensures i in Syms(s) <==> exists k :: 0 <= k < |s| && s[k].sym == i
  {
    if i in Syms(s) {
      var k :| 0 <= k < |s| && Syms(s)[k] == i;
      assert s[k].sym == i;
    }
    if k :| 0 <= k < |s| && s[k].sym == i {
      assert Syms(s)[k] == i;
    }
  }

  ghost predicate GatheredTo(s: seq<SymFreq>, count: seq<Word16>) {
    Gathered(s, count) && HT.Total(Keys(s)) == Sum(count)
  }

  lemma GatherOne(s: seq<SymFreq>, count: seq<Word16>, i: nat)
    requires i < |count| && i < 65536 && Gathered(s, count[..i]) && count[i] > 0
    ensures Gathered(s + [SymFreq(count[i], i)], count[..i + 1])
  {
    var t := s + [SymFreq(count[i], i)];
    forall c | 0 <= c < i + 1 && count[..i + 1][c] > 0
      ensures c in Syms(t)
    {
      if c < i {
        assert count[..i][c] > 0;
        SymsIn(s, c);
        var k :| 0 <= k < |s| && s[k].sym == c;
        assert t[k].sym == c;
      } else {
        assert t[|s|].sym == c;
      }
      SymsIn(t, c);
    }
  }

  lemma GatherStep(s: seq<SymFreq>, count: seq<Word16>, i: nat)
    requires i < |count| && i < 65536 && GatheredTo(s, count[..i])
    ensures GatheredTo(if count[i] > 0 then s + [SymFreq(count[i], i)] else s, count[..i + 1])
  {
    hide Gathered, HT.Total, Sum;
    SumStep(count, i);
    if count[i] > 0 {
      TotalStep(s, SymFreq(count[i], i));
      GatherOne(s, count, i);
    } else {
      GatherZero(s, count, i);
    }
  }

  lemma GatherZero(s: seq<SymFreq>, count: seq<Word16>, i: nat)
    requires i < |count| && Gathered(s, count[..i]) && count[i] == 0
    ensures Gathered(s, count[..i + 1])
  {
    assert count[..i + 1][..i] == count[..i];
  }

  lemma SumStep(count: seq<Word16>, i: nat)
    requires i < |count|
    ensures Sum(count[..i + 1]) == Sum(count[..i]) + count[i]
  {
    assert count[..i + 1][..i] == count[..i];
  }

  lemma TotalStep(s: seq<SymFreq>, x: SymFreq)
    ensures HT.Total(Keys(s + [x])) == HT.Total(Keys(s)) + x.key
  {
    assert Keys(s + [x])[..|s|] == Keys(s);
  }

  method GatherSyms(count: array<Word16>, tableLen: nat, syms: array<SymFreq>) returns (n: nat)
    requires tableLen <= count.Length && tableLen <= syms.Length && tableLen <= 65536
    modifies syms
    ensures n <= tableLen && GatheredTo(syms[..n], count[..tableLen])
  {
    hide Gathered, HT.Total;
    n := 0;
    var i := 0;
    GatherNone(syms[..0], count[..0]);
    while i < tableLen
      invariant 0 <= n <= i <= tableLen && GatheredTo(syms[..n], count[..i])
    {
      ghost var s := syms[..n];
      assert count[..][..i] == count[..i] && count[..][..i + 1] == count[..i + 1];
      GatherStep(s, count[..], i);
      if count[i] != 0 {
        syms[n] := SymFreq(count[i], i);
        n := n + 1;
        assert syms[..n] == s + [SymFreq(count[i], i)];
      }
      i := i + 1;
    }
  }

  lemma GatherNone(s: seq<SymFreq>, count: seq<Word16>)
    requires s == [] && count == []
    ensures GatheredTo(s, count)
  {
  }

  lemma {:induction false} WithKeyMultiset(s: seq<SymFreq>, x: SymFreq)
    ensures multiset(s)[x] == multiset(RS.WithKey(s, x.key))[x]
  {
    if s != [] {
      var n := |s| - 1;
      WithKeyMultiset(s[..n], x);
      assert s == s[..n] + [s[n]];
    }
  }

  /** A stable rearrangement is a permutation. */
  lemma StableIsPermutation(r: seq<SymFreq>, s: seq<SymFreq>)
    requires RS.StableRearrangement(r, s)
    ensures multiset(r) == multiset(s)
  {
    forall x: SymFreq
      ensures multiset(r)[x] == multiset(s)[x]
    {
      WithKeyMultiset(r, x);
      WithKeyMultiset(s, x);
    }
  }

  lemma RemoveAt(s: seq<SymFreq>, k: nat) returns (t: seq<SymFreq>)
    requires k < |s|
    ensures t == s[..k] + s[k + 1..] && multiset(t) == multiset(s) - multiset{s[k]}
    ensures HT.Total(Keys(s)) == HT.Total(Keys(t)) + s[k].key
  {
    t := s[..k] + s[k + 1..];
    assert s == s[..k] + [s[k]] + s[k + 1..];
    var a, b := Keys(s[..k]), Keys(s[k + 1..]);
    assert Keys(s) == a + [s[k].key] + b && Keys(t) == a + b;
    HT.TotalInsert(a, s[k].key, b);
  }

  lemma {:induction false} TotalPermuted(r: seq<SymFreq>, s: seq<SymFreq>)
    requires multiset(r) == multiset(s)
    ensures HT.Total(Keys(r)) == HT.Total(Keys(s))
    decreases |r|
  {
    if r == [] {
      assert |multiset(s)| == 0;
    } else {
      assert r[0] in multiset(s);
      var k :| 0 <= k < |s| && s[k] == r[0];
      var r1 := RemoveAt(r, 0);
      var s1 := RemoveAt(s, k);
      TotalPermuted(r1, s1);
    }
  }

  lemma GatheredPermuted(r: seq<SymFreq>, s: seq<SymFreq>, count: seq<Word16>)
    requires Gathered(s, count) && multiset(r) == multiset(s)
    ensures Gathered(r, count)
  {
    forall k | 0 <= k < |r|
      ensures r[k].sym < |count| && r[k].key == count[r[k].sym] > 0
    {
      assert r[k] in multiset(s);
    }
    forall j, k | 0 <= j < k < |r|
      ensures r[j].sym != r[k].sym
    {
      if r[j].sym == r[k].sym {
        Twice(r, j, k);
        var p, q := FindTwice(s, r[j]);
      }
    }
    forall i | 0 <= i < |count| && count[i] > 0
      ensures i in Syms(r)
    {
      SymsIn(s, i);
      var k :| 0 <= k < |s| && s[k].sym == i;
      assert s[k] in multiset(r);
      SymsIn(r, i);
    }
  }

  lemma Twice(r: seq<SymFreq>, j: nat, k: nat)
    requires j < k < |r| && r[j] == r[k]
    ensures multiset(r)[r[j]] >= 2
  {
    assert r == r[..k] + [r[k]] + r[k + 1..];
    assert r[..k][j] in multiset(r[..k]);
  }

  lemma {:induction false} FindTwice(s: seq<SymFreq>, x: SymFreq) returns (p: nat, q: nat)
    requires multiset(s)[x] >= 2
    ensures p < q < |s| && s[p] == s[q] == x
  {
    var n := |s| - 1;
    assert s == s[..n] + [s[n]];
    if s[n] == x {
      assert x in multiset(s[..n]);
      p :| 0 <= p < n && s[..n][p] == x;
      q := n;
    } else {
      p, q := FindTwice(s[..n], x);
    }
  }

  // ---------- counting the lengths

  lemma KraftSnoc(lens: seq<nat>, limit: nat)
    requires HT.Bounded(lens, limit) && lens != []
    ensures HT.Kraft(lens, limit) == HT.Kraft(lens[..|lens| - 1], limit) + Pow2(limit - lens[|lens| - 1])
  {
    assert HT.Terms(lens, limit)[..|lens| - 1] == HT.Terms(lens[..|lens| - 1], limit);
  }

  ghost predicate Counted(num: seq<int>, lens: seq<nat>) {
    && |num| == CL.MAX_SUPPORTED + 1 && HT.Bounded(lens, CL.MAX_SUPPORTED) && 0 !in lens
    && CL.NonNegative(num, CL.MAX_SUPPORTED) && num[0] == 0
    && (forall l :: 1 <= l <= CL.MAX_SUPPORTED ==> num[l] == Count(lens, l))
    && CL.Codes(num, CL.MAX_SUPPORTED) == |lens|
    && CL.Space(num, CL.MAX_SUPPORTED, CL.MAX_SUPPORTED) == HT.Kraft(lens, CL.MAX_SUPPORTED)
  }

  lemma CountStep(num: seq<int>, lens: seq<nat>, l: nat)
    requires Counted(num, lens) && 1 <= l <= CL.MAX_SUPPORTED
    ensures Counted(num[l := num[l] + 1], lens + [l])
  {
    CL.SpaceUpdate(num, CL.MAX_SUPPORTED, CL.MAX_SUPPORTED, l, num[l] + 1);
    assert (lens + [l])[..|lens|] == lens;
    KraftSnoc(lens + [l], CL.MAX_SUPPORTED);
  }

  lemma CountNone(num: seq<int>)
    requires |num| == CL.MAX_SUPPORTED + 1 && forall i :: 0 <= i < |num| ==> num[i] == 0
    ensures Counted(num, [])
  {
    CL.OnlyLongest(num, CL.MAX_SUPPORTED, CL.MAX_SUPPORTED);
  }

  method CountLengths(syms: array<SymFreq>, n: nat, num: array<int>)
    requires n <= syms.Length && num.Length == CL.MAX_SUPPORTED + 1 && forall i :: 0 <= i < num.Length ==> num[i] == 0
    requires forall k :: 0 <= k < n ==> 1 <= syms[k].key <= CL.MAX_SUPPORTED
    modifies num
    ensures Counted(num[..], Keys(syms[..n]))
  {
    CountNone(num[..]);
    hide Counted;
    var i := 0;
    assert Keys(syms[..0]) == [];
    while i < n
      invariant 0 <= i <= n && Counted(num[..], Keys(syms[..i]))
    {
      ghost var s := num[..];
      var l := syms[i].key;
      CountStep(s, Keys(syms[..i]), l);
      num[l] := num[l] + 1;
      assert num[..] == s[l := s[l] + 1] && Keys(syms[..i + 1]) == Keys(syms[..i]) + [l];
      i := i + 1;
    }
    assert syms[..i] == syms[..n];
  }

  // ---------- giving the lengths to the symbols

  lemma {:induction false} CountUpdate(lens: seq<nat>, p: nat, v: nat, l: nat)
    requires p < |lens|
    ensures Count(lens[p := v], l) == Count(lens, l) - (if lens[p] == l then 1 else 0) + (if v == l then 1 else 0)
  {
    var n := |lens| - 1;
    if p < n {
      assert lens[p := v][..n] == lens[..n][p := v];
      CountUpdate(lens[..n], p, v, l);
    } else {
      assert lens[p := v][..n] == lens[..n];
    }
  }

  /** Symbols `s[j..]` have their length; of length `i`, `left` more are to come. */
  ghost predicate Giving(lens: seq<nat>, s: seq<SymFreq>, j: nat, num: seq<int>, limit: nat, i: nat, left: int) {
    && limit <= MAX_LEN && |num| == CL.MAX_SUPPORTED + 1 && 1 <= i <= limit + 1 && j <= |s|
    && (forall k :: 0 <= k < |s| ==> s[k].sym < |lens|)
    && (forall k :: 0 <= k < j ==> lens[s[k].sym] == 0)
    && (forall k :: j <= k < |s| ==> 1 <= lens[s[k].sym] <= limit && LC.InClass(num, lens[s[k].sym], |s| - 1 - k))
    && (forall x :: 0 <= x < |lens| && lens[x] > 0 ==> x in Syms(s))
    && (forall l :: 1 <= l < i ==> Count(lens, l) == num[l])
    && (i <= limit ==> 0 <= left && Count(lens, i) == num[i] - left)
    && (forall l :: i < l <= limit ==> Count(lens, l) == 0)
    && |s| == CL.Codes(num, limit)
    && j == CL.Codes(num, limit) - CL.Codes(num, i - 1) - (if i <= limit then num[i] - left else 0)
  }

  lemma GiveStep(lens: seq<nat>, s: seq<SymFreq>, j: nat, num: seq<int>, limit: nat, i: nat, left: int)
    requires Giving(lens, s, j, num, limit, i, left) && i <= limit && left > 0
    requires CL.NonNegative(num, limit) && forall a, b :: 0 <= a < b < |s| ==> s[a].sym != s[b].sym
    ensures j > 0 && s[j - 1].sym < |lens|
    ensures Giving(lens[s[j - 1].sym := i], s, j - 1, num, limit, i, left - 1)
  {
    CL.CodesGrow(num, i, limit);
    assert j > 0;
    var p := s[j - 1].sym;
    SymsIn(s, p);
    assert p in Syms(s);
    var lens' := lens[p := i];
    forall l | 1 <= l <= limit
      ensures Count(lens', l) == Count(lens, l) + (if l == i then 1 else 0)
    {
      CountUpdate(lens, p, i, l);
    }
    assert forall l :: i < l <= limit ==> Count(lens, l) == 0;
    assert forall l :: i < l <= limit ==> Count(lens', l) == Count(lens, l);
    assert forall k :: 0 <= k < j - 1 ==> lens'[s[k].sym] == 0;
    assert forall k :: j <= k < |s| ==> lens'[s[k].sym] == lens[s[k].sym];
    assert LC.InClass(num, i, |s| - 1 - (j - 1));
  }

  lemma GiveNext(lens: seq<nat>, s: seq<SymFreq>, j: nat, num: seq<int>, limit: nat, i: nat)
    requires Giving(lens, s, j, num, limit, i, 0) && i <= limit && CL.NonNegative(num, limit)
    ensures Giving(lens, s, j, num, limit, i + 1, if i < limit then num[i + 1] else 0)
  {
  }

  lemma {:induction false} CountZeros(lens: seq<nat>, l: nat)
    requires l > 0 && forall i :: 0 <= i < |lens| ==> lens[i] == 0
    ensures Count(lens, l) == 0
  {
    CountAbsent(lens, l);
  }

  lemma GiveStart(lens: seq<nat>, s: seq<SymFreq>, num: seq<int>, limit: nat)
    requires 1 <= limit <= MAX_LEN && |num| == CL.MAX_SUPPORTED + 1 && CL.NonNegative(num, limit)
    requires CL.Codes(num, limit) == |s|
    requires forall i :: 0 <= i < |lens| ==> lens[i] == 0
    requires forall k :: 0 <= k < |s| ==> s[k].sym < |lens|
    ensures Giving(lens, s, |s|, num, limit, 1, num[1])
  {
    forall l: nat | 1 <= l <= limit
      ensures Count(lens, l) == 0
    {
      CountZeros(lens, l);
    }
  }

  method ClearSizes(sizes: array<nat>)
    modifies sizes
    ensures forall k :: 0 <= k < sizes.Length ==> sizes[k] == 0
  {
    forall k | 0 <= k < sizes.Length {
      sizes[k] := 0;
    }
  }

  /** From the most frequent symbol down: the shortest lengths first. */
  method GiveSizes(sizes: array<nat>, syms: array<SymFreq>, n: nat, num: array<int>, limit: nat)
    requires n <= syms.Length && num.Length == CL.MAX_SUPPORTED + 1 && 1 <= limit <= MAX_LEN
    requires CL.NonNegative(num[..], limit) && CL.Codes(num[..], limit) == n
    requires forall a, b :: 0 <= a < b < n ==> syms[a].sym != syms[b].sym
    requires forall k :: 0 <= k < n ==> syms[k].sym < sizes.Length
    modifies sizes
    ensures Giving(sizes[..], syms[..n], 0, num[..], limit, limit + 1, 0)
  {
    hide Giving, CL.Codes;
    ghost var s, m := syms[..n], num[..];
    ClearSizes(sizes);
    GiveStart(sizes[..], s, m, limit);
    var i: nat, j: nat := 1, n;
    while i <= limit
      invariant 1 <= i <= limit + 1 && syms[..n] == s && num[..] == m && 0 <= j <= n
      invariant Giving(sizes[..], s, j, m, limit, i, if i <= limit then m[i] else 0)
    {
      var l := num[i];
      while l > 0
        invariant 0 <= l && syms[..n] == s && num[..] == m && 0 <= j <= n
        invariant Giving(sizes[..], s, j, m, limit, i, l)
      {
        ghost var lens := sizes[..];
        GiveStep(lens, s, j, m, limit, i, l);
        j := j - 1;
        assert syms[j] == s[j];
        sizes[syms[j].sym] := i;
        assert sizes[..] == lens[s[j].sym := i];
        l := l - 1;
      }
      GiveNext(sizes[..], s, j, m, limit, i);
      i := i + 1;
    }
    GiveEnd(sizes[..], s, j, m, limit);
  }

  lemma GiveEnd(lens: seq<nat>, s: seq<SymFreq>, j: nat, num: seq<int>, limit: nat)
    requires Giving(lens, s, j, num, limit, limit + 1, 0)
    ensures j == 0
  {
  }

  // ---------- Kraft sums of the result

  lemma {:induction false} NextIsSpace(lens: seq<nat>, num: seq<int>, l: nat, limit: nat)
    requires |num| == CL.MAX_SUPPORTED + 1 && l <= limit <= MAX_LEN
    requires forall k :: 1 <= k <= limit ==> Count(lens, k) == num[k]
    ensures Next(lens, l) == CL.Space(num, l, l)
  {
    if l > 0 {
      NextIsSpace(lens, num, l - 1, limit);
      CL.SpaceScale(num, l - 1, l - 1, 1);
      assert Pow2(1) == 2 && Pow2(0) == 1;
    }
  }

  lemma {:induction false} NextAbove(lens: seq<nat>, limit: nat, l: nat)
    requires 1 <= limit <= l && forall k :: limit < k <= l ==> Count(lens, k) == 0
    ensures Next(lens, l) == Next(lens, limit) * Pow2(l - limit)
  {
    if limit < l {
      NextAbove(lens, limit, l - 1);
    }
  }

  lemma {:induction false} CountAbove(lens: seq<nat>, limit: nat, l: nat)
    requires HT.Bounded(lens, limit) && l > limit
    ensures Count(lens, l) == 0
  {
    CountAbsent(lens, l);
  }

  /** What a table must be for a block: canonical codes of at most `limit` bits, complete unless at
      most one symbol is used. */
  ghost predicate GoodLens(lens: seq<nat>, limit: nat) {
    HT.Bounded(lens, limit) && limit <= MAX_LEN && Acceptable(lens)
  }

  lemma LensComplete(lens: seq<nat>, num: seq<int>, limit: nat)
    requires |num| == CL.MAX_SUPPORTED + 1 && 1 <= limit <= MAX_LEN && HT.Bounded(lens, limit)
    requires forall k :: 1 <= k <= limit ==> Count(lens, k) == num[k]
    requires CL.Space(num, limit, limit) == Pow2(limit)
    ensures Complete(lens)
  {
    NextIsSpace(lens, num, limit, limit);
    forall k | limit < k <= MAX_LEN ensures Count(lens, k) == 0 { CountAbove(lens, limit, k); }
    NextAbove(lens, limit, MAX_LEN);
    Pow2Add(limit, MAX_LEN - limit);
    Pow2Of15();
  }

  /** With at most one symbol, of length 1, at most half the code space is taken. */
  lemma LensSingle(lens: seq<nat>)
    requires AtMostOneUsed(lens)
    requires forall i :: 0 <= i < |lens| ==> lens[i] <= 1
    ensures NotOver(lens)
  {
    SingleCount(lens);
    forall k | 1 < k <= MAX_LEN ensures Count(lens, k) == 0 { CountAbsent(lens, k); }
    NextAbove(lens, 1, MAX_LEN);
    assert Next(lens, 1) == Count(lens, 1) <= 1;
    Pow2Of15();
    assert Pow2(14) == 16384;
    if Count(lens, 1) == 0 { assert Next(lens, MAX_LEN) == 0; } else { assert Next(lens, MAX_LEN) == 16384; }
  }

  lemma {:induction false} SingleCount(lens: seq<nat>)
    requires AtMostOneUsed(lens)
    ensures Count(lens, 1) <= 1
  {
    if lens != [] {
      var n := |lens| - 1;
      if lens[n] == 1 {
        assert 1 !in lens[..n];
        CountAbsent(lens[..n], 1);
      } else {
        SingleCount(lens[..n]);
      }
    }
  }

  // ---------- assigning the codes

  /** The canonical codes of `lens`, reversed for sending. */
  ghost predicate GoodCodes(codes: seq<nat>, lens: seq<nat>) {
    && |lens| <= |codes|
    && forall s :: 0 <= s < |lens| && lens[s] > 0 ==> codes[s] < Pow2(lens[s]) && Lsb(codes[s], lens[s]) == Code(lens, s)
  }

  /** The first code of each length. */
  method FirstCodes(num: array<int>, limit: nat, ghost lens: seq<nat>) returns (next: array<nat>)
    requires num.Length == CL.MAX_SUPPORTED + 1 && 1 <= limit <= MAX_LEN
    requires forall k :: 1 <= k <= limit ==> num[k] == Count(lens, k)
    ensures fresh(next) && next.Length == CL.MAX_SUPPORTED + 1
    ensures forall l :: 1 <= l <= limit ==> next[l] == First(lens, l)
  {
    next := new nat[CL.MAX_SUPPORTED + 1];
    next[1] := 0;
    var j, i := 0, 2;
    while i <= limit
      invariant 2 <= i <= limit + 1 && j == First(lens, i - 1)
      invariant forall l :: 1 <= l < i ==> next[l] == First(lens, l)
    {
      j := (j + num[i - 1]) * 2;
      next[i] := j;
      i := i + 1;
    }
  }

  method AssignCodes(sizes: array<nat>, codes: array<nat>, num: array<int>, tableLen: nat, limit: nat)
    requires tableLen <= sizes.Length && tableLen <= codes.Length && num.Length == CL.MAX_SUPPORTED + 1 && codes != sizes
    requires 1 <= limit <= MAX_LEN && HT.Bounded(sizes[..tableLen], limit) && NotOver(sizes[..tableLen])
    requires forall k :: 1 <= k <= limit ==> num[k] == Count(sizes[..tableLen], k)
    modifies codes
    ensures GoodCodes(codes[..], sizes[..tableLen])
  {
    hide Lsb, Pow2, First, HT.Bounded, NotOver, Count;
    ghost var lens := sizes[..tableLen];
    var next := FirstCodes(num, limit, lens);
    var i := 0;
    NoCodesYet(next[..], lens, limit);
    while i < tableLen
      invariant 0 <= i <= tableLen && sizes[..tableLen] == lens && next.Length == CL.MAX_SUPPORTED + 1
      invariant NextCodes(next[..], lens, limit, i) && CodesTo(codes[..], lens, i)
    {
      ghost var was, before := next[..], codes[..];
      var size := sizes[i];
      assert size == lens[i];
      if size != 0 {
        CodeNext(was, lens, limit, i);
        var code := next[size];
        next[size] := next[size] + 1;
        assert next[..] == was[size := code + 1];
        var rev := ReverseCode(code, size);
        codes[i] := rev;
        assert codes[..] == before[i := rev];
      } else {
        NoCodeNext(was, lens, limit, i);
      }
      i := i + 1;
    }
  }

  /** The next free code of each length, when the first `i` symbols have theirs. */
  ghost predicate NextCodes(next: seq<nat>, lens: seq<nat>, limit: nat, i: nat) {
    && limit < |next| && i <= |lens|
    && forall l :: 1 <= l <= limit ==> next[l] == First(lens, l) + Count(lens[..i], l)
  }

  ghost predicate CodesTo(codes: seq<nat>, lens: seq<nat>, i: nat) {
    && i <= |lens| <= |codes|
    && forall s :: 0 <= s < i && lens[s] > 0 ==> codes[s] < Pow2(lens[s]) && Lsb(codes[s], lens[s]) == Code(lens, s)
  }

  lemma NoCodesYet(next: seq<nat>, lens: seq<nat>, limit: nat)
    requires limit < |next| && forall l :: 1 <= l <= limit ==> next[l] == First(lens, l)
    ensures NextCodes(next, lens, limit, 0)
  {
    hide First;
  }

  lemma CodeNext(next: seq<nat>, lens: seq<nat>, limit: nat, i: nat)
    requires NextCodes(next, lens, limit, i) && i < |lens| && lens[i] > 0 && HT.Bounded(lens, limit) && limit <= MAX_LEN && NotOver(lens)
    ensures 1 <= lens[i] <= limit && next[lens[i]] == CodeVal(lens, i) < Pow2(lens[i])
    ensures NextCodes(next[lens[i] := next[lens[i]] + 1], lens, limit, i + 1)
  {
    hide First, Pow2;
    CodeBound(lens, i);
    assert lens[..i + 1][..i] == lens[..i];
  }

  lemma NoCodeNext(next: seq<nat>, lens: seq<nat>, limit: nat, i: nat)
    requires NextCodes(next, lens, limit, i) && i < |lens| && lens[i] == 0
    ensures NextCodes(next, lens, limit, i + 1)
  {
    hide First;
    assert lens[..i + 1][..i] == lens[..i];
  }

  // ---------- the table

  /** One of the compressor's three tables: counts, codes and code sizes of 288 symbols. */
  class Table {
    const count: array<Word16>
    const codes: array<nat>
    const sizes: array<nat>

    ghost predicate Valid() {
      count.Length == codes.Length == sizes.Length == MAX_SYMBOLS && codes != sizes
    }

    constructor ()
      ensures Valid() && fresh(count) && fresh(codes) && fresh(sizes)
      ensures forall i :: 0 <= i < MAX_SYMBOLS ==> count[i] == 0
    {
      count := new Word16[MAX_SYMBOLS](_ => 0);
      codes := new nat[MAX_SYMBOLS](_ => 0);
      sizes := new nat[MAX_SYMBOLS](_ => 0);
    }

    /** A static table: the sizes are given. */
    method AssignStatic(tableLen: nat)
      requires Valid() && tableLen <= MAX_SYMBOLS
      requires HT.Bounded(sizes[..tableLen], MAX_LEN) && NotOver(sizes[..tableLen])
      modifies codes
      ensures GoodCodes(codes[..], sizes[..tableLen])
    {
      var num := new int[CL.MAX_SUPPORTED + 1](_ => 0);
      var i := 0;
      while i < tableLen
        invariant 0 <= i <= tableLen
        invariant forall l :: 0 <= l <= CL.MAX_SUPPORTED ==> num[l] == Count(sizes[..i], l)
      {
        assert sizes[..i + 1][..i] == sizes[..i] && sizes[..tableLen][i] == sizes[i];
        num[sizes[i]] := num[sizes[i]] + 1;
        i := i + 1;
      }
      AssignCodes(sizes, codes, num, tableLen, MAX_LEN);
    }
 
    /** A dynamic table: a symbol gets a code exactly when its count is not zero. The codes of at
        most 15 bits are nearly as short as any. */
    method Optimize(tableLen: nat, limit: nat)
      requires Valid() && tableLen <= MAX_SYMBOLS && Sum(count[..tableLen]) < 65536
      requires limit == 15 || (limit == 7 && tableLen <= 128)
      modifies codes, sizes
      ensures GoodLens(sizes[..tableLen], limit) && GoodCodes(codes[..], sizes[..tableLen])
      ensures forall i :: 0 <= i < tableLen ==> (sizes[i] > 0 <==> count[i] > 0)
      ensures forall i :: tableLen <= i < MAX_SYMBOLS ==> sizes[i] == 0
      ensures limit == 15 ==> NearCheapest(count[..tableLen], sizes[..tableLen])
    {
      hide Chosen, Counted, Giving, GoodLens, GoodCodes, Cheapest, NearCheapest, CL.Lengthened, CL.Codes, CL.Space, HT.Kraft, HT.Bounded, Sum, NotOver, Pow2, Count;
      ghost var used := count[..tableLen];
      var syms, n, num := SizeSyms(count, tableLen);
      CountedFacts(num[..], Keys(syms[..n]));
      ghost var num0 := num[..];
      SmallTable(n, limit);
      ghost var pick := CL.EnforceMaxCodeSize(num, n, limit);
      if n <= 1 { FewCodes(num[..], Keys(syms[..n]), limit); }
      ChosenFacts(syms[..n], used);
      GiveSizes(sizes, syms, n, num, limit);
      GivenLens(sizes[..], syms[..n], num[..], limit, used);
      assert sizes[..][..tableLen] == sizes[..tableLen];
      if limit == 15 { CloseToCheapest(sizes[..], syms[..n], num0, num[..], pick, used); }
      GoodLensFacts(sizes[..tableLen], limit);
      AssignCodes(sizes, codes, num, tableLen, limit);
    }
  }

  /** The used symbols by rising count. */
  method SortSyms(count: array<Word16>, tableLen: nat) returns (syms: array<SymFreq>, n: nat)
    requires tableLen <= count.Length && tableLen <= MAX_SYMBOLS && Sum(count[..tableLen]) < 65536
    ensures fresh(syms) && n <= tableLen && syms.Length == MAX_SYMBOLS && Gathered(syms[..n], count[..tableLen])
    ensures HT.Sorted(Keys(syms[..n])) && HT.Total(Keys(syms[..n])) == Sum(count[..tableLen]) && forall k :: 0 <= k < n ==> syms[k].key >= 1
  {
    hide Gathered, HT.Total, Sum, HT.Sorted, RS.StableRearrangement, RS.SortedByKey;
    var syms0, syms1 := new SymFreq[MAX_SYMBOLS](_ => SymFreq(0, 0)), new SymFreq[MAX_SYMBOLS](_ => SymFreq(0, 0));
    n := GatherSyms(count, tableLen, syms0);
    ghost var s0 := syms0[..n];
    syms := RS.RadixSortSyms(n, syms0, syms1);
    SortedGathered(syms[..n], s0, count[..tableLen]);
    ghost var s := syms[..n];
    PositiveKeys(s, count[..tableLen]);
    assert forall k :: 0 <= k < n ==> syms[k] == s[k];
  }

  /** The sorting half of `Optimize`: the used symbols by falling code length, and the length counts. */
  method SizeSyms(count: array<Word16>, tableLen: nat) returns (syms: array<SymFreq>, n: nat, num: array<int>)
    requires tableLen <= count.Length && tableLen <= MAX_SYMBOLS && Sum(count[..tableLen]) < 65536
    ensures fresh(syms) && fresh(num) && n <= tableLen && syms.Length == MAX_SYMBOLS
    ensures Chosen(syms[..n], count[..tableLen]) && Counted(num[..], Keys(syms[..n]))
    ensures n >= 2 ==> CL.Space(num[..], CL.MAX_SUPPORTED, CL.MAX_SUPPORTED) == Pow2(CL.MAX_SUPPORTED)
    ensures n == 1 ==> Keys(syms[..n])[0] == 1
    ensures n >= 2 ==> Cheapest(syms[..n], count[..tableLen])
  {
    hide Gathered, Chosen, Counted, HT.Total, Sum, HT.Sorted, HT.Kraft, HT.Bounded, MR.Optimal, MR.SameSyms, MR.Spread, Cheapest;
    syms, n := SortSyms(count, tableLen);
    ghost var f1 := syms[..];
    assert f1[..n] == syms[..n];
    MR.CalculateMinimumRedundancy(syms, n);
    KeptSyms(syms[..], f1, n, count[..tableLen]);
    KeptCosts(syms[..], f1, n, count[..tableLen]);
    if n >= 2 { CheapestHere(syms[..n], Keys(f1[..n]), count[..tableLen]); }
    assert syms[..][..n] == syms[..n];
    num := new int[CL.MAX_SUPPORTED + 1](_ => 0);
    KeyBounds(syms[..n]);
    CountLengths(syms, n, num);
    CountedFacts(num[..], Keys(syms[..n]));
  }

  // ---------- the steps of `Optimize`

  lemma SortedGathered(r: seq<SymFreq>, s: seq<SymFreq>, count: seq<Word16>)
    requires GatheredTo(s, count) && RS.SortedByKey(r) && RS.StableRearrangement(r, s)
    ensures Gathered(r, count) && HT.Sorted(Keys(r)) && HT.Total(Keys(r)) == Sum(count)
  {
    StableIsPermutation(r, s);
    GatheredPermuted(r, s, count);
    TotalPermuted(r, s);
  }

  lemma PositiveKeys(s: seq<SymFreq>, count: seq<Word16>)
    requires Gathered(s, count)
    ensures forall k :: 0 <= k < |s| ==> s[k].key >= 1
  {
  }

  lemma KeyBounds(s: seq<SymFreq>)
    requires HT.Bounded(Keys(s), CL.MAX_SUPPORTED)
    ensures forall k :: 0 <= k < |s| ==> s[k].key <= CL.MAX_SUPPORTED
  {
    assert forall k :: 0 <= k < |s| ==> Keys(s)[k] == s[k].key;
  }

  lemma CountedFacts(num: seq<int>, lens: seq<nat>)
    requires Counted(num, lens)
    ensures |num| == CL.MAX_SUPPORTED + 1 && HT.Bounded(lens, CL.MAX_SUPPORTED)
    ensures CL.NonNegative(num, CL.MAX_SUPPORTED) && CL.Codes(num, CL.MAX_SUPPORTED) == |lens|
    ensures CL.Space(num, CL.MAX_SUPPORTED, CL.MAX_SUPPORTED) == HT.Kraft(lens, CL.MAX_SUPPORTED)
  {
  }

  lemma SmallTable(n: nat, limit: nat)
    requires n <= MAX_SYMBOLS && (limit == 15 || (limit == 7 && n <= 128))
    ensures n <= Pow2(limit)
  {
    Pow2Of15();
    assert Pow2(7) == 128;
  }

  lemma ChosenFacts(s: seq<SymFreq>, count: seq<Word16>)
    requires Chosen(s, count)
    ensures forall k :: 0 <= k < |s| ==> s[k].sym < |count|
    ensures forall j, k :: 0 <= j < k < |s| ==> s[j].sym != s[k].sym
  {
  }

  lemma GoodLensFacts(lens: seq<nat>, limit: nat)
    requires GoodLens(lens, limit)
    ensures HT.Bounded(lens, limit) && NotOver(lens)
  {
  }

  /** `s` lists the symbols with a non-zero count, each once. */
  ghost predicate Chosen(s: seq<SymFreq>, count: seq<Word16>) {
    && (forall k :: 0 <= k < |s| ==> s[k].sym < |count| && count[s[k].sym] > 0)
    && (forall j, k :: 0 <= j < k < |s| ==> s[j].sym != s[k].sym)
    && (forall i :: 0 <= i < |count| && count[i] > 0 ==> i in Syms(s))
  }

  lemma KeptSyms(t: seq<SymFreq>, s: seq<SymFreq>, n: nat, count: seq<Word16>)
    requires MR.SameSyms(t, s, n) && Gathered(s[..n], count)
    ensures Chosen(t[..n], count)
  {
    assert Syms(t[..n]) == Syms(s[..n]);
  }

  /** The entries of `v` for the listed symbols. */
  function Picked(v: seq<nat>, s: seq<SymFreq>): (r: seq<nat>)
    requires forall k :: 0 <= k < |s| ==> s[k].sym < |v|
    ensures |r| == |s|
  {
    seq(|s|, k requires 0 <= k < |s| => v[s[k].sym])
  }

  /** The keys of `s` are the lengths of a cheapest code for the counts. */
  ghost predicate Cheapest(s: seq<SymFreq>, count: seq<Word16>) {
    && Chosen(s, count) && LC.Falling(Keys(s)) && HT.Total(Picked(count, s)) == Sum(count) && HT.Sorted(Picked(count, s))
    && MR.Optimal(Picked(count, s), Keys(s)) && MR.Spread(Picked(count, s), Keys(s))
  }

  lemma KeptCosts(t: seq<SymFreq>, s: seq<SymFreq>, n: nat, count: seq<Word16>)
    requires MR.SameSyms(t, s, n) && Gathered(s[..n], count) && Chosen(t[..n], count)
    ensures Picked(count, t[..n]) == Keys(s[..n])
  {
    forall k | 0 <= k < n ensures Picked(count, t[..n])[k] == Keys(s[..n])[k] {
      assert s[..n][k].sym == t[k].sym;
    }
  }

  lemma CheapestHere(s: seq<SymFreq>, w: seq<nat>, count: seq<Word16>)
    requires Chosen(s, count) && forall i, j :: 0 <= i <= j < |s| ==> s[i].key >= s[j].key >= 1
    requires Picked(count, s) == w && HT.Total(w) == Sum(count) && HT.Sorted(w) && MR.Optimal(w, Keys(s)) && MR.Spread(w, Keys(s))
    ensures Cheapest(s, count)
  {
    hide Chosen, HT.Total, Sum, HT.Sorted, MR.Optimal, MR.Spread;
  }

  lemma FewCodes(num: seq<int>, lens: seq<nat>, limit: nat)
    requires Counted(num, lens) && |lens| <= 1 && (lens != [] ==> lens[0] == 1) && 1 <= limit <= MAX_LEN
    ensures CL.Codes(num, limit) == |lens| && CL.NonNegative(num, limit) && (lens != [] ==> CL.Codes(num, 1) == 1)
    ensures forall l :: 2 <= l <= limit ==> num[l] == 0
  {
    CL.CodesGrow(num, limit, CL.MAX_SUPPORTED);
    if lens != [] {
      assert lens[..0] == [];
      assert num[1] == Count(lens, 1) == 1;
      assert CL.Codes(num, 1) == 1;
      CL.CodesGrow(num, 1, limit);
    }
  }

  lemma CountTrim(lens: seq<nat>, n: nat, l: nat)
    requires n <= |lens| && l > 0 && forall i :: n <= i < |lens| ==> lens[i] == 0
    ensures Count(lens[..n], l) == Count(lens, l)
  {
    assert lens == lens[..n] + lens[n..];
    CountSplit(lens[..n], lens[n..], l);
    CountZeros(lens[n..], l);
  }

  lemma GivenLens(all: seq<nat>, s: seq<SymFreq>, num: seq<int>, limit: nat, count: seq<Word16>)
    requires Giving(all, s, 0, num, limit, limit + 1, 0) && Chosen(s, count) && |count| <= |all| && 1 <= limit
    requires |s| >= 2 ==> CL.Space(num, limit, limit) == Pow2(limit)
    requires |s| <= 1 ==> forall l :: 2 <= l <= limit ==> num[l] == 0
    ensures GoodLens(all[..|count|], limit)
    ensures forall l :: 1 <= l <= limit ==> num[l] == Count(all[..|count|], l)
    ensures forall i :: 0 <= i < |count| ==> (all[i] > 0 <==> count[i] > 0)
    ensures forall i :: |count| <= i < |all| ==> all[i] == 0
  {
    var lens := all[..|count|];
    GivenToUsed(all, s, num, limit, count);
    forall l | 1 <= l <= limit
      ensures num[l] == Count(lens, l)
    {
      CountTrim(all, |count|, l);
    }
    if |s| >= 2 {
      LensComplete(lens, num, limit);
    } else {
      forall i | 0 <= i < |lens|
        ensures lens[i] <= 1
      {
        RankBelowAll(lens, i);
      }
      OneSymbol(lens, s);
      LensSingle(lens);
    }
  }

  lemma RankBelowAll(lens: seq<nat>, i: nat)
    requires i < |lens|
    ensures Count(lens, lens[i]) > 0
  {
    assert lens[..|lens|] == lens;
    RankBelow(lens, i, |lens|);
  }

  lemma OneSymbol(lens: seq<nat>, s: seq<SymFreq>)
    requires |s| <= 1 && forall i :: 0 <= i < |lens| && lens[i] > 0 ==> i in Syms(s)
    ensures AtMostOneUsed(lens)
  {
  }

  /** No prefix code for the whole alphabet makes the counted text much shorter: at most one bit in
      270 counted symbols, for every symbol of the alphabet. With up to 286 symbols in use no text takes
      more than 8.69 bits a symbol. */
  ghost predicate NearCheapest(count: seq<Word16>, lens: seq<nat>) {
    && |lens| == |count| && (NoneFrom(count, 286) ==> 100 * HT.Cost(count, lens) <= 869 * Sum(count))
    && forall rival: seq<nat>, limit: nat :: |rival| == |count| && HT.Feasible(rival, limit) && 0 !in rival ==>
         270 * HT.Cost(count, lens) <= 270 * HT.Cost(count, rival) + |count| * Sum(count)
  }

  predicate NoneFrom(count: seq<Word16>, n: nat) { forall i :: n <= i < |count| ==> count[i] == 0 }

  lemma {:induction false} SumIsTotal(count: seq<Word16>)
    ensures HT.Total(count) == Sum(count)
  {
    if count != [] {
      SumIsTotal(count[..|count| - 1]);
    }
  }

  /** Different numbers below `n` are at most `n`. */
  lemma {:induction false} FewSyms(s: seq<SymFreq>, n: nat)
    requires forall k :: 0 <= k < |s| ==> s[k].sym < n
    requires forall j, k :: 0 <= j < k < |s| ==> s[j].sym != s[k].sym
    ensures |s| <= n
    decreases n
  {
    if s != [] {
      if k :| 0 <= k < |s| && s[k].sym == n - 1 {
        FewSyms(s[..k] + s[k + 1..], n - 1);
      } else {
        assert s[0].sym < n;
        FewSyms(s, n - 1);
      }
    }
  }

  /** What lies outside the listed symbols is zero. */
  ghost predicate Within(v: seq<nat>, s: seq<SymFreq>) {
    && (forall k :: 0 <= k < |s| ==> s[k].sym < |v|)
    && (forall j, k :: 0 <= j < k < |s| ==> s[j].sym != s[k].sym)
    && (forall i :: 0 <= i < |v| && v[i] > 0 ==> i in Syms(s))
  }

  /** Picking the listed entries loses nothing. */
  lemma {:induction false} PickAll(v: seq<nat>, s: seq<SymFreq>)
    requires Within(v, s)
    ensures HT.Total(Picked(v, s)) == HT.Total(v)
    ensures forall l :: l > 0 ==> Count(Picked(v, s), l) == Count(v, l)
    decreases |s|
  {
    if s == [] {
      LC.AllZero(v);
      forall l: nat | l > 0 ensures Count(v, l) == 0 { CountZeros(v, l); }
    } else {
      var n := |s| - 1;
      var p := s[n].sym;
      var v' := v[p := 0];
      WithoutLast(v, s);
      PickAll(v', s[..n]);
      assert Picked(v, s)[..n] == Picked(v', s[..n]);
      HT.TotalUpdate(v, p, 0);
      forall l: nat | l > 0 ensures Count(Picked(v, s), l) == Count(v, l) { CountUpdate(v, p, 0, l); }
    }
  }

  lemma WithoutLast(v: seq<nat>, s: seq<SymFreq>)
    requires Within(v, s) && s != []
    ensures Within(v[s[|s| - 1].sym := 0], s[..|s| - 1])
  {
    var n := |s| - 1;
    var v' := v[s[n].sym := 0];
    forall i | 0 <= i < |v'| && v'[i] > 0 ensures i in Syms(s[..n]) {
      SymsIn(s, i);
      var k :| 0 <= k < |s| && s[k].sym == i;
      assert Syms(s[..n])[k] == i;
    }
  }

  lemma PickedCost(count: seq<Word16>, lens: seq<nat>, s: seq<SymFreq>)
    requires Chosen(s, count) && |lens| == |count|
    ensures HT.Cost(count, lens) == HT.Cost(Picked(count, s), Picked(lens, s))
  {
    var v := HT.Products(count, lens);
    assert Within(v, s);
    PickAll(v, s);
    assert Picked(v, s) == HT.Products(Picked(count, s), Picked(lens, s));
  }

  lemma PickedRival(rival: seq<nat>, limit: nat, s: seq<SymFreq>, count: seq<Word16>)
    requires Chosen(s, count) && |rival| == |count| && HT.Feasible(rival, limit)
    ensures HT.Feasible(Picked(rival, s), limit)
  {
    var all := HT.Terms(rival, limit);
    var v: seq<nat> := seq(|all|, i requires 0 <= i < |all| => if i in Syms(s) then all[i] else 0);
    HT.TotalMono(v, all);
    assert Within(v, s);
    PickAll(v, s);
    forall k | 0 <= k < |s| ensures s[k].sym in Syms(s) { SymsIn(s, s[k].sym); }
    assert Picked(v, s) == HT.Terms(Picked(rival, s), limit);
  }

  /** The lengths given, in the order of the counts. */
  lemma GivenRanked(all: seq<nat>, s: seq<SymFreq>, num: seq<int>, count: seq<Word16>)
    requires Giving(all, s, 0, num, 15, 16, 0) && Chosen(s, count) && |count| <= |all|
    ensures LC.Ranked(Picked(all[..|count|], s), num) && LC.Tallied(Picked(all[..|count|], s), num, 15)
    ensures HT.Bounded(Picked(all[..|count|], s), 15)
  {
    hide LC.InClass, CL.Codes;
    var f := Picked(all[..|count|], s);
    assert Within(all, s);
    PickAll(all, s);
    assert f == Picked(all, s);
    forall j | 0 <= j < |f| ensures LC.InClass(num, f[j], |f| - 1 - j) {
      assert f[j] == all[s[j].sym];
    }
  }

  lemma CloseToCheapest(all: seq<nat>, s: seq<SymFreq>, num0: seq<int>, num: seq<int>, pick: nat, count: seq<Word16>)
    requires Giving(all, s, 0, num, 15, 16, 0) && Chosen(s, count) && |s| <= |count| <= |all| && |count| <= 288
    requires Counted(num0, Keys(s)) && CL.NonNegative(num, 15)
    requires |s| >= 2 ==> Cheapest(s, count) && CL.Lengthened(num0, num, pick, 15, |s|)
    requires |s| == 1 ==> |num| > 15 && CL.Codes(num, 1) == 1
    ensures NearCheapest(count, all[..|count|])
  {
    var lens := all[..|count|];
    forall rival: seq<nat>, limit: nat | |rival| == |count| && HT.Feasible(rival, limit) && 0 !in rival
      ensures 270 * HT.Cost(count, lens) <= 270 * HT.Cost(count, rival) + |count| * Sum(count)
    {
      CloseToRival(all, s, num0, num, pick, count, rival, limit);
    }
    if NoneFrom(count, 286) { FlatHere(all, s, num0, num, pick, count); }
  }

  lemma FlatHere(all: seq<nat>, s: seq<SymFreq>, num0: seq<int>, num: seq<int>, pick: nat, count: seq<Word16>)
    requires Giving(all, s, 0, num, 15, 16, 0) && Chosen(s, count) && |s| <= |count| <= |all| && |count| <= 288
    requires Counted(num0, Keys(s)) && CL.NonNegative(num, 15) && NoneFrom(count, 286)
    requires |s| >= 2 ==> Cheapest(s, count) && CL.Lengthened(num0, num, pick, 15, |s|)
    requires |s| == 1 ==> |num| > 15 && CL.Codes(num, 1) == 1
    ensures 100 * HT.Cost(count, all[..|count|]) <= 869 * Sum(count)
  {
    hide Giving, Counted, Cheapest, CL.Lengthened, HT.Feasible, HT.Cost, Sum, CL.Codes, LC.Ranked, LC.Tallied, HT.Bounded, CL.NonNegative;
    var lens := all[..|count|];
    PickedCost(count, lens, s);
    GivenRanked(all, s, num, count);
    FewSyms(s, 286);
    if |s| >= 2 {
      FlatPicked(s, Picked(lens, s), num0, num, pick, count);
    } else if |s| == 1 {
      var one: seq<nat> := [1];
      OneCost(Picked(count, s), Picked(lens, s), one, num);
      OneBit(Picked(count, s), one);
      assert Within(count, s);
      PickAll(count, s);
      SumIsTotal(count);
    } else {
      NoCost(Picked(count, s), Picked(lens, s));
    }
  }

  lemma OneBit(w: seq<nat>, one: seq<nat>)
    requires |w| == 1 && one == [1]
    ensures HT.Cost(w, one) == HT.Total(w)
  {
    assert HT.Products(w, one) == w;
  }

  lemma FlatPicked(s: seq<SymFreq>, f: seq<nat>, num0: seq<int>, num: seq<int>, pick: nat, count: seq<Word16>)
    requires Cheapest(s, count) && Counted(num0, Keys(s)) && 2 <= |s| == |f| <= 286
    requires LC.Ranked(f, num) && LC.Tallied(f, num, 15) && HT.Bounded(f, 15) && CL.NonNegative(num, 15)
    requires CL.Lengthened(num0, num, pick, 15, |s|)
    ensures 100 * HT.Cost(Picked(count, s), f) <= 869 * Sum(count)
  {
    hide HT.Cost, HT.Total, Sum, HT.Feasible, LC.Ranked, LC.Falling, MR.Spread, CL.Codes, CL.Space, HT.Kraft, CL.Lengthened, HT.Sorted, MR.Optimal;
    FC.FlatCode(Picked(count, s), Keys(s), f, num0, num, pick);
  }

  lemma CloseToRival(all: seq<nat>, s: seq<SymFreq>, num0: seq<int>, num: seq<int>, pick: nat, count: seq<Word16>,
                     rival: seq<nat>, limit: nat)
    requires Giving(all, s, 0, num, 15, 16, 0) && Chosen(s, count) && |s| <= |count| <= |all| && |count| <= 288
    requires Counted(num0, Keys(s)) && CL.NonNegative(num, 15)
    requires |s| >= 2 ==> Cheapest(s, count) && CL.Lengthened(num0, num, pick, 15, |s|)
    requires |s| == 1 ==> |num| > 15 && CL.Codes(num, 1) == 1
    requires |rival| == |count| && HT.Feasible(rival, limit) && 0 !in rival
    ensures 270 * HT.Cost(count, all[..|count|]) <= 270 * HT.Cost(count, rival) + |count| * Sum(count)
  {
    hide Giving, Counted, Cheapest, CL.Lengthened, HT.Feasible, HT.Cost, Sum, CL.Codes, LC.Ranked, LC.Tallied, HT.Bounded, CL.NonNegative;
    var lens := all[..|count|];
    PickedCost(count, lens, s);
    PickedCost(count, rival, s);
    GivenRanked(all, s, num, count);
    if |s| >= 2 {
      PickedRival(rival, limit, s, count);
      RivalCost(s, Picked(lens, s), Picked(rival, s), limit, num0, num, pick, count);
    } else if |s| == 1 {
      OneCost(Picked(count, s), Picked(lens, s), Picked(rival, s), num);
    } else {
      NoCost(Picked(count, s), Picked(lens, s));
    }
  }

  lemma NoCost(w: seq<nat>, f: seq<nat>)
    requires |w| == |f| == 0
    ensures HT.Cost(w, f) == 0
  {
  }

  lemma RivalCost(s: seq<SymFreq>, f: seq<nat>, rival: seq<nat>, limit: nat, num0: seq<int>, num: seq<int>, pick: nat, count: seq<Word16>)
    requires Cheapest(s, count) && Counted(num0, Keys(s)) && 2 <= |s| == |f| == |rival| && |s| <= |count| <= 288
    requires LC.Ranked(f, num) && LC.Tallied(f, num, 15) && HT.Bounded(f, 15) && CL.NonNegative(num, 15)
    requires CL.Lengthened(num0, num, pick, 15, |s|) && HT.Feasible(rival, limit)
    ensures 270 * HT.Cost(Picked(count, s), f) <= 270 * HT.Cost(Picked(count, s), rival) + |count| * Sum(count)
  {
    hide HT.Cost, HT.Total, Sum, HT.Feasible, LC.Ranked, LC.Falling, MR.Spread, CL.Codes, CL.Space, HT.Kraft, CL.Lengthened;
    LC.LimitedCost(Picked(count, s), Keys(s), f, num0, num, pick);
    MulMono(|s|, |count|, Sum(count));
  }

  lemma OneCost(w: seq<nat>, f: seq<nat>, rival: seq<nat>, num: seq<int>)
    requires |w| == |f| == |rival| == 1 && LC.Ranked(f, num) && CL.NonNegative(num, 15) && HT.Bounded(f, 15) && rival[0] >= 1
    requires |num| > 15 && CL.Codes(num, 1) == 1
    ensures HT.Cost(w, f) <= HT.Cost(w, rival)
  {
    assert LC.InClass(num, f[0], 0);
    if f[0] > 1 { CL.CodesGrow(num, 1, f[0] - 1); }
    MulMono(f[0], rival[0], w[0]);
    HT.TotalMono(HT.Products(w, f), HT.Products(w, rival));
  }

  lemma GivenToUsed(all: seq<nat>, s: seq<SymFreq>, num: seq<int>, limit: nat, count: seq<Word16>)
    requires Giving(all, s, 0, num, limit, limit + 1, 0) && Chosen(s, count) && |count| <= |all|
    ensures HT.Bounded(all, limit)
    ensures forall i :: 0 <= i < |count| ==> (all[i] > 0 <==> count[i] > 0)
    ensures forall i :: |count| <= i < |all| ==> all[i] == 0
    ensures forall i :: 0 <= i < |all| && all[i] > 0 ==> i in Syms(s)
  {
    forall i | 0 <= i < |all|
      ensures all[i] <= limit
      ensures all[i] > 0 <==> i < |count| && count[i] > 0
    {
      SymsIn(s, i);
      if i in Syms(s) {
        var k :| 0 <= k < |s| && s[k].sym == i;
        assert 1 <= all[s[k].sym] <= limit;
      }
    }
  }
}
