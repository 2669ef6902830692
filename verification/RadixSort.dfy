/** `tdefl_radix_sort_syms`: a two-pass least-significant-byte-first radix sort by 16-bit key. */
module RadixSort {
  import opened SymFreqs

  function Digit(key: Word16, pass: nat): (d: nat)
    requires pass <= 1
    ensures d < 256
  {
    if pass == 0 then key % 256 else key / 256
  }

  /** The elements of `s` whose digit is `d`, in order. */
  function Bucket(s: seq<SymFreq>, pass: nat, d: nat): (r: seq<SymFreq>)
    requires pass <= 1
  {
    if s == [] then []
    else
      var x := s[|s| - 1];
      Bucket(s[..|s| - 1], pass, d) + (if Digit(x.key, pass) == d then [x] else [])
  }

  /** One pass: the buckets of the digits below `d`, one after the other. */
  function Distributed(s: seq<SymFreq>, pass: nat, d: nat): seq<SymFreq>
    requires pass <= 1
  {
    if d == 0 then [] else Distributed(s, pass, d - 1) + Bucket(s, pass, d - 1)
  }

  /** The elements of `s` with the key `k`, in order. */
  function WithKey(s: seq<SymFreq>, k: Word16): seq<SymFreq> {
    if s == [] then []
    else
      var x := s[|s| - 1];
      WithKey(s[..|s| - 1], k) + (if x.key == k then [x] else [])
  }

  ghost predicate SortedByKey(s: seq<SymFreq>) {
    forall i, j :: 0 <= i < j < |s| ==> s[i].key <= s[j].key
  }

  /** `r` is a stable rearrangement of `s`: equal keys keep their order, and nothing is lost. */
  ghost predicate StableRearrangement(r: seq<SymFreq>, s: seq<SymFreq>) {
    |r| == |s| && forall k: Word16 :: WithKey(r, k) == WithKey(s, k)
  }

  lemma {:induction false} BucketConcat(a: seq<SymFreq>, b: seq<SymFreq>, pass: nat, d: nat)
    requires pass <= 1
    ensures Bucket(a + b, pass, d) == Bucket(a, pass, d) + Bucket(b, pass, d)
  {
    if b == [] {
      assert a + b == a;
    } else {
      assert (a + b)[..|a + b| - 1] == a + b[..|b| - 1];
      BucketConcat(a, b[..|b| - 1], pass, d);
    }
  }

  lemma {:induction false} WithKeyConcat(a: seq<SymFreq>, b: seq<SymFreq>, k: Word16)
    ensures WithKey(a + b, k) == WithKey(a, k) + WithKey(b, k)
  {
    if b == [] {
      assert a + b == a;
    } else {
      assert (a + b)[..|a + b| - 1] == a + b[..|b| - 1];
      WithKeyConcat(a, b[..|b| - 1], k);
    }
  }

  lemma WithKeyOne(x: SymFreq, k: Word16)
    ensures WithKey([x], k) == if x.key == k then [x] else []
  {
    assert [x][..0] == [];
  }

  lemma {:induction false} BucketDigit(s: seq<SymFreq>, pass: nat, d: nat)
    requires pass <= 1
    ensures forall i :: 0 <= i < |Bucket(s, pass, d)| ==> Digit(Bucket(s, pass, d)[i].key, pass) == d
    ensures forall i :: 0 <= i < |Bucket(s, pass, d)| ==> Bucket(s, pass, d)[i] in s
  {
    if s != [] {
      BucketDigit(s[..|s| - 1], pass, d);
    }
  }

  lemma {:induction false} BucketKey(s: seq<SymFreq>, pass: nat, d: nat, k: Word16)
    requires pass <= 1
    ensures WithKey(Bucket(s, pass, d), k) == if Digit(k, pass) == d then WithKey(s, k) else []
  {
    if s != [] {
      var n := |s| - 1;
      BucketKey(s[..n], pass, d, k);
      if Digit(s[n].key, pass) == d {
        assert Bucket(s, pass, d) == Bucket(s[..n], pass, d) + [s[n]];
        WithKeyConcat(Bucket(s[..n], pass, d), [s[n]], k);
        WithKeyOne(s[n], k);
      } else {
        assert Bucket(s, pass, d) == Bucket(s[..n], pass, d);
      }
    }
  }

  lemma NoneWithKey(k: Word16)
    ensures WithKey([], k) == []
  {
  }

  lemma {:induction false} DistributedKey(s: seq<SymFreq>, pass: nat, d: nat, k: Word16)
    requires pass <= 1
    ensures WithKey(Distributed(s, pass, d), k) == if Digit(k, pass) < d then WithKey(s, k) else []
  {
    hide Distributed, WithKey, Bucket;
    DistributedStep(s, pass, d);
    if d == 0 {
      NoneWithKey(k);
    } else {
      DistributedKey(s, pass, d - 1, k);
      WithKeyConcat(Distributed(s, pass, d - 1), Bucket(s, pass, d - 1), k);
      BucketKey(s, pass, d - 1, k);
    }
  }

  /** `a` may stand before `b` once the passes up to `pass` are done. */
  predicate InOrder(a: SymFreq, b: SymFreq, pass: nat) {
    if pass == 0 then a.key % 256 <= b.key % 256 else a.key <= b.key
  }

  ghost predicate Ordered(s: seq<SymFreq>, pass: nat) {
    forall i, j :: 0 <= i < j < |s| ==> InOrder(s[i], s[j], pass)
  }

  lemma {:induction false} BucketOrdered(s: seq<SymFreq>, pass: nat, d: nat)
    requires pass <= 1 && (pass == 1 ==> Ordered(s, 0))
    ensures Ordered(Bucket(s, pass, d), pass)
  {
    if s != [] {
      var n := |s| - 1;
      BucketOrdered(s[..n], pass, d);
      BucketDigit(s[..n], pass, d);
    }
  }

  lemma {:induction false} DistributedOrdered(s: seq<SymFreq>, pass: nat, d: nat)
    requires pass <= 1 && d <= 256 && (pass == 1 ==> Ordered(s, 0))
    ensures Ordered(Distributed(s, pass, d), pass)
    ensures forall i :: 0 <= i < |Distributed(s, pass, d)| ==> Digit(Distributed(s, pass, d)[i].key, pass) < d
  {
    if d > 0 {
      DistributedOrdered(s, pass, d - 1);
      BucketOrdered(s, pass, d - 1);
      BucketDigit(s, pass, d - 1);
    }
  }

  lemma {:induction false} DistributedLength(s: seq<SymFreq>, pass: nat, d: nat)
    requires pass <= 1 && d <= 256
    ensures s == [] ==> Distributed(s, pass, d) == []
    ensures s != [] ==> (|Distributed(s, pass, d)| ==
              |Distributed(s[..|s| - 1], pass, d)| + (if Digit(s[|s| - 1].key, pass) < d then 1 else 0))
  {
    if d > 0 {
      DistributedLength(s, pass, d - 1);
    }
  }

  lemma {:induction false} DistributedAll(s: seq<SymFreq>, pass: nat)
    requires pass <= 1
    ensures |Distributed(s, pass, 256)| == |s|
  {
    DistributedLength(s, pass, 256);
    if s != [] {
      DistributedAll(s[..|s| - 1], pass);
    }
  }

  lemma {:induction false} StartMono(s: seq<SymFreq>, pass: nat, d: nat, e: nat)
    requires pass <= 1 && d < e
    ensures |Distributed(s, pass, d)| + |Bucket(s, pass, d)| <= |Distributed(s, pass, e)|
    decreases e
  {
    if d + 1 < e {
      StartMono(s, pass, d, e - 1);
    }
  }

  /** A pass sorts stably by the digits seen so far. */
  lemma PassSpec(s: seq<SymFreq>, pass: nat)
    requires pass <= 1 && (pass == 1 ==> Ordered(s, 0))
    ensures Ordered(Distributed(s, pass, 256), pass)
    ensures StableRearrangement(Distributed(s, pass, 256), s)
  {
    DistributedOrdered(s, pass, 256);
    DistributedAll(s, pass);
    forall k: Word16
      ensures WithKey(Distributed(s, pass, 256), k) == WithKey(s, k)
    {
      DistributedKey(s, pass, 256, k);
    }
  }

  // ---------- the counts

  /** `hist` counts the digits of `s`: low bytes in the first half, high bytes in the second. */
  ghost predicate Histogram(hist: seq<nat>, s: seq<SymFreq>) {
    |hist| == 512 && forall pass, d :: 0 <= pass <= 1 && 0 <= d < 256 ==> hist[pass * 256 + d] == |Bucket(s, pass, d)|
  }

  method CountDigits(syms: array<SymFreq>, n: nat) returns (hist: array<nat>)
    requires n <= syms.Length
    ensures fresh(hist) && Histogram(hist[..], syms[..n])
  {
    hist := new nat[512](_ => 0);
    var i := 0;
    while i < n
      invariant 0 <= i <= n && hist.Length == 512
      invariant forall d :: 0 <= d < 256 ==> hist[d] == |Bucket(syms[..i], 0, d)|
      invariant forall d :: 0 <= d < 256 ==> hist[256 + d] == |Bucket(syms[..i], 1, d)|
    {
      assert syms[..i + 1][..i] == syms[..i];
      var freq := syms[i].key;
      hist[freq % 256] := hist[freq % 256] + 1;
      hist[256 + freq / 256] := hist[256 + freq / 256] + 1;
      i := i + 1;
    }
  }

  // ---------- one pass

  /** The part of the target that belongs to digit `d` starts with the elements of that digit among the first `i`. */
  ghost predicate Segment(target: seq<SymFreq>, s: seq<SymFreq>, i: nat, pass: nat, d: nat) {
    && i <= |s| && pass <= 1
    && var b := Bucket(s[..i], pass, d);
       var start := |Distributed(s, pass, d)|;
       start + |b| <= |target| && target[start..start + |b|] == b
  }

  ghost predicate Scattered(target: seq<SymFreq>, s: seq<SymFreq>, i: nat, pass: nat, offsets: seq<nat>) {
    && i <= |s| <= |target| && pass <= 1 && |offsets| == 256
    && (forall d :: 0 <= d < 256 ==> offsets[d] == |Distributed(s, pass, d)| + |Bucket(s[..i], pass, d)|)
    && (forall d :: 0 <= d < 256 ==> Segment(target, s, i, pass, d))
  }

  lemma SegmentStep(target: seq<SymFreq>, s: seq<SymFreq>, i: nat, pass: nat, p: nat, e: nat)
    requires i < |s| <= |target| && pass <= 1 && Segment(target, s, i, pass, e) && e < 256
    requires var d := Digit(s[i].key, pass);
             p == |Distributed(s, pass, d)| + |Bucket(s[..i], pass, d)| < |s|
    ensures Segment(target[p := s[i]], s, i + 1, pass, e)
  {
    hide Bucket, Distributed;
    var d := Digit(s[i].key, pass);
    var start, b := |Distributed(s, pass, e)|, Bucket(s[..i], pass, e);
    assert s[..i + 1][..i] == s[..i];
    BucketStep(s, i, pass, e);
    BucketGrows(s, i + 1, pass, e);
    BucketGrows(s, i + 1, pass, d);
    BucketStep(s, i, pass, d);
    if e == d {
      SetBehind(target, start, b, s[i]);
    } else {
      if e < d {
        StartMono(s, pass, e, d);
      } else {
        StartMono(s, pass, d, e);
      }
      SetOutside(target, start, b, p, s[i]);
    }
  }

  lemma BucketStep(s: seq<SymFreq>, i: nat, pass: nat, e: nat)
    requires i < |s| && pass <= 1
    ensures Bucket(s[..i + 1], pass, e) == Bucket(s[..i], pass, e) + if Digit(s[i].key, pass) == e then [s[i]] else []
  {
    assert s[..i + 1][..i] == s[..i];
  }

  lemma SetBehind(t: seq<SymFreq>, start: nat, b: seq<SymFreq>, x: SymFreq)
    requires start + |b| < |t| && t[start..start + |b|] == b
    ensures t[start + |b| := x][start..start + |b| + 1] == b + [x]
  {
    var u := t[start + |b| := x];
    assert u[start..start + |b|] == t[start..start + |b|];
  }

  lemma SetOutside(t: seq<SymFreq>, start: nat, b: seq<SymFreq>, p: nat, x: SymFreq)
    requires start + |b| <= |t| && t[start..start + |b|] == b && p < |t| && !(start <= p < start + |b|)
    ensures t[p := x][start..start + |b|] == b
  {
  }

  /** The next element's place is free and inside the target. */
  lemma ScatterStep(target: seq<SymFreq>, s: seq<SymFreq>, i: nat, pass: nat, offsets: seq<nat>)
    requires Scattered(target, s, i, pass, offsets) && i < |s|
    ensures offsets[Digit(s[i].key, pass)] < |s|
    ensures var d := Digit(s[i].key, pass);
            Scattered(target[offsets[d] := s[i]], s, i + 1, pass, offsets[d := offsets[d] + 1])
  {
    var d := Digit(s[i].key, pass);
    assert s[..i + 1][..i] == s[..i];
    BucketGrows(s, i + 1, pass, d);
    StartMono(s, pass, d, 256);
    DistributedAll(s, pass);
    assert offsets[d] < |s|;
    var target', next := target[offsets[d] := s[i]], i + 1;
    forall e | 0 <= e < 256
      ensures Segment(target', s, next, pass, e)
    {
      assert Segment(target, s, i, pass, e);
      SegmentStep(target, s, i, pass, offsets[d], e);
    }
  }

  lemma {:induction false} BucketGrows(s: seq<SymFreq>, i: nat, pass: nat, d: nat)
    requires i <= |s| && pass <= 1
    ensures |Bucket(s[..i], pass, d)| <= |Bucket(s, pass, d)|
  {
    assert s == s[..i] + s[i..];
    BucketConcat(s[..i], s[i..], pass, d);
  }

  lemma {:induction false} AllScattered(target: seq<SymFreq>, s: seq<SymFreq>, pass: nat, offsets: seq<nat>, d: nat)
    requires Scattered(target, s, |s|, pass, offsets) && d <= 256
    ensures |Distributed(s, pass, d)| <= |target|
    ensures target[..|Distributed(s, pass, d)|] == Distributed(s, pass, d)
  {
    if d > 0 {
      AllScattered(target, s, pass, offsets, d - 1);
      hide Scattered;
      AppendSegment(target, s, pass, offsets, d - 1);
    }
  }

  lemma AppendSegment(target: seq<SymFreq>, s: seq<SymFreq>, pass: nat, offsets: seq<nat>, d: nat)
    requires Scattered(target, s, |s|, pass, offsets) && d < 256
    ensures var start, b := |Distributed(s, pass, d)|, Bucket(s, pass, d);
            start + |b| <= |target| && target[..start + |b|] == target[..start] + b
  {
    hide Distributed, Bucket;
    assert s[..|s|] == s;
    assert Segment(target, s, |s|, pass, d);
    Glue(target, |Distributed(s, pass, d)|, Bucket(s, pass, d));
  }

  lemma Glue(t: seq<SymFreq>, start: nat, b: seq<SymFreq>)
    requires start + |b| <= |t| && t[start..start + |b|] == b
    ensures t[..start + |b|] == t[..start] + b
  {
  }

  method Scatter(cur: array<SymFreq>, target: array<SymFreq>, n: nat, hist: array<nat>, pass: nat)
    requires cur != target && n <= cur.Length && n <= target.Length && pass <= 1
    requires Histogram(hist[..], cur[..n])
    modifies target
    ensures target[..n] == Distributed(cur[..n], pass, 256)
  {
    ghost var s := cur[..n];
    var offsets := Offsets(hist, s, pass);
    Unscattered(target[..], s, pass, offsets[..]);
    ScatterAll(cur, target, n, pass, offsets);
    AllScattered(target[..], s, pass, offsets[..], 256);
    DistributedAll(s, pass);
    assert target[..][..n] == target[..n];
  }

  method ScatterAll(cur: array<SymFreq>, target: array<SymFreq>, n: nat, pass: nat, offsets: array<nat>)
    requires cur != target && n <= cur.Length && n <= target.Length && pass <= 1 && offsets.Length == 256
    requires Scattered(target[..], cur[..n], 0, pass, offsets[..])
    modifies target, offsets
    ensures Scattered(target[..], cur[..n], n, pass, offsets[..])
  {
    hide Scattered;
    ghost var s := cur[..n];
    var i := 0;
    while i < n
      invariant 0 <= i <= n && cur[..n] == s && Scattered(target[..], s, i, pass, offsets[..])
    {
      ghost var t, o := target[..], offsets[..];
      ScatterStep(t, s, i, pass, o);
      var d := Digit(cur[i].key, pass);
      target[offsets[d]] := cur[i];
      offsets[d] := offsets[d] + 1;
      assert target[..] == t[o[d] := s[i]] && offsets[..] == o[d := o[d] + 1];
      i := i + 1;
    }
  }

  lemma Unscattered(target: seq<SymFreq>, s: seq<SymFreq>, pass: nat, offsets: seq<nat>)
    requires |s| <= |target| && pass <= 1 && |offsets| == 256
    requires forall d :: 0 <= d < 256 ==> offsets[d] == |Distributed(s, pass, d)|
    ensures Scattered(target, s, 0, pass, offsets)
  {
    DistributedAll(s, pass);
    forall d | 0 <= d < 256
      ensures Segment(target, s, 0, pass, d)
    {
      StartMono(s, pass, d, 256);
    }
  }

  lemma HistogramAt(hist: seq<nat>, s: seq<SymFreq>, pass: nat, d: nat)
    requires Histogram(hist, s) && pass <= 1 && d < 256
    ensures |hist| == 512 && pass * 256 + d < 512 && hist[pass * 256 + d] == |Bucket(s, pass, d)|
  {
  }

  /** Where each digit's part starts. */
  method Offsets(hist: array<nat>, ghost s: seq<SymFreq>, pass: nat) returns (offsets: array<nat>)
    requires pass <= 1 && Histogram(hist[..], s)
    ensures fresh(offsets) && offsets.Length == 256
    ensures forall d :: 0 <= d < 256 ==> offsets[d] == |Distributed(s, pass, d)|
  {
    hide Bucket, Distributed, Histogram;
    offsets := new nat[256];
    var curOfs, i := 0, 0;
    DistributedStep(s, pass, 0);
    while i < 256
      invariant 0 <= i <= 256 && curOfs == |Distributed(s, pass, i)|
      invariant forall d :: 0 <= d < i ==> offsets[d] == |Distributed(s, pass, d)|
    {
      HistogramAt(hist[..], s, pass, i);
      DistributedStep(s, pass, i + 1);
      offsets[i] := curOfs;
      curOfs := curOfs + hist[pass * 256 + i];
      i := i + 1;
    }
  }

  // ---------- the sort

  lemma {:induction false} AllHighZero(s: seq<SymFreq>)
    requires |Bucket(s, 1, 0)| == |s|
    ensures forall i :: 0 <= i < |s| ==> s[i].key < 256
  {
    if s != [] {
      BucketShort(s[..|s| - 1]);
      AllHighZero(s[..|s| - 1]);
    }
  }

  lemma {:induction false} BucketShort(s: seq<SymFreq>)
    ensures |Bucket(s, 1, 0)| <= |s|
  {
    if s != [] {
      BucketShort(s[..|s| - 1]);
    }
  }

  lemma StableTrans(a: seq<SymFreq>, b: seq<SymFreq>, c: seq<SymFreq>)
    requires StableRearrangement(a, b) && StableRearrangement(b, c)
    ensures StableRearrangement(a, c)
  {
  }

  lemma {:induction false} InWithKey(s: seq<SymFreq>, x: SymFreq)
    ensures x in s <==> x in WithKey(s, x.key)
  {
    if s != [] {
      InWithKey(s[..|s| - 1], x);
    }
  }

  /** Sorts the first `n` elements stably by key; the result is in one of the two arrays. */
  method RadixSortSyms(n: nat, syms0: array<SymFreq>, syms1: array<SymFreq>) returns (sorted: array<SymFreq>)
    requires syms0 != syms1 && n <= syms0.Length && n <= syms1.Length
    modifies syms0, syms1
    ensures sorted == syms0 || sorted == syms1
    ensures SortedByKey(sorted[..n]) && StableRearrangement(sorted[..n], old(syms0[..n]))
  {
    var hist := CountDigits(syms0, n);
    ghost var s, h := syms0[..n], hist[..];
    var totalPasses := 2;
    assert hist[..][1 * 256 + 0] == |Bucket(s, 1, 0)|;
    while totalPasses > 1 && n == hist[(totalPasses - 1) * 256]
      invariant 1 <= totalPasses <= 2 && (totalPasses == 1 ==> |Bucket(s, 1, 0)| == n)
    {
      totalPasses := totalPasses - 1;
    }
    var curSyms, newSyms, pass := syms0, syms1, 0;
    assert StableRearrangement(s, s);
    while pass < totalPasses
      invariant 0 <= pass <= totalPasses && {curSyms, newSyms} == {syms0, syms1} && curSyms != newSyms
      invariant Histogram(hist[..], curSyms[..n]) && StableRearrangement(curSyms[..n], s)
      invariant pass >= 1 ==> Ordered(curSyms[..n], pass - 1)
    {
      ghost var r := curSyms[..n];
      PassSpec(r, pass);
      Scatter(curSyms, newSyms, n, hist, pass);
      StableTrans(newSyms[..n], r, s);
      SameHistogram(hist[..], newSyms[..n], r, pass);
      curSyms, newSyms := newSyms, curSyms;
      pass := pass + 1;
    }
    if totalPasses == 1 {
      LowIsKey(s, curSyms[..n]);
    }
    assert SortedByKey(curSyms[..n]);
    return curSyms;
  }

  lemma LowIsKey(s: seq<SymFreq>, r: seq<SymFreq>)
    requires |Bucket(s, 1, 0)| == |s| && Ordered(r, 0) && StableRearrangement(r, s)
    ensures SortedByKey(r)
  {
    AllHighZero(s);
    forall i | 0 <= i < |r|
      ensures r[i].key < 256
    {
      InWithKey(r, r[i]);
      InWithKey(s, r[i]);
    }
    assert forall i, j :: 0 <= i < j < |r| ==> InOrder(r[i], r[j], 0);
  }

  /** Rearranging does not change the counts. */
  lemma SameHistogram(hist: seq<nat>, r: seq<SymFreq>, s: seq<SymFreq>, p: nat)
    requires p <= 1 && Histogram(hist, s) && r == Distributed(s, p, 256)
    ensures Histogram(hist, r)
  {
    forall pass, d | 0 <= pass <= 1 && 0 <= d < 256
      ensures |Bucket(r, pass, d)| == |Bucket(s, pass, d)|
    {
      DistributedCount(s, p, 256, pass, d);
    }
  }

  /** How many elements of `s` have digit `d` in pass `pass` and a digit below `bound` in pass `p`. */
  function Both(s: seq<SymFreq>, p: nat, bound: nat, pass: nat, d: nat): nat
    requires pass <= 1 && p <= 1
  {
    if s == [] then 0
    else
      var x := s[|s| - 1];
      Both(s[..|s| - 1], p, bound, pass, d) + (if Digit(x.key, p) < bound && Digit(x.key, pass) == d then 1 else 0)
  }

  lemma {:induction false} DistributedCount(s: seq<SymFreq>, p: nat, bound: nat, pass: nat, d: nat)
    requires pass <= 1 && p <= 1 && bound <= 256
    ensures |Bucket(Distributed(s, p, bound), pass, d)| == Both(s, p, bound, pass, d)
    ensures bound == 256 ==> Both(s, p, bound, pass, d) == |Bucket(s, pass, d)|
  {
    hide Bucket, Both, Distributed;
    BothAll(s, p, bound, pass, d);
    DistributedStep(s, p, bound);
    if bound == 0 {
      NoBucket(pass, d);
    } else {
      DistributedCount(s, p, bound - 1, pass, d);
      BucketConcat(Distributed(s, p, bound - 1), Bucket(s, p, bound - 1), pass, d);
      BothStep(s, p, bound, pass, d);
    }
  }

  lemma DistributedStep(s: seq<SymFreq>, p: nat, bound: nat)
    requires p <= 1
    ensures Distributed(s, p, bound) == if bound == 0 then [] else Distributed(s, p, bound - 1) + Bucket(s, p, bound - 1)
  {
  }

  lemma NoBucket(pass: nat, d: nat)
    requires pass <= 1
    ensures Bucket([], pass, d) == []
  {
  }

  lemma {:induction false} BothAll(s: seq<SymFreq>, p: nat, bound: nat, pass: nat, d: nat)
    requires pass <= 1 && p <= 1
    ensures bound == 0 ==> Both(s, p, bound, pass, d) == 0
    ensures bound == 256 ==> Both(s, p, bound, pass, d) == |Bucket(s, pass, d)|
  {
    if s != [] {
      BothAll(s[..|s| - 1], p, bound, pass, d);
    }
  }

  lemma {:induction false} BothStep(s: seq<SymFreq>, p: nat, bound: nat, pass: nat, d: nat)
    requires pass <= 1 && p <= 1 && 1 <= bound
    ensures Both(s, p, bound, pass, d) == Both(s, p, bound - 1, pass, d) + |Bucket(Bucket(s, p, bound - 1), pass, d)|
  {
    if s != [] {
      var n := |s| - 1;
      BothStep(s[..n], p, bound, pass, d);
      BucketConcat(Bucket(s[..n], p, bound - 1), if Digit(s[n].key, p) == bound - 1 then [s[n]] else [], pass, d);
      assert [s[n]][..0] == [];
    }
  }
}
