/** `tdefl_huffman_enforce_max_code_size`: shortens an optimal set of code lengths to at most
    `limit` bits. `num[i]` is the number of codes of length i. */
module CodeSizeLimit {
  import opened Bits

  const MAX_SUPPORTED := 32

  /** Number of codes of lengths 1 to k. */
  function Codes(num: seq<int>, k: nat): int
    requires k < |num|
  {
    if k == 0 then 0 else Codes(num, k - 1) + num[k]
  }

  /** 2^limit times the Kraft sum of the codes of lengths 1 to k. */
  function Space(num: seq<int>, k: nat, limit: nat): int
    requires k < |num| && k <= limit
  {
    if k == 0 then 0 else Space(num, k - 1, limit) + num[k] * Pow2(limit - k)
  }

  predicate NonNegative(num: seq<int>, k: nat) {
    forall i :: 0 <= i < |num| && i <= k ==> num[i] >= 0
  }

  lemma {:induction false} SpaceUpdate(num: seq<int>, k: nat, limit: nat, i: nat, x: int)
    requires k < |num| && k <= limit && 1 <= i <= k
    ensures Space(num[i := x], k, limit) == Space(num, k, limit) + (x - num[i]) * Pow2(limit - i)
    ensures Codes(num[i := x], k) == Codes(num, k) + x - num[i]
  {
    if i < k {
      SpaceUpdate(num, k - 1, limit, i, x);
    } else {
      SpaceFrame(num, num[i := x], k - 1, limit);
      assert x * Pow2(limit - i) == num[i] * Pow2(limit - i) + (x - num[i]) * Pow2(limit - i);
    }
  }

  lemma {:induction false} SpaceFrame(a: seq<int>, b: seq<int>, k: nat, limit: nat)
    requires k < |a| == |b| && k <= limit && forall i :: 1 <= i <= k ==> a[i] == b[i]
    ensures Space(a, k, limit) == Space(b, k, limit) && Codes(a, k) == Codes(b, k)
  {
    if k > 0 {
      SpaceFrame(a, b, k - 1, limit);
    }
  }

  lemma {:induction false} SpaceScale(num: seq<int>, k: nat, limit: nat, more: nat)
    requires k < |num| && k <= limit
    ensures Space(num, k, limit + more) == Space(num, k, limit) * Pow2(more)
  {
    if k > 0 {
      SpaceScale(num, k - 1, limit, more);
      Pow2Add(limit - k, more);
      Factor(num[k], Pow2(limit - k), Pow2(more));
      Distribute(Space(num, k - 1, limit), num[k] * Pow2(limit - k), Pow2(more));
    }
  }

  lemma Factor(a: int, b: int, c: int)
    ensures a * (b * c) == (a * b) * c
  {
  }

  lemma Distribute(a: int, b: int, c: int)
    ensures (a + b) * c == a * c + b * c
  {
  }

  lemma Scaled(c: int, p: int, q: int)
    requires c >= 0 && 0 < p <= q
    ensures 0 <= c * p <= c * q && (c > 0 ==> c * p > 0)
  {
  }

  /** The codes of lengths from `limit` to m take some of the space that codes of length `limit` would take. */
  lemma {:induction false} TailSpace(num: seq<int>, limit: nat, m: nat, scale: nat)
    requires 1 <= limit <= m + 1 && m < |num| && limit <= scale && m <= scale && NonNegative(num, m)
    ensures var t := Space(num, m, scale) - Space(num, limit - 1, scale);
            var n := Codes(num, m) - Codes(num, limit - 1);
            0 <= t <= n * Pow2(scale - limit) && n >= 0 && (n > 0 ==> t > 0)
    decreases m
  {
    hide Pow2;
    if limit <= m {
      TailSpace(num, limit, m - 1, scale);
      Pow2Mono(scale - m, scale - limit);
      var c, d := num[m], Codes(num, m - 1) - Codes(num, limit - 1);
      MoreTail(c, d, Space(num, m - 1, scale) - Space(num, limit - 1, scale), Pow2(scale - m), Pow2(scale - limit));
    }
  }

  lemma MoreTail(c: int, d: int, t: int, p: int, q: int)
    requires c >= 0 && d >= 0 && 0 < p <= q && 0 <= t <= d * q && (d > 0 ==> t > 0)
    ensures 0 <= t + c * p <= (d + c) * q && (d + c > 0 ==> t + c * p > 0)
  {
    Scaled(c, p, q);
    Distribute(d, c, q);
  }

  /** Folding the codes of length `limit` and more into length `limit`: the space is then at least
      that of a full tree, and less than the number of folded codes above it. */
  lemma Fold(num: seq<int>, limit: nat)
    requires |num| == MAX_SUPPORTED + 1 && 1 <= limit <= MAX_SUPPORTED && NonNegative(num, MAX_SUPPORTED)
    requires Space(num, MAX_SUPPORTED, MAX_SUPPORTED) == Pow2(MAX_SUPPORTED)
    ensures var c := Space(num, limit - 1, limit);
            var m := Codes(num, MAX_SUPPORTED) - Codes(num, limit - 1);
            c + m >= Pow2(limit) && m >= 0 && (c + m > Pow2(limit) ==> c < Pow2(limit))
  {
    var more := MAX_SUPPORTED - limit;
    var c := Space(num, limit - 1, limit);
    var m := Codes(num, MAX_SUPPORTED) - Codes(num, limit - 1);
    TailSpace(num, limit, MAX_SUPPORTED, MAX_SUPPORTED);
    SpaceScale(num, limit - 1, limit, more);
    Pow2Add(limit, more);
    FoldArith(c, m, Space(num, MAX_SUPPORTED, MAX_SUPPORTED) - Space(num, limit - 1, MAX_SUPPORTED), Pow2(limit), Pow2(more));
  }

  lemma FoldArith(c: int, m: int, t: int, l: int, p: int)
    requires p > 0 && m >= 0 && c * p + t == l * p && 0 <= t <= m * p && (m > 0 ==> t > 0)
    ensures c + m >= l && (c + m > l ==> c < l)
  {
    Distribute(c, m, p);
    CancelLe(l, c + m, p);
    if m == 0 {
      CancelLe(c, l, p);
    } else if c >= l {
      Monotone(l, c, p);
    }
  }

  lemma CancelLe(x: int, y: int, p: int)
    requires p > 0 && x * p <= y * p
    ensures x <= y
  {
    if x > y {
      Monotone(y + 1, x, p);
      Distribute(y, 1, p);
    }
  }

  lemma Monotone(x: int, y: int, p: int)
    requires p > 0 && x <= y
    ensures x * p <= y * p
  {
  }

  lemma {:induction false} OnlyLongest(num: seq<int>, k: nat, limit: nat)
    requires k < |num| && k <= limit && forall i :: 1 <= i <= k ==> num[i] == 0
    ensures Space(num, k, limit) == 0 && Codes(num, k) == 0
  {
    if k > 0 {
      OnlyLongest(num, k - 1, limit);
    }
  }

  /** Counts the codes that are too long as codes of length `limit`. */
  method FoldLonger(num: array<int>, limit: nat)
    requires num.Length == MAX_SUPPORTED + 1 && 1 <= limit <= 15
    modifies num
    ensures num[limit] == Codes(old(num[..]), MAX_SUPPORTED) - Codes(old(num[..]), limit - 1)
    ensures forall k :: 0 <= k <= MAX_SUPPORTED && k != limit ==> num[k] == old(num[k])
  {
    ghost var s := num[..];
    var i := limit + 1;
    while i <= MAX_SUPPORTED
      invariant limit + 1 <= i <= MAX_SUPPORTED + 1
      invariant num[limit] == Codes(s, i - 1) - Codes(s, limit - 1)
      invariant forall k :: 0 <= k <= MAX_SUPPORTED && k != limit ==> num[k] == s[k]
    {
      num[limit] := num[limit] + num[i];
      i := i + 1;
    }
  }

  method TotalSpace(num: array<int>, limit: nat) returns (total: int)
    requires num.Length == MAX_SUPPORTED + 1 && 1 <= limit <= 15
    ensures total == Space(num[..], limit, limit)
  {
    total := 0;
    var i := limit;
    while i > 0
      invariant 0 <= i <= limit && total == Space(num[..], limit, limit) - Space(num[..], i, limit)
    {
      total := total + num[i] * Pow2(limit - i);
      i := i - 1;
    }
  }

  // ---------- how much longer the codes get

  /** How many more codes of length `limit` would fit in the place of the codes of lengths 1 to k. */
  function Spare(num: seq<int>, k: nat, limit: nat): int
    requires k < |num| && k <= limit
  {
    Space(num, k, limit) - Codes(num, k)
  }

  /** `t` comes from `s` by lengthening codes. Below `pick` nothing is touched, at `pick` some codes
      are taken, and what is taken above is bounded by the number of codes of `limit` bits and more. */
  ghost predicate Lengthened(s: seq<int>, t: seq<int>, pick: nat, limit: nat, n: nat) {
    && 1 <= pick <= limit < |s| == |t|
    && (forall d :: 1 <= d < pick ==> t[d] == s[d])
    && (pick < limit ==> t[pick] <= s[pick] && Pow2(limit - pick) < n && Pow2(limit - pick) < 2 * Long(s, limit, n))
    && 0 <= Long(s, limit, n) <= n
    && Spare(s, limit - 1, limit) - Spare(t, pick, limit) <= Long(s, limit, n) + Pow2(limit - pick) - 1
  }

  /** How many of the `n` codes have `limit` bits or more. */
  function Long(s: seq<int>, limit: nat, n: nat): int
    requires 1 <= limit <= |s|
  {
    n - Codes(s, limit - 1)
  }

  /** The state of the rounds: between `pick` and `limit` is at most one code of length `pick`, split. */
  ghost predicate Rounds(s: seq<int>, t: seq<int>, pick: nat, limit: nat, m: int) {
    && 1 <= pick <= limit < |s| == |t|
    && (forall d :: 1 <= d < pick ==> t[d] == s[d])
    && Spare(t, limit, limit) - Spare(t, pick, limit) < Pow2(limit - pick)
    && (pick < limit ==> t[pick] <= s[pick] && Space(t, pick, limit) + 2 * Pow2(limit - pick) <= Pow2(limit) && Pow2(limit - pick) < 2 * m)
  }

  /** No codes of lengths from i + 1 to k. */
  predicate NoneBetween(num: seq<int>, i: nat, k: nat) {
    forall j :: i < j <= k && j < |num| ==> num[j] == 0
  }

  lemma {:induction false} SkipEmpty(num: seq<int>, i: nat, k: nat, limit: nat)
    requires i <= k < |num| && k <= limit && NoneBetween(num, i, k)
    ensures Space(num, k, limit) == Space(num, i, limit) && Codes(num, k) == Codes(num, i)
  {
    if i < k {
      SkipEmpty(num, i, k - 1, limit);
    }
  }

  /** Space is taken in pieces of the longest code's size. */
  lemma SpacePieces(num: seq<int>, i: nat, limit: nat)
    requires i < |num| && i <= limit && Space(num, i, limit) < Pow2(limit)
    ensures Space(num, i, limit) + Pow2(limit - i) <= Pow2(limit)
  {
    var p := Pow2(limit - i);
    SpaceScale(num, i, i, limit - i);
    Pow2Add(i, limit - i);
    if Space(num, i, i) >= Pow2(i) {
      Monotone(Pow2(i), Space(num, i, i), p);
    }
    Monotone(Space(num, i, i) + 1, Pow2(i), p);
    Distribute(Space(num, i, i), 1, p);
  }

  /** What a round makes of the counts. */
  function AfterSplit(num: seq<int>, limit: nat, i: nat): (r: seq<int>)
    requires limit < |num| && 1 <= i < limit
    ensures |r| == |num|
  {
    var a := num[limit := num[limit] - 1];
    var b := a[i := a[i] - 1];
    b[i + 1 := b[i + 1] + 2]
  }

  /** Splitting one shorter code: takes a code of length `limit` away, and turns a code of length i
      into two of length i + 1. The number of codes stays; the space shrinks by one. */
  lemma Split(num: seq<int>, limit: nat, i: nat)
    requires limit < |num| && 1 <= i < limit
    ensures Space(AfterSplit(num, limit, i), limit, limit) == Space(num, limit, limit) - 1
    ensures Codes(AfterSplit(num, limit, i), limit) == Codes(num, limit)
  {
    var a := num[limit := num[limit] - 1];
    var b := a[i := a[i] - 1];
    SpaceUpdate(num, limit, limit, limit, num[limit] - 1);
    SpaceUpdate(a, limit, limit, i, a[i] - 1);
    SpaceUpdate(b, limit, limit, i + 1, b[i + 1] + 2);
    assert Pow2(limit - i) == 2 * Pow2(limit - i - 1);
  }

  lemma SplitBelow(num: seq<int>, limit: nat, i: nat, k: nat)
    requires limit < |num| && 1 <= i < limit && k < limit
    ensures k < i ==> Space(AfterSplit(num, limit, i), k, limit) == Space(num, k, limit)
    ensures k < i ==> Codes(AfterSplit(num, limit, i), k) == Codes(num, k)
    ensures k == i ==> Space(AfterSplit(num, limit, i), k, limit) == Space(num, k, limit) - Pow2(limit - i)
    ensures k == i ==> Codes(AfterSplit(num, limit, i), k) == Codes(num, k) - 1
  {
    var t := AfterSplit(num, limit, i);
    if k < i {
      SpaceFrame(t, num, k, limit);
    } else if k == i {
      var a := num[i := num[i] - 1];
      SpaceUpdate(num, k, limit, i, num[i] - 1);
      SpaceFrame(t, a, k, limit);
    }
  }

  lemma RoundStep(s: seq<int>, t: seq<int>, pick: nat, limit: nat, i: nat, m: int)
    requires Rounds(s, t, pick, limit, m) && 1 <= i < limit && t[i] > 0 && NoneBetween(t, i, limit - 1)
    requires Space(t, limit - 1, limit) < Pow2(limit) < Space(t, limit, limit) && t[limit] < 2 * m
    ensures Rounds(s, AfterSplit(t, limit, i), if i < pick then i else pick, limit, m)
  {
    hide Pow2, AfterSplit, Space, Codes, NoneBetween;
    Split(t, limit, i);
    SplitPlaces(t, limit, i);
    OneUnit();
    if pick < i {
      SplitBelow(t, limit, i, pick);
    } else {
      SplitBelow(t, limit, i, i);
      TopOnly(t, i, limit);
      SpacePieces(t, i, limit);
      TopCodes(t, limit);
    }
  }

  lemma TopCodes(t: seq<int>, limit: nat)
    requires 1 <= limit < |t|
    ensures Space(t, limit, limit) == Space(t, limit - 1, limit) + t[limit]
  {
    OneUnit();
    assert t[limit] * Pow2(0) == t[limit];
  }

  lemma SplitPlaces(num: seq<int>, limit: nat, i: nat)
    requires limit < |num| && 1 <= i < limit
    ensures forall d :: 0 <= d < i ==> AfterSplit(num, limit, i)[d] == num[d]
    ensures AfterSplit(num, limit, i)[i] == num[i] - 1
  {
  }

  /** Codes of length `limit` leave no room. */
  lemma TopOnly(t: seq<int>, i: nat, limit: nat)
    requires 1 <= i < limit < |t| && NoneBetween(t, i, limit - 1)
    ensures Spare(t, limit, limit) == Spare(t, i, limit) && Space(t, i, limit) == Space(t, limit - 1, limit)
  {
    SkipEmpty(t, i, limit - 1, limit);
    OneUnit();
    assert t[limit] * Pow2(0) == t[limit];
  }

  lemma OneUnit()
    ensures Pow2(0) == 1
  {
  }

  lemma RoundsEnd(s: seq<int>, t: seq<int>, pick: nat, limit: nat, n: nat)
    requires 1 <= limit <= |s| && Rounds(s, t, pick, limit, Long(s, limit, n)) && NonNegative(t, limit) && 0 <= Long(s, limit, n) <= n
    requires Space(t, limit, limit) == Pow2(limit) && Codes(t, limit) == n && n >= 2
    requires Space(s, limit - 1, limit) <= Pow2(limit)
    ensures Lengthened(s, t, pick, limit, n)
  {
    hide Pow2;
    OneUnit();
    CodesGrow(t, pick, limit);
  }

  /** From the length counts of a full code with at most 2^limit words, the same number of words of
      at most `limit` bits, again with Kraft sum exactly one, and little lengthened. */
  method EnforceMaxCodeSize(num: array<int>, listLen: nat, limit: nat) returns (ghost pick: nat)
    requires num.Length == MAX_SUPPORTED + 1 && 1 <= limit <= 15 && listLen <= 288 && listLen <= Pow2(limit)
    requires NonNegative(num[..], MAX_SUPPORTED) && Codes(num[..], MAX_SUPPORTED) == listLen
    requires listLen >= 2 ==> Space(num[..], MAX_SUPPORTED, MAX_SUPPORTED) == Pow2(MAX_SUPPORTED)
    modifies num
    ensures listLen <= 1 ==> num[..] == old(num[..])
    ensures NonNegative(num[..], limit) && num[0] == old(num[0])
    ensures listLen >= 2 ==> Codes(num[..], limit) == listLen && Space(num[..], limit, limit) == Pow2(limit)
    ensures listLen >= 2 ==> Lengthened(old(num[..]), num[..], pick, limit, listLen)
  {
    hide Rounds, Lengthened, AfterSplit, Codes, Space, Spare, Pow2, NoneBetween, Long;
    pick := limit;
    if listLen <= 1 {
      return;
    }
    ghost var s := num[..];
    FoldLonger(num, limit);
    Folded(s, num[..], listLen, limit);
    var total := TotalSpace(num, limit);
    ghost var m, first := Long(s, limit, listLen), total;
    while total != Pow2(limit)
      invariant Pow2(limit) <= total < MAX_WORD32
      invariant total == Space(num[..], limit, limit) && Codes(num[..], limit) == listLen
      invariant NonNegative(num[..], limit) && num[0] == s[0]
      invariant total > Pow2(limit) ==> num[limit] > total - Pow2(limit)
      invariant Rounds(s, num[..], pick, limit, m) && num[limit] + total <= m + first
      decreases total
    {
      ghost var t := num[..];
      ghost var i := SplitOne(num, listLen, limit, total);
      RoundStep(s, t, pick, limit, i, m);
      TopAfter(t, limit, i);
      pick := if i < pick then i else pick;
      total := total - 1;
    }
    RoundsEnd(s, num[..], pick, limit, listLen);
  }

  lemma TopAfter(t: seq<int>, limit: nat, i: nat)
    requires limit < |t| && 1 <= i < limit
    ensures AfterSplit(t, limit, i)[limit] <= t[limit] + 1
  {
  }

  /** Where the rounds start. */
  lemma Folded(s: seq<int>, t: seq<int>, n: nat, limit: nat)
    requires |s| == |t| == MAX_SUPPORTED + 1 && 1 <= limit <= 15 && 2 <= n <= 288 && NonNegative(s, MAX_SUPPORTED)
    requires Codes(s, MAX_SUPPORTED) == n && Space(s, MAX_SUPPORTED, MAX_SUPPORTED) == Pow2(MAX_SUPPORTED)
    requires t[limit] == Codes(s, MAX_SUPPORTED) - Codes(s, limit - 1)
    requires forall k :: 0 <= k <= MAX_SUPPORTED && k != limit ==> t[k] == s[k]
    ensures Codes(t, limit) == n && NonNegative(t, limit) && Rounds(s, t, limit, limit, Long(s, limit, n))
    ensures Pow2(limit) <= Space(t, limit, limit) < MAX_WORD32
    ensures Space(t, limit, limit) > Pow2(limit) ==> t[limit] > Space(t, limit, limit) - Pow2(limit)
    ensures Space(s, limit - 1, limit) <= Pow2(limit) && t[limit] == Long(s, limit, n) && 0 <= Long(s, limit, n) <= n
    ensures Space(t, limit, limit) <= Pow2(limit) + Long(s, limit, n)
  {
    hide Rounds;
    OneUnit();
    Fold(s, limit);
    CodesGrow(s, limit - 1, MAX_SUPPORTED);
    SpaceFrame(s, t, limit - 1, limit);
    SpaceBound(t, limit, limit);
    TopCodes(t, limit);
    FirstRound(s, t, limit, Long(s, limit, n));
  }

  lemma FirstRound(s: seq<int>, t: seq<int>, limit: nat, m: int)
    requires 1 <= limit < |s| == |t| && forall k :: 0 <= k < limit ==> t[k] == s[k]
    ensures Rounds(s, t, limit, limit, m)
  {
  }

  lemma {:induction false} CodesGrow(num: seq<int>, k: nat, m: nat)
    requires k <= m < |num| && NonNegative(num, m)
    ensures 0 <= Codes(num, k) <= Codes(num, m)
    decreases m
  {
    if k < m {
      CodesGrow(num, k, m - 1);
    } else if k > 0 {
      CodesGrow(num, k - 1, k - 1);
    }
  }

  lemma {:induction false} SpaceBound(num: seq<int>, k: nat, limit: nat)
    requires k < |num| && k <= limit <= 15 && NonNegative(num, k)
    ensures 0 <= Space(num, k, limit) <= Codes(num, k) * 32768
  {
    if k > 0 {
      SpaceBound(num, k - 1, limit);
      Pow2Mono(limit - k, 15);
      assert Pow2(15) == 32768 by { assert Pow2(10) == 1024; }
      Scaled(num[k], Pow2(limit - k), 32768);
    }
  }

  /** One round: drops a longest code and splits the longest of the shorter ones, which exists. */
  method SplitOne(num: array<int>, ghost listLen: nat, limit: nat, ghost total: int) returns (ghost at: nat)
    requires num.Length == MAX_SUPPORTED + 1 && 1 <= limit <= 15 && listLen <= Pow2(limit)
    requires NonNegative(num[..], limit) && total == Space(num[..], limit, limit) > Pow2(limit)
    requires Codes(num[..], limit) == listLen && num[limit] > total - Pow2(limit)
    modifies num
    ensures NonNegative(num[..], limit) && num[0] == old(num[0])
    ensures Space(num[..], limit, limit) == total - 1 && Codes(num[..], limit) == listLen
    ensures num[limit] >= old(num[limit]) - 1
    ensures 1 <= at < limit && num[..] == AfterSplit(old(num[..]), limit, at)
    ensures old(num[at]) > 0 && NoneBetween(old(num[..]), at, limit - 1) && Space(old(num[..]), limit - 1, limit) < Pow2(limit)
  {
    ghost var s := num[..];
    OneUnit();
    if forall k :: 1 <= k <= limit - 1 ==> num[k] == 0 {
      OnlyLongest(s, limit - 1, limit);
    }
    num[limit] := num[limit] - 1;
    var i := limit - 1;
    while i > 0
      invariant 0 <= i <= limit - 1
      invariant num[..] == s[limit := s[limit] - 1]
      invariant forall k :: i < k < limit ==> s[k] == 0
    {
      if num[i] != 0 {
        Split(s, limit, i);
        num[i] := num[i] - 1;
        num[i + 1] := num[i + 1] + 2;
        at := i;
        return;
      }
      i := i - 1;
    }
    assert false;
  }
}
