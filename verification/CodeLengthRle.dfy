/** The run-length coding of the code lengths in `tdefl_start_dynamic_block`
    (section 3.2.7 of RFC 1951). */
module CodeLengthRle {
  import opened Bits
  import opened Canonical
  import opened InflateSpec
  import opened SymFreqs

  // ---------- what packed code sizes mean

  /** How many bytes the operation at the front takes: codes from 16 on are followed by a count. */
  function OpSize(code: nat): nat { if code < 16 then 1 else 2 }

  predicate ValidOp(packed: seq<nat>) {
    && packed != [] && packed[0] <= 18 && |packed| >= OpSize(packed[0])
    && (packed[0] >= 16 ==> packed[1] < Pow2(ExtraBits(packed[0])))
  }

  /** The source's string of bit counts, "\02\03\07". */
  function ExtraBits(code: nat): nat { if code == 16 then 2 else if code == 17 then 3 else 7 }

  /** The lengths that one operation adds after `acc`. */
  function OpLengths(packed: seq<nat>, acc: seq<nat>): seq<nat>
    requires ValidOp(packed)
  {
    if packed[0] < 16 then [packed[0]]
    else if packed[0] == 16 then (if acc == [] then [] else Repeated(acc[|acc| - 1], 3 + packed[1]))
    else if packed[0] == 17 then Repeated(0, 3 + packed[1])
    else Repeated(0, 11 + packed[1])
  }

  predicate Unpackable(packed: seq<nat>, acc: seq<nat>)
    decreases |packed|
  {
    packed == [] || (ValidOp(packed) && (packed[0] == 16 ==> acc != []) &&
                     Unpackable(packed[OpSize(packed[0])..], acc + OpLengths(packed, acc)))
  }

  function Unpacked(packed: seq<nat>, acc: seq<nat>): seq<nat>
    requires Unpackable(packed, acc)
    decreases |packed|
  {
    if packed == [] then acc else Unpacked(packed[OpSize(packed[0])..], acc + OpLengths(packed, acc))
  }

  /** How many operations of `packed` are the symbol `s`. */
  function OpCount(packed: seq<nat>, s: nat): nat
    decreases |packed|
  {
    if packed == [] then 0
    else (if packed[0] == s then 1 else 0) +
         (if |packed| < OpSize(packed[0]) then 0 else OpCount(packed[OpSize(packed[0])..], s))
  }

  lemma FirstOp(a: seq<nat>, b: seq<nat>, acc: seq<nat>)
    requires ValidOp(a)
    ensures ValidOp(a + b) && (a + b)[0] == a[0] && OpLengths(a + b, acc) == OpLengths(a, acc)
    ensures (a + b)[OpSize(a[0])..] == a[OpSize(a[0])..] + b
  {
  }

  lemma {:induction false} UnpackConcat(a: seq<nat>, b: seq<nat>, acc: seq<nat>)
    requires Unpackable(a, acc) && Unpackable(b, Unpacked(a, acc))
    ensures Unpackable(a + b, acc) && Unpacked(a + b, acc) == Unpacked(b, Unpacked(a, acc))
    decreases |a|
  {
    hide OpLengths, ValidOp;
    if a == [] {
      assert a + b == b;
    } else {
      FirstOp(a, b, acc);
      UnpackConcat(a[OpSize(a[0])..], b, acc + OpLengths(a, acc));
    }
  }

  lemma {:induction false} OpCountConcat(a: seq<nat>, b: seq<nat>, acc: seq<nat>, s: nat)
    requires Unpackable(a, acc)
    ensures OpCount(a + b, s) == OpCount(a, s) + OpCount(b, s)
    decreases |a|
  {
    if a == [] {
      assert a + b == b;
    } else {
      FirstOp(a, b, acc);
      OpCountConcat(a[OpSize(a[0])..], b, acc + OpLengths(a, acc), s);
    }
  }

  // ---------- what the packed form of code sizes is

  /** A run of `k` zeros: 138 at a time, and what is left as one operation, or as it is when it is shorter than three. */
  function ZeroOps(k: nat): seq<nat> {
    if k >= 138 then [18, 127] + ZeroOps(k - 138)
    else if k > 10 then [18, k - 11]
    else if k >= 3 then [17, k - 3]
    else Repeated(0, k)
  }

  /** `k` repetitions of a length `x` other than 0: six at a time. */
  function RepeatOps(x: nat, k: nat): seq<nat> {
    if k >= 6 then [16, 3] + RepeatOps(x, k - 6)
    else if k >= 3 then [16, k - 3]
    else Repeated(x, k)
  }

  /** How many sizes at the end are the same. */
  function LastRun(sizes: seq<nat>): (k: nat)
    ensures k <= |sizes| && (sizes != [] ==> k >= 1)
  {
    var n := |sizes|;
    if n <= 1 then n else if sizes[n - 2] == sizes[n - 1] then 1 + LastRun(sizes[..n - 1]) else 1
  }

  /** Run by run: zeros, or a length and its repetitions. */
  function RunForm(sizes: seq<nat>): seq<nat>
    decreases |sizes|
  {
    if sizes == [] then [] else
    var k, x := LastRun(sizes), sizes[|sizes| - 1];
    RunForm(sizes[..|sizes| - k]) + if x == 0 then ZeroOps(k) else [x] + RepeatOps(x, k - 1)
  }

  lemma {:induction false} ZeroOpsSplit(m: nat, r: nat)
    requires m % 138 == 0
    ensures ZeroOps(m + r) == ZeroOps(m) + ZeroOps(r)
    decreases m
  {
    if m > 0 {
      ZeroOpsSplit(m - 138, r);
      assert [18, 127] + ZeroOps(m - 138 + r) == [18, 127] + ZeroOps(m - 138) + ZeroOps(r);
    } else {
      assert ZeroOps(0) == [];
    }
  }

  lemma {:induction false} RepeatOpsSplit(x: nat, m: nat, r: nat)
    requires m % 6 == 0
    ensures RepeatOps(x, m + r) == RepeatOps(x, m) + RepeatOps(x, r)
    decreases m
  {
    if m > 0 {
      RepeatOpsSplit(x, m - 6, r);
      assert [16, 3] + RepeatOps(x, m - 6 + r) == [16, 3] + RepeatOps(x, m - 6) + RepeatOps(x, r);
    } else {
      assert RepeatOps(x, 0) == [];
    }
  }

  /** One size more continues the last run, or starts one. */
  lemma RunOn(sizes: seq<nat>, i: nat)
    requires i < |sizes|
    ensures LastRun(sizes[..i + 1]) == if i > 0 && sizes[i - 1] == sizes[i] then LastRun(sizes[..i]) + 1 else 1
  {
    assert sizes[..i + 1][..i] == sizes[..i];
  }

  /** What is written when `sizes[..i]` are seen: all but the last part of the last run, which is counted. */
  ghost predicate PackedTo(w: seq<nat>, sizes: seq<nat>, i: nat, zeros: nat, repeat: nat) {
    && i <= |sizes|
    && if i == 0 then w == [] && zeros == 0 && repeat == 0 else
       var k, x := LastRun(sizes[..i]), sizes[i - 1];
       if x == 0 then repeat == 0 && zeros == k % 138 && w == RunForm(sizes[..i - k]) + ZeroOps(k - zeros)
       else zeros == 0 && repeat == (k - 1) % 6 && w == RunForm(sizes[..i - k]) + ([x] + RepeatOps(x, k - 1 - repeat))
  }

  lemma ZeroRun(w: seq<nat>, base: seq<nat>, k: nat, zeros: nat)
    requires zeros == k % 138 && w == base + ZeroOps(k - zeros)
    ensures w + ZeroOps(zeros) == base + ZeroOps(k)
  {
    hide ZeroOps;
    ZeroOpsSplit(k - zeros, zeros);
  }

  lemma OtherRun(w: seq<nat>, base: seq<nat>, x: nat, k: nat, repeat: nat)
    requires k >= 1 && repeat == (k - 1) % 6 && w == base + ([x] + RepeatOps(x, k - 1 - repeat))
    ensures w + RepeatOps(x, repeat) == base + ([x] + RepeatOps(x, k - 1))
  {
    hide RepeatOps;
    RepeatOpsSplit(x, k - 1 - repeat, repeat);
  }

  /** Writing what is counted completes the form. */
  lemma PackedAll(w: seq<nat>, sizes: seq<nat>, i: nat, zeros: nat, repeat: nat, prev: nat)
    requires PackedTo(w, sizes, i, zeros, repeat) && (i > 0 ==> prev == sizes[i - 1])
    ensures zeros == 0 ==> w + RepeatOps(prev, repeat) == RunForm(sizes[..i])
    ensures repeat == 0 ==> w + ZeroOps(zeros) == RunForm(sizes[..i])
  {
    hide LastRun, RunForm, RepeatOps, ZeroOps;
    NoneLeft(prev);
    if i > 0 {
      RunFormIs(sizes, i);
      var k, base := LastRun(sizes[..i]), RunForm(sizes[..i - LastRun(sizes[..i])]);
      if prev == 0 { ZeroRun(w, base, k, zeros); } else { OtherRun(w, base, prev, k, repeat); }
    } else {
      assert sizes[..0] == [];
    }
  }

  /** A zero is seen: repetitions are written, and 138 zeros. */
  lemma SeenZero(w: seq<nat>, sizes: seq<nat>, i: nat, zeros: nat, repeat: nat, prev: nat)
    requires PackedTo(w, sizes, i, zeros, repeat) && i < |sizes| && sizes[i] == 0 && prev == (if i == 0 then 255 else sizes[i - 1])
    ensures zeros + 1 == 138 ==> PackedTo(w + RepeatOps(prev, repeat) + ZeroOps(138), sizes, i + 1, 0, 0)
    ensures zeros + 1 != 138 ==> PackedTo(w + RepeatOps(prev, repeat), sizes, i + 1, zeros + 1, 0)
  {
    hide LastRun, RunForm, RepeatOps, ZeroOps;
    PackedAll(w, sizes, i, zeros, repeat, prev);
    RunOn(sizes, i);
    NoneLeft(prev);
    if i > 0 && prev == 0 {
      var k := LastRun(sizes[..i]);
      ZeroOpsSplit(k - zeros, 138);
    }
  }

  /** Another length than the last. */
  lemma SeenOther(w: seq<nat>, sizes: seq<nat>, i: nat, zeros: nat, repeat: nat, prev: nat)
    requires PackedTo(w, sizes, i, zeros, repeat) && i < |sizes| && sizes[i] != 0 && prev == (if i == 0 then 255 else sizes[i - 1]) != sizes[i]
    ensures PackedTo(w + ZeroOps(zeros) + RepeatOps(prev, repeat) + [sizes[i]], sizes, i + 1, 0, 0)
  {
    hide LastRun, RunForm, RepeatOps, ZeroOps;
    PackedAll(w, sizes, i, zeros, repeat, prev);
    RunOn(sizes, i);
    NoneLeft(prev);
    NoneLeft(sizes[i]);
  }

  /** The same length again: six repetitions are written. */
  lemma SeenAgain(w: seq<nat>, sizes: seq<nat>, i: nat, zeros: nat, repeat: nat, prev: nat)
    requires PackedTo(w, sizes, i, zeros, repeat) && 0 < i < |sizes| && sizes[i] != 0 && prev == sizes[i - 1] == sizes[i]
    ensures repeat + 1 == 6 ==> PackedTo(w + ZeroOps(zeros) + RepeatOps(prev, 6), sizes, i + 1, 0, 0)
    ensures repeat + 1 != 6 ==> PackedTo(w + ZeroOps(zeros), sizes, i + 1, 0, repeat + 1)
  {
    hide LastRun, RunForm, RepeatOps, ZeroOps;
    RunOn(sizes, i);
    NoneLeft(prev);
    var k := LastRun(sizes[..i]);
    RepeatOpsSplit(prev, k - 1 - repeat, 6);
  }

  lemma NoneLeft(x: nat)
    ensures ZeroOps(0) == [] && RepeatOps(x, 0) == [] && RunForm([]) == []
  {
  }

  lemma RunFormIs(sizes: seq<nat>, i: nat)
    requires 0 < i <= |sizes|
    ensures var k, x := LastRun(sizes[..i]), sizes[i - 1];
            RunForm(sizes[..i]) == RunForm(sizes[..i - k]) + if x == 0 then ZeroOps(k) else [x] + RepeatOps(x, k - 1)
  {
    hide LastRun, ZeroOps, RepeatOps;
    var k := LastRun(sizes[..i]);
    assert sizes[..i][..i - k] == sizes[..i - k];
  }

  // ---------- the packing loop

  /** `packed` stands for the lengths `done`, and `count` counts its operations. */
  ghost predicate Packs(packed: seq<nat>, done: seq<nat>, count: seq<Word16>) {
    && |count| >= NUM_LENGTH_SYMBOLS && Unpackable(packed, []) && Unpacked(packed, []) == done && |packed| <= |done|
    && (forall s :: 0 <= s < NUM_LENGTH_SYMBOLS ==> count[s] == OpCount(packed, s))
  }

  lemma OneOp(op: seq<nat>, done: seq<nat>)
    requires ValidOp(op) && |op| == OpSize(op[0]) && (op[0] == 16 ==> done != [])
    ensures Unpackable(op, done) && Unpacked(op, done) == done + OpLengths(op, done)
    ensures forall s: nat :: OpCount(op, s) == if op[0] == s then 1 else 0
  {
    var none := op[OpSize(op[0])..];
    assert none == [];
    assert Unpacked(none, done + OpLengths(op, done)) == done + OpLengths(op, done);
  }

  /** Appending one operation. */
  lemma PackOp(packed: seq<nat>, done: seq<nat>, count: seq<Word16>, op: seq<nat>, more: seq<nat>)
    requires Packs(packed, done, count) && ValidOp(op) && |op| == OpSize(op[0]) && (op[0] == 16 ==> done != [])
    requires more == OpLengths(op, done) && |more| >= |op| && count[op[0]] < 65535
    ensures Packs(packed + op, done + more, count[op[0] := count[op[0]] + 1])
  {
    OneOp(op, done);
    hide OpLengths, ValidOp, Unpackable, Unpacked;
    UnpackConcat(packed, op, []);
    forall s | 0 <= s < NUM_LENGTH_SYMBOLS
      ensures OpCount(packed + op, s) == count[op[0] := count[op[0]] + 1][s]
    {
      OpCountConcat(packed, op, [], s);
    }
  }

  lemma {:induction false} OpCountBound(packed: seq<nat>, s: nat)
    ensures OpCount(packed, s) <= |packed|
    decreases |packed|
  {
    if packed != [] && |packed| >= OpSize(packed[0]) {
      OpCountBound(packed[OpSize(packed[0])..], s);
    }
  }

  /** The last of `done` is `prev`, so that a repetition of it means `prev`. */
  ghost predicate EndsWith(done: seq<nat>, prev: nat) { done != [] && done[|done| - 1] == prev }

  /** Writes `n < 3` single lengths: the short form of a run. */
  method PutSingles(packed: array<nat>, np0: nat, count: array<Word16>, size: nat, n: nat, ghost done: seq<nat>) returns (np: nat)
    requires size <= 15 && n < 3 && np0 <= |done| && |done| + n <= packed.Length <= 320
    requires count.Length >= NUM_LENGTH_SYMBOLS && Packs(packed[..np0], done, count[..])
    modifies packed, count
    ensures np <= packed.Length && Packs(packed[..np], done + Repeated(size, n), count[..])
    ensures packed[..np] == old(packed[..np0]) + Repeated(size, n)
  {
    np := np0;
    ghost var d := done;
    OpCountBound(packed[..np], size);
    count[size] := count[size] + n;
    var left := n;
    ghost var was := packed[..np0];
    assert done + Repeated(size, 0) == done && was + Repeated(size, 0) == was;
    while left > 0
      invariant 0 <= left <= n && np <= |done| + n - left && d == done + Repeated(size, n - left)
      invariant count[size] >= left && packed[..np] == was + Repeated(size, n - left)
      invariant Packs(packed[..np], d, count[..][size := count[size] - left])
    {
      ghost var p, c := packed[..np], count[..][size := count[size] - left];
      PackOp(p, d, c, [size], [size]);
      packed[np] := size;
      np := np + 1;
      assert packed[..np] == p + [size];
      assert d + [size] == done + Repeated(size, n - left + 1) && p + [size] == was + Repeated(size, n - left + 1);
      d := d + [size];
      assert c[size := c[size] + 1] == count[..][size := count[size] - (left - 1)];
      left := left - 1;
    }
    assert count[..][size := count[size]] == count[..];
  }

  method PutRun(packed: array<nat>, np0: nat, count: array<Word16>, code: nat, extra: nat, ghost done: seq<nat>, ghost more: seq<nat>)
    returns (np: nat)
    requires 16 <= code <= 18 && extra < Pow2(ExtraBits(code)) && (code == 16 ==> done != [])
    requires np0 <= |done| && |done| + |more| <= packed.Length <= 320 && |more| >= 2 && more == OpLengths([code, extra], done)
    requires count.Length >= NUM_LENGTH_SYMBOLS && Packs(packed[..np0], done, count[..])
    modifies packed, count
    ensures np <= packed.Length && Packs(packed[..np], done + more, count[..])
    ensures packed[..np] == old(packed[..np0]) + [code, extra]
  {
    ghost var p, c := packed[..np0], count[..];
    OpCountBound(p, code);
    PackOp(p, done, c, [code, extra], more);
    count[code] := count[code] + 1;
    packed[np0] := code;
    packed[np0 + 1] := extra;
    np := np0 + 2;
    assert packed[..np] == p + [code, extra];
    assert count[..] == c[code := c[code] + 1];
  }

  /** `TDEFL_RLE_PREV_CODE_SIZE`. */
  method FlushRepeat(packed: array<nat>, np0: nat, count: array<Word16>, prev: nat, repeat: nat, ghost done: seq<nat>) returns (np: nat)
    requires repeat <= 6 && (repeat > 0 ==> prev <= 15 && EndsWith(done, prev))
    requires np0 <= |done| && |done| + repeat <= packed.Length <= 320
    requires count.Length >= NUM_LENGTH_SYMBOLS && Packs(packed[..np0], done, count[..])
    modifies packed, count
    ensures np <= packed.Length && Packs(packed[..np], done + Repeated(prev, repeat), count[..])
    ensures packed[..np] == old(packed[..np0]) + RepeatOps(prev, repeat)
  {
    np := np0;
    NoneLeft(prev);
    if repeat != 0 {
      if repeat < 3 {
        np := PutSingles(packed, np, count, prev, repeat, done);
      } else {
        np := PutRun(packed, np, count, 16, repeat - 3, done, Repeated(prev, repeat));
      }
    } else {
      assert done + Repeated(prev, 0) == done && packed[..np] == packed[..np0] + [];
    }
  }

  /** `TDEFL_RLE_ZERO_CODE_SIZE`. */
  method FlushZeros(packed: array<nat>, np0: nat, count: array<Word16>, zeros: nat, ghost done: seq<nat>) returns (np: nat)
    requires zeros <= 138 && np0 <= |done| && |done| + zeros <= packed.Length <= 320
    requires count.Length >= NUM_LENGTH_SYMBOLS && Packs(packed[..np0], done, count[..])
    modifies packed, count
    ensures np <= packed.Length && Packs(packed[..np], done + Repeated(0, zeros), count[..])
    ensures packed[..np] == old(packed[..np0]) + ZeroOps(zeros)
  {
    np := np0;
    NoneLeft(0);
    if zeros != 0 {
      assert Pow2(7) == 128 && Pow2(3) == 8;
      if zeros < 3 {
        np := PutSingles(packed, np, count, 0, zeros, done);
      } else if zeros <= 10 {
        np := PutRun(packed, np, count, 17, zeros - 3, done, Repeated(0, zeros));
      } else {
        np := PutRun(packed, np, count, 18, zeros - 11, done, Repeated(0, zeros));
      }
    } else {
      assert done + Repeated(0, 0) == done && packed[..np] == packed[..np0] + [];
    }
  }

  /** Where the loop stands: `done` is packed, and a run of zeros or a repetition of `prev` is pending. */
  ghost predicate Pending(sizes: seq<nat>, i: nat, done: seq<nat>, prev: nat, zeros: nat, repeat: nat) {
    && i <= |sizes| && zeros < 138 && repeat < 6 && (zeros == 0 || repeat == 0)
    && sizes[..i] == done + Repeated(0, zeros) + Repeated(prev, repeat)
    && prev == (if i == 0 then 255 else sizes[i - 1])
    && (zeros > 0 ==> prev == 0) && (i > 0 && prev != 0 ==> EndsWith(done, prev)) && (repeat > 0 ==> i > 0 && prev != 0)
  }

  lemma PendingStep(sizes: seq<nat>, i: nat, done: seq<nat>, prev: nat, zeros: nat, repeat: nat)
    requires Pending(sizes, i, done, prev, zeros, repeat) && i < |sizes| && sizes[i] <= 15
    ensures sizes[i] == 0 ==>
              var d := done + Repeated(prev, repeat);
              if zeros + 1 == 138 then Pending(sizes, i + 1, d + Repeated(0, 138), 0, 0, 0)
              else Pending(sizes, i + 1, d, 0, zeros + 1, 0)
    ensures sizes[i] != 0 && sizes[i] != prev ==>
              Pending(sizes, i + 1, done + Repeated(0, zeros) + Repeated(prev, repeat) + [sizes[i]], sizes[i], 0, 0)
    ensures sizes[i] != 0 && sizes[i] == prev ==>
              var d := done + Repeated(0, zeros);
              if repeat + 1 == 6 then Pending(sizes, i + 1, d + Repeated(prev, 6), prev, 0, 0)
              else Pending(sizes, i + 1, d, prev, 0, repeat + 1)
  {
    assert sizes[..i + 1] == sizes[..i] + [sizes[i]];
    assert Repeated(0, zeros) + [0] == Repeated(0, zeros + 1) && Repeated(prev, repeat) + [prev] == Repeated(prev, repeat + 1);
    if sizes[i] == 0 {
      var d := done + Repeated(prev, repeat);
      assert zeros == 0 ==> done + Repeated(0, 0) + Repeated(prev, repeat) == d;
      assert d + Repeated(0, zeros + 1) + Repeated(0, 0) == sizes[..i + 1];
      assert d + Repeated(0, 138) + Repeated(0, 0) + Repeated(0, 0) == d + Repeated(0, 138);
    } else if sizes[i] != prev {
      var d := done + Repeated(0, zeros) + Repeated(prev, repeat) + [sizes[i]];
      assert d + Repeated(0, 0) + Repeated(sizes[i], 0) == d;
    } else {
      assert zeros == 0;
      var d := done + Repeated(0, zeros);
      assert d == done;
      assert d + Repeated(0, 0) + Repeated(prev, repeat + 1) == sizes[..i + 1];
      assert d + Repeated(prev, 6) + Repeated(0, 0) + Repeated(prev, 0) == d + Repeated(prev, 6);
    }
  }

  lemma PendingFits(sizes: seq<nat>, i: nat, done: seq<nat>, prev: nat, zeros: nat, repeat: nat)
    requires Pending(sizes, i, done, prev, zeros, repeat)
    ensures |done| + zeros + repeat == i
    ensures i > 0 && prev != 0 ==> EndsWith(done, prev)
    ensures repeat > 0 ==> i > 0 && prev == sizes[i - 1] != 0
    ensures zeros == 0 || repeat == 0
    ensures zeros < 138 && repeat < 6
  {
    assert |sizes[..i]| == i;
  }

  lemma PendingEnd(sizes: seq<nat>, done: seq<nat>, prev: nat, zeros: nat, repeat: nat)
    requires Pending(sizes, |sizes|, done, prev, zeros, repeat)
    ensures repeat > 0 ==> done + Repeated(prev, repeat) == sizes
    ensures repeat == 0 ==> done + Repeated(0, zeros) == sizes
  {
    assert sizes[..|sizes|] == sizes;
  }

  /** A zero: repetitions of another length end, and zeros are counted up to 138. */
  method PackZero(packed: array<nat>, np0: nat, count: array<Word16>, prev: nat, zeros0: nat, repeat: nat, ghost all: seq<nat>, ghost i: nat,
                  ghost done0: seq<nat>) returns (np: nat, zeros: nat, ghost done: seq<nat>)
    requires i < |all| <= packed.Length <= 320 && all[i] == 0 && np0 <= packed.Length && count.Length >= NUM_LENGTH_SYMBOLS
    requires forall k :: 0 <= k < |all| ==> all[k] <= 15
    requires Packs(packed[..np0], done0, count[..]) && Pending(all, i, done0, prev, zeros0, repeat)
    requires PackedTo(packed[..np0], all, i, zeros0, repeat) && prev == if i == 0 then 255 else all[i - 1]
    modifies packed, count
    ensures np <= packed.Length && Packs(packed[..np], done, count[..]) && Pending(all, i + 1, done, 0, zeros, 0)
    ensures PackedTo(packed[..np], all, i + 1, zeros, 0)
  {
    hide Packs, Pending, EndsWith, Repeated, PackedTo, RunForm, ZeroOps, RepeatOps;
    PendingFits(all, i, done0, prev, zeros0, repeat);
    PacksFits(packed[..np0], done0, count[..]);
    PendingStep(all, i, done0, prev, zeros0, repeat);
    SeenZero(packed[..np0], all, i, zeros0, repeat, prev);
    np := FlushRepeat(packed, np0, count, prev, repeat, done0);
    done := done0 + Repeated(prev, repeat);
    zeros := zeros0 + 1;
    if zeros == 138 {
      PacksFits(packed[..np], done, count[..]);
      np := FlushZeros(packed, np, count, zeros, done);
      done := done + Repeated(0, zeros);
      zeros := 0;
    }
  }

  /** A length: zeros end, and repetitions of the last length are counted up to six. */
  method PackLength(packed: array<nat>, np0: nat, count: array<Word16>, size: nat, prev: nat, zeros: nat, repeat0: nat, ghost all: seq<nat>,
                    ghost i: nat, ghost done0: seq<nat>) returns (np: nat, repeat: nat, ghost done: seq<nat>)
    requires i < |all| <= packed.Length <= 320 && all[i] == size != 0 && np0 <= packed.Length && count.Length >= NUM_LENGTH_SYMBOLS
    requires forall k :: 0 <= k < |all| ==> all[k] <= 15
    requires Packs(packed[..np0], done0, count[..]) && Pending(all, i, done0, prev, zeros, repeat0)
    requires PackedTo(packed[..np0], all, i, zeros, repeat0) && prev == if i == 0 then 255 else all[i - 1]
    modifies packed, count
    ensures np <= packed.Length && Packs(packed[..np], done, count[..]) && Pending(all, i + 1, done, size, 0, repeat)
    ensures PackedTo(packed[..np], all, i + 1, 0, repeat)
  {
    hide Packs, Pending, EndsWith, Repeated, PackedTo, RunForm, ZeroOps, RepeatOps;
    PendingFits(all, i, done0, prev, zeros, repeat0);
    PacksFits(packed[..np0], done0, count[..]);
    PendingStep(all, i, done0, prev, zeros, repeat0);
    ghost var w := packed[..np0];
    repeat := repeat0;
    np := FlushZeros(packed, np0, count, zeros, done0);
    done := done0 + Repeated(0, zeros);
    PacksFits(packed[..np], done, count[..]);
    if size != prev {
      SeenOther(w, all, i, zeros, repeat, prev);
      np := FlushRepeat(packed, np, count, prev, repeat, done);
      done := done + Repeated(prev, repeat);
      PacksFits(packed[..np], done, count[..]);
      repeat := 0;
      np := PutOne(packed, np, count, size, done);
      done := done + [size];
    } else {
      SeenAgain(w, all, i, zeros, repeat, prev);
      repeat := repeat + 1;
      if repeat == 6 {
        np := FlushRepeat(packed, np, count, prev, repeat, done);
        done := done + Repeated(prev, repeat);
        repeat := 0;
      }
    }
  }

  /** Packs the code sizes into runs; at every step at most one of the two run counters is not zero. */
  method PackCodeSizes(sizes: array<nat>, n: nat, packed: array<nat>, count: array<Word16>) returns (np: nat)
    requires n <= sizes.Length && n <= packed.Length <= 320 && sizes != packed
    requires forall i :: 0 <= i < n ==> sizes[i] <= 15
    requires count.Length >= NUM_LENGTH_SYMBOLS && forall i :: 0 <= i < NUM_LENGTH_SYMBOLS ==> count[i] == 0
    modifies packed, count
    ensures np <= n && Packs(packed[..np], sizes[..n], count[..]) && packed[..np] == RunForm(sizes[..n])
  {
    hide Packs, Pending, EndsWith, Repeated, PackedTo, RunForm, ZeroOps, RepeatOps;
    ghost var all, done: seq<nat> := sizes[..n], [];
    np := 0;
    PackNothing(all, packed[..0], count[..]);
    var prev, zeros, repeat, i := 255, 0, 0, 0;
    while i < n
      invariant 0 <= i <= n && np <= packed.Length && sizes[..n] == all
      invariant zeros == 0 || repeat == 0
      invariant Packs(packed[..np], done, count[..]) && Pending(all, i, done, prev, zeros, repeat)
      invariant PackedTo(packed[..np], all, i, zeros, repeat) && prev == if i == 0 then 255 else all[i - 1]
    {
      var size := sizes[i];
      assert size == all[i];
      if size == 0 {
        np, zeros, done := PackZero(packed, np, count, prev, zeros, repeat, all, i, done);
        repeat := 0;
      } else {
        np, repeat, done := PackLength(packed, np, count, size, prev, zeros, repeat, all, i, done);
        zeros := 0;
      }
      prev := size;
      i := i + 1;
    }
    PendingFits(all, n, done, prev, zeros, repeat);
    PacksFits(packed[..np], done, count[..]);
    PendingEnd(all, done, prev, zeros, repeat);
    PackedAll(packed[..np], all, n, zeros, repeat, prev);
    assert all[..n] == all;
    if repeat != 0 {
      np := FlushRepeat(packed, np, count, prev, repeat, done);
    } else {
      np := FlushZeros(packed, np, count, zeros, done);
    }
    PacksFits(packed[..np], all, count[..]);
  }

  lemma PackNothing(sizes: seq<nat>, packed: seq<nat>, count: seq<Word16>)
    requires packed == [] && |count| >= NUM_LENGTH_SYMBOLS && forall i :: 0 <= i < NUM_LENGTH_SYMBOLS ==> count[i] == 0
    ensures Packs(packed, [], count) && Pending(sizes, 0, [], 255, 0, 0) && PackedTo(packed, sizes, 0, 0, 0)
  {
  }

  lemma PacksFits(packed: seq<nat>, done: seq<nat>, count: seq<Word16>)
    requires Packs(packed, done, count)
    ensures |packed| <= |done|
  {
  }

  method PutOne(packed: array<nat>, np0: nat, count: array<Word16>, size: nat, ghost done: seq<nat>) returns (np: nat)
    requires size <= 15 && np0 <= |done| < packed.Length <= 320
    requires count.Length >= NUM_LENGTH_SYMBOLS && Packs(packed[..np0], done, count[..])
    modifies packed, count
    ensures np <= packed.Length && Packs(packed[..np], done + [size], count[..])
    ensures packed[..np] == old(packed[..np0]) + [size]
  {
    ghost var p, c := packed[..np0], count[..];
    OpCountBound(p, size);
    PackOp(p, done, c, [size], [size]);
    count[size] := count[size] + 1;
    packed[np0] := size;
    np := np0 + 1;
    assert packed[..np] == p + [size] && count[..] == c[size := c[size] + 1];
  }
}
