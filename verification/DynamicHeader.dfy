/** The header of a dynamic block as the compressor sends it, and what the decoder makes of it
    (section 3.2.7 of RFC 1951). */
module DynamicHeader {
  import opened Bits
  import opened Canonical
  import opened InflateSpec
  import opened CodeLengthRle

  // ---------- the packed code lengths

  /** Every operation of `packed` has a code. */
  predicate OpsCoded(packed: seq<nat>, lens: seq<nat>)
    decreases |packed|
  {
    packed == [] || (ValidOp(packed) && Used(lens, packed[0]) && OpsCoded(packed[OpSize(packed[0])..], lens))
  }

  function OpBits(packed: seq<nat>, lens: seq<nat>): Bitstring
    requires packed != [] && ValidOp(packed) && Used(lens, packed[0])
  {
    Code(lens, packed[0]) + (if packed[0] >= 16 then Lsb(packed[1], ExtraBits(packed[0])) else [])
  }

  function OpsBits(packed: seq<nat>, lens: seq<nat>): Bitstring
    requires OpsCoded(packed, lens)
    decreases |packed|
  {
    if packed == [] then [] else OpBits(packed, lens) + OpsBits(packed[OpSize(packed[0])..], lens)
  }

  lemma DecodeOp(packed: seq<nat>, lens: seq<nat>, acc: seq<nat>, rest: Bitstring)
    requires packed != [] && ValidOp(packed) && Used(lens, packed[0]) && GoodCode(lens) && (packed[0] == 16 ==> acc != [])
    ensures LengthOp(OpBits(packed, lens) + rest, lens, acc) == Got(acc + OpLengths(packed, acc), rest)
    ensures |OpLengths(packed, acc)| >= 1
  {
    hide Code, Lsb, Pow2, Used, GoodCode, Symbol, Field;
    var c := packed[0];
    if c < 16 {
      assert OpBits(packed, lens) + rest == Code(lens, c) + rest;
      SymbolCode(lens, c, rest);
    } else {
      var x := Lsb(packed[1], ExtraBits(c));
      assert OpBits(packed, lens) + rest == Code(lens, c) + (x + rest);
      SymbolCode(lens, c, x + rest);
      FieldLsb(packed[1], ExtraBits(c), rest);
    }
  }

  /** The decoder unpacks what was packed. */
  lemma {:induction false} DecodeOps(packed: seq<nat>, lens: seq<nat>, n: nat, acc: seq<nat>, rest: Bitstring)
    requires GoodCode(lens) && OpsCoded(packed, lens) && Unpackable(packed, acc) && |Unpacked(packed, acc)| == n
    ensures DecodeLengths(OpsBits(packed, lens) + rest, lens, n, acc) == Got(Unpacked(packed, acc), rest)
    decreases |packed|
  {
    hide OpBits, GoodCode, OpLengths, LengthOp, Used, ExtraBits, Pow2;
    if packed == [] {
      assert OpsBits(packed, lens) + rest == rest;
    } else {
      var tail := packed[OpSize(packed[0])..];
      var more := OpsBits(tail, lens) + rest;
      assert OpsBits(packed, lens) + rest == OpBits(packed, lens) + more;
      DecodeOp(packed, lens, acc, more);
      UnpackGrows(tail, acc + OpLengths(packed, acc));
      DecodeOps(tail, lens, n, acc + OpLengths(packed, acc), rest);
    }
  }

  lemma {:induction false} UnpackGrows(packed: seq<nat>, acc: seq<nat>)
    requires Unpackable(packed, acc)
    ensures |Unpacked(packed, acc)| >= |acc|
    decreases |packed|
  {
    hide OpLengths;
    if packed != [] {
      UnpackGrows(packed[OpSize(packed[0])..], acc + OpLengths(packed, acc));
    }
  }

  // ---------- the code length code

  /** The first `n` lengths in their sending order, from the i-th on. */
  function LengthsBits(lens: seq<nat>, i: nat, n: nat): Bitstring
    requires |lens| == NUM_LENGTH_SYMBOLS && n <= NUM_LENGTH_SYMBOLS
    decreases n - i
  {
    if i >= n then [] else Lsb(lens[SWIZZLE[i]], 3) + LengthsBits(lens, i + 1, n)
  }

  /** What the decoder has after `i` of the lengths. */
  ghost predicate PartRead(code: seq<nat>, lens: seq<nat>, i: nat) {
    && i <= NUM_LENGTH_SYMBOLS == |code| == |lens|
    && (forall j :: 0 <= j < i ==> code[SWIZZLE[j]] == lens[SWIZZLE[j]])
    && (forall j :: i <= j < NUM_LENGTH_SYMBOLS ==> code[SWIZZLE[j]] == 0)
  }

  lemma SwizzleDistinct(i: nat, j: nat)
    requires i < j < NUM_LENGTH_SYMBOLS
    ensures SWIZZLE[i] != SWIZZLE[j]
  {
    if i < 9 { assert j < 9 || j >= 9; }
  }

  /** Where the length of symbol `s` stands in the order. */
  function Place(s: nat): (i: nat)
    requires s < NUM_LENGTH_SYMBOLS
    ensures i < NUM_LENGTH_SYMBOLS && SWIZZLE[i] == s
  {
    if s == 0 then 3 else if s == 16 then 0 else if s == 17 then 1 else if s == 18 then 2
    else if s >= 8 then 4 + 2 * (s - 8) else 5 + 2 * (7 - s)
  }

  lemma PartReadStep(code: seq<nat>, lens: seq<nat>, i: nat)
    requires PartRead(code, lens, i) && i < NUM_LENGTH_SYMBOLS
    ensures PartRead(code[SWIZZLE[i] := lens[SWIZZLE[i]]], lens, i + 1)
  {
    forall j | 0 <= j < NUM_LENGTH_SYMBOLS && j != i ensures SWIZZLE[j] != SWIZZLE[i] {
      if j < i { SwizzleDistinct(j, i); } else { SwizzleDistinct(i, j); }
    }
  }

  lemma PartReadEnd(code: seq<nat>, lens: seq<nat>, n: nat)
    requires PartRead(code, lens, n) && forall j :: n <= j < NUM_LENGTH_SYMBOLS ==> lens[SWIZZLE[j]] == 0
    ensures code == lens
  {
    forall s | 0 <= s < NUM_LENGTH_SYMBOLS ensures code[s] == lens[s] {
      assert SWIZZLE[Place(s)] == s;
    }
  }

  lemma {:induction false} DecodeCodeLengthCode(lens: seq<nat>, i: nat, n: nat, code: seq<nat>, rest: Bitstring)
    requires i <= n <= NUM_LENGTH_SYMBOLS && PartRead(code, lens, i)
    requires forall s :: 0 <= s < |lens| ==> lens[s] <= 7
    requires forall j :: n <= j < NUM_LENGTH_SYMBOLS ==> lens[SWIZZLE[j]] == 0
    ensures CodeLengthCode(LengthsBits(lens, i, n) + rest, n, i, code) == Got(lens, rest)
    decreases n - i
  {
    hide Lsb, Field;
    if i == n {
      assert LengthsBits(lens, i, n) + rest == rest;
      PartReadEnd(code, lens, n);
    } else {
      var x, more := Lsb(lens[SWIZZLE[i]], 3), LengthsBits(lens, i + 1, n) + rest;
      assert LengthsBits(lens, i, n) + rest == x + more;
      assert Pow2(3) == 8;
      FieldLsb(lens[SWIZZLE[i]], 3, more);
      PartReadStep(code, lens, i);
      DecodeCodeLengthCode(lens, i + 1, n, code[SWIZZLE[i] := lens[SWIZZLE[i]]], rest);
    }
  }

  // ---------- the header

  /** The header for the code lengths `lit` and `dist`, packed as `packed` under the code `lens`, of
      which the first `n` lengths are sent. */
  ghost predicate GoodHeader(lit: seq<nat>, dist: seq<nat>, lens: seq<nat>, n: nat, packed: seq<nat>) {
    && 257 <= |lit| <= 286 && 1 <= |dist| <= 30 && 4 <= n <= NUM_LENGTH_SYMBOLS == |lens|
    && Acceptable(lit) && Acceptable(dist) && Acceptable(lens) && (forall s :: 0 <= s < |lens| ==> lens[s] <= 7)
    && (forall j :: n <= j < NUM_LENGTH_SYMBOLS ==> lens[SWIZZLE[j]] == 0)
    && OpsCoded(packed, lens) && Unpackable(packed, []) && Unpacked(packed, []) == lit + dist
  }

  function HeaderBits(lit: nat, dist: nat, lens: seq<nat>, n: nat, packed: seq<nat>): Bitstring
    requires 257 <= lit && 1 <= dist && 4 <= n <= NUM_LENGTH_SYMBOLS == |lens| && OpsCoded(packed, lens)
  {
    Lsb(lit - 257, 5) + Lsb(dist - 1, 5) + Lsb(n - 4, 4) + LengthsBits(lens, 0, n) + OpsBits(packed, lens)
  }

  lemma NothingRead(lens: seq<nat>)
    requires |lens| == NUM_LENGTH_SYMBOLS
    ensures PartRead(Repeated(0, NUM_LENGTH_SYMBOLS), lens, 0)
  {
  }

  lemma HeaderParts(lit: nat, dist: nat, lens: seq<nat>, n: nat, packed: seq<nat>, rest: Bitstring)
    requires 257 <= lit && 1 <= dist && 4 <= n <= NUM_LENGTH_SYMBOLS == |lens| && OpsCoded(packed, lens)
    ensures HeaderBits(lit, dist, lens, n, packed) + rest ==
            Lsb(lit - 257, 5) + (Lsb(dist - 1, 5) + (Lsb(n - 4, 4) + (LengthsBits(lens, 0, n) + (OpsBits(packed, lens) + rest))))
  {
    hide Lsb, LengthsBits, OpsBits, OpsCoded;
    var a, b, c, d, e := Lsb(lit - 257, 5), Lsb(dist - 1, 5), Lsb(n - 4, 4), LengthsBits(lens, 0, n), OpsBits(packed, lens);
    assert (a + b + c + d + e) + rest == a + (b + (c + (d + (e + rest))));
  }

  /** The decoder reads the two codes back from the header. */
  lemma DecodeHeader(lit: seq<nat>, dist: seq<nat>, lens: seq<nat>, n: nat, packed: seq<nat>, rest: Bitstring)
    requires GoodHeader(lit, dist, lens, n, packed)
    ensures DynamicHeader(HeaderBits(|lit|, |dist|, lens, n, packed) + rest) == Got(Codes(lit, dist), rest)
  {
    hide Lsb, LengthsBits, OpsBits, OpsCoded, Unpackable, Unpacked, Field, CodeLengthCode, DecodeLengths, Acceptable, HeaderBits;
    HeaderParts(|lit|, |dist|, lens, n, packed, rest);
    var r4 := OpsBits(packed, lens) + rest;
    var r3 := LengthsBits(lens, 0, n) + r4;
    var r2 := Lsb(n - 4, 4) + r3;
    var r1 := Lsb(|dist| - 1, 5) + r2;
    FiveBits();
    FieldLsb(|lit| - 257, 5, r1);
    FieldLsb(|dist| - 1, 5, r2);
    FieldLsb(n - 4, 4, r3);
    NothingRead(lens);
    DecodeCodeLengthCode(lens, 0, n, Repeated(0, NUM_LENGTH_SYMBOLS), r4);
    AcceptableGood(lens);
    DecodeOps(packed, lens, |lit| + |dist|, [], rest);
    assert (lit + dist)[..|lit|] == lit && (lit + dist)[|lit|..] == dist;
  }

  lemma FiveBits()
    ensures Pow2(5) == 32 && Pow2(4) == 16
  {
  }

  lemma AcceptableGood(lens: seq<nat>)
    requires Acceptable(lens)
    ensures GoodCode(lens)
  {
  }
}
