/** Canonical Huffman codes (section 3.2.2 of RFC 1951): the code that a vector of code lengths
    stands for, shared by the compressor and the decompressor. */
module Canonical {
  import opened Bits

  const MAX_LEN := 15

  datatype Option<T> = None | Some(value: T)

  /** Lengths of at most 15 bits; 0 marks an unused symbol. */
  predicate ValidLens(lens: seq<nat>) {
    forall i :: 0 <= i < |lens| ==> lens[i] <= MAX_LEN
  }

  /** How many of `lens` equal `l`. */
  function Count(lens: seq<nat>, l: nat): nat {
    if lens == [] then 0
    else Count(lens[..|lens| - 1], l) + (if lens[|lens| - 1] == l then 1 else 0)
  }

  /** The smallest code of length `l`. */
  function First(lens: seq<nat>, l: nat): nat
    decreases l, 0
  {
    if l <= 1 then 0 else 2 * Next(lens, l - 1)
  }

  /** One past the largest code of length `l`: 2^l times the Kraft sum of the lengths up to `l`. */
  function Next(lens: seq<nat>, l: nat): nat
    decreases l, 1
  {
    First(lens, l) + (if l == 0 then 0 else Count(lens, l))
  }

  predicate NotOver(lens: seq<nat>) { Next(lens, MAX_LEN) <= 32768 }

  /** Kraft sum exactly one. */
  predicate Complete(lens: seq<nat>) { Next(lens, MAX_LEN) == 32768 }

  /** At most one symbol has a code. */
  predicate AtMostOneUsed(lens: seq<nat>) {
    forall i, j :: 0 <= i < |lens| && 0 <= j < |lens| && lens[i] > 0 && lens[j] > 0 ==> i == j
  }

  /** The codes that the decoder accepts: complete ones, and those of a single symbol. */
  predicate Acceptable(lens: seq<nat>) {
    ValidLens(lens) && NotOver(lens) && (Complete(lens) || AtMostOneUsed(lens))
  }

  /** Symbol `s` has a code. */
  predicate Used(lens: seq<nat>, s: nat) { s < |lens| && lens[s] > 0 }

  function CodeVal(lens: seq<nat>, s: nat): nat
    requires Used(lens, s)
  {
    First(lens, lens[s]) + Count(lens[..s], lens[s])
  }

  /** The code of `s`, as it stands in the stream. */
  function Code(lens: seq<nat>, s: nat): (c: Bitstring)
    requires Used(lens, s)
    ensures |c| == lens[s]
  {
    Msb(CodeVal(lens, s), lens[s])
  }

  /** The stream `bits` starts with the code of `s`. */
  predicate Decodes(lens: seq<nat>, bits: Bitstring, s: nat) {
    Used(lens, s) && Code(lens, s) <= bits
  }

  /** The symbol at the front of `bits`. */
  ghost function DecodeSym(lens: seq<nat>, bits: Bitstring): (r: Option<nat>)
    ensures r.Some? ==> Decodes(lens, bits, r.value)
    ensures r.None? ==> forall s :: !Decodes(lens, bits, s)
  {
    if exists s :: Decodes(lens, bits, s) then
      var s :| Decodes(lens, bits, s);
      Some(s)
    else None
  }

  lemma {:induction false} CountSplit(a: seq<nat>, b: seq<nat>, l: nat)
    ensures Count(a + b, l) == Count(a, l) + Count(b, l)
  {
    if b == [] {
      assert a + b == a;
    } else {
      assert (a + b)[..|a + b| - 1] == a + b[..|b| - 1];
      CountSplit(a, b[..|b| - 1], l);
    }
  }

  lemma {:induction false} CountAbsent(a: seq<nat>, l: nat)
    requires l !in a
    ensures Count(a, l) == 0
  {
    if a != [] {
      CountAbsent(a[..|a| - 1], l);
    }
  }

  /** Ranks are strictly increasing over the symbols of one length. */
  lemma {:induction false} RankBelow(lens: seq<nat>, s: nat, t: nat)
    requires s < t <= |lens|
    ensures Count(lens[..s], lens[s]) < Count(lens[..t], lens[s])
    decreases t
  {
    assert lens[..t][..t - 1] == lens[..t - 1];
    if s < t - 1 {
      RankBelow(lens, s, t - 1);
    }
  }

  /** Every rank below the count is taken by a symbol. */
  lemma {:induction false} RankTaken(lens: seq<nat>, l: nat, r: nat) returns (s: nat)
    requires r < Count(lens, l)
    ensures s < |lens| && lens[s] == l && Count(lens[..s], l) == r
  {
    var n := |lens| - 1;
    if r == Count(lens[..n], l) {
      s := n;
    } else {
      s := RankTaken(lens[..n], l, r);
      assert lens[..n][..s] == lens[..s];
    }
  }

  lemma {:induction false} NextBound(lens: seq<nat>, l: nat)
    requires NotOver(lens) && l <= MAX_LEN
    ensures Next(lens, l) <= Pow2(l)
    decreases MAX_LEN - l
  {
    if l == MAX_LEN {
      Pow2Of15();
    } else {
      NextBound(lens, l + 1);
    }
  }

  lemma Pow2Of15()
    ensures Pow2(15) == 32768
  {
    assert Pow2(10) == 1024;
  }

  lemma CodeBound(lens: seq<nat>, s: nat)
    requires Used(lens, s) && NotOver(lens) && ValidLens(lens)
    ensures First(lens, lens[s]) <= CodeVal(lens, s) < Next(lens, lens[s]) <= Pow2(lens[s])
  {
    assert lens[..|lens|] == lens;
    RankBelow(lens, s, |lens|);
    NextBound(lens, lens[s]);
  }

  /** A prefix of a longer code lies above every code of the prefix's length. */
  lemma {:induction false} PrefixAbove(lens: seq<nat>, v: nat, m: nat, l: nat)
    requires 1 <= l < m && v >= First(lens, m)
    ensures Shr(v, m - l) >= Next(lens, l)
  {
    assert v / 2 >= Next(lens, m - 1) >= First(lens, m - 1);
    if l < m - 1 {
      PrefixAbove(lens, v / 2, m - 1, l);
    }
  }

  /** No code is a prefix of another. */
  lemma PrefixFree(lens: seq<nat>, s: nat, t: nat)
    requires ValidLens(lens) && NotOver(lens)
    requires Used(lens, s) && Used(lens, t) && s != t
    ensures !(Code(lens, s) <= Code(lens, t))
  {
    var ls, lt := lens[s], lens[t];
    var cs, ct := CodeVal(lens, s), CodeVal(lens, t);
    CodeBound(lens, s);
    CodeBound(lens, t);
    if ls <= lt && Code(lens, s) <= Code(lens, t) {
      MsbPrefix(ct, lt, ls);
      ShrBound(ct, lt - ls, ls);
      MsbValMsb(cs, ls);
      MsbValMsb(Shr(ct, lt - ls), ls);
      assert Msb(cs, ls) == Msb(ct, lt)[..ls];
      assert cs == Shr(ct, lt - ls);
      if ls < lt {
        PrefixAbove(lens, ct, lt, ls);
      } else if s < t {
        RankBelow(lens, s, t);
      } else {
        RankBelow(lens, t, s);
      }
      assert false;
    }
  }

  /** At most one symbol is at the front of a stream. */
  lemma DecodeUnique(lens: seq<nat>, bits: Bitstring, s: nat, t: nat)
    requires ValidLens(lens) && NotOver(lens)
    requires Decodes(lens, bits, s) && Decodes(lens, bits, t)
    ensures s == t
  {
    if s != t {
      var cs, ct := Code(lens, s), Code(lens, t);
      assert cs == bits[..|cs|] && ct == bits[..|ct|];
      if |cs| <= |ct| {
        assert cs == ct[..|cs|];
        PrefixFree(lens, s, t);
      } else {
        assert ct == cs[..|ct|];
        PrefixFree(lens, t, s);
      }
    }
  }

  /** Decoding what was sent. */
  lemma DecodeCode(lens: seq<nat>, s: nat, rest: Bitstring)
    requires ValidLens(lens) && NotOver(lens) && Used(lens, s)
    ensures DecodeSym(lens, Code(lens, s) + rest) == Some(s)
  {
    var bits := Code(lens, s) + rest;
    assert Decodes(lens, bits, s);
    DecodeUnique(lens, bits, s, DecodeSym(lens, bits).value);
  }

  /** A complete code decodes every stream of 15 bits or more. */
  lemma DecodeTotal(lens: seq<nat>, bits: Bitstring)
    requires ValidLens(lens) && Complete(lens) && |bits| >= MAX_LEN
    ensures DecodeSym(lens, bits).Some?
  {
    MsbMsbVal(bits[..MAX_LEN]);
    Pow2Of15();
    var s := FindSym(lens, bits, MAX_LEN);
    assert Decodes(lens, bits, s);
  }

  lemma {:induction false} FindSym(lens: seq<nat>, bits: Bitstring, l: nat) returns (s: nat)
    requires 1 <= l <= |bits| && MsbVal(bits[..l]) < Next(lens, l)
    ensures Decodes(lens, bits, s)
  {
    var v := MsbVal(bits[..l]);
    assert bits[..l][..l - 1] == bits[..l - 1];
    if v >= First(lens, l) {
      s := RankTaken(lens, l, v - First(lens, l));
      MsbMsbVal(bits[..l]);
      assert Code(lens, s) == bits[..l];
    } else {
      s := FindSym(lens, bits, l - 1);
    }
  }

  /** Unused symbols at the end of the vector do not change the code. */
  lemma TrimmedCode(lens: seq<nat>, n: nat, s: nat)
    requires n <= |lens| && Used(lens, s)
    requires forall i :: n <= i < |lens| ==> lens[i] == 0
    ensures Used(lens[..n], s) && Code(lens[..n], s) == Code(lens, s)
  {
    TrimmedNext(lens, n, lens[s]);
    assert lens[..n][..s] == lens[..s];
  }

  lemma {:induction false} TrimmedNext(lens: seq<nat>, n: nat, l: nat)
    requires n <= |lens|
    requires forall i :: n <= i < |lens| ==> lens[i] == 0
    ensures First(lens[..n], l) == First(lens, l) && Next(lens[..n], l) == Next(lens, l)
  {
    if l > 0 {
      assert lens == lens[..n] + lens[n..];
      CountSplit(lens[..n], lens[n..], l);
      CountAbsent(lens[n..], l);
    }
    if l > 1 {
      TrimmedNext(lens, n, l - 1);
    }
  }
}
