/** What the inflater makes of bits that start no code. The table of an incomplete code has empty entries,
    and an empty entry reads as symbol 0: of no bits in the table of the first 10 bits, and of all bits
    walked in the tree behind it. */
module Gaps {
  import opened Bits
  import opened Canonical
  import opened InflateSpec

  const FAST_BITS := 10

  /** A proper prefix of a code. */
  ghost predicate OnWay(lens: seq<nat>, p: Bitstring) {
    exists s: nat :: Used(lens, s) && |p| < lens[s] && p == Code(lens, s)[..|p|]
  }

  /** A walk down the tree leaves the way of every code with its d-th bit. */
  ghost predicate Strays(lens: seq<nat>, bits: Bitstring, d: nat) {
    FAST_BITS < d <= |bits| && OnWay(lens, bits[..d - 1]) && !OnWay(lens, bits[..d])
  }

  /** The symbol that a lookup gives: the one that the format says, or 0 for an empty entry. An empty entry
      of the first table is only believed when there are 15 bits. */
  ghost function AnySymbol(bits: Bitstring, lens: seq<nat>): (r: Read<nat>)
    ensures r.Got? ==> |r.rest| <= |bits| && (r.value < |lens| || r.value == 0)
    ensures r.Got? && |r.rest| == |bits| ==> r.value == 0 && r.rest == bits
    ensures r.Got? && Symbol(bits, lens).Bad? ==> r.value == 0
  {
    if Symbol(bits, lens).Got? then Symbol(bits, lens)
    else if exists d: nat :: Strays(lens, bits, d) then
      var d: nat :| Strays(lens, bits, d);
      Got(0, bits[d..])
    else if |bits| >= MAX_LEN then Got(0, bits)
    else Bad
  }

  lemma OnWayBefore(lens: seq<nat>, bits: Bitstring, k: nat, d: nat)
    requires k <= d <= |bits| && OnWay(lens, bits[..d])
    ensures OnWay(lens, bits[..k])
  {
    hide Code;
    var s: nat :| Used(lens, s) && d < lens[s] && bits[..d] == Code(lens, s)[..d];
    assert bits[..k] == bits[..d][..k] == Code(lens, s)[..k];
  }

  /** The way is left once only. */
  lemma StraysOnce(lens: seq<nat>, bits: Bitstring, d: nat, e: nat)
    requires Strays(lens, bits, d) && Strays(lens, bits, e)
    ensures d == e
  {
    hide OnWay;
    if d < e { OnWayBefore(lens, bits, d, e - 1); }
    if e < d { OnWayBefore(lens, bits, e, d - 1); }
  }

  /** Bits that are still on the way of a code have not left it. */
  lemma StillOnWay(lens: seq<nat>, bits: Bitstring)
    requires OnWay(lens, bits)
    ensures forall d: nat :: !Strays(lens, bits, d)
  {
    hide OnWay;
    assert bits[..|bits|] == bits;
    forall d: nat | d <= |bits| ensures !Strays(lens, bits, d) {
      OnWayBefore(lens, bits, d, |bits|);
    }
  }

  /** Bits that are on the way of no long code when the tree would start never enter it. */
  lemma NeverOnWay(lens: seq<nat>, bits: Bitstring)
    requires |bits| >= FAST_BITS && !OnWay(lens, bits[..FAST_BITS])
    ensures forall d: nat :: !Strays(lens, bits, d)
  {
    hide OnWay;
    forall d: nat | Strays(lens, bits, d) ensures false {
      OnWayBefore(lens, bits, FAST_BITS, d - 1);
    }
  }

  /** What the format says goes first. */
  lemma SymbolFirst(bits: Bitstring, lens: seq<nat>)
    ensures Symbol(bits, lens).Got? ==> AnySymbol(bits, lens) == Symbol(bits, lens)
  {
    hide Symbol, Strays;
  }

  lemma StrayedSymbol(lens: seq<nat>, bits: Bitstring, d: nat)
    requires Strays(lens, bits, d) && Symbol(bits, lens).Bad?
    ensures AnySymbol(bits, lens) == Got(0, bits[d..])
  {
    hide Symbol, Strays;
    forall e: nat | Strays(lens, bits, e) ensures e == d { StraysOnce(lens, bits, d, e); }
  }

  /** More bits do not change what stands at the front. */
  lemma FrontCut(lens: seq<nat>, bits: Bitstring, more: Bitstring, s: nat)
    requires Decodes(lens, bits + more, s) && lens[s] <= |bits|
    ensures Decodes(lens, bits, s)
  {
    hide Code;
    assert Code(lens, s) == (bits + more)[..lens[s]] == bits[..lens[s]];
  }

  lemma WayGoesOn(lens: seq<nat>, bits: Bitstring, more: Bitstring, s: nat, d: nat)
    requires Decodes(lens, bits + more, s) && d <= |bits| < lens[s]
    ensures OnWay(lens, bits[..d])
  {
    hide Code;
    assert Code(lens, s)[..d] == (bits + more)[..d] == bits[..d];
  }

  /** A complete code has no gaps: every lookup gives what the format says. */
  lemma NoGaps(lens: seq<nat>, bits: Bitstring)
    requires ValidLens(lens) && Complete(lens)
    ensures AnySymbol(bits, lens) == Symbol(bits, lens)
  {
    hide Code, OnWay, Complete, ValidLens;
    if Symbol(bits, lens).Bad? {
      var more := Lsb(0, MAX_LEN);
      DecodeTotal(lens, bits + more);
      var s := DecodeSym(lens, bits + more).value;
      if lens[s] <= |bits| {
        FrontCut(lens, bits, more, s);
        assert false;
      }
      if |bits| >= MAX_LEN { DecodeTotal(lens, bits); assert false; }
      forall d: nat ensures !Strays(lens, bits, d) {
        if d <= |bits| { WayGoesOn(lens, bits, more, s, d); }
      }
    }
  }
}
