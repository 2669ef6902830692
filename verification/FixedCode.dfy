/** The fixed codes (section 3.2.6 of RFC 1951) are complete. */
module FixedCode {
  import opened Bits
  import opened Canonical
  import opened InflateSpec
  import HuffTable

  lemma {:induction false} CountRepeated(x: nat, n: nat, l: nat)
    ensures Count(Repeated(x, n), l) == if x == l then n else 0
  {
    if n > 0 {
      assert Repeated(x, n)[..n - 1] == Repeated(x, n - 1);
      CountRepeated(x, n - 1, l);
    }
  }

  lemma FixedLitCount(l: nat)
    ensures Count(FixedLit(), l) == if l == 7 then 24 else if l == 8 then 152 else if l == 9 then 112 else 0
  {
    var a, b, c, d := Repeated(8, 144), Repeated(9, 112), Repeated(7, 24), Repeated(8, 8);
    CountRepeated(8, 144, l);
    CountRepeated(9, 112, l);
    CountRepeated(7, 24, l);
    CountRepeated(8, 8, l);
    CountSplit(a, b, l);
    CountSplit(a + b, c, l);
    CountSplit(a + b + c, d, l);
  }

  lemma NextFrom(lens: seq<nat>, limit: nat)
    requires 1 <= limit <= MAX_LEN && Next(lens, limit) == Pow2(limit) && forall l :: limit < l <= MAX_LEN ==> Count(lens, l) == 0
    ensures Complete(lens)
  {
    HuffTable.NextAbove(lens, limit, MAX_LEN);
    Pow2Add(limit, MAX_LEN - limit);
    Pow2Of15();
  }

  lemma {:induction false} NextNone(lens: seq<nat>, l: nat)
    requires forall k :: 1 <= k <= l ==> Count(lens, k) == 0
    ensures Next(lens, l) == 0
  {
    if l > 0 {
      NextNone(lens, l - 1);
      assert First(lens, l) == 0;
    }
  }

  lemma FixedComplete()
    ensures Acceptable(FixedLit()) && Acceptable(FixedDist()) && Complete(FixedLit()) && Complete(FixedDist())
  {
    hide Count, Pow2;
    forall l: nat ensures Count(FixedLit(), l) == if l == 7 then 24 else if l == 8 then 152 else if l == 9 then 112 else 0 {
      FixedLitCount(l);
    }
    forall l: nat ensures Count(FixedDist(), l) == if l == 5 then 32 else 0 { CountRepeated(5, 32, l); }
    FixedPowers();
    NextNone(FixedLit(), 6);
    StepNext(FixedLit(), 7);
    StepNext(FixedLit(), 8);
    StepNext(FixedLit(), 9);
    NextFrom(FixedLit(), 9);
    NextNone(FixedDist(), 4);
    StepNext(FixedDist(), 5);
    NextFrom(FixedDist(), 5);
  }

  lemma FixedPowers()
    ensures Pow2(9) == 512 && Pow2(5) == 32
  {
    assert Pow2(4) == 16;
  }

  lemma StepNext(lens: seq<nat>, l: nat)
    requires l >= 2
    ensures Next(lens, l) == 2 * Next(lens, l - 1) + Count(lens, l)
  {
  }

  /** The table of section 3.2.6 of RFC 1951. */
  lemma FixedLitCode(s: nat)
    requires s < 288
    ensures Used(FixedLit(), s)
    ensures s < 144 ==> Code(FixedLit(), s) == Msb(0x30 + s, 8)
    ensures 144 <= s < 256 ==> Code(FixedLit(), s) == Msb(0x190 + (s - 144), 9)
    ensures 256 <= s < 280 ==> Code(FixedLit(), s) == Msb(s - 256, 7)
    ensures 280 <= s ==> Code(FixedLit(), s) == Msb(0xC0 + (s - 280), 8)
  {
    hide Count, Pow2, Msb;
    FixedFirsts();
    LitRanks(s);
  }

  /** A distance code is the symbol itself in five bits. */
  lemma FixedDistCode(s: nat)
    requires s < 32
    ensures Used(FixedDist(), s) && Code(FixedDist(), s) == Msb(s, 5)
  {
    hide Count, Pow2, Msb;
    forall l: nat ensures Count(FixedDist(), l) == if l == 5 then 32 else 0 { CountRepeated(5, 32, l); }
    NextNone(FixedDist(), 4);
    assert FixedDist()[..s] == Repeated(5, s);
    CountRepeated(5, s, 5);
  }

  lemma FixedFirsts()
    ensures First(FixedLit(), 7) == 0 && First(FixedLit(), 8) == 48 && First(FixedLit(), 9) == 400
  {
    hide Count;
    forall l: nat ensures Count(FixedLit(), l) == if l == 7 then 24 else if l == 8 then 152 else if l == 9 then 112 else 0 {
      FixedLitCount(l);
    }
    NextNone(FixedLit(), 6);
    StepNext(FixedLit(), 7);
    StepNext(FixedLit(), 8);
  }

  /** How many symbols before `s` have codes of its length. */
  lemma LitRanks(s: nat)
    requires s < 288
    ensures Count(FixedLit()[..s], FixedLit()[s]) ==
            if s < 144 then s else if s < 256 then s - 144 else if s < 280 then s - 256 else 144 + (s - 280)
  {
    hide Count;
    var a, b, c := Repeated(8, 144), Repeated(9, 112), Repeated(7, 24);
    var l := FixedLit()[s];
    CountRepeated(8, 144, l);
    CountRepeated(9, 112, l);
    CountRepeated(7, 24, l);
    CountSplit(a, b, l);
    CountSplit(a + b, c, l);
    if s < 144 {
      assert FixedLit()[..s] == Repeated(8, s);
      CountRepeated(8, s, l);
    } else if s < 256 {
      assert FixedLit()[..s] == a + Repeated(9, s - 144);
      CountSplit(a, Repeated(9, s - 144), l);
      CountRepeated(9, s - 144, l);
    } else if s < 280 {
      assert FixedLit()[..s] == a + b + Repeated(7, s - 256);
      CountSplit(a + b, Repeated(7, s - 256), l);
      CountRepeated(7, s - 256, l);
    } else {
      assert FixedLit()[..s] == a + b + c + Repeated(8, s - 280);
      CountSplit(a + b + c, Repeated(8, s - 280), l);
      CountRepeated(8, s - 280, l);
    }
  }
}
