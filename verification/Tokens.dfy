/** LZ77 tokens: what they stand for, and the symbols and extra bits that they are sent as
    (section 3.2.5 of RFC 1951). */
module Tokens {
  import opened Bits
  import opened Canonical

  const MIN_MATCH_LEN := 3
  const MAX_MATCH_LEN := 258
  const LZ_DICT_SIZE := 32768

  datatype Token = Literal(b: Byte) | Match(len: nat, dist: nat)

  predicate ValidToken(t: Token) {
    t.Match? ==> MIN_MATCH_LEN <= t.len <= MAX_MATCH_LEN && 1 <= t.dist <= LZ_DICT_SIZE
  }

  /** A match of three bytes from far back would take more bits than it saves. */
  predicate Worth(t: Token) { t.Match? && t.len == MIN_MATCH_LEN ==> t.dist < 8192 }

  predicate AllWorth(ts: seq<Token>) { forall i :: 0 <= i < |ts| ==> Worth(ts[i]) }

  // ---------- meaning

  /** The overlapping copy, byte by byte. */
  function CopyMatch(h: seq<Byte>, len: nat, dist: nat): (r: seq<Byte>)
    requires 1 <= dist <= |h|
    ensures |r| == |h| + len && h <= r
    decreases len
  {
    if len == 0 then h else CopyMatch(h + [h[|h| - dist]], len - 1, dist)
  }

  /** The token refers only to bytes that are there. */
  predicate Applies(h: seq<Byte>, t: Token) { t.Match? ==> 1 <= t.dist <= |h| }

  function Apply(h: seq<Byte>, t: Token): (r: seq<Byte>)
    ensures h <= r
  {
    if !Applies(h, t) then h else
    match t
    case Literal(b) => h + [b]
    case Match(len, dist) => CopyMatch(h, len, dist)
  }

  predicate AllApply(h: seq<Byte>, ts: seq<Token>)
    decreases |ts|
  {
    ts == [] || (ValidToken(ts[0]) && Applies(h, ts[0]) && AllApply(Apply(h, ts[0]), ts[1..]))
  }

  /** The bytes after the tokens `ts`, when `h` came before. */
  function Expand(h: seq<Byte>, ts: seq<Token>): (r: seq<Byte>)
    ensures h <= r
    decreases |ts|
  {
    if ts == [] then h else Expand(Apply(h, ts[0]), ts[1..])
  }

  lemma {:induction false} ExpandSnoc(h: seq<Byte>, ts: seq<Token>, t: Token)
    ensures Expand(h, ts + [t]) == Apply(Expand(h, ts), t)
    ensures AllApply(h, ts + [t]) <==> AllApply(h, ts) && ValidToken(t) && Applies(Expand(h, ts), t)
    decreases |ts|
  {
    if ts == [] {
      assert [t][1..] == [] && [] + [t] == [t];
    } else {
      assert (ts + [t])[1..] == ts[1..] + [t];
      ExpandSnoc(Apply(h, ts[0]), ts[1..], t);
    }
  }

  // ---------- symbols and extra bits

  /** `s_tdefl_len_sym`, indexed by length - 3. */
  function LenSym(c: nat): nat {
    if c == 255 then 285
    else if c < 8 then 257 + c
    else if c < 16 then 265 + (c - 8) / 2
    else if c < 32 then 269 + (c - 16) / 4
    else if c < 64 then 273 + (c - 32) / 8
    else if c < 128 then 277 + (c - 64) / 16
    else 281 + (c - 128) / 32
  }

  /** `s_tdefl_len_extra`. */
  function LenExtra(c: nat): nat {
    if c == 255 || c < 8 then 0
    else if c < 16 then 1
    else if c < 32 then 2
    else if c < 64 then 3
    else if c < 128 then 4
    else 5
  }

  /** `s_tdefl_small_dist_sym` and `s_tdefl_small_dist_extra`, indexed by distance - 1 below 512. */
  function SmallDistSym(d: nat): nat {
    if d < 4 then d
    else if d < 8 then 4 + (d - 4) / 2
    else if d < 16 then 6 + (d - 8) / 4
    else if d < 32 then 8 + (d - 16) / 8
    else if d < 64 then 10 + (d - 32) / 16
    else if d < 128 then 12 + (d - 64) / 32
    else if d < 256 then 14 + (d - 128) / 64
    else 16 + (d - 256) / 128
  }

  function SmallDistExtra(d: nat): nat {
    if d < 4 then 0
    else if d < 8 then 1
    else if d < 16 then 2
    else if d < 32 then 3
    else if d < 64 then 4
    else if d < 128 then 5
    else if d < 256 then 6
    else 7
  }

  /** `s_tdefl_large_dist_sym` and `s_tdefl_large_dist_extra`, indexed by (distance - 1) / 256. */
  function LargeDistSym(h: nat): nat {
    if h < 2 then 0
    else if h < 4 then 16 + h
    else if h < 8 then 20 + (h - 4) / 2
    else if h < 16 then 22 + (h - 8) / 4
    else if h < 32 then 24 + (h - 16) / 8
    else if h < 64 then 26 + (h - 32) / 16
    else 28 + (h - 64) / 32
  }

  function LargeDistExtra(h: nat): nat {
    if h < 2 then 0
    else if h < 4 then 8
    else if h < 8 then 9
    else if h < 16 then 10
    else if h < 32 then 11
    else if h < 64 then 12
    else 13
  }

  function DistSym(d: nat): nat { if d < 512 then SmallDistSym(d) else LargeDistSym(d / 256) }

  function DistExtra(d: nat): nat { if d < 512 then SmallDistExtra(d) else LargeDistExtra(d / 256) }

  /** The decoder's tables, indexed by symbol. */
  const LENGTH_BASE: seq<nat> := [3, 4, 5, 6, 7, 8, 9, 10, 11, 13, 15, 17, 19, 23, 27, 31, 35, 43, 51, 59, 67, 83, 99, 115,
                                  131, 163, 195, 227, 258]
  const LENGTH_EXTRA: seq<nat> := [0, 0, 0, 0, 0, 0, 0, 0, 1, 1, 1, 1, 2, 2, 2, 2, 3, 3, 3, 3, 4, 4, 4, 4, 5, 5, 5, 5, 0]
  const DIST_BASE: seq<nat> := [1, 2, 3, 4, 5, 7, 9, 13, 17, 25, 33, 49, 65, 97, 129, 193, 257, 385, 513, 769, 1025, 1537,
                                2049, 3073, 4097, 6145, 8193, 12289, 16385, 24577]
  const DIST_EXTRA: seq<nat> := [0, 0, 0, 0, 1, 1, 2, 2, 3, 3, 4, 4, 5, 5, 6, 6, 7, 7, 8, 8, 9, 9, 10, 10, 11, 11, 12, 12,
                                 13, 13]

  function Extra(v: nat, n: nat): nat { v % Pow2(n) }

  lemma SmallPowers()
    ensures Pow2(0) == 1 && Pow2(1) == 2 && Pow2(2) == 4 && Pow2(3) == 8 && Pow2(4) == 16 && Pow2(5) == 32
    ensures Pow2(6) == 64 && Pow2(7) == 128 && Pow2(8) == 256 && Pow2(9) == 512 && Pow2(10) == 1024
    ensures Pow2(11) == 2048 && Pow2(12) == 4096 && Pow2(13) == 8192
  {
    assert Pow2(5) == 32;
    assert Pow2(10) == 1024;
  }

  /** The table of distances in section 3.2.5 of RFC 1951: symbol after symbol the distances follow one
      another, and from the fifth symbol on every second one has an extra bit more. */
  lemma DistanceLaw(s: nat)
    requires s < 30
    ensures |DIST_BASE| == |DIST_EXTRA| == 30 && DIST_BASE[0] == 1
    ensures DIST_EXTRA[s] == if s < 2 then 0 else s / 2 - 1
    ensures s < 29 ==> DIST_BASE[s + 1] == DIST_BASE[s] + Pow2(DIST_EXTRA[s])
    ensures DIST_BASE[29] + Pow2(DIST_EXTRA[29]) == LZ_DICT_SIZE + 1
  {
    SmallPowers();
    if s < 10 {} else if s < 20 {} else {}
  }

  /** The table of lengths: the lengths follow one another up to symbol 284, with an extra bit more for
      every fourth symbol; symbol 285 is the length 258 alone. */
  lemma LengthLaw(s: nat)
    requires s < 29
    ensures |LENGTH_BASE| == |LENGTH_EXTRA| == 29 && LENGTH_BASE[0] == 3
    ensures s < 28 ==> LENGTH_EXTRA[s] == if s < 4 then 0 else s / 4 - 1
    ensures s < 27 ==> LENGTH_BASE[s + 1] == LENGTH_BASE[s] + Pow2(LENGTH_EXTRA[s])
    ensures LENGTH_BASE[27] + Pow2(LENGTH_EXTRA[27]) == 259 && LENGTH_BASE[28] == 258 && LENGTH_EXTRA[28] == 0
  {
    SmallPowers();
    if s < 10 {} else if s < 20 {} else {}
  }

  /** The decoder's length tables undo the encoder's. */
  lemma LengthTables(c: nat)
    requires c < 256
    ensures 257 <= LenSym(c) <= 285 && LENGTH_EXTRA[LenSym(c) - 257] == LenExtra(c) <= 5
    ensures LENGTH_BASE[LenSym(c) - 257] + Extra(c, LenExtra(c)) == c + MIN_MATCH_LEN
    ensures LenSym(c) == 285 <==> c + MIN_MATCH_LEN == 258
  {
    SmallPowers();
    if c < 16 { ShortLengths(c); } else if c < 32 { MediumLengths(c); } else if c < 128 { MiddleLengths(c); } else { LongLengths(c); }
  }

  lemma ShortLengths(c: nat)
    requires c < 16
    ensures 257 <= LenSym(c) <= 285 && LENGTH_EXTRA[LenSym(c) - 257] == LenExtra(c)
    ensures LENGTH_BASE[LenSym(c) - 257] + Extra(c, LenExtra(c)) == c + MIN_MATCH_LEN
  {
    SmallPowers();
  }

  lemma MediumLengths(c: nat)
    requires 16 <= c < 32
    ensures 257 <= LenSym(c) <= 285 && LENGTH_EXTRA[LenSym(c) - 257] == LenExtra(c)
    ensures LENGTH_BASE[LenSym(c) - 257] + Extra(c, LenExtra(c)) == c + MIN_MATCH_LEN
  {
    SmallPowers();
  }

  lemma MiddleLengths(c: nat)
    requires 32 <= c < 128
    ensures 257 <= LenSym(c) <= 285 && LENGTH_EXTRA[LenSym(c) - 257] == LenExtra(c)
    ensures LENGTH_BASE[LenSym(c) - 257] + Extra(c, LenExtra(c)) == c + MIN_MATCH_LEN
  {
    SmallPowers();
  }

  lemma LongLengths(c: nat)
    requires 128 <= c < 256
    ensures 257 <= LenSym(c) <= 285 && LENGTH_EXTRA[LenSym(c) - 257] == LenExtra(c)
    ensures LENGTH_BASE[LenSym(c) - 257] + Extra(c, LenExtra(c)) == c + MIN_MATCH_LEN
  {
    SmallPowers();
  }

  /** The decoder's distance tables undo the encoder's. */
  lemma DistanceTables(d: nat)
    requires d < LZ_DICT_SIZE
    ensures DistSym(d) < 30 && DIST_EXTRA[DistSym(d)] == DistExtra(d) <= 13
    ensures DIST_BASE[DistSym(d)] + Extra(d, DistExtra(d)) == d + 1
  {
    SmallPowers();
    if d < 512 { SmallTables(d); } else { LargeTables(d); }
  }

  lemma SmallTables(d: nat)
    requires d < 512
    ensures SmallDistSym(d) < 18 && DIST_EXTRA[SmallDistSym(d)] == SmallDistExtra(d) <= 7
    ensures DIST_BASE[SmallDistSym(d)] + Extra(d, SmallDistExtra(d)) == d + 1
  {
    hide SmallDistSym, SmallDistExtra, Extra;
    if d < 32 { ShortTables(d); } else { MediumTables(d); }
  }

  lemma ShortTables(d: nat)
    requires d < 32
    ensures SmallDistSym(d) < 18 && DIST_EXTRA[SmallDistSym(d)] == SmallDistExtra(d) <= 7
    ensures DIST_BASE[SmallDistSym(d)] + Extra(d, SmallDistExtra(d)) == d + 1
  {
    SmallPowers();
  }

  lemma MediumTables(d: nat)
    requires 32 <= d < 512
    ensures SmallDistSym(d) < 18 && DIST_EXTRA[SmallDistSym(d)] == SmallDistExtra(d) <= 7
    ensures DIST_BASE[SmallDistSym(d)] + Extra(d, SmallDistExtra(d)) == d + 1
  {
    SmallPowers();
  }

  lemma LargeTables(d: nat)
    requires 512 <= d < LZ_DICT_SIZE
    ensures 18 <= LargeDistSym(d / 256) < 30 && DIST_EXTRA[LargeDistSym(d / 256)] == LargeDistExtra(d / 256) <= 13
    ensures DIST_BASE[LargeDistSym(d / 256)] + Extra(d, LargeDistExtra(d / 256)) == d + 1
  {
    SmallPowers();
  }
}
