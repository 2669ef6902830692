/** The parser of level 1, `tdefl_compress_fast`: one probe, no chains, and greedy matches. */
module FastParser {
  import opened Bits
  import opened Tokens
  import opened SymFreqs
  import opened LzCodes
  import opened Window
  import opened Parsing
  import opened LazyParser
  import MF = MatchFinder

  // ---------- filling the window

  /** A `memcpy` into the dictionary, and into its mirrored tail. */
  method CopyIn(s: Parser, slot: nat, n: nat, ghost base: seq<Byte>, ghost start: nat)
    requires s.srcPos + n <= |s.src| && slot == |s.source| % LZ_DICT_SIZE && slot + n <= LZ_DICT_SIZE && Win(s.dict[..], s.source)
    requires start <= s.srcPos && s.source == base + s.src[start..s.srcPos]
    modifies s.dict, s`srcPos, s`source
    ensures Win(s.dict[..], s.source) && s.srcPos == old(s.srcPos) + n && |s.source| == old(|s.source|) + n
    ensures s.source == base + s.src[start..s.srcPos]
  {
    hide Win;
    var i := 0;
    ghost var size := |s.source|;
    while i < n
      invariant 0 <= i <= n && s.srcPos == old(s.srcPos) + i && |s.source| == size + i && Win(s.dict[..], s.source)
      invariant s.source == base + s.src[start..s.srcPos]
    {
      SlotIs(size + i, size / LZ_DICT_SIZE, slot + i);
      var c := s.TakeByte(slot + i, base, start);
      i := i + 1;
    }
  }

  /** The top of the loop: as much of the source as the lookahead can hold. */
  method FillFast(s: Parser)
    requires s.Shape() && s.Windowed() && s.Fast() && Parses(s.TheView()) && s.dictSize + s.lookaheadSize <= LZ_DICT_SIZE
    modifies s.dict, s`lookaheadSize, s`srcPos, s`source, s`dictSize
    ensures s.Windowed() && Parses(s.TheView()) && s.dictSize + s.lookaheadSize <= LZ_DICT_SIZE
    ensures s.srcPos >= old(s.srcPos) && s.source == old(s.source) + s.src[old(s.srcPos)..s.srcPos]
    ensures s.srcPos == |s.src| || s.lookaheadSize == FAST_LOOKAHEAD
    ensures s.dictSize == if old(s.dictSize) + s.lookaheadSize <= LZ_DICT_SIZE then old(s.dictSize) else LZ_DICT_SIZE - s.lookaheadSize
    ensures |s.source| == s.p + s.lookaheadSize && s.lookaheadSize <= FAST_LOOKAHEAD
  {
    hide Parses, Win;
    ghost var v := s.TheView();
    CopySource(s);
    ghost var more := s.src[old(s.srcPos)..s.srcPos];
    Take(v, more);
    assert s.TheView() == v.(source := v.source + more, look := v.look + |more|);
    var room := LZ_DICT_SIZE - s.lookaheadSize;
    if room < s.dictSize {
      Shrink(s.TheView(), room);
      s.dictSize := room;
    }
  }

  method CopySource(s: Parser)
    requires s.Shape() && s.Windowed() && s.Fast()
    modifies s.dict, s`lookaheadSize, s`srcPos, s`source
    ensures s.Windowed() && s.srcPos >= old(s.srcPos) && s.source == old(s.source) + s.src[old(s.srcPos)..s.srcPos]
    ensures s.srcPos == |s.src| || s.lookaheadSize == FAST_LOOKAHEAD
  {
    hide Win;
    ghost var base, start := s.source, s.srcPos;
    NextSlot(s.p, s.lookaheadPos, s.lookaheadSize);
    var dstPos := (s.lookaheadPos + s.lookaheadSize) % LZ_DICT_SIZE;
    var room := FAST_LOOKAHEAD - s.lookaheadSize;
    var num := if |s.src| - s.srcPos < room then |s.src| - s.srcPos else room;
    var left := num;
    assert s.source + s.src[s.srcPos..s.srcPos] == s.source;
    while left > 0
      invariant 0 <= left <= num && s.srcPos == start + num - left && start + num <= |s.src| && |s.source| == |base| + num - left
      invariant s.source == base + s.src[start..s.srcPos] && dstPos == |s.source| % LZ_DICT_SIZE && Win(s.dict[..], s.source)
      modifies s.dict, s`srcPos, s`source
    {
      var n := if LZ_DICT_SIZE - dstPos < left then LZ_DICT_SIZE - dstPos else left;
      SlotSum(|s.source|, n);
      CopyIn(s, dstPos, n, base, start);
      dstPos := (dstPos + n) % LZ_DICT_SIZE;
      left := left - n;
    }
    s.lookaheadSize := s.lookaheadSize + num;
  }

  lemma SlotSum(size: nat, n: nat)
    ensures (size % LZ_DICT_SIZE + n) % LZ_DICT_SIZE == (size + n) % LZ_DICT_SIZE
  {
  }

  // ---------- a match

  /** The low three bytes of a little-endian 32-bit read. */
  function Trigram(dict: seq<Byte>, i: nat): (t: nat)
    requires i + 3 < |dict|
    ensures t < 0x100_0000
  {
    var a: nat, b: nat, c: nat := dict[i], dict[i + 1], dict[i + 2];
    a + 256 * b + 65536 * c
  }

  lemma SameTrigram(dict: seq<Byte>, i: nat, j: nat)
    requires i + 3 < |dict| && j + 3 < |dict| && Trigram(dict, i) == Trigram(dict, j)
    ensures dict[i] == dict[j] && dict[i + 1] == dict[j + 1] && dict[i + 2] == dict[j + 2] && MF.WordAt(dict, i) == MF.WordAt(dict, j)
  {
    Digits(dict[i], dict[i + 1], dict[i + 2], dict[j], dict[j + 1], dict[j + 2]);
  }

  lemma Digits(a: Byte, b: Byte, c: Byte, x: Byte, y: Byte, z: Byte)
    requires a as int + 256 * b as int + 65536 * c as int == x as int + 256 * y as int + 65536 * z as int
    ensures a == x && b == y && c == z
  {
  }

  /** `(trigram ^ (trigram >> 17)) & TDEFL_LEVEL1_HASH_SIZE_MASK`. */
  function FastHash(t: nat): (h: nat)
    requires t < 0x100_0000
    ensures h < 4096
  {
    var x := t as bv32;
    Masked(x ^ (x >> 17));
    ((x ^ (x >> 17)) & 0xFFF) as nat
  }

  lemma Masked(x: bv32)
    ensures x & 0xFFF < 0x1000
  {
  }

  /** How far the candidate at `probe` agrees, word by word: 258 bytes at most, and 0 for the current
      position itself. */
  method RunLength(dict: array<Byte>, pos: nat, probe: nat, dist: nat) returns (len: nat)
    requires dict.Length == MF.DICT_LENGTH && pos < LZ_DICT_SIZE && probe < LZ_DICT_SIZE && (dist == 0 ==> pos == probe)
    requires MF.WordAt(dict[..], pos) == MF.WordAt(dict[..], probe)
    ensures len == if dist == 0 then 0 else MF.Common(dict[..], pos, probe, MAX_MATCH_LEN)
  {
    hide MF.Common, MF.SameWords, MF.WordAt;
    var i, left := MF.CompareWords(dict, pos, probe);
    if left == 0 {
      MF.AllWords(dict[..], pos, probe, MAX_MATCH_LEN);
      len := if dist > 0 then MAX_MATCH_LEN else 0;
    } else {
      MF.WordLength(dict[..], pos, probe, i, MAX_MATCH_LEN);
      len := i * 2 + (if dict[pos + 2 * i] == dict[probe + 2 * i] then 1 else 0);
    }
  }

  /** The one candidate, the last position with the same hash `at`, when it starts with the same three bytes and is
      worth it. Distance 0 stands for none. */
  function Judged(dict: seq<Byte>, lookaheadPos: nat, dictSize: nat, look: nat, at: Word16): (best: MF.Best)
    requires |dict| == MF.DICT_LENGTH && look >= 4
    ensures best.len == MIN_MATCH_LEN ==> best.dist < 8192
  {
    var pos, place, dist := lookaheadPos % LZ_DICT_SIZE, at % LZ_DICT_SIZE, MF.Distance(lookaheadPos, at);
    var len := if dist == 0 then 0 else MF.Common(dict, pos, place, MAX_MATCH_LEN);
    if dist > dictSize || Trigram(dict, place) != Trigram(dict, pos) || len < MIN_MATCH_LEN || (len == MIN_MATCH_LEN && dist >= 8192) then
      MF.Best(0, 1)
    else
      MF.Best(dist, if len < look then len else look)
  }

  ghost function Candidate(s: Parser): (best: MF.Best)
    requires s.Shape() && s.lookaheadSize >= 4
    reads s`lookaheadPos, s`dictSize, s`lookaheadSize, s.dict, s.hash
    ensures best.len == MIN_MATCH_LEN ==> best.dist < 8192
  {
    Judged(s.dict[..], s.lookaheadPos, s.dictSize, s.lookaheadSize, s.hash[FastHash(Trigram(s.dict[..], s.lookaheadPos % LZ_DICT_SIZE))])
  }

  /** The search for it; the current position takes its place. */
  method Probe(s: Parser) returns (best: MF.Best)
    requires s.Shape() && s.Windowed() && s.Fast() && Parses(s.TheView()) && s.dictSize + s.lookaheadSize <= LZ_DICT_SIZE
    requires s.lookaheadSize >= 4
    modifies s.hash
    ensures best.dist > 0 ==> Found(s.TheView(), best.dist, best.len) && best.dist <= s.dictSize
    ensures best == old(Candidate(s))
    ensures s.hash[..] == old(s.hash[..])[FastHash(Trigram(s.dict[..], s.lookaheadPos % LZ_DICT_SIZE)) := s.lookaheadPos % 65536]
  {
    hide Win, Stands, Copies, Trigram, FastHash, MF.Common, MF.WordAt, MF.Distance;
    WinLength(s.dict[..], s.source);
    var curPos := s.lookaheadPos % LZ_DICT_SIZE;
    var first := Trigram(s.dict[..], curPos);
    var h := FastHash(first);
    var at := s.hash[h];
    s.hash[h] := s.lookaheadPos % 65536;
    var dist := MF.Distance(s.lookaheadPos, at);
    best := MF.Best(0, 1);
    if dist > s.dictSize { return; }
    var probe := at % LZ_DICT_SIZE;
    if Trigram(s.dict[..], probe) != first { return; }
    SameTrigram(s.dict[..], curPos, probe);
    SamePlace(s.lookaheadPos, at);
    var len := RunLength(s.dict, curPos, probe, dist);
    if len < MIN_MATCH_LEN || (len == MIN_MATCH_LEN && dist >= 8192) { return; }
    best := MF.Best(dist, if len < s.lookaheadSize then len else s.lookaheadSize);
    CandidateFound(s.dict[..], s.TheView(), s.lookaheadPos, at, best.len);
  }

  lemma SamePlace(pos: nat, at: Word16)
    ensures MF.Distance(pos, at) == 0 ==> pos % LZ_DICT_SIZE == at % LZ_DICT_SIZE
  {
    var q := MF.Query([], [], pos, 0, 0);
    MF.ProbeIsBack(q, at);
    AddTurns(pos);
  }

  lemma AddTurns(pos: nat)
    ensures (pos + 65536) % LZ_DICT_SIZE == pos % LZ_DICT_SIZE
  {
    SlotIs(pos + 65536, pos / LZ_DICT_SIZE + 2, pos % LZ_DICT_SIZE);
  }

  /** What agrees in the dictionary, as far as the lookahead goes, is a match in the source. */
  lemma CandidateFound(dict: seq<Byte>, v: View, lookaheadPos: nat, at: Word16, len: nat)
    requires Parses(v) && Win(dict, v.source) && |dict| == MF.DICT_LENGTH && lookaheadPos == Wrap32(v.p)
    requires v.dictSize + v.look <= LZ_DICT_SIZE && 1 <= MF.Distance(lookaheadPos, at) <= v.dictSize
    requires MIN_MATCH_LEN <= len <= v.look && len <= MF.Common(dict, lookaheadPos % LZ_DICT_SIZE, at % LZ_DICT_SIZE, MAX_MATCH_LEN)
    ensures Found(v, MF.Distance(lookaheadPos, at), len)
  {
    hide Win, Stands, Copies, MF.Common, MF.Distance, Parses;
    ParsesBounds(v);
    var dist, pos, probe := MF.Distance(lookaheadPos, at), lookaheadPos % LZ_DICT_SIZE, at % LZ_DICT_SIZE;
    SamePlaces(v.p, lookaheadPos, at, dist);
    SameSlices(dict, pos, probe, len);
    MatchCopies(dict, v.source, v.p, dist, len);
  }

  lemma ParsesBounds(v: View)
    requires Parses(v)
    ensures |v.source| == v.p + v.look && v.dictSize <= v.p
  {
    hide Stands, Copies;
  }

  /** Slots, from positions on 32 bits. */
  lemma SamePlaces(p: nat, lookaheadPos: nat, at: Word16, dist: nat)
    requires lookaheadPos == Wrap32(p) && dist == MF.Distance(lookaheadPos, at) && 1 <= dist <= p && dist <= LZ_DICT_SIZE
    ensures lookaheadPos % LZ_DICT_SIZE == p % LZ_DICT_SIZE && at % LZ_DICT_SIZE == (p - dist) % LZ_DICT_SIZE
  {
    hide MF.Distance;
    var q := MF.Query([], [], lookaheadPos, 0, 0);
    MF.ProbeIsBack(q, at);
    BackSlot(p, dist, q);
  }

  lemma SameSlices(dict: seq<Byte>, a: nat, b: nat, len: nat)
    requires |dict| == MF.DICT_LENGTH && a < LZ_DICT_SIZE && b < LZ_DICT_SIZE && len <= MF.Common(dict, a, b, MAX_MATCH_LEN)
    ensures dict[a..a + len] == dict[b..b + len]
  {
    hide MF.Common;
    MF.CommonRepeats(dict, a, b, MAX_MATCH_LEN);
    var n := MF.Common(dict, a, b, MAX_MATCH_LEN);
    MF.SliceTake(dict, a, n, len);
    MF.SliceTake(dict, b, n, len);
  }

  // ---------- one step

  /** A step with at least four bytes ahead: a match if the candidate is one, or a literal. */
  method FastStep(s: Parser)
    requires s.Shape() && s.Windowed() && s.Fast() && Parses(s.TheView()) && s.dictSize + s.lookaheadSize <= LZ_DICT_SIZE
    requires s.lookaheadSize >= 4 && s.savedLen == 0 && s.d.Valid() && s.d.pos <= FULL_BUFFER
    modifies s`lookaheadPos, s`lookaheadSize, s`dictSize, s`p, s.hash
    modifies s.d`pos, s.d`flagPos, s.d`flagsLeft, s.d`totalBytes, s.d`tokens, s.d.buf, s.d.lit.count, s.d.dist.count
    ensures s.Windowed() && Parses(s.TheView()) && s.dictSize + s.lookaheadSize <= LZ_DICT_SIZE
    ensures s.d.Valid() && s.d.pos <= FULL_BUFFER + 6
    ensures s.lookaheadSize < old(s.lookaheadSize) && s.p + s.lookaheadSize == old(s.p + s.lookaheadSize)
    ensures Stepped(old(s.TheView()), old(Candidate(s)).dist, old(Candidate(s)).len, true, s.TheView())
    ensures Fits(old(s.TheView()), old(Candidate(s)).dist, old(Candidate(s)).len)
  {
    hide Win, Stands, Copies, Parses, Recorded, LitCounted, DistCounted, Found, Stepped, Candidate;
    var best := Probe(s);
    if best.dist > 0 {
      ghost var v := s.TheView();
      FoundFacts(v, v, best.dist, best.len);
      TakeMatch(v, best.dist, best.len);
      TakeStep(v, best.dist, best.len, true);
      s.d.RecordMatch(best.len, best.dist);
      s.MoveOn(best.len);
    } else {
      FastLiteral(s, best.len);
    }
  }

  /** A literal. */
  method FastLiteral(s: Parser, ghost len: nat := 0)
    requires s.Shape() && s.Windowed() && Parses(s.TheView()) && s.dictSize + s.lookaheadSize <= LZ_DICT_SIZE
    requires s.lookaheadSize >= 1 && s.savedLen == 0 && s.d.Valid() && s.d.pos <= FULL_BUFFER
    modifies s`lookaheadPos, s`lookaheadSize, s`dictSize, s`p
    modifies s.d`pos, s.d`flagPos, s.d`flagsLeft, s.d`totalBytes, s.d`tokens, s.d.buf, s.d.lit.count, s.d.dist.count
    ensures s.Windowed() && Parses(s.TheView()) && s.dictSize + s.lookaheadSize <= LZ_DICT_SIZE
    ensures s.d.Valid() && s.d.pos <= FULL_BUFFER + 6
    ensures s.lookaheadSize < old(s.lookaheadSize) && s.p + s.lookaheadSize == old(s.p + s.lookaheadSize)
    ensures Stepped(old(s.TheView()), 0, len, true, s.TheView())
  {
    hide Win, Stands, Copies, Parses, Recorded, LitCounted, DistCounted, Stepped;
    ghost var v := s.TheView();
    CurrentByte(s.dict[..], v, s.lookaheadPos);
    var lit := s.dict[s.lookaheadPos % LZ_DICT_SIZE];
    TakeLiteral(v);
    LiteralStep(v, len, true);
    LiteralIsToken(lit);
    s.d.RecordLiteral(lit);
    s.MoveOn(1);
  }
}
