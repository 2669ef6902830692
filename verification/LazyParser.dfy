/** The parser of the compressor: filling the window, looking for matches, and the lazy state machine
    of `tdefl_compress_normal`. */
module LazyParser {
  import opened Bits
  import opened Tokens
  import opened SymFreqs
  import opened Settings
  import opened LzCodes
  import opened Window
  import opened Parsing
  import opened HashChains
  import MF = MatchFinder

  const FULL_BUFFER := 65528  // TDEFL_LZ_CODE_BUF_SIZE - 8

  /** How many bytes from `at` on are `c`, up to `max`. */
  function Run(dict: seq<Byte>, at: nat, c: Byte, max: nat): (n: nat)
    requires at + max <= |dict|
    ensures n <= max
    decreases max
  {
    if max == 0 || dict[at] != c then 0 else 1 + Run(dict, at + 1, c, max - 1)
  }

  lemma {:induction false} RunIs(dict: seq<Byte>, at: nat, c: Byte, max: nat)
    requires at + max <= |dict|
    ensures var n := Run(dict, at, c, max);
            (forall k :: at <= k < at + n ==> dict[k] == c) && (n < max ==> dict[at + n] != c)
    decreases max
  {
    if max > 0 && dict[at] == c {
      RunIs(dict, at + 1, c, max - 1);
      var n := Run(dict, at + 1, c, max - 1);
      forall k | at <= k < at + 1 + n ensures dict[k] == c {
        assert k == at || at + 1 <= k < at + 1 + n;
      }
    }
  }

  /** The parts of `tdefl_compressor` that read the source and record tokens. */
  class Parser {
    const d: CodeBuffer
    const dict: array<Byte>     // m_dict
    const next: array<Word16>   // m_next
    const hash: array<Word16>   // m_hash
    const opts: Options
    const platform: Platform
    var lookaheadPos: nat
    var lookaheadSize: nat
    var dictSize: nat
    var savedDist: nat
    var savedLen: nat
    var savedLit: nat
    var src: seq<Byte>          // the caller's input buffer
    var srcPos: nat             // m_pSrc; m_src_buf_left bytes follow it
    ghost var source: seq<Byte> // every byte taken in
    ghost var p: nat            // the absolute position of the lookahead
    ghost var f: nat            // the absolute position of the unflushed tokens
    ghost var origin: Chains    // the chains as they were at first, or when they were last forgotten

    /** `tdefl_init`. The chains and the dictionary may hold anything, as they do when they are not cleared. */
    constructor (d: CodeBuffer, opts: Options, platform: Platform, dict: array<Byte>, next: array<Word16>, hash: array<Word16>)
      requires dict.Length == MF.DICT_LENGTH && next.Length == LZ_DICT_SIZE && hash.Length == HASH_SIZE && next != hash
      requires d.Shape() && dict != d.buf && {next, hash} !! {d.lit.count, d.dist.count} && d.tokens == [] && d.pos == 1
      ensures Valid() && TheView() == View([], 0, 0, 0, 0, 0, 0, 0, []) && src == [] && srcPos == 0
      ensures this.d == d && this.opts == opts && this.platform == platform && this.dict == dict && this.next == next && this.hash == hash
      ensures origin == TheChains()
    {
      hide Win, Parses;
      this.d, this.dict, this.next, this.hash, this.opts, this.platform := d, dict, next, hash, opts, platform;
      lookaheadPos, lookaheadSize, dictSize, savedDist, savedLen, savedLit, src, srcPos := 0, 0, 0, 0, 0, 0, [], 0;
      source, p, f, origin := [], 0, 0, Chains(next[..], hash[..]);
      new;
      StartView(dict[..]);
    }

    ghost function TheView(): View
      reads `source, `p, `f, `lookaheadSize, `dictSize, `savedLen, `savedDist, `savedLit, d`tokens
    {
      View(source, p, f, lookaheadSize, dictSize, savedLen, savedDist, savedLit, d.tokens)
    }

    /** The parser that runs, and how far it looks ahead. */
    predicate Fast() { FastParser(platform, opts) }

    function LookLimit(): nat { if Fast() then FAST_LOOKAHEAD else MAX_MATCH_LEN }

    ghost predicate Shape() {
      && d.Shape() && dict.Length == MF.DICT_LENGTH && next.Length == LZ_DICT_SIZE && hash.Length == HASH_SIZE
      && dict != d.buf && {next, hash} !! {d.lit.count, d.dist.count} && next != hash
    }

    ghost predicate Valid()
      reads this, dict, d`tokens, d`pos
    {
      Shape() && Windowed() && Parses(TheView()) && dictSize + lookaheadSize <= LZ_DICT_SIZE && d.pos <= FULL_BUFFER + 6
      && (Fast() ==> savedLen == 0)
    }

    /** The window part of the state. */
    ghost predicate Windowed()
      reads `source, `p, `lookaheadSize, `lookaheadPos, `src, `srcPos, dict
    {
      && Win(dict[..], source) && |source| == p + lookaheadSize && lookaheadPos == Wrap32(p) && lookaheadSize <= LookLimit()
      && srcPos <= |src|
    }

    // ---------- filling the window

    /** One byte of the input into the dictionary, and into its mirrored tail. */
    method TakeByte(slot: nat, ghost base: seq<Byte>, ghost start: nat) returns (c: Byte)
      requires srcPos < |src| && slot == |source| % LZ_DICT_SIZE && Win(dict[..], source)
      requires start <= srcPos && source == base + src[start..srcPos]
      modifies dict, this`srcPos, this`source
      ensures Win(dict[..], source) && srcPos == old(srcPos) + 1 && c == src[old(srcPos)]
      ensures source == base + src[start..srcPos] && source == old(source) + [c]
    {
      hide Win;
      c := src[srcPos];
      PutByte(dict[..], source, c);
      WinLength(dict[..], source);
      ghost var was := dict[..];
      dict[slot] := c;
      if slot < MAX_MATCH_LEN - 1 {
        dict[LZ_DICT_SIZE + slot] := c;
      }
      assert dict[..] == Put(was, slot, c);
      assert src[start..srcPos + 1] == src[start..srcPos] + [c];
      source := source + [c];
      srcPos := srcPos + 1;
    }

    /** A position into the hash chain `h`. */
    method Chain(h: bv32, insPos: nat)
      requires h < 0x8000 && next.Length == LZ_DICT_SIZE && hash.Length == HASH_SIZE && next != hash
      modifies next, hash
      ensures next[..] == old(next[..])[insPos % LZ_DICT_SIZE := old(hash[..])[Index(h)]] && hash[..] == old(hash[..])[Index(h) := insPos % 65536]
    {
      next[insPos % LZ_DICT_SIZE] := hash[Index(h)];
      hash[Index(h)] := insPos % 65536;
    }

    ghost function TheChains(): (c: Chains)
      requires next.Length == LZ_DICT_SIZE && hash.Length == HASH_SIZE
      reads next, hash
      ensures ValidChains(c)
    {
      Chains(next[..], hash[..])
    }

    /** The byte just taken is the last of three: their position goes into its chain. */
    method ChainTrigram(h: bv32, insPos: nat, ghost was: Chains, ghost base: seq<Byte>, ghost b: Byte, ghost lo: nat, ghost first: nat)
      requires Shape() && h < 0x8000 && ValidChains(was) && first <= |base| && TheChains() == Hashed(was, base, lo, first, |base|)
      requires |base| >= lo + 2 && insPos == Wrap32(|base| - 2) && h == TrigramHash(base[|base| - 2], base[|base| - 1], b)
      modifies next, hash
      ensures TheChains() == Hashed(was, base + [b], lo, first, |base| + 1)
    {
      hide Hashed, TrigramHash, Index;
      HashedByte(was, base, b, lo, first);
      ghost var all := base + [b];
      assert all[|base| - 2] == base[|base| - 2] && all[|base| - 1] == base[|base| - 1] && all[|base|] == b;
      SlotOf(|base| - 2);
      ShortPosition(|base| - 2);
      Chain(h, insPos);
    }

    /** Filling the lookahead, when at least two bytes are there to hash. */
    method FillHashed()
      requires Shape() && Windowed() && !Fast() && dictSize <= p && lookaheadSize + dictSize >= MIN_MATCH_LEN - 1
      modifies dict, next, hash, this`lookaheadSize, this`srcPos, this`source
      ensures Windowed() && srcPos >= old(srcPos) && source == old(source) + src[old(srcPos)..srcPos]
      ensures srcPos == |src| || lookaheadSize == MAX_MATCH_LEN
      ensures TheChains() == Hashed(old(TheChains()), source, p - dictSize, |old(source)|, |source|)
    {
      hide Win, NextHash, FirstHash, TrigramHash, Index, Hashed, Rolling;
      ghost var base, start, was, lo := source, srcPos, TheChains(), p - dictSize;
      WinLength(dict[..], source);
      var dstPos := (lookaheadPos + lookaheadSize) % LZ_DICT_SIZE;
      var insPos: nat := Wrap32(lookaheadPos + lookaheadSize + MAX_WORD32 - 2);
      var h: bv32 := FirstHash(dict[insPos % LZ_DICT_SIZE], dict[(insPos + 1) % LZ_DICT_SIZE]);
      var room := MAX_MATCH_LEN - lookaheadSize;
      var num := if |src| - srcPos < room then |src| - srcPos else room;
      var end := srcPos + num;
      NextSlot(p, lookaheadPos, lookaheadSize);
      LastTwo(dict[..], source, p, lookaheadSize, lookaheadPos, insPos);
      NothingHashed(was, source, lo);
      Rolled(h, source);
      assert source + src[srcPos..srcPos] == source;
      while srcPos != end
        invariant start <= srcPos <= end <= |src| && source == base + src[start..srcPos]
        invariant dstPos == |source| % LZ_DICT_SIZE && Win(dict[..], source)
        invariant |source| >= |base| >= lo + 2 && insPos == Wrap32(|source| - 2) && Rolling(h, source)
        invariant TheChains() == Hashed(was, source, lo, |base|, |source|)
        modifies dict, next, hash, this`srcPos, this`source
      {
        SlotAfter(|source|);
        PosAdd(|source| - 2, 1);
        h := HashByte(h, dstPos, insPos, base, start, was, lo);
        dstPos := (dstPos + 1) % LZ_DICT_SIZE;
        insPos := Wrap32(insPos + 1);
      }
      lookaheadSize := lookaheadSize + num;
    }

    /** One byte more of the source: into the window, and the three bytes that it ends into their chain. */
    method HashByte(h: bv32, dstPos: nat, insPos: nat, ghost base: seq<Byte>, ghost start: nat, ghost was: Chains, ghost lo: nat) returns (r: bv32)
      requires Shape() && srcPos < |src| && start <= srcPos && source == base + src[start..srcPos] && ValidChains(was)
      requires dstPos == |source| % LZ_DICT_SIZE && Win(dict[..], source)
      requires |source| >= |base| >= lo + 2 && insPos == Wrap32(|source| - 2) && Rolling(h, source)
      requires TheChains() == Hashed(was, source, lo, |base|, |source|)
      modifies dict, next, hash, this`srcPos, this`source
      ensures Win(dict[..], source) && srcPos == old(srcPos) + 1 && source == base + src[start..srcPos] && |source| == old(|source|) + 1
      ensures Rolling(r, source) && TheChains() == Hashed(was, source, lo, |base|, |source|)
    {
      hide Win, NextHash, TrigramHash, Index, Hashed, Rolling;
      ghost var so := source;
      var c := TakeByte(dstPos, base, start);
      RollOn(h, so, c);
      r := NextHash(h, c);
      ChainTrigram(r, insPos, was, so, c, lo, |base|);
    }

    /** Filling the lookahead at the start of the stream. */
    method FillStart()
      requires Shape() && Windowed() && !Fast() && dictSize <= p
      modifies dict, next, hash, this`lookaheadSize, this`srcPos, this`source
      ensures Windowed() && srcPos >= old(srcPos) && source == old(source) + src[old(srcPos)..srcPos]
      ensures srcPos == |src| || lookaheadSize == MAX_MATCH_LEN
      ensures TheChains() == Hashed(old(TheChains()), source, p - dictSize, |old(source)|, |source|)
    {
      hide Win, TrigramHash, Index, Hashed;
      ghost var base, start, was, lo := source, srcPos, TheChains(), p - dictSize;
      assert source + src[srcPos..srcPos] == source;
      NothingHashed(was, source, lo);
      while srcPos < |src| && lookaheadSize < MAX_MATCH_LEN
        invariant start <= srcPos <= |src| && source == base + src[start..srcPos]
        invariant Windowed() && |source| >= |base|
        invariant TheChains() == Hashed(was, source, lo, |base|, |source|)
        modifies dict, next, hash, this`lookaheadSize, this`srcPos, this`source
      {
        ghost var so := source;
        NextSlot(p, lookaheadPos, lookaheadSize);
        var c := TakeByte((lookaheadPos + lookaheadSize) % LZ_DICT_SIZE, base, start);
        WinLength(dict[..], source);
        lookaheadSize := lookaheadSize + 1;
        if lookaheadSize + dictSize >= MIN_MATCH_LEN {
          var insPos := Wrap32(lookaheadPos + lookaheadSize - 1 + MAX_WORD32 - 2);
          var h := TrigramHash(dict[insPos % LZ_DICT_SIZE], dict[(insPos + 1) % LZ_DICT_SIZE], c);
          LastThree(dict[..], so, c, p, lookaheadSize, lookaheadPos, insPos);
          ChainTrigram(h, insPos, was, so, c, lo, |base|);
        } else {
          HashedByte(was, so, c, lo, |base|);
        }
      }
    }

    /** The top of the parser's loop: more source comes in, and the dictionary makes room for it. */
    method Refill()
      requires Shape() && Windowed() && !Fast() && Parses(TheView()) && dictSize + lookaheadSize <= LZ_DICT_SIZE
      modifies dict, next, hash, this`lookaheadSize, this`srcPos, this`source, this`dictSize
      ensures Windowed() && Parses(TheView()) && dictSize + lookaheadSize <= LZ_DICT_SIZE
      ensures srcPos >= old(srcPos) && source == old(source) + src[old(srcPos)..srcPos]
      ensures srcPos == |src| || lookaheadSize == MAX_MATCH_LEN
      ensures old(dictSize) <= p && TheChains() == Hashed(old(TheChains()), source, p - old(dictSize), |old(source)|, |source|)
      ensures dictSize == if old(dictSize) + lookaheadSize <= LZ_DICT_SIZE then old(dictSize) else LZ_DICT_SIZE - lookaheadSize
      ensures |source| == p + lookaheadSize && lookaheadSize <= FAST_LOOKAHEAD
    {
      hide Parses, Win, Hashed;
      ghost var v := TheView();
      BackToStart(v);
      if lookaheadSize + dictSize >= MIN_MATCH_LEN - 1 {
        FillHashed();
      } else {
        FillStart();
      }
      ghost var more := src[old(srcPos)..srcPos];
      Take(v, more);
      assert TheView() == v.(source := v.source + more, look := v.look + |more|);
      var room := LZ_DICT_SIZE - lookaheadSize;
      if room < dictSize {
        Shrink(TheView(), room);
        dictSize := room;
      }
    }

    /** `MZ_CLEAR_OBJ` of the chains after a full flush, and an empty dictionary. */
    method Forget()
      requires next.Length == LZ_DICT_SIZE && hash.Length == HASH_SIZE && next != hash
      modifies next, hash, this`dictSize, this`origin
      ensures TheChains() == EmptyChains() == origin && dictSize == 0
    {
      var i := 0;
      while i < HASH_SIZE
        invariant 0 <= i <= HASH_SIZE && forall k :: 0 <= k < i ==> next[k] == 0 && hash[k] == 0
      {
        hash[i] := 0;
        next[i] := 0;
        i := i + 1;
      }
      dictSize, origin := 0, EmptyChains();
    }

    // ---------- one step of the parser

    /** The run of the last byte: `TDEFL_RLE_MATCHES`. */
    method RunLength(curPos: nat, c: Byte) returns (n: nat)
      requires dict.Length == MF.DICT_LENGTH && curPos < LZ_DICT_SIZE && lookaheadSize <= MAX_MATCH_LEN
      ensures n <= lookaheadSize && forall k :: curPos <= k < curPos + n ==> dict[k] == c
      ensures n == Run(dict[..], curPos, c, lookaheadSize)
    {
      n := 0;
      while n < lookaheadSize
        invariant 0 <= n <= lookaheadSize && forall k :: curPos <= k < curPos + n ==> dict[k] == c
        invariant Run(dict[..], curPos, c, lookaheadSize) == n + Run(dict[..], curPos + n, c, lookaheadSize - n)
      {
        if dict[curPos + n] != c { break; }
        n := n + 1;
      }
    }

    /** The probes allowed for a search that already has `len` bytes. */
    function MaxProbes(len: nat): (n: nat)
      ensures n >= 1
    {
      if len >= 32 then 1 + (opts.probes / 4 + 2) / 3 else 1 + (opts.probes + 2) / 3
    }

    /** Where the search for a match starts: it has to be longer than the saved one. */
    function Start(): MF.Best
      reads `savedLen
    {
      MF.Best(0, if savedLen > 0 then savedLen else MIN_MATCH_LEN - 1)
    }

    /** The match for this position before it is judged: what the search finds or, when only runs are looked
        for, the run of the last byte. */
    ghost function Offered(): MF.Best
      requires Shape() && lookaheadSize <= MAX_MATCH_LEN && dictSize <= LZ_DICT_SIZE
      reads `savedLen, `dictSize, `lookaheadSize, `lookaheadPos, dict, next
    {
      var curPos := lookaheadPos % LZ_DICT_SIZE;
      if !opts.rle && !opts.forceRaw then
        MF.FindBest(MF.Query(dict[..], next[..], lookaheadPos, dictSize, lookaheadSize), Start(), MaxProbes(Start().len))
      else if dictSize == 0 || opts.forceRaw then Start()
      else
        var n := Run(dict[..], curPos, dict[(curPos + LZ_DICT_SIZE - 1) % LZ_DICT_SIZE], lookaheadSize);
        if n < MIN_MATCH_LEN then MF.Best(0, 0) else MF.Best(1, n)
    }

    /** Three bytes from far back are not worth it; a distance equal to the slot is not used; and short matches
        may be filtered out. */
    predicate Dropped(best: MF.Best)
      reads `lookaheadPos
    {
      (best.len == MIN_MATCH_LEN && best.dist >= 8192) || lookaheadPos % LZ_DICT_SIZE == best.dist || (opts.filter && best.len <= 5)
    }

    /** The match for this position. */
    ghost function Chosen(): (best: MF.Best)
      requires Shape() && lookaheadSize <= MAX_MATCH_LEN && dictSize <= LZ_DICT_SIZE
      reads `savedLen, `dictSize, `lookaheadSize, `lookaheadPos, dict, next
      ensures best.len == MIN_MATCH_LEN ==> best.dist < 8192
    {
      if Dropped(Offered()) then MF.Best(0, 0) else Offered()
    }

    /** What is chosen is the first of the longest candidates on the chain of this position, as far as the probes
        go, unless none is longer than the saved match; it is given up only when it is dropped. */
    lemma ChosenIsLongest() returns (best: MF.Best)
      requires Shape() && lookaheadSize <= MAX_MATCH_LEN && dictSize <= LZ_DICT_SIZE && !opts.rle && !opts.forceRaw
      ensures var q := MF.Query(dict[..], next[..], lookaheadPos, dictSize, lookaheadSize);
              && (best == Start() || (best.len > Start().len && exists i: nat :: MF.Candidate(q, 0, i, best)))
              && (forall i :: 0 <= i < MaxProbes(Start().len) - 1 && MF.Reached(q, i) ==> MF.Agreeing(q, i) <= best.len)
              && Chosen() == if Dropped(best) then MF.Best(0, 0) else best
    {
      hide MF.FindBest, MF.Reached, MF.Agreeing, MF.Candidate;
      best := Offered();
      MF.FindLongest(MF.Query(dict[..], next[..], lookaheadPos, dictSize, lookaheadSize), Start(), MaxProbes(Start().len));
    }

    /** When only runs are looked for, the run of the last byte is chosen, from three bytes on, and as far as it goes. */
    lemma ChosenIsRun() returns (n: nat)
      requires Shape() && lookaheadSize <= MAX_MATCH_LEN && 1 <= dictSize <= LZ_DICT_SIZE && opts.rle && !opts.forceRaw
      ensures var at, c := lookaheadPos % LZ_DICT_SIZE, dict[(lookaheadPos % LZ_DICT_SIZE + LZ_DICT_SIZE - 1) % LZ_DICT_SIZE];
              && n <= lookaheadSize && (forall k :: at <= k < at + n ==> dict[k] == c) && (n < lookaheadSize ==> dict[at + n] != c)
              && Chosen() == if n < MIN_MATCH_LEN || Dropped(MF.Best(1, n)) then MF.Best(0, 0) else MF.Best(1, n)
    {
      var at := lookaheadPos % LZ_DICT_SIZE;
      n := Run(dict[..], at, dict[(at + LZ_DICT_SIZE - 1) % LZ_DICT_SIZE], lookaheadSize);
      RunIs(dict[..], at, dict[(at + LZ_DICT_SIZE - 1) % LZ_DICT_SIZE], lookaheadSize);
    }

    /** The match for this position; distance 0 stands for none. */
    method ChooseMatch() returns (best: MF.Best)
      requires Shape() && Windowed() && !Fast() && Parses(TheView()) && dictSize + lookaheadSize <= LZ_DICT_SIZE && lookaheadSize >= 1
      ensures best == Chosen()
      ensures Fits(TheView(), best.dist, best.len)
    {
      hide Win, Stands, Copies, MF.FindBest, MF.Repeats, Run;
      best := Start();
      var curPos := lookaheadPos % LZ_DICT_SIZE;
      if opts.rle || opts.forceRaw {
        if dictSize > 0 && !opts.forceRaw {
          WinLength(dict[..], source);
          var c := dict[(curPos + LZ_DICT_SIZE - 1) % LZ_DICT_SIZE];
          var n := RunLength(curPos, c);
          if n < MIN_MATCH_LEN {
            best := MF.Best(0, 0);
          } else {
            best := MF.Best(1, n);
            RunFound(dict[..], TheView(), lookaheadPos, n);
          }
        }
      } else {
        best := Find(best);
      }
      if (best.len == MIN_MATCH_LEN && best.dist >= 8192) || curPos == best.dist || (opts.filter && best.len <= 5) {
        best := MF.Best(0, 0);
      }
    }

    method Find(start: MF.Best) returns (best: MF.Best)
      requires Shape() && Windowed() && !Fast() && Parses(TheView()) && dictSize + lookaheadSize <= LZ_DICT_SIZE
      requires start.dist == 0 && 2 <= start.len < MAX_MATCH_LEN
      ensures best == start || (1 <= best.dist <= dictSize && Found(TheView(), best.dist, best.len))
      ensures best == MF.FindBest(MF.Query(dict[..], next[..], lookaheadPos, dictSize, lookaheadSize), start, MaxProbes(start.len))
    {
      hide Win, Stands, Copies, MF.FindBest, MF.Repeats;
      WinLength(dict[..], source);
      if platform.unaligned {
        best := MF.FindMatchWords(dict, next, lookaheadPos, dictSize, lookaheadSize, MaxProbes(start.len), start);
      } else {
        best := MF.FindMatch(dict, next, lookaheadPos, dictSize, lookaheadSize, MaxProbes(start.len), start);
      }
      ghost var q := MF.Query(dict[..], next[..], lookaheadPos, dictSize, lookaheadSize);
      MF.FindSound(q, start, MaxProbes(start.len));
      if best != start { MatchFound(q, TheView(), start, best); }
    }

    /** Something better takes the place of the saved match, whose first byte goes out as a literal. */
    method ReplaceSaved(best: MF.Best) returns (move: nat, ghost u: View)
      requires Shape() && Windowed() && Parses(TheView()) && d.Valid() && d.pos <= FULL_BUFFER && savedLen > 0
      requires Found(TheView(), best.dist, best.len) && best.len > savedLen
      modifies this`savedDist, this`savedLen, this`savedLit
      modifies d`pos, d`flagPos, d`flagsLeft, d`totalBytes, d`tokens, d.buf, d.lit.count, d.dist.count
      ensures d.Valid() && d.pos <= FULL_BUFFER + 6 && TheView() == u && 1 <= move <= u.look && Parses(Moved(u, move))
      ensures Stepped(old(TheView()), best.dist, best.len, opts.greedy || opts.rle, Moved(u, move))
    {
      hide Win, Stands, Copies, Parses, Recorded, LitCounted, DistCounted, Found, ValidToken, Stepped;
      ghost var v := TheView();
      PendingFacts(v);
      CurrentByte(dict[..], v, lookaheadPos);
      DropSaved(v);
      d.RecordLiteral(savedLit);
      u := v.(tokens := v.tokens + [Literal(v.savedLit)], savedLen := 0);
      FoundFacts(v, u, best.dist, best.len);
      if best.len >= 128 {
        move := best.len;
        savedLen := 0;
        u := TakeBest(best, u);
        ReplaceStep(v, best.dist, best.len, opts.greedy || opts.rle);
      } else {
        move := 1;
        u := SaveBest(best, u);
        ResaveStep(v, best.dist, best.len, opts.greedy || opts.rle);
      }
    }

    /** The match goes out at once. */
    method TakeBest(best: MF.Best, ghost v: View) returns (ghost u: View)
      requires Windowed() && TheView() == v && Parses(v) && d.Valid() && d.pos <= FULL_BUFFER + 2 && v.savedLen == 0
      requires Found(v, best.dist, best.len) && ValidToken(Match(best.len, best.dist))
      modifies d`pos, d`flagPos, d`flagsLeft, d`totalBytes, d`tokens, d.buf, d.lit.count, d.dist.count
      ensures d.Valid() && d.pos <= old(d.pos) + 4 && TheView() == u && best.len <= u.look && Parses(Moved(u, best.len))
      ensures u == v.(tokens := v.tokens + [Match(best.len, best.dist)])
    {
      hide Win, Stands, Copies, Parses, Recorded, LitCounted, DistCounted, Found, ValidToken;
      TakeMatch(v, best.dist, best.len);
      d.RecordMatch(best.len, best.dist);
      u := v.(tokens := v.tokens + [Match(best.len, best.dist)]);
    }

    /** The match is saved, with the byte that goes out if a better one follows. */
    method SaveBest(best: MF.Best, ghost v: View) returns (ghost u: View)
      requires Shape() && Windowed() && TheView().(savedLen := 0) == v && Parses(v) && v.look >= 1
      requires Found(v, best.dist, best.len) && best.len < 128
      modifies this`savedDist, this`savedLen, this`savedLit
      ensures TheView() == u && u.look == v.look && Parses(Moved(u, 1))
      ensures u == v.(savedLen := best.len, savedDist := best.dist, savedLit := At(v))
    {
      hide Win, Stands, Copies, Parses, Found;
      CurrentByte(dict[..], v, lookaheadPos);
      SaveMatch(v, best.dist, best.len);
      savedLit := dict[lookaheadPos % LZ_DICT_SIZE];
      savedDist, savedLen := best.dist, best.len;
      u := v.(savedLen := best.len, savedDist := best.dist, savedLit := v.source[v.p]);
    }

    /** The state machine with a saved match: something better takes its place, or it goes out.
        `move` is `len_to_move`. */
    method DecideSaved(best: MF.Best) returns (move: nat, ghost u: View)
      requires Shape() && Windowed() && Parses(TheView()) && d.Valid() && d.pos <= FULL_BUFFER && savedLen > 0
      requires best.dist > 0 ==> Found(TheView(), best.dist, best.len)
      requires best.dist == 0 ==> best.len <= savedLen
      modifies this`savedDist, this`savedLen, this`savedLit
      modifies d`pos, d`flagPos, d`flagsLeft, d`totalBytes, d`tokens, d.buf, d.lit.count, d.dist.count
      ensures d.Valid() && d.pos <= FULL_BUFFER + 6 && TheView() == u && 1 <= move <= u.look && Parses(Moved(u, move))
      ensures Stepped(old(TheView()), best.dist, best.len, opts.greedy || opts.rle, Moved(u, move))
    {
      hide Win, Stands, Copies, Parses, Recorded, LitCounted, DistCounted, Found, ValidToken, Stepped;
      ghost var v := TheView();
      PendingFacts(v);
      if best.len > savedLen {
        move, u := ReplaceSaved(best);
      } else {
        TakeSaved(v);
        SavedStep(v, best.dist, best.len, opts.greedy || opts.rle);
        d.RecordMatch(savedLen, savedDist);
        move := savedLen - 1;
        savedLen := 0;
        u := v.(tokens := v.tokens + [Match(v.savedLen, v.savedDist)], savedLen := 0);
      }
    }

    /** The state machine without one: a literal, or a match that goes out or is saved. */
    method DecideFresh(best: MF.Best) returns (move: nat, ghost u: View)
      requires Shape() && Windowed() && Parses(TheView()) && d.Valid() && d.pos <= FULL_BUFFER && savedLen == 0
      requires best.dist > 0 ==> Found(TheView(), best.dist, best.len)
      requires lookaheadSize >= 1
      modifies this`savedDist, this`savedLen, this`savedLit
      modifies d`pos, d`flagPos, d`flagsLeft, d`totalBytes, d`tokens, d.buf, d.lit.count, d.dist.count
      ensures d.Valid() && d.pos <= FULL_BUFFER + 6 && TheView() == u && 1 <= move <= u.look && Parses(Moved(u, move))
      ensures Stepped(old(TheView()), best.dist, best.len, opts.greedy || opts.rle, Moved(u, move))
    {
      hide Win, Stands, Copies, Parses, Recorded, LitCounted, DistCounted, Found, ValidToken, Stepped;
      move := 1;
      var curPos := lookaheadPos % LZ_DICT_SIZE;
      ghost var v := TheView();
      CurrentByte(dict[..], v, lookaheadPos);
      var lit := dict[if curPos < MF.DICT_LENGTH - 1 then curPos else MF.DICT_LENGTH - 1];
      if best.dist == 0 {
        TakeLiteral(v);
        LiteralStep(v, best.len, opts.greedy || opts.rle);
        LiteralIsToken(lit);
        d.RecordLiteral(lit);
        u := v.(tokens := v.tokens + [Literal(v.source[v.p])]);
      } else {
        FoundFacts(v, v, best.dist, best.len);
        if opts.greedy || opts.rle || best.len >= 128 {
          TakeMatch(v, best.dist, best.len);
          TakeStep(v, best.dist, best.len, opts.greedy || opts.rle);
          d.RecordMatch(best.len, best.dist);
          move := best.len;
          u := v.(tokens := v.tokens + [Match(best.len, best.dist)]);
        } else {
          SaveMatch(v, best.dist, best.len);
          SaveStep(v, best.dist, best.len, opts.greedy || opts.rle);
          savedLit, savedDist, savedLen := lit, best.dist, best.len;
          u := v.(savedLen := best.len, savedDist := best.dist, savedLit := v.source[v.p]);
        }
      }
    }

    /** The lookahead moves forward. */
    method MoveOn(move: nat)
      requires Windowed() && move <= lookaheadSize && dictSize + lookaheadSize <= LZ_DICT_SIZE
      modifies this`lookaheadPos, this`lookaheadSize, this`dictSize, this`p
      ensures Windowed() && TheView() == Moved(old(TheView()), move) && dictSize + lookaheadSize <= LZ_DICT_SIZE
    {
      hide Win;
      PosAdd(p, move);
      lookaheadPos := Wrap32(lookaheadPos + move);
      p := p + move;
      lookaheadSize := lookaheadSize - move;
      dictSize := if dictSize + move < LZ_DICT_SIZE then dictSize + move else LZ_DICT_SIZE;
    }

    /** One step of the parser: a match is looked for, the state machine decides, and the lookahead
        moves on. */
    method ParseStep()
      requires Shape() && Windowed() && !Fast() && Parses(TheView()) && dictSize + lookaheadSize <= LZ_DICT_SIZE && lookaheadSize >= 1
      requires d.Valid() && d.pos <= FULL_BUFFER
      modifies this`savedDist, this`savedLen, this`savedLit, this`lookaheadPos, this`lookaheadSize, this`dictSize, this`p
      modifies d`pos, d`flagPos, d`flagsLeft, d`totalBytes, d`tokens, d.buf, d.lit.count, d.dist.count
      ensures Windowed() && Parses(TheView()) && dictSize + lookaheadSize <= LZ_DICT_SIZE
      ensures d.Valid() && d.pos <= FULL_BUFFER + 6
      ensures lookaheadSize < old(lookaheadSize) && p + lookaheadSize == old(p + lookaheadSize)
      ensures Stepped(old(TheView()), old(Chosen()).dist, old(Chosen()).len, opts.greedy || opts.rle, TheView())
      ensures Fits(old(TheView()), old(Chosen()).dist, old(Chosen()).len)
    {
      hide Win, Stands, Copies, Parses, Recorded, LitCounted, DistCounted, Found, Stepped, Offered;
      var best := ChooseMatch();
      var move;
      ghost var u;
      if savedLen > 0 {
        move, u := DecideSaved(best);
      } else {
        move, u := DecideFresh(best);
      }
      MoveOn(move);
    }
  }

  lemma StartView(dict: seq<Byte>)
    requires |dict| == MF.DICT_LENGTH
    ensures Win(dict, []) && Parses(View([], 0, 0, 0, 0, 0, 0, 0, [])) && Wrap32(0) == 0
  {
    var none: seq<Byte> := [];
    assert none[..0] == [];
  }

  lemma BackToStart(v: View)
    requires Parses(v)
    ensures v.dictSize <= v.p
  {
  }

  lemma NothingHashed(was: Chains, source: seq<Byte>, lo: nat)
    requires ValidChains(was)
    ensures Hashed(was, source, lo, |source|, |source|) == was
  {
  }

  lemma ShortPosition(i: nat)
    ensures Wrap32(i) % 65536 == i % 65536
  {
    var r := i % MAX_WORD32;
    assert i == 65536 * (65536 * (i / MAX_WORD32) + r / 65536) + r % 65536;
  }

  /** `h` is the hash of the last two bytes, with the room for a third, or of more. */
  ghost predicate Rolling(h: bv32, source: seq<Byte>) {
    |source| >= 2 && forall c: Byte :: NextHash(h, c) == TrigramHash(source[|source| - 2], source[|source| - 1], c)
  }

  lemma Rolled(h: bv32, source: seq<Byte>)
    requires |source| >= 2 && h == FirstHash(source[|source| - 2], source[|source| - 1])
    ensures Rolling(h, source)
  {
    hide NextHash, FirstHash, TrigramHash;
    forall c: Byte ensures NextHash(h, c) == TrigramHash(source[|source| - 2], source[|source| - 1], c) {
      Roll(source[|source| - 2], source[|source| - 1], c, 0);
    }
  }

  lemma RollOn(h: bv32, source: seq<Byte>, b: Byte)
    requires Rolling(h, source)
    ensures NextHash(h, b) == TrigramHash(source[|source| - 2], source[|source| - 1], b) && Rolling(NextHash(h, b), source + [b])
  {
    hide NextHash, FirstHash, TrigramHash;
    forall c: Byte ensures NextHash(NextHash(h, b), c) == TrigramHash(source[|source| - 1], b, c) {
      Roll(source[|source| - 2], source[|source| - 1], b, c);
    }
  }

  /** The slots of the last two bytes of the source. */
  lemma LastTwo(dict: seq<Byte>, source: seq<Byte>, p: nat, look: nat, lookaheadPos: nat, insPos: nat)
    requires Win(dict, source) && |source| == p + look >= 2 && lookaheadPos == Wrap32(p)
    requires insPos == Wrap32(lookaheadPos + look + MAX_WORD32 - 2)
    ensures |dict| == MF.DICT_LENGTH && insPos == Wrap32(|source| - 2)
    ensures dict[insPos % LZ_DICT_SIZE] == source[|source| - 2] && dict[(insPos + 1) % LZ_DICT_SIZE] == source[|source| - 1]
  {
    hide Win;
    WinLength(dict, source);
    TwoBack(p, look);
    var q := |source| - 2;
    SlotOf(q);
    NextSlot(q, insPos, 1);
    WinAt(dict, source, q, 0);
    WinAt(dict, source, q + 1, 0);
  }

  lemma TwoBack(p: nat, look: nat)
    requires p + look >= 2
    ensures Wrap32(Wrap32(p) + look + MAX_WORD32 - 2) == Wrap32(p + look - 2)
  {
    var k := p / MAX_WORD32;
    var x := Wrap32(p) + look + MAX_WORD32 - 2;
    var y := p + look - 2;
    assert y == x + MAX_WORD32 * (k - 1);
    assert y % MAX_WORD32 == x % MAX_WORD32;
  }

  /** The same, with the byte that was just taken behind them. */
  lemma LastThree(dict: seq<Byte>, source: seq<Byte>, b: Byte, p: nat, look: nat, lookaheadPos: nat, insPos: nat)
    requires Win(dict, source + [b]) && |source| + 1 == p + look && |source| >= 2 && look >= 1 && lookaheadPos == Wrap32(p)
    requires insPos == Wrap32(lookaheadPos + look - 1 + MAX_WORD32 - 2)
    ensures |dict| == MF.DICT_LENGTH && insPos == Wrap32(|source| - 2)
    ensures dict[insPos % LZ_DICT_SIZE] == source[|source| - 2] && dict[(insPos + 1) % LZ_DICT_SIZE] == source[|source| - 1]
  {
    hide Win;
    WinLength(dict, source + [b]);
    TwoBack(p, look - 1);
    var q := |source| - 2;
    SlotOf(q);
    NextSlot(q, insPos, 1);
    WinAt(dict, source + [b], q, 0);
    WinAt(dict, source + [b], q + 1, 0);
  }

  lemma PosAdd(p: nat, n: nat)
    ensures Wrap32(Wrap32(p) + n) == Wrap32(p + n)
  {
  }

  lemma LiteralIsToken(b: Byte)
    ensures ValidToken(Literal(b))
  {
  }

  lemma FoundFacts(v: View, u: View, dist: nat, len: nat)
    requires Found(v, dist, len) && u.source == v.source && u.p == v.p && u.look == v.look
    ensures ValidToken(Match(len, dist)) && len <= v.look && Found(u, dist, len)
  {
  }

  lemma CurrentByte(dict: seq<Byte>, v: View, lookaheadPos: nat)
    requires Win(dict, v.source) && |v.source| == v.p + v.look && 1 <= v.look <= FAST_LOOKAHEAD && lookaheadPos == Wrap32(v.p)
    ensures |dict| == MF.DICT_LENGTH && dict[lookaheadPos % LZ_DICT_SIZE] == v.source[v.p]
  {
    hide Win;
    SlotOf(v.p);
    WinLength(dict, v.source);
    WinAt(dict, v.source, v.p, 0);
  }

  lemma MatchFound(q: MF.Query, v: View, start: MF.Best, best: MF.Best)
    requires Parses(v) && Win(q.dict, v.source) && q.lookaheadPos == Wrap32(v.p) && q.maxDist == v.dictSize && q.maxLen == v.look
    requires v.dictSize + v.look <= LZ_DICT_SIZE && MF.ValidQuery(q) && start.len >= 2 && best != start && MF.Sound(q, start, best)
    ensures best.dist > 0 && Found(v, best.dist, best.len)
  {
    hide Win, Stands, Copies;
    BackSlot(v.p, best.dist, q);
    MatchCopies(q.dict, v.source, v.p, best.dist, best.len);
  }

  lemma RunFound(dict: seq<Byte>, v: View, lookaheadPos: nat, n: nat)
    requires Parses(v) && Win(dict, v.source) && lookaheadPos == Wrap32(v.p) && 1 <= v.dictSize && v.dictSize + v.look <= LZ_DICT_SIZE
    requires MIN_MATCH_LEN <= n <= v.look && n <= MAX_MATCH_LEN && |dict| == MF.DICT_LENGTH
    requires forall k :: lookaheadPos % LZ_DICT_SIZE <= k < lookaheadPos % LZ_DICT_SIZE + n ==>
               dict[k] == dict[(lookaheadPos % LZ_DICT_SIZE + LZ_DICT_SIZE - 1) % LZ_DICT_SIZE]
    ensures Found(v, 1, n)
  {
    hide Win, Stands;
    SlotOf(v.p);
    var c := v.source[v.p - 1];
    var at := v.p % LZ_DICT_SIZE;
    PreviousSlot(v.p);
    WinAt(dict, v.source, v.p - 1, 0);
    forall k: nat | v.p - 1 <= k < v.p + n ensures v.source[k] == c {
      if k >= v.p {
        WinAt(dict, v.source, v.p, k - v.p);
        var i := at + (k - v.p);
        assert dict[i] == c;
      }
    }
  }

  lemma PreviousSlot(p: nat)
    requires p >= 1
    ensures (p % LZ_DICT_SIZE + LZ_DICT_SIZE - 1) % LZ_DICT_SIZE == (p - 1) % LZ_DICT_SIZE
  {
  }

  lemma WinLength(dict: seq<Byte>, source: seq<Byte>)
    requires Win(dict, source)
    ensures |dict| == MF.DICT_LENGTH
  {
  }

  lemma NextSlot(p: nat, pos: nat, size: nat)
    requires pos == Wrap32(p)
    ensures (pos + size) % LZ_DICT_SIZE == (p + size) % LZ_DICT_SIZE
  {
    hide Wrap32;
    SlotOf(p);
    var r := p % LZ_DICT_SIZE;
    var c, t := (r + size) / LZ_DICT_SIZE, (r + size) % LZ_DICT_SIZE;
    SlotIs(pos + size, pos / LZ_DICT_SIZE + c, t);
    SlotIs(p + size, p / LZ_DICT_SIZE + c, t);
  }

  lemma SlotAfter(n: nat)
    ensures (n % LZ_DICT_SIZE + 1) % LZ_DICT_SIZE == (n + 1) % LZ_DICT_SIZE
  {
  }
}
