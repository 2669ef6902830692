/** The buffer of LZ codes: flag bytes and token bytes, written by `tdefl_record_literal` and
    `tdefl_record_match` and read back when a block is emitted. */
module LzCodes {
  import opened Bits
  import opened Tokens
  import opened SymFreqs
  import HuffTable

  const LZ_CODE_BUF_SIZE := 65536

  // ---------- the layout

  /** A literal is its byte; a match is its length - 3 and its distance - 1, low byte first. */
  function Payload(t: Token): (p: seq<Byte>)
    requires ValidToken(t)
    ensures |p| == if t.Match? then 3 else 1
  {
    match t
    case Literal(b) => [b]
    case Match(len, dist) => [len - MIN_MATCH_LEN, (dist - 1) % 256, (dist - 1) / 256]
  }

  predicate AllValid(ts: seq<Token>) { forall i :: 0 <= i < |ts| ==> ValidToken(ts[i]) }

  function Payloads(ts: seq<Token>): (p: seq<Byte>)
    requires AllValid(ts)
    ensures |p| >= |ts|
  {
    if ts == [] then [] else Payloads(ts[..|ts| - 1]) + Payload(ts[|ts| - 1])
  }

  /** One flag for each token, the first one lowest; a match is 1. */
  function Flags(ts: seq<Token>): (f: nat)
    ensures f < Pow2(|ts|)
  {
    if ts == [] then 0 else Flags(ts[..|ts| - 1]) + (if ts[|ts| - 1].Match? then Pow2(|ts| - 1) else 0)
  }

  /** Up to eight tokens behind their flag byte. */
  function Group(ts: seq<Token>): seq<Byte>
    requires AllValid(ts) && |ts| <= 8
  {
    assert Pow2(8) == 256;
    Pow2Mono(|ts|, 8);
    if ts == [] then [] else [Flags(ts)] + Payloads(ts)
  }

  function Layout(ts: seq<Token>): (b: seq<Byte>)
    requires AllValid(ts)
  {
    if |ts| <= 8 then Group(ts) else Group(ts[..8]) + Layout(ts[8..])
  }

  /** A fetched flag byte, with the bit above it that marks its end. */
  function Opened(flags: nat): nat { flags + 256 }

  function DistOf(low: nat, high: nat): nat { low + 256 * high + 1 }

  /** Reading goes as the emitters do it: `flags` holds the flags not used yet below a 1, and 1
      alone makes the reader fetch the next flag byte. */
  predicate Readable(b: seq<Byte>, flags: nat)
    decreases |b|, 1
  {
    b == [] || (if flags <= 1 then |b| >= 2 && ReadableToken(b[1..], Opened(b[0])) else ReadableToken(b, flags))
  }

  predicate ReadableToken(b: seq<Byte>, flags: nat)
    requires b != []
    decreases |b|, 0
  {
    if flags % 2 == 1 then |b| >= 3 && b[2] < 128 && Readable(b[3..], flags / 2) else Readable(b[1..], flags / 2)
  }

  function ReadTokens(b: seq<Byte>, flags: nat): seq<Token>
    requires Readable(b, flags)
    decreases |b|, 1
  {
    if b == [] then [] else if flags <= 1 then ReadFrom(b[1..], Opened(b[0])) else ReadFrom(b, flags)
  }

  function ReadFrom(b: seq<Byte>, flags: nat): (ts: seq<Token>)
    requires b != [] && ReadableToken(b, flags)
    ensures ts != []
    decreases |b|, 0
  {
    if flags % 2 == 1 then [Match(b[0] + MIN_MATCH_LEN, DistOf(b[1], b[2]))] + ReadTokens(b[3..], flags / 2)
    else [Literal(b[0])] + ReadTokens(b[1..], flags / 2)
  }

  /** `b` read from `flags` on is `ts`. */
  ghost predicate Reads(b: seq<Byte>, flags: nat, ts: seq<Token>) {
    Readable(b, flags) && ReadTokens(b, flags) == ts
  }

  // ---------- reading back what was laid out

  lemma {:induction false} FlagsHead(ts: seq<Token>)
    requires ts != []
    ensures Flags(ts) == (if ts[0].Match? then 1 else 0) + 2 * Flags(ts[1..])
  {
    var n := |ts| - 1;
    if n > 0 {
      FlagsHead(ts[..n]);
      assert ts[..n][1..] == ts[1..][..n - 1];
    }
  }

  lemma PayloadsLast(ts: seq<Token>)
    requires ts != [] && AllValid(ts)
    ensures Payloads(ts) == Payloads(ts[..|ts| - 1]) + Payload(ts[|ts| - 1])
  {
    hide Payload;
  }

  lemma {:induction false} PayloadsHead(ts: seq<Token>)
    requires ts != [] && AllValid(ts)
    ensures Payloads(ts) == Payload(ts[0]) + Payloads(ts[1..])
  {
    hide Payload, Payloads;
    var n := |ts| - 1;
    PayloadsLast(ts);
    if n == 0 {
      assert ts[..0] == [] && ts[1..] == [];
      NoTokens();
    } else {
      var init, tail := ts[..n], ts[1..];
      PayloadsHead(init);
      PayloadsLast(tail);
      assert init[1..] == tail[..n - 1] && init[0] == ts[0] && tail[n - 1] == ts[n];
    }
  }

  /** The tokens of one group, with `rest` behind them: 256 stands above the flags not yet used. */
  lemma {:induction false} ReadGroup(ts: seq<Token>, k: nat, flags: nat, rest: seq<Byte>, more: seq<Token>)
    requires AllValid(ts) && |ts| <= k && flags == Flags(ts) + Pow2(k)
    requires Reads(rest, Pow2(k - |ts|), more)
    ensures Reads(Payloads(ts) + rest, flags, ts + more)
    decreases |ts|
  {
    hide Payloads, Flags, Payload;
    if ts == [] {
      NoTokens();
      assert [] + rest == rest && [] + more == more;
    } else {
      FlagsHead(ts);
      PayloadsHead(ts);
      assert Pow2(k) == 2 * Pow2(k - 1);
      ReadGroup(ts[1..], k - 1, flags / 2, rest, more);
      var tail := Payloads(ts[1..]) + rest;
      assert Payloads(ts) + rest == Payload(ts[0]) + tail;
      ReadOne(ts[0], flags, tail, ts[1..] + more);
      assert ts + more == [ts[0]] + (ts[1..] + more);
    }
  }

  lemma NoTokens()
    ensures Payloads([]) == [] && Flags([]) == 0
  {
  }

  lemma ReadOne(t: Token, flags: nat, tail: seq<Byte>, ts: seq<Token>)
    requires ValidToken(t) && flags > 1 && flags % 2 == (if t.Match? then 1 else 0)
    requires Reads(tail, flags / 2, ts)
    ensures Reads(Payload(t) + tail, flags, [t] + ts)
  {
    var b := Payload(t) + tail;
    if t.Match? {
      assert b[3..] == tail;
      assert DistOf(b[1], b[2]) == t.dist;
    } else {
      assert b[1..] == tail;
    }
  }

  /** The reader recovers exactly the tokens laid out. */
  lemma {:induction false} ReadLayout(ts: seq<Token>)
    requires AllValid(ts)
    ensures Reads(Layout(ts), 1, ts)
    decreases |ts|
  {
    hide Payloads, Flags, Payload, Readable, ReadTokens;
    if |ts| <= 8 {
      ReadGroupFirst(ts, [], []);
      assert Group(ts) + [] == Group(ts) && ts + [] == ts;
    } else {
      ReadLayout(ts[8..]);
      ReadGroupFirst(ts[..8], Layout(ts[8..]), ts[8..]);
      assert ts[..8] + ts[8..] == ts;
    }
  }

  lemma ReadGroupFirst(g: seq<Token>, rest: seq<Byte>, more: seq<Token>)
    requires AllValid(g) && |g| <= 8 && (|g| < 8 ==> rest == [] && more == [])
    requires |g| == 8 ==> Reads(rest, 1, more) || (rest == [] && more == [])
    ensures Reads(Group(g) + rest, 1, g + more)
  {
    hide Payloads, Flags, Payload;
    if g == [] {
      assert Group(g) + rest == [];
    } else {
      FlagsAbove(g);
      GroupOf(g);
      ReadGroup(g, 8, Flags(g) + 256, rest, more);
      var b := Group(g) + rest;
      assert b[0] == Flags(g) && b[1..] == Payloads(g) + rest;
    }
  }

  lemma FlagsAbove(g: seq<Token>)
    requires AllValid(g) && g != []
    ensures |Payloads(g)| >= 1 && Flags(g) + 256 > 1 && Pow2(8) == 256
  {
  }

  // ---------- recording

  /** Groups are closed in eights; the flag byte of the open group holds stale bits below its flags. */
  ghost predicate Recorded(buf: seq<Byte>, pos: nat, flagPos: nat, left: nat, ts: seq<Token>) {
    && AllValid(ts)
    && var n := |ts| / 8 * 8;
       && left == 8 - |ts[n..]| && flagPos == |Layout(ts[..n])| && pos == flagPos + 1 + |Payloads(ts[n..])| && pos <= |buf|
       && buf[..flagPos] == Layout(ts[..n]) && buf[flagPos + 1..pos] == Payloads(ts[n..])
       && Shr(buf[flagPos], left) == Flags(ts[n..])
  }

  lemma {:induction false} LayoutGroup(ts: seq<Token>, g: seq<Token>)
    requires AllValid(ts) && AllValid(g) && |ts| % 8 == 0 && |g| <= 8
    ensures AllValid(ts + g) && Layout(ts + g) == Layout(ts) + Group(g)
    decreases |ts|
  {
    hide Group;
    if ts == [] {
      assert ts + g == g && Layout(ts) == [] by { NoGroup(); }
    } else if |ts + g| <= 8 {
      assert ts + g == ts && g == [];
      NoGroup();
    } else {
      var all := ts + g;
      assert all[..8] == ts[..8] && all[8..] == ts[8..] + g;
      LayoutGroup(ts[8..], g);
      if |ts| == 8 {
        assert ts[8..] == [] && ts[..8] == ts;
        NoGroup();
      }
      assert Layout(ts) == Group(ts[..8]) + Layout(ts[8..]);
    }
  }

  lemma NoGroup()
    ensures Group([]) == []
  {
  }

  lemma {:induction false} ShrAdd(x: nat, k: nat, c: nat)
    ensures Shr(x + c * Pow2(k), k) == Shr(x, k) + c
  {
    if k > 0 {
      var p := c * Pow2(k - 1);
      assert x + c * Pow2(k) == x + 2 * p;
      ShrAdd(x / 2, k - 1, c);
      assert (x + 2 * p) / 2 == x / 2 + p;
    }
  }

  lemma ShrUnfold(byte: nat, left: nat)
    requires left >= 1
    ensures Shr(byte, left) == Shr(byte / 2, left - 1) && Pow2(7) == 128
  {
  }

  /** Shifting the next flag into the flag byte. */
  lemma NextFlag(byte: Byte, left: nat, cur: seq<Token>, t: Token)
    requires 1 <= left <= 8 && |cur| == 8 - left && Shr(byte, left) == Flags(cur)
    ensures Shr(byte / 2 + (if t.Match? then 128 else 0), left - 1) == Flags(cur + [t])
  {
    hide Shr, Pow2;
    ShrUnfold(byte, left);
    assert (cur + [t])[..|cur|] == cur;
    if t.Match? {
      ShrAdd(byte / 2, left - 1, Pow2(8 - left));
      Pow2Add(8 - left, left - 1);
    }
  }

  /** The buffer with the token `t` put at its end. */
  ghost predicate Extended(buf: seq<Byte>, pos: nat, flagPos: nat, t: Token, buf': seq<Byte>) {
    && ValidToken(t) && flagPos < pos && pos + |Payload(t)| <= |buf'| == |buf|
    && buf'[..flagPos] == buf[..flagPos] && buf'[flagPos + 1..pos] == buf[flagPos + 1..pos]
    && buf'[pos..pos + |Payload(t)|] == Payload(t)
    && buf'[flagPos] == buf[flagPos] / 2 + (if t.Match? then 128 else 0)
  }

  lemma RecordToken(buf: seq<Byte>, pos: nat, flagPos: nat, left: nat, ts: seq<Token>, t: Token, buf': seq<Byte>)
    requires Recorded(buf, pos, flagPos, left, ts) && Extended(buf, pos, flagPos, t, buf')
    requires left == 1 ==> pos + |Payload(t)| < |buf|
    ensures left >= 1
    ensures left > 1 ==> Recorded(buf', pos + |Payload(t)|, flagPos, left - 1, ts + [t])
    ensures left == 1 ==> Recorded(buf', pos + |Payload(t)| + 1, pos + |Payload(t)|, 8, ts + [t])
  {
    hide Payload, Layout, Flags, Shr, Payloads;
    var n := |ts| / 8 * 8;
    var cur, p := ts[n..], pos + |Payload(t)|;
    NextFlag(buf[flagPos], left, cur, t);
    PayloadsSnoc(cur, t);
    assert buf'[flagPos + 1..p] == buf'[flagPos + 1..pos] + buf'[pos..p] == Payloads(cur + [t]);
    if left > 1 {
      OpenGroup(buf', p, flagPos, left - 1, ts, t);
    } else {
      ClosedGroup(buf', p, flagPos, ts, t);
    }
  }

  /** The group goes on. */
  lemma OpenGroup(buf: seq<Byte>, p: nat, flagPos: nat, left: nat, ts: seq<Token>, t: Token)
    requires AllValid(ts) && ValidToken(t) && 1 <= left == 7 - |ts| % 8 && flagPos + 1 <= p <= |buf|
    requires var n := |ts| / 8 * 8;
             && flagPos == |Layout(ts[..n])| && buf[..flagPos] == Layout(ts[..n]) && AllValid(ts[n..] + [t])
             && buf[flagPos + 1..p] == Payloads(ts[n..] + [t]) && Shr(buf[flagPos], left) == Flags(ts[n..] + [t])
    ensures Recorded(buf, p, flagPos, left, ts + [t])
  {
    hide Payload, Layout, Flags, Shr, Payloads;
    var n, all := |ts| / 8 * 8, ts + [t];
    assert |all| / 8 * 8 == n && all[n..] == ts[n..] + [t] && all[..n] == ts[..n];
  }

  /** The group is full, and a new one starts. */
  lemma ClosedGroup(buf: seq<Byte>, p: nat, flagPos: nat, ts: seq<Token>, t: Token)
    requires AllValid(ts) && ValidToken(t) && |ts| % 8 == 7 && flagPos + 1 <= p < |buf|
    requires var n := |ts| / 8 * 8;
             && flagPos == |Layout(ts[..n])| && buf[..flagPos] == Layout(ts[..n]) && AllValid(ts[n..] + [t])
             && buf[flagPos + 1..p] == Payloads(ts[n..] + [t]) && Shr(buf[flagPos], 0) == Flags(ts[n..] + [t])
    ensures Recorded(buf, p + 1, p, 8, ts + [t])
  {
    hide Payload, Layout, Flags, Shr, Payloads;
    var n, all := |ts| / 8 * 8, ts + [t];
    var cur := ts[n..];
    assert |all| / 8 * 8 == |all| && all[|all|..] == [] && all[..|all|] == ts[..n] + (cur + [t]);
    LayoutGroup(ts[..n], cur + [t]);
    ShrNone(buf[flagPos]);
    assert buf[..p] == buf[..flagPos] + [buf[flagPos]] + buf[flagPos + 1..p];
    GroupOf(cur + [t]);
    assert buf[..p] == Layout(all[..|all|]);
    ByteGone(buf[p]);
    NoTokens();
  }

  lemma ShrNone(b: nat)
    ensures Shr(b, 0) == b
  {
  }

  lemma ByteGone(b: Byte)
    ensures Shr(b, 8) == 0
  {
    assert Pow2(8) == 256;
    ShrBound(b, 8, 0);
  }

  lemma GroupOf(g: seq<Token>)
    requires AllValid(g) && 1 <= |g| <= 8
    ensures Flags(g) < 256 && Group(g) == [Flags(g) as Byte] + Payloads(g)
  {
    assert Pow2(8) == 256;
    Pow2Mono(|g|, 8);
  }

  lemma PayloadsSnoc(ts: seq<Token>, t: Token)
    requires AllValid(ts) && ValidToken(t)
    ensures AllValid(ts + [t]) && Payloads(ts + [t]) == Payloads(ts) + Payload(t)
  {
    assert (ts + [t])[..|ts|] == ts;
  }

  /** The fix-up before a block is emitted: the stale bits go, and so does an unused flag byte. */
  lemma FixUp(buf: seq<Byte>, pos: nat, flagPos: nat, left: nat, ts: seq<Token>)
    requires Recorded(buf, pos, flagPos, left, ts)
    ensures flagPos < pos <= |buf| && left <= 8 && Shr(buf[flagPos], left) < 256
    ensures var buf' := buf[flagPos := Shr(buf[flagPos], left) as Byte];
            buf'[..if left == 8 then pos - 1 else pos] == Layout(ts)
  {
    hide Payload, Layout, Flags, Shr, Payloads;
    var n := |ts| / 8 * 8;
    var cur := ts[n..];
    LayoutGroup(ts[..n], cur);
    assert ts[..n] + cur == ts;
    NoTokens();
    NoGroup();
    if cur != [] {
      GroupOf(cur);
      var buf' := buf[flagPos := Shr(buf[flagPos], left) as Byte];
      assert buf'[..pos] == buf'[..flagPos] + [buf'[flagPos]] + buf'[flagPos + 1..pos];
    }
  }

  // ---------- sizes

  /** The number of source bytes that a token stands for. */
  function TokenLen(t: Token): nat { if t.Match? then t.len else 1 }

  function TotalLen(ts: seq<Token>): nat { if ts == [] then 0 else TotalLen(ts[..|ts| - 1]) + TokenLen(ts[|ts| - 1]) }

  /** `m_total_lz_bytes` stays far below 2^32. */
  lemma {:induction false} TotalBound(ts: seq<Token>)
    requires AllValid(ts)
    ensures TotalLen(ts) <= 258 * |ts|
  {
    if ts != [] {
      TotalBound(ts[..|ts| - 1]);
    }
  }

  /** The cost of a token under the static code is at most this many bits. */
  function StaticCost(t: Token): nat { if t.Match? then 31 else 9 }

  function StaticCosts(ts: seq<Token>): nat {
    if ts == [] then 0 else StaticCosts(ts[..|ts| - 1]) + StaticCost(ts[|ts| - 1])
  }

  /** A static code never costs more than 31/25 of the buffer's bits; 32/27 of a bit more for every
      token is hardly worse. */
  lemma {:induction false} PayloadsCost(ts: seq<Token>)
    requires AllValid(ts)
    ensures 25 * StaticCosts(ts) <= 31 * (8 * |Payloads(ts)| + |ts|)
    ensures 25 * (270 * StaticCosts(ts) + 320 * |ts|) <= 8690 * (8 * |Payloads(ts)| + |ts|)
  {
    hide Payload;
    if ts != [] {
      PayloadsCost(ts[..|ts| - 1]);
    }
  }

  lemma {:induction false} CostsConcat(a: seq<Token>, b: seq<Token>)
    ensures StaticCosts(a + b) == StaticCosts(a) + StaticCosts(b)
  {
    if b == [] {
      assert a + b == a;
    } else {
      assert (a + b)[..|a + b| - 1] == a + b[..|b| - 1];
      CostsConcat(a, b[..|b| - 1]);
    }
  }

  lemma {:induction false} LayoutCost(ts: seq<Token>)
    requires AllValid(ts)
    ensures 25 * StaticCosts(ts) <= 31 * 8 * |Layout(ts)| && |ts| <= |Layout(ts)|
    ensures 25 * (270 * StaticCosts(ts) + 320 * |ts|) <= 8690 * 8 * |Layout(ts)|
    decreases |ts|
  {
    hide Payload;
    if |ts| <= 8 {
      PayloadsCost(ts);
    } else {
      PayloadsCost(ts[..8]);
      LayoutCost(ts[8..]);
      assert ts == ts[..8] + ts[8..];
      CostsConcat(ts[..8], ts[8..]);
    }
  }

  /** The tokens before the open group and in it, in bytes. */
  lemma RecordedSize(buf: seq<Byte>, pos: nat, flagPos: nat, left: nat, ts: seq<Token>)
    requires Recorded(buf, pos, flagPos, left, ts)
    ensures flagPos < pos <= |buf| && 1 <= left <= 8 && |ts| < pos
  {
    hide Payload, Layout;
    LayoutCost(ts[..|ts| / 8 * 8]);
  }

  // ---------- the symbol counts

  function LitSym(t: Token): nat
    requires ValidToken(t)
    ensures LitSym(t) < 286 && LitSym(t) != 256
  {
    match t
    case Literal(b) => b
    case Match(len, _) => LengthTables(len - MIN_MATCH_LEN); LenSym(len - MIN_MATCH_LEN)
  }

  /** How many of `ts` are sent as the literal/length symbol `s`, or hold the distance symbol `s`. */
  function LitUses(ts: seq<Token>, s: nat): nat
    requires AllValid(ts)
  {
    if ts == [] then 0 else LitUses(ts[..|ts| - 1], s) + (if LitSym(ts[|ts| - 1]) == s then 1 else 0)
  }

  predicate UsesDist(t: Token, s: nat) { t.Match? && t.dist >= 1 && DistSym(t.dist - 1) == s }

  function DistUses(ts: seq<Token>, s: nat): nat {
    if ts == [] then 0 else DistUses(ts[..|ts| - 1], s) + (if UsesDist(ts[|ts| - 1], s) then 1 else 0)
  }

  ghost predicate LitCounted(count: seq<Word16>, ts: seq<Token>) {
    && AllValid(ts) && |count| == HuffTable.MAX_SYMBOLS && HuffTable.Sum(count) == |ts|
    && forall s :: 0 <= s < |count| ==> count[s] == LitUses(ts, s)
  }

  ghost predicate DistCounted(count: seq<Word16>, ts: seq<Token>) {
    && AllValid(ts) && |count| == HuffTable.MAX_SYMBOLS && HuffTable.Sum(count) <= |ts|
    && forall s :: 0 <= s < |count| ==> count[s] == DistUses(ts, s)
  }

  lemma {:induction false} UsesBound(ts: seq<Token>, s: nat)
    requires AllValid(ts)
    ensures LitUses(ts, s) <= |ts| && DistUses(ts, s) <= |ts|
  {
    if ts != [] {
      UsesBound(ts[..|ts| - 1], s);
    }
  }

  lemma {:induction false} SumUpdate(count: seq<Word16>, i: nat)
    requires i < |count| && count[i] < 65535
    ensures HuffTable.Sum(count[i := count[i] + 1]) == HuffTable.Sum(count) + 1
  {
    var n := |count| - 1;
    var up := count[i := count[i] + 1];
    if i < n {
      assert up[..n] == count[..n][i := count[i] + 1];
      SumUpdate(count[..n], i);
    } else {
      assert up[..n] == count[..n];
    }
  }

  lemma CountLit(count: seq<Word16>, ts: seq<Token>, t: Token)
    requires LitCounted(count, ts) && ValidToken(t) && |ts| < 65535
    ensures LitSym(t) < |count| && count[LitSym(t)] < 65535
    ensures LitCounted(count[LitSym(t) := count[LitSym(t)] + 1], ts + [t])
  {
    hide LitSym, ValidToken;
    LitSymBound(t);
    var i := LitSym(t);
    UsesBound(ts, i);
    SumUpdate(count, i);
    assert (ts + [t])[..|ts|] == ts;
  }

  lemma LitSymBound(t: Token)
    requires ValidToken(t)
    ensures LitSym(t) < 286
  {
  }

  lemma CountDist(count: seq<Word16>, ts: seq<Token>, t: Token, i: nat)
    requires DistCounted(count, ts) && ValidToken(t) && t.Match? && i == DistSym(t.dist - 1) && |ts| < 65535
    ensures i < 30 && i < |count| && count[i] < 65535
    ensures DistCounted(count[i := count[i] + 1], ts + [t])
  {
    DistanceTables(t.dist - 1);
    hide DistSym;
    UsesBound(ts, i);
    SumUpdate(count, i);
    assert (ts + [t])[..|ts|] == ts;
  }

  lemma SkipDist(count: seq<Word16>, ts: seq<Token>, b: Byte)
    requires DistCounted(count, ts)
    ensures DistCounted(count, ts + [Literal(b)])
  {
    assert (ts + [Literal(b)])[..|ts|] == ts;
  }

  lemma {:induction false} NothingCounted(count: seq<Word16>)
    requires forall i :: 0 <= i < |count| ==> count[i] == 0
    ensures HuffTable.Sum(count) == 0
  {
    if count != [] {
      NothingCounted(count[..|count| - 1]);
    }
  }

  lemma NothingRecorded(buf: seq<Byte>)
    requires |buf| >= 1
    ensures Recorded(buf, 1, 0, 8, [])
  {
    ByteGone(buf[0]);
    NoGroup();
  }

  /** Every token takes four bytes of the buffer at most, its part of the flag bytes included. */
  lemma {:induction false} LayoutLength(ts: seq<Token>)
    requires AllValid(ts)
    ensures |Layout(ts)| <= 4 * |ts|
    decreases |ts|
  {
    hide Payloads, Flags;
    if |ts| <= 8 {
      PayloadsLength(ts);
    } else {
      LayoutLength(ts[8..]);
      PayloadsLength(ts[..8]);
    }
  }

  lemma {:induction false} PayloadsLength(ts: seq<Token>)
    requires AllValid(ts)
    ensures |Payloads(ts)| <= 3 * |ts|
  {
    hide Payload;
    if ts != [] {
      PayloadsLength(ts[..|ts| - 1]);
    }
  }

  lemma RecordedMany(buf: seq<Byte>, pos: nat, flagPos: nat, left: nat, ts: seq<Token>)
    requires Recorded(buf, pos, flagPos, left, ts)
    ensures pos <= 4 * |ts| + 1
  {
    hide Layout, Payloads, Flags, Shr;
    var n := |ts| / 8 * 8;
    LayoutLength(ts[..n]);
    PayloadsLength(ts[n..]);
  }

  lemma TotalSnoc(ts: seq<Token>, t: Token)
    ensures TotalLen(ts + [t]) == TotalLen(ts) + TokenLen(t)
  {
    assert (ts + [t])[..|ts|] == ts;
  }

  /** The counts cover every symbol that the tokens need. */
  lemma {:induction false} CountedUsed(ts: seq<Token>, i: nat)
    requires AllValid(ts) && i < |ts|
    ensures LitUses(ts, LitSym(ts[i])) > 0
    ensures ts[i].Match? ==> DistUses(ts, DistSym(ts[i].dist - 1)) > 0
  {
    hide LitSym, ValidToken, DistSym;
    if i < |ts| - 1 {
      assert ts[..|ts| - 1][i] == ts[i];
      CountedUsed(ts[..|ts| - 1], i);
    } else {
      MatchDist(ts[i]);
    }
  }

  lemma MatchDist(t: Token)
    requires ValidToken(t)
    ensures t.Match? ==> t.dist >= 1
  {
  }

  // ---------- the buffer

  /** `m_lz_code_buf` with its write positions, and the tables whose symbols it counts. */
  class CodeBuffer {
    const buf: array<Byte>
    const lit: HuffTable.Table
    const dist: HuffTable.Table
    var pos: nat         // m_pLZ_code_buf
    var flagPos: nat     // m_pLZ_flags
    var flagsLeft: nat   // m_num_flags_left
    var totalBytes: nat  // m_total_lz_bytes
    ghost var tokens: seq<Token>

    ghost predicate Shape() {
      && buf.Length == LZ_CODE_BUF_SIZE && lit.Valid() && dist.Valid()
      && lit.count != dist.count && lit.codes != dist.codes && lit.sizes != dist.sizes
      && lit.codes != dist.sizes && lit.sizes != dist.codes
    }

    ghost predicate Valid()
      reads this, buf, lit.count, dist.count
    {
      && Shape() && Recorded(buf[..], pos, flagPos, flagsLeft, tokens) && totalBytes == TotalLen(tokens)
      && LitCounted(lit.count[..], tokens) && DistCounted(dist.count[..], tokens)
    }

    constructor ()
      ensures Valid() && tokens == [] && pos == 1
      ensures fresh(buf) && fresh(lit) && fresh(dist)
      ensures fresh(lit.count) && fresh(lit.codes) && fresh(lit.sizes)
      ensures fresh(dist.count) && fresh(dist.codes) && fresh(dist.sizes)
    {
      buf := new Byte[LZ_CODE_BUF_SIZE](_ => 0);
      lit := new HuffTable.Table();
      dist := new HuffTable.Table();
      pos, flagPos, flagsLeft, totalBytes, tokens := 1, 0, 8, 0, [];
      new;
      NothingRecorded(buf[..]);
      NothingCounted(lit.count[..]);
      NothingCounted(dist.count[..]);
    }

    /** `tdefl_record_literal`. */
    method RecordLiteral(b: Byte)
      requires Valid() && pos + 2 <= buf.Length
      modifies this`pos, this`flagPos, this`flagsLeft, this`totalBytes, this`tokens, buf, lit.count, dist.count
      ensures Valid() && tokens == old(tokens) + [Literal(b)] && pos <= old(pos) + 2
    {
      hide Recorded, LitCounted, DistCounted, TotalLen, Extended;
      ghost var was, t := buf[..], Literal(b);
      RecordedSize(was, pos, flagPos, flagsLeft, tokens);
      totalBytes := totalBytes + 1;
      buf[pos] := b;
      buf[flagPos] := buf[flagPos] / 2;
      LiteralPut(was, pos, flagPos, b, buf[..]);
      Advance(1, was, t);
      CountLit(lit.count[..], tokens, t);
      SkipDist(dist.count[..], tokens, b);
      ghost var c := lit.count[..];
      lit.count[b] := lit.count[b] + 1;
      assert lit.count[..] == c[b := c[b] + 1];
      TotalSnoc(tokens, t);
      tokens := tokens + [t];
    }

    /** Past the `n` bytes of the token just put, to a new flag byte after every eighth token. */
    method Advance(n: nat, ghost was: seq<Byte>, ghost t: Token)
      requires Recorded(was, pos, flagPos, flagsLeft, tokens) && Extended(was, pos, flagPos, t, buf[..])
      requires ValidToken(t) && n == |Payload(t)| && pos + n < buf.Length == |was|
      modifies this`pos, this`flagPos, this`flagsLeft
      ensures Recorded(buf[..], pos, flagPos, flagsLeft, tokens + [t]) && pos <= old(pos) + n + 1
    {
      hide Recorded, Extended, Payload;
      RecordToken(was, pos, flagPos, flagsLeft, tokens, t, buf[..]);
      pos := pos + n;
      flagsLeft := flagsLeft - 1;
      if flagsLeft == 0 {
        flagsLeft := 8;
        flagPos := pos;
        pos := pos + 1;
      }
    }

    /** The counting half of `tdefl_record_match`; `d` is the distance - 1. */
    method CountMatch(matchLen: nat, d: nat)
      requires Shape() && ValidToken(Match(matchLen, d + 1)) && |tokens| < 65535
      requires LitCounted(lit.count[..], tokens) && DistCounted(dist.count[..], tokens)
      modifies lit.count, dist.count
      ensures LitCounted(lit.count[..], tokens + [Match(matchLen, d + 1)])
      ensures DistCounted(dist.count[..], tokens + [Match(matchLen, d + 1)])
    {
      hide LitCounted, DistCounted, LenSym, SmallDistSym, LargeDistSym;
      ghost var t := Match(matchLen, d + 1);
      MatchSyms(matchLen, d + 1);
      var s := if d < 512 then SmallDistSym(d) else LargeDistSym(d / 256 % 128);
      CountDist(dist.count[..], tokens, t, s);
      ghost var e := dist.count[..];
      dist.count[s] := dist.count[s] + 1;
      assert dist.count[..] == e[s := e[s] + 1];
      CountLit(lit.count[..], tokens, t);
      ghost var c := lit.count[..];
      var l := LenSym(matchLen - MIN_MATCH_LEN);
      lit.count[l] := lit.count[l] + 1;
      assert lit.count[..] == c[l := c[l] + 1];
    }

    /** `tdefl_record_match`. */
    method RecordMatch(matchLen: nat, matchDist: nat)
      requires Valid() && pos + 4 <= buf.Length && ValidToken(Match(matchLen, matchDist))
      modifies this`pos, this`flagPos, this`flagsLeft, this`totalBytes, this`tokens, buf, lit.count, dist.count
      ensures Valid() && tokens == old(tokens) + [Match(matchLen, matchDist)] && pos <= old(pos) + 4
    {
      hide Recorded, LitCounted, DistCounted, TotalLen, Extended, LenSym, SmallDistSym, LargeDistSym, Payload, TokenLen;
      ghost var was, t := buf[..], Match(matchLen, matchDist);
      MatchSyms(matchLen, matchDist);
      RecordedSize(was, pos, flagPos, flagsLeft, tokens);
      totalBytes := totalBytes + matchLen;
      buf[pos] := matchLen - MIN_MATCH_LEN;
      var d := matchDist - 1;
      buf[pos + 1] := d % 256;
      buf[pos + 2] := d / 256;
      buf[flagPos] := buf[flagPos] / 2 + 128;
      MatchPut(was, pos, flagPos, matchLen, matchDist, buf[..]);
      Advance(3, was, t);
      CountMatch(matchLen, d);
      TotalSnoc(tokens, t);
      tokens := tokens + [t];
    }

    /** Sealing the buffer at the start of `tdefl_flush_block`. */
    method Seal()
      requires Valid()
      modifies this`pos, buf
      ensures pos <= old(pos) && buf[..pos] == Layout(tokens)
    {
      hide Recorded;
      FixUp(buf[..], pos, flagPos, flagsLeft, tokens);
      ghost var was := buf[..];
      buf[flagPos] := Shr(buf[flagPos], flagsLeft);
      assert buf[..] == was[flagPos := Shr(was[flagPos], flagsLeft) as Byte];
      if flagsLeft == 8 {
        pos := pos - 1;
      }
    }

    /** Emptying the buffer and the counts at the end of `tdefl_flush_block`. */
    method Reset()
      requires Shape()
      modifies this`pos, this`flagPos, this`flagsLeft, this`totalBytes, this`tokens, lit.count, dist.count
      ensures Valid() && tokens == [] && pos == 1
    {
      var i := 0;
      while i < HuffTable.MAX_SYMBOLS
        invariant 0 <= i <= HuffTable.MAX_SYMBOLS
        invariant forall k :: 0 <= k < i ==> lit.count[k] == 0 && dist.count[k] == 0
      {
        lit.count[i] := 0;
        dist.count[i] := 0;
        i := i + 1;
      }
      pos, flagPos, flagsLeft, totalBytes, tokens := 1, 0, 8, 0, [];
      NothingRecorded(buf[..]);
      NothingCounted(lit.count[..]);
      NothingCounted(dist.count[..]);
    }
  }

  lemma MatchSyms(len: nat, dist: nat)
    requires ValidToken(Match(len, dist))
    ensures LitSym(Match(len, dist)) == LenSym(len - MIN_MATCH_LEN) && TokenLen(Match(len, dist)) == len
    ensures |Payload(Match(len, dist))| == 3 && (dist - 1) / 256 % 128 == (dist - 1) / 256
  {
  }

  lemma LiteralPut(buf: seq<Byte>, pos: nat, flagPos: nat, b: Byte, buf': seq<Byte>)
    requires flagPos < pos < |buf| && buf' == buf[pos := b][flagPos := (buf[flagPos] / 2) as Byte]
    ensures Extended(buf, pos, flagPos, Literal(b), buf')
  {
  }

  lemma MatchPut(buf: seq<Byte>, pos: nat, flagPos: nat, len: nat, dist: nat, buf': seq<Byte>)
    requires flagPos < pos && pos + 3 <= |buf| == |buf'| && ValidToken(Match(len, dist))
    requires forall k :: 0 <= k < pos && k != flagPos ==> buf'[k] == buf[k]
    requires buf'[pos] == len - MIN_MATCH_LEN && buf'[pos + 1] == (dist - 1) % 256 && buf'[pos + 2] == (dist - 1) / 256
    requires buf'[flagPos] == buf[flagPos] / 2 + 128
    ensures Extended(buf, pos, flagPos, Match(len, dist), buf')
  {
    assert buf'[pos..pos + 3] == [buf'[pos], buf'[pos + 1], buf'[pos + 2]];
  }
}
