/** What the parser has done with the source: the invariant of `tdefl_compress_normal`, and how each
    way of parsing a step keeps it. */
module Parsing {
  import opened Bits
  import opened Tokens
  import opened LzCodes
  import opened Window

  /** The parser's position. `p` is the absolute value of `m_lookahead_pos`, `f` that of
      `m_lz_code_buf_dict_pos`; `look` is the lookahead's size, and `tokens` are those recorded since
      the last flush. A saved match is pending when `savedLen` is not 0. */
  datatype View = View(source: seq<Byte>, p: nat, f: nat, look: nat, dictSize: nat, savedLen: nat, savedDist: nat, savedLit: nat,
                       tokens: seq<Token>)

  /** The tokens stand for the source from `f` to `x`. */
  ghost predicate Stands(source: seq<Byte>, f: nat, x: nat, tokens: seq<Token>) {
    && f <= x <= |source| && AllApply(source[..f], tokens) && Expand(source[..f], tokens) == source[..x]
    && x == f + TotalLen(tokens)
  }

  const FAST_LOOKAHEAD := 4096  // TDEFL_COMP_FAST_LOOKAHEAD_SIZE

  /** One byte is not recorded yet while a match is pending. */
  function Unrecorded(v: View): nat { if v.savedLen > 0 then 1 else 0 }

  ghost predicate Parses(v: View) {
    && |v.source| == v.p + v.look && v.look <= FAST_LOOKAHEAD && v.dictSize <= v.p && Unrecorded(v) <= v.p
    && Stands(v.source, v.f, v.p - Unrecorded(v), v.tokens)
    && (v.savedLen > 0 ==> Pending(v.source, v.p, v.look, v.savedLen, v.savedDist, v.savedLit))
  }

  /** The saved match starts at the unrecorded byte, and the lookahead still holds the rest of it. */
  ghost predicate Pending(source: seq<Byte>, p: nat, look: nat, len: nat, dist: nat, lit: nat) {
    && 1 <= p <= |source| && MIN_MATCH_LEN <= len < 128 && len - 1 <= look && dist <= LZ_DICT_SIZE
    && lit == source[p - 1] && Copies(source, p - 1, dist, len)
  }

  lemma AddLiteral(source: seq<Byte>, f: nat, x: nat, tokens: seq<Token>)
    requires Stands(source, f, x, tokens) && x < |source|
    ensures Stands(source, f, x + 1, tokens + [Literal(source[x])])
  {
    hide Expand, AllApply;
    ExpandSnoc(source[..f], tokens, Literal(source[x]));
    TotalSnoc(tokens, Literal(source[x]));
    assert source[..x] + [source[x]] == source[..x + 1];
  }

  lemma AddMatch(source: seq<Byte>, f: nat, x: nat, tokens: seq<Token>, len: nat, dist: nat)
    requires Stands(source, f, x, tokens) && Copies(source, x, dist, len) && ValidToken(Match(len, dist))
    ensures x + len <= |source| && Stands(source, f, x + len, tokens + [Match(len, dist)])
  {
    hide Expand, AllApply, CopyMatch;
    ExpandSnoc(source[..f], tokens, Match(len, dist));
    TotalSnoc(tokens, Match(len, dist));
    CopyIs(source, x, dist, len);
  }

  lemma StandsLater(source: seq<Byte>, more: seq<Byte>, f: nat, x: nat, tokens: seq<Token>)
    requires Stands(source, f, x, tokens)
    ensures Stands(source + more, f, x, tokens)
  {
    hide Expand, AllApply;
    assert (source + more)[..f] == source[..f] && (source + more)[..x] == source[..x];
  }

  /** Bytes come into the lookahead. */
  lemma Take(v: View, more: seq<Byte>)
    requires Parses(v) && v.look + |more| <= FAST_LOOKAHEAD
    ensures Parses(v.(source := v.source + more, look := v.look + |more|))
  {
    hide Stands, Copies;
    StandsLater(v.source, more, v.f, v.p - Unrecorded(v), v.tokens);
    if v.savedLen > 0 {
      CopiesLater(v.source, more, v.p - 1, v.savedDist, v.savedLen);
    }
  }

  function Moved(v: View, n: nat): View
    requires n <= v.look
  {
    v.(p := v.p + n, look := v.look - n, dictSize := if v.dictSize + n <= LZ_DICT_SIZE then v.dictSize + n else LZ_DICT_SIZE)
  }

  /** A match found at the current position. */
  ghost predicate Found(v: View, dist: nat, len: nat) {
    |v.source| == v.p + v.look && MIN_MATCH_LEN <= len <= v.look && len <= MAX_MATCH_LEN && dist <= LZ_DICT_SIZE && Copies(v.source, v.p, dist, len)
  }

  /** A match within the dictionary, or none; then nothing longer than the saved one is asked for. */
  ghost predicate Fits(v: View, dist: nat, len: nat) {
    if dist > 0 then Found(v, dist, len) && dist <= v.dictSize else v.savedLen == 0 || len <= v.savedLen
  }

  /** A step of the parser, for the match (dist, len) that was chosen at its position; distance 0 stands for
      none. With nothing saved, the byte goes out as a literal exactly when there is no match; the match goes
      out when `eager`, or when it has 128 bytes, and else it is saved. With a match saved, that match goes
      out exactly when the new one is no longer; else its first byte goes out as a literal, and the new
      match takes its place, or goes out if it has 128 bytes. */
  ghost predicate Stepped(v: View, dist: nat, len: nat, eager: bool, u: View) {
    if v.savedLen == 0 then
      if dist == 0 then
        Advanced(v, [Literal(At(v))], 1, u) && Kept(v, u)
      else if eager || len >= 128 then
        Advanced(v, [Match(len, dist)], len, u) && Kept(v, u)
      else
        Advanced(v, [], 1, u) && Saves(v, dist, len, u)
    else if len <= v.savedLen then
      Advanced(v, [Match(v.savedLen, v.savedDist)], v.savedLen - 1, u) && u.savedLen == 0
    else if len >= 128 then
      Advanced(v, [Literal(SavedByte(v)), Match(len, dist)], len, u) && u.savedLen == 0
    else
      Advanced(v, [Literal(SavedByte(v))], 1, u) && Saves(v, dist, len, u)
  }

  /** The byte at the parser's position. */
  function At(v: View): Byte { if v.p < |v.source| then v.source[v.p] else 0 }

  /** The first byte of the saved match. */
  function SavedByte(v: View): Byte { if v.savedLit < 256 then v.savedLit else 0 }

  /** The tokens `ts` are recorded, and the parser moves on by `n` bytes. */
  ghost predicate Advanced(v: View, ts: seq<Token>, n: nat, u: View) {
    && u.tokens == v.tokens + ts && u.p == v.p + n && u.look + n == v.look && u.source == v.source && u.f == v.f
    && u.dictSize == if v.dictSize + n <= LZ_DICT_SIZE then v.dictSize + n else LZ_DICT_SIZE
  }

  ghost predicate Kept(v: View, u: View) { u.savedLen == v.savedLen && u.savedDist == v.savedDist && u.savedLit == v.savedLit }

  ghost predicate Saves(v: View, dist: nat, len: nat, u: View) { u.savedLen == len && u.savedDist == dist && u.savedLit == At(v) }

  lemma LiteralStep(v: View, len: nat, eager: bool)
    requires v.savedLen == 0 && v.look >= 1 && v.p < |v.source|
    ensures Stepped(v, 0, len, eager, Moved(v.(tokens := v.tokens + [Literal(v.source[v.p])]), 1))
  {
  }

  lemma TakeStep(v: View, dist: nat, len: nat, eager: bool)
    requires v.savedLen == 0 && dist > 0 && (eager || len >= 128) && len <= v.look
    ensures Stepped(v, dist, len, eager, Moved(v.(tokens := v.tokens + [Match(len, dist)]), len))
  {
  }

  lemma SaveStep(v: View, dist: nat, len: nat, eager: bool)
    requires v.savedLen == 0 && dist > 0 && !eager && len < 128 && v.look >= 1 && v.p < |v.source|
    ensures Stepped(v, dist, len, eager, Moved(v.(savedLen := len, savedDist := dist, savedLit := v.source[v.p]), 1))
  {
    assert v.tokens + [] == v.tokens;
  }

  lemma SavedStep(v: View, dist: nat, len: nat, eager: bool)
    requires v.savedLen > 0 && len <= v.savedLen && v.savedLen - 1 <= v.look
    ensures Stepped(v, dist, len, eager, Moved(v.(tokens := v.tokens + [Match(v.savedLen, v.savedDist)], savedLen := 0), v.savedLen - 1))
  {
  }

  lemma ReplaceStep(v: View, dist: nat, len: nat, eager: bool)
    requires 0 < v.savedLen < len && v.savedLit < 256 && len >= 128 && len <= v.look
    ensures Stepped(v, dist, len, eager, Moved(v.(tokens := v.tokens + [Literal(v.savedLit)] + [Match(len, dist)], savedLen := 0), len))
  {
    assert v.tokens + [Literal(v.savedLit)] + [Match(len, dist)] == v.tokens + [Literal(v.savedLit), Match(len, dist)];
  }

  lemma ResaveStep(v: View, dist: nat, len: nat, eager: bool)
    requires 0 < v.savedLen < len < 128 && v.savedLit < 256 && v.look >= 1
    ensures Stepped(v, dist, len, eager,
                    Moved(v.(tokens := v.tokens + [Literal(v.savedLit)], savedLen := len, savedDist := dist, savedLit := At(v)), 1))
  {
  }

  // ---------- what the blocks rely on

  const WINDOW_KEPT := LZ_DICT_SIZE - FAST_LOOKAHEAD

  /** All matches are worth their bits, and the dictionary reaches back to `base` or far enough. What is recorded
      needs nothing from before `base`. */
  ghost predicate Thrifty(v: View, base: nat) {
    && AllWorth(v.tokens) && (v.savedLen > 0 ==> Worth(Match(v.savedLen, v.savedDist)))
    && base <= v.f <= v.p <= |v.source| && (v.dictSize + base >= v.p || v.dictSize >= WINDOW_KEPT)
    && Parses(Since(v, base))
  }

  /** The same parser on a source that begins at `base`. */
  function Since(v: View, base: nat): View
    requires base <= v.f <= v.p <= |v.source|
  {
    v.(source := v.source[base..], p := v.p - base, f := v.f - base)
  }

  /** A step keeps that, for a match that is worth its bits and within the dictionary. */
  lemma StepThrifty(v: View, dist: nat, len: nat, eager: bool, u: View, base: nat)
    requires Stepped(v, dist, len, eager, u) && Thrifty(v, base) && Worth(Match(len, dist)) && v.look >= 1
    requires Fits(v, dist, len)
    ensures Thrifty(u, base)
  {
    hide Stands, Copies, Parses, Found;
    ParsesWithin(Since(v, base));
    if dist > 0 { FoundSince(v, dist, len, base); }
    StepParses(Since(v, base), dist, len, eager, Since(u, base));
  }

  lemma ParsesWithin(v: View)
    requires Parses(v)
    ensures |v.source| == v.p + v.look && v.dictSize <= v.p
  {
    hide Stands, Copies;
  }

  lemma FoundSince(v: View, dist: nat, len: nat, base: nat)
    requires base <= v.f <= v.p <= |v.source| && Found(v, dist, len) && dist <= v.dictSize <= v.p - base
    ensures Found(Since(v, base), dist, len)
  {
    var source := v.source[base..];
    forall k: nat | v.p - base <= k < v.p - base + len ensures source[k] == source[k - dist] {
      assert v.source[base + k] == v.source[base + k - dist];
    }
  }

  /** A step keeps the invariant of the parser. */
  lemma StepParses(v: View, dist: nat, len: nat, eager: bool, u: View)
    requires Parses(v) && Stepped(v, dist, len, eager, u) && v.look >= 1
    requires Fits(v, dist, len)
    ensures Parses(u)
  {
    hide Stands, Copies, Parses, Found;
    ParsesWithin(v);
    if v.savedLen == 0 {
      StepFresh(v, dist, len, eager, u);
    } else if len <= v.savedLen {
      TakeSaved(v);
      SameParse(Moved(v.(tokens := v.tokens + [Match(v.savedLen, v.savedDist)], savedLen := 0), v.savedLen - 1), u);
    } else {
      StepReplaced(v, dist, len, eager, u);
    }
  }

  lemma StepFresh(v: View, dist: nat, len: nat, eager: bool, u: View)
    requires Parses(v) && Stepped(v, dist, len, eager, u) && v.look >= 1 && v.savedLen == 0 && (dist > 0 ==> Found(v, dist, len))
    ensures Parses(u)
  {
    hide Stands, Copies, Parses, Found;
    ParsesWithin(v);
    if dist == 0 {
      TakeLiteral(v);
      SameParse(Moved(v.(tokens := v.tokens + [Literal(v.source[v.p])]), 1), u);
    } else if eager || len >= 128 {
      TakeMatch(v, dist, len);
      SameParse(Moved(v.(tokens := v.tokens + [Match(len, dist)]), len), u);
    } else {
      SaveMatch(v, dist, len);
      SameParse(Moved(v.(savedLen := len, savedDist := dist, savedLit := v.source[v.p]), 1), u);
    }
  }

  lemma StepReplaced(v: View, dist: nat, len: nat, eager: bool, u: View)
    requires Parses(v) && Stepped(v, dist, len, eager, u) && v.look >= 1 && 0 < v.savedLen < len && Found(v, dist, len)
    ensures Parses(u)
  {
    hide Stands, Copies, Parses, Found;
    ParsesWithin(v);
    PendingFacts(v);
    DropSaved(v);
    var w := v.(tokens := v.tokens + [Literal(v.savedLit)], savedLen := 0);
    FoundOn(v, w, dist, len);
    if len >= 128 {
      TakeMatch(w, dist, len);
      SameParse(Moved(w.(tokens := w.tokens + [Match(len, dist)]), len), u);
    } else {
      SaveMatch(w, dist, len);
      SameParse(Moved(w.(savedLen := len, savedDist := dist, savedLit := w.source[w.p]), 1), u);
    }
  }

  lemma FoundOn(v: View, u: View, dist: nat, len: nat)
    requires Found(v, dist, len) && u.source == v.source && u.p == v.p && u.look == v.look
    ensures Found(u, dist, len)
  {
  }

  /** What is saved matters only when something is. */
  lemma SameParse(v: View, u: View)
    requires Parses(v) && u == v.(savedDist := u.savedDist, savedLit := u.savedLit)
    requires v.savedLen > 0 ==> u == v
    ensures Parses(u)
  {
    hide Stands, Copies;
  }

  /** So do more bytes in the lookahead. */
  lemma FillThrifty(v: View, u: View, more: seq<Byte>, base: nat)
    requires Thrifty(v, base) && u == v.(source := v.source + more, look := v.look + |more|, dictSize := u.dictSize)
    requires u.look <= FAST_LOOKAHEAD && u.dictSize <= v.dictSize && (u.dictSize == v.dictSize || u.dictSize == LZ_DICT_SIZE - u.look)
    ensures Thrifty(u, base)
  {
    hide Stands, Copies, Parses, AllWorth;
    Take(Since(v, base), more);
    var w := Since(v, base).(source := Since(v, base).source + more, look := v.look + |more|);
    Shrink(w, u.dictSize);
    assert (v.source + more)[base..] == v.source[base..] + more;
  }

  /** And so does a flush of the tokens. */
  lemma FlushThrifty(v: View, f: nat, base: nat)
    requires Thrifty(v, base) && f == v.f + TotalLen(v.tokens)
    ensures f <= v.p && Thrifty(v.(f := f, tokens := []), base)
  {
    hide Stands, Copies, Parses;
    Flushed(Since(v, base));
  }

  /** Where the window is forgotten, the source begins anew. */
  lemma ForgetThrifty(v: View, base: nat)
    requires Parses(v) && Thrifty(v, base) && v.look == 0 && v.f == |v.source|
    ensures Thrifty(v.(dictSize := 0), v.f)
  {
    hide Copies;
    Drained(v);
    Flushed(v);
    assert Since(v.(dictSize := 0), v.f).source == [];
  }

  /** A block whose data the dictionary may have lost stands for many bytes. */
  lemma ManyBytes(v: View, base: nat)
    requires Parses(v) && Thrifty(v, base) && v.p - v.f > v.dictSize
    ensures TotalLen(v.tokens) >= WINDOW_KEPT
  {
    hide Copies, AllWorth;
    Flushed(v);
  }

  /** The current byte goes out as a literal. */
  lemma TakeLiteral(v: View)
    requires Parses(v) && v.savedLen == 0 && v.look >= 1
    ensures Parses(Moved(v.(tokens := v.tokens + [Literal(v.source[v.p])]), 1))
  {
    hide Stands;
    AddLiteral(v.source, v.f, v.p, v.tokens);
  }

  /** The match found goes out at once. */
  lemma TakeMatch(v: View, dist: nat, len: nat)
    requires Parses(v) && v.savedLen == 0 && Found(v, dist, len)
    ensures len <= v.look && Parses(Moved(v.(tokens := v.tokens + [Match(len, dist)]), len))
  {
    hide Stands;
    AddMatch(v.source, v.f, v.p, v.tokens, len, dist);
  }

  /** The match found is saved. */
  lemma SaveMatch(v: View, dist: nat, len: nat)
    requires Parses(v) && v.savedLen == 0 && Found(v, dist, len) && len < 128
    ensures Parses(Moved(v.(savedLen := len, savedDist := dist, savedLit := v.source[v.p]), 1))
  {
    hide Stands, Copies;
  }

  /** The saved match goes out: nothing better was found. */
  lemma TakeSaved(v: View)
    requires Parses(v) && v.savedLen > 0
    ensures v.savedLen - 1 <= v.look && ValidToken(Match(v.savedLen, v.savedDist))
    ensures Parses(Moved(v.(tokens := v.tokens + [Match(v.savedLen, v.savedDist)], savedLen := 0), v.savedLen - 1))
  {
    hide Stands;
    AddMatch(v.source, v.f, v.p - 1, v.tokens, v.savedLen, v.savedDist);
  }

  /** The saved match is given up: its first byte goes out as a literal. */
  lemma DropSaved(v: View)
    requires Parses(v) && v.savedLen > 0
    ensures v.savedLit < 256 && Parses(v.(tokens := v.tokens + [Literal(v.savedLit)], savedLen := 0))
  {
    hide Stands, Copies;
    AddLiteral(v.source, v.f, v.p - 1, v.tokens);
  }

  lemma PendingFacts(v: View)
    requires Parses(v) && v.savedLen > 0
    ensures MIN_MATCH_LEN <= v.savedLen < 128 && v.look >= 2 && v.savedLit < 256
  {
  }

  /** Nothing is pending once the lookahead is drained. */
  lemma Drained(v: View)
    requires Parses(v) && v.look == 0
    ensures v.savedLen == 0 && v.p == |v.source| && Stands(v.source, v.f, |v.source|, v.tokens)
  {
  }

  /** After a flush the tokens start anew. */
  lemma Flushed(v: View)
    requires Parses(v)
    ensures v.f + TotalLen(v.tokens) + Unrecorded(v) == v.p
    ensures Parses(v.(f := v.f + TotalLen(v.tokens), tokens := []))
  {
    hide Copies;
    assert Stands(v.source, v.f + TotalLen(v.tokens), v.p - Unrecorded(v), []);
  }

  lemma Shrink(v: View, n: nat)
    requires Parses(v) && n <= v.dictSize
    ensures Parses(v.(dictSize := n))
  {
    hide Stands, Copies;
  }
}
