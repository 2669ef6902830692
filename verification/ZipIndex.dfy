/** The ZIP reader's index of file names: a heap sort of the entries' numbers by lower-cased name, the
    binary search over it, and the scan of the whole directory that the search replaces. */
module ZipIndex {
  import opened Bits

  // ---------- names and their order

  /** `MZ_TOLOWER`. */
  function ToLower(c: Byte): Byte { if 65 <= c <= 90 then c - 65 + 97 else c }

  /** Two bytes fold alike exactly when they are the same, or the same letter: A to Z are 65 to 90, and
      a to z are 97 to 122. */
  lemma FoldAlike(a: Byte, b: Byte)
    ensures ToLower(a) == ToLower(b) <==> a == b || (65 <= a <= 90 && b as int == a as int + 32) || (65 <= b <= 90 && a as int == b as int + 32)
  {
  }

  function Folded(name: seq<Byte>): (r: seq<Byte>)
    ensures |r| == |name| && forall i :: 0 <= i < |r| ==> r[i] == ToLower(name[i])
  {
    seq(|name|, i requires 0 <= i < |name| => ToLower(name[i]))
  }

  /** The lexicographic order of two strings of bytes. */
  predicate Before(x: seq<Byte>, y: seq<Byte>) {
    y != [] && (x == [] || x[0] < y[0] || (x[0] == y[0] && Before(x[1..], y[1..])))
  }

  predicate NotAfter(x: seq<Byte>, y: seq<Byte>) { !Before(y, x) }

  lemma {:induction false} BeforeTotal(x: seq<Byte>, y: seq<Byte>)
    ensures x == y <==> !Before(x, y) && !Before(y, x)
    ensures !(Before(x, y) && Before(y, x))
  {
    if x != [] && y != [] {
      BeforeTotal(x[1..], y[1..]);
      if x[0] == y[0] && x[1..] == y[1..] {
        assert x == [x[0]] + x[1..] && y == [y[0]] + y[1..];
      }
    }
  }

  lemma {:induction false} BeforeTrans(x: seq<Byte>, y: seq<Byte>, z: seq<Byte>)
    ensures Before(x, y) && Before(y, z) ==> Before(x, z)
  {
    if x != [] && y != [] && z != [] {
      BeforeTrans(x[1..], y[1..], z[1..]);
    }
  }

  lemma NotAfterTrans(x: seq<Byte>, y: seq<Byte>, z: seq<Byte>)
    requires NotAfter(x, y) && NotAfter(y, z)
    ensures NotAfter(x, z)
  {
    BeforeTotal(x, y);
    BeforeTotal(y, z);
    BeforeTrans(z, y, x);
    BeforeTrans(z, x, y);
    BeforeTrans(y, z, x);
    BeforeTotal(x, z);
  }

  /** The first byte that differs decides, or else the length. */
  lemma {:induction false} BeforeAt(x: seq<Byte>, y: seq<Byte>, i: nat)
    requires i <= |x| && i <= |y| && x[..i] == y[..i]
    ensures i < |x| && i < |y| && x[i] != y[i] ==> (Before(x, y) <==> x[i] < y[i]) && (Before(y, x) <==> y[i] < x[i]) && x != y
    ensures i == |x| || i == |y| ==> (Before(x, y) <==> |x| < |y|) && (Before(y, x) <==> |y| < |x|) && (x == y <==> |x| == |y|)
    decreases i
  {
    if i > 0 {
      assert x[0] == x[..i][0] == y[..i][0] == y[0];
      assert x[1..][..i - 1] == x[..i][1..] == y[..i][1..] == y[1..][..i - 1];
      BeforeAt(x[1..], y[1..], i - 1);
      assert x == [x[0]] + x[1..] && y == [y[0]] + y[1..];
    } else {
      if |x| == 0 && |y| == 0 { assert x == y; }
    }
  }

  // ---------- heaps of keys

  type Keys = seq<seq<Byte>>

  /** The folded names that an index lists. */
  ghost function KeysOf(names: seq<seq<Byte>>, a: seq<nat>): (r: Keys)
    requires forall k :: 0 <= k < |a| ==> a[k] < |names|
    ensures |r| == |a| && forall k :: 0 <= k < |r| ==> r[k] == Folded(names[a[k]])
  {
    seq(|a|, k requires 0 <= k < |a| => Folded(names[a[k]]))
  }

  /** The children of node `i`, 2i + 1 and 2i + 2, come no later. */
  ghost predicate HeapAt(ks: Keys, i: nat, end: nat)
    requires i < end <= |ks|
  {
    && (2 * i + 1 < end ==> NotAfter(ks[2 * i + 1], ks[i]))
    && (2 * i + 2 < end ==> NotAfter(ks[2 * i + 2], ks[i]))
  }

  ghost predicate HeapFrom(ks: Keys, lo: nat, end: nat) {
    end <= |ks| && forall i :: lo <= i < end ==> HeapAt(ks, i, end)
  }

  /** A heap but for the node that is being sifted down; its children come no later than its parent. */
  ghost predicate Sifting(ks: Keys, lo: nat, end: nat, root: nat) {
    && lo <= root < end <= |ks| && (forall i :: lo <= i < end && i != root ==> HeapAt(ks, i, end))
    && (root > 0 && (root - 1) / 2 >= lo ==> Under(ks, root, (root - 1) / 2, end))
  }

  ghost predicate Under(ks: Keys, root: nat, p: nat, end: nat)
    requires end <= |ks| && p < |ks|
  {
    (2 * root + 1 < end ==> NotAfter(ks[2 * root + 1], ks[p])) && (2 * root + 2 < end ==> NotAfter(ks[2 * root + 2], ks[p]))
  }

  function Swapped<T>(s: seq<T>, i: nat, j: nat): seq<T>
    requires i < |s| && j < |s|
  {
    s[i := s[j]][j := s[i]]
  }

  lemma SiftStart(ks: Keys, lo: nat, end: nat)
    requires lo < end <= |ks| && HeapFrom(ks, lo + 1, end)
    ensures Sifting(ks, lo, end, lo)
  {
  }

  lemma SiftStop(ks: Keys, lo: nat, end: nat, root: nat)
    requires Sifting(ks, lo, end, root) && HeapAt(ks, root, end)
    ensures HeapFrom(ks, lo, end)
  {
  }

  ghost predicate LargerChild(ks: Keys, root: nat, child: nat, end: nat) {
    && (child == 2 * root + 1 || child == 2 * root + 2) && root < child < end <= |ks|
    && (2 * root + 1 < end ==> NotAfter(ks[2 * root + 1], ks[child]))
    && (2 * root + 2 < end ==> NotAfter(ks[2 * root + 2], ks[child]))
  }

  /** The larger child goes up. */
  lemma SiftDown(ks: Keys, lo: nat, end: nat, root: nat, child: nat)
    requires Sifting(ks, lo, end, root) && LargerChild(ks, root, child, end) && Before(ks[root], ks[child])
    ensures Sifting(Swapped(ks, root, child), lo, end, child)
  {
    hide Before, NotAfter;
    var ks' := Swapped(ks, root, child);
    assert NotAfter(ks[root], ks[child]) by { BeforeNotAfter(ks[root], ks[child]); }
    assert (child - 1) / 2 == root;
    assert HeapAt(ks, child, end);
    forall i | lo <= i < end && i != child ensures HeapAt(ks', i, end) {
      if i != root {
        assert HeapAt(ks, i, end);
        if 2 * i + 1 == root || 2 * i + 2 == root {
          assert (root - 1) / 2 == i && Under(ks, root, i, end);
        }
      }
    }
  }

  lemma BeforeNotAfter(x: seq<Byte>, y: seq<Byte>)
    requires Before(x, y)
    ensures NotAfter(x, y)
  {
    BeforeTotal(x, y);
  }

  lemma {:induction false} HeapTop(ks: Keys, end: nat, i: nat)
    requires HeapFrom(ks, 0, end) && i < end
    ensures NotAfter(ks[i], ks[0])
  {
    hide Before, NotAfter;
    if i == 0 {
      Same(ks[0]);
    } else {
      var p := (i - 1) / 2;
      assert HeapAt(ks, p, end) && (i == 2 * p + 1 || i == 2 * p + 2);
      HeapTop(ks, end, p);
      NotAfterTrans(ks[i], ks[p], ks[0]);
    }
  }

  lemma Same(x: seq<Byte>)
    ensures NotAfter(x, x)
  {
    BeforeTotal(x, x);
  }

  /** From `end` on everything is in its place. */
  ghost predicate SortedFrom(ks: Keys, end: nat) {
    end <= |ks| && forall i, j :: 0 <= i < j < |ks| && end <= j ==> NotAfter(ks[i], ks[j])
  }

  const MAX_NAME := 65535

  /** The central directory's file names, and the index of `m_sorted_central_dir_offsets`. */
  class Directory {
    const names: seq<seq<Byte>>
    const indices: array<nat>

    ghost predicate Valid() {
      |names| < MAX_WORD32 && indices.Length == |names| && forall i :: 0 <= i < |names| ==> |names[i]| <= MAX_NAME
    }

    /** The index names every entry. */
    ghost predicate Indexed()
      reads indices
    {
      Valid() && forall k :: 0 <= k < indices.Length ==> indices[k] < |names|
    }

    /** The k-th entry of the index, folded. */
    ghost function Key(k: nat): seq<Byte>
      requires Indexed() && k < indices.Length
      reads indices
    {
      Folded(names[indices[k]])
    }

    constructor (names: seq<seq<Byte>>)
      requires |names| < MAX_WORD32 && forall i :: 0 <= i < |names| ==> |names[i]| <= MAX_NAME
      ensures Indexed() && fresh(indices) && this.names == names && forall k :: 0 <= k < indices.Length ==> indices[k] == k
    {
      this.names := names;
      indices := new nat[|names|](k => k);
    }

    /** `mz_zip_reader_filename_less`. */
    method FilenameLess(l: nat, r: nat) returns (less: bool)
      requires Valid() && l < |names| && r < |names|
      ensures less <==> Before(Folded(names[l]), Folded(names[r]))
    {
      hide Before;
      var x, y := names[l], names[r];
      var i := CommonPrefix(x, y);
      BeforeAt(Folded(x), Folded(y), i);
      less := if i == |x| || i == |y| then |x| < |y| else ToLower(x[i]) < ToLower(y[i]);
    }

    /** `mz_zip_filename_compare`, whose result is an unsigned difference read as signed 32 bits. */
    method FilenameCompare(l: nat, name: seq<Byte>, len: nat) returns (comp: int)
      requires Valid() && l < |names| && len <= |name| && len < MAX_WORD32
      ensures comp == 0 <==> Folded(names[l]) == Folded(name[..len])
      ensures len <= MAX_NAME ==> (comp < 0 <==> Before(Folded(names[l]), Folded(name[..len])))
    {
      hide Before;
      var x, y := names[l], name[..len];
      var i := CommonPrefix(x, y);
      BeforeAt(Folded(x), Folded(y), i);
      comp := if i == |x| || i == |y| then Signed((|x| - len) % MAX_WORD32) else (ToLower(x[i]) as int) - ToLower(y[i]);
    }

    ghost function AllKeys(): (r: Keys)
      requires Indexed()
      reads indices
      ensures |r| == indices.Length && forall k :: 0 <= k < |r| ==> r[k] == Key(k)
    {
      KeysOf(names, indices[..])
    }

    /** `MZ_SWAP_UINT32`. */
    method Swap(i: nat, j: nat)
      requires Indexed() && i < indices.Length && j < indices.Length
      modifies indices
      ensures Indexed() && indices[..] == Swapped(old(indices[..]), i, j) && AllKeys() == Swapped(old(AllKeys()), i, j)
    {
      indices[i], indices[j] := indices[j], indices[i];
    }

    method ChooseChild(root: nat, end: nat) returns (child: nat)
      requires Indexed() && 2 * root + 1 < end <= indices.Length
      ensures LargerChild(AllKeys(), root, child, end)
    {
      hide Before, Folded;
      child := 2 * root + 1;
      ghost var ks := AllKeys();
      Same(ks[child]);
      if child + 1 < end {
        var less := FilenameLess(indices[child], indices[child + 1]);
        BeforeTotal(ks[child], ks[child + 1]);
        Same(ks[child + 1]);
        child := child + if less then 1 else 0;
      }
    }

    /** The loop that lets the entry at `start` sink into the heap below it. */
    method Sift(start: nat, end: nat)
      requires Indexed() && start < end <= indices.Length && HeapFrom(AllKeys(), start + 1, end)
      modifies indices
      ensures Indexed() && HeapFrom(AllKeys(), start, end) && Rearranged(old(indices[..]), indices[..], end)
    {
      hide Before, NotAfter, HeapFrom, Folded, HeapAt, Under, Rearranged;
      NothingMoved(indices[..], end);
      SiftStart(AllKeys(), start, end);
      var root := start;
      while true
        invariant Indexed() && Sifting(AllKeys(), start, end, root) && Rearranged(old(indices[..]), indices[..], end) && root < end
        decreases end - root
      {
        if 2 * root + 1 >= end { break; }
        var child := ChooseChild(root, end);
        var sink := FilenameLess(indices[root], indices[child]);
        if !sink {
          Stays(AllKeys(), root, child, end);
          break;
        }
        SiftDown(AllKeys(), start, end, root, child);
        ghost var was := indices[..];
        Swap(root, child);
        RearrangedSwap(old(indices[..]), was, indices[..], end, root, child);
        root := child;
      }
      if 2 * root + 1 >= end { Leaf(AllKeys(), root, end); }
      SiftStop(AllKeys(), start, end, root);
    }

    /** `mz_zip_reader_sort_central_dir_offsets_by_filename`. */
    method Sort()
      requires Indexed()
      modifies indices
      ensures Indexed() && SortedFrom(AllKeys(), 0) && multiset(indices[..]) == multiset(old(indices[..]))
    {
      hide Before, NotAfter, HeapFrom, Folded, HeapAt, SortedFrom, Rearranged;
      if indices.Length <= 1 {
        OneSorted(AllKeys());
        return;
      }
      MakeHeap();
      EmptyHeap();
    }

    /** The nodes that have children sink one after the other. */
    method MakeHeap()
      requires Indexed() && indices.Length >= 2
      modifies indices
      ensures Indexed() && HeapFrom(AllKeys(), 0, indices.Length) && multiset(indices[..]) == multiset(old(indices[..]))
    {
      hide Before, NotAfter, HeapFrom, Folded, HeapAt, SortedFrom, Rearranged;
      var size := indices.Length;
      var start: nat := (size - 2) / 2;
      NoParents(AllKeys(), start + 1, size);
      while true
        invariant Indexed() && start < size && HeapFrom(AllKeys(), start + 1, size) && multiset(indices[..]) == multiset(old(indices[..]))
        decreases start
      {
        ghost var was := indices[..];
        Sift(start, size);
        SameElements(was, indices[..], size);
        if start == 0 { return; }
        start := start - 1;
      }
    }

    /** The top of the heap goes to its end, and the entry from there sinks. */
    method EmptyHeap()
      requires Indexed() && indices.Length >= 2 && HeapFrom(AllKeys(), 0, indices.Length)
      modifies indices
      ensures Indexed() && SortedFrom(AllKeys(), 0) && multiset(indices[..]) == multiset(old(indices[..]))
    {
      hide Before, NotAfter, HeapFrom, Folded, HeapAt, SortedFrom, Rearranged, Swapped;
      var end: nat := indices.Length - 1;
      NothingSorted(AllKeys());
      while end > 0
        invariant Indexed() && end < indices.Length && HeapFrom(AllKeys(), 0, end + 1) && SortedFrom(AllKeys(), end + 1)
        invariant multiset(indices[..]) == multiset(old(indices[..]))
      {
        ghost var before := indices[..];
        TopGoes(AllKeys(), end);
        Swap(end, 0);
        SwapSame(before, end, 0);
        ghost var was := indices[..];
        Sift(0, end);
        SameElements(was, indices[..], end);
        StillSorted(names, was, indices[..], end);
        end := end - 1;
      }
      AllSorted(AllKeys());
    }

    /** `mz_zip_locate_file_binary_search`, with the name's length in 32 bits. */
    method BinarySearch(name: seq<Byte>) returns (found: bool, index: nat)
      requires Indexed() && SortedFrom(AllKeys(), 0)
      ensures found ==> index < |names| && Folded(names[index]) == Folded(name[..Wrap32(|name|)])
      ensures found <==> exists k :: 0 <= k < indices.Length && Key(k) == Folded(name[..Wrap32(|name|)])
    {
      hide Before, Folded;
      var len := Wrap32(|name|);
      WrapPart(|name|);
      ghost var key, ks := Folded(name[..len]), AllKeys();
      found, index := false, 0;
      if |names| == 0 { return; }
      var l, h := 0, |names| - 1;
      while l <= h
        invariant 0 <= l <= h + 1 <= |names| && AllKeys() == ks
        invariant forall k :: 0 <= k < l || h < k < |names| ==> ks[k] != key
        decreases h - l
      {
        var m := l + (h - l) / 2;
        var file := indices[m];
        var comp := FilenameCompare(file, name, len);
        if comp == 0 {
          assert Key(m) == key;
          return true, file;
        }
        if comp < 0 {
          Below(ks, names, file, m, key, len, comp);
          l := m + 1;
        } else {
          Above(ks, names, file, m, key, len, comp);
          h := m - 1;
        }
      }
    }

    /** The scan of `mz_zip_reader_locate_file_v2`, without flags and without a comment. */
    method LinearScan(name: seq<Byte>) returns (found: bool, index: nat)
      requires Valid()
      ensures found <==> |name| <= MAX_NAME && exists i :: 0 <= i < |names| && Folded(names[i]) == Folded(name)
      ensures found ==> index < |names| && Folded(names[index]) == Folded(name) && forall i :: 0 <= i < index ==> Folded(names[i]) != Folded(name)
    {
      hide Folded;
      found, index := false, 0;
      if |name| > MAX_NAME { return; }
      var file := 0;
      while file < |names|
        invariant 0 <= file <= |names| && forall i :: 0 <= i < file ==> Folded(names[i]) != Folded(name)
      {
        if |names[file]| >= |name| {
          var same := |names[file]| == |name|;
          if same {
            same := StringEqual(name, names[file]);
          }
          if same {
            assert Folded(names[file]) == Folded(name);
            return true, file;
          }
        }
        assert |Folded(names[file])| == |names[file]| && |Folded(name)| == |name|;
        file := file + 1;
      }
    }

    /** The index lists every entry exactly once. */
    ghost predicate Complete()
      reads indices
    {
      Indexed() && multiset(indices[..]) == multiset(seq(|names|, i => i))
    }

    /** Sorting the reader's index and searching it finds a name exactly when some entry's folded name is
        the name's, cut to the length that 32 bits give. */
    method IndexAndFind(name: seq<Byte>) returns (found: bool, index: nat)
      requires Indexed() && forall k :: 0 <= k < indices.Length ==> indices[k] == k
      modifies indices
      ensures found <==> Named(names, Folded(name[..Wrap32(|name|)]))
      ensures found ==> index < |names| && Folded(names[index]) == Folded(name[..Wrap32(|name|)])
      ensures Complete() && SortedFrom(AllKeys(), 0)
    {
      hide Before, Folded, SortedFrom;
      assert indices[..] == seq(|names|, i => i);
      Sort();
      found, index := BinarySearch(name);
      EveryEntry(names, indices[..], Folded(name[..Wrap32(|name|)]));
      assert forall k :: 0 <= k < indices.Length ==> Key(k) == Folded(names[indices[k]]);
    }
  }

  /** `mz_zip_string_equal` without flags. */
  method StringEqual(x: seq<Byte>, y: seq<Byte>) returns (same: bool)
    requires |x| == |y|
    ensures same <==> Folded(x) == Folded(y)
  {
    var i := 0;
    while i < |x|
      invariant 0 <= i <= |x| && forall j :: 0 <= j < i ==> ToLower(x[j]) == ToLower(y[j])
    {
      if ToLower(x[i]) != ToLower(y[i]) {
        assert Folded(x)[i] != Folded(y)[i];
        return false;
      }
      i := i + 1;
    }
    same := true;
  }

  ghost predicate Named(names: seq<seq<Byte>>, key: seq<Byte>) {
    exists i :: 0 <= i < |names| && Folded(names[i]) == key
  }

  /** What the index lists is what there is. */
  lemma EveryEntry(names: seq<seq<Byte>>, a: seq<nat>, key: seq<Byte>)
    requires multiset(a) == multiset(seq(|names|, i => i)) && forall k :: 0 <= k < |a| ==> a[k] < |names|
    ensures Named(names, key) <==> exists k :: 0 <= k < |a| && Folded(names[a[k]]) == key
  {
    hide Folded;
    if Named(names, key) {
      var i: nat :| i < |names| && Folded(names[i]) == key;
      var all: seq<nat> := seq(|names|, j => j);
      assert all[i] == i && i in multiset(all);
      assert i in multiset(a) && i in a;
      var k :| 0 <= k < |a| && a[k] == i;
      assert Folded(names[a[k]]) == key;
    }
  }

  /** The search and the scan agree on whether a name is there, unless the name is too long for the scan
      and, cut to 32 bits of length, is that of an entry: a name of 2^32 bytes is taken for the empty name. */
  lemma SearchAgrees(names: seq<seq<Byte>>, name: seq<Byte>)
    requires forall i :: 0 <= i < |names| ==> |names[i]| <= MAX_NAME
    ensures var search, scan := Named(names, Folded(name[..Wrap32(|name|)])), |name| <= MAX_NAME && Named(names, Folded(name));
            search == scan <==> |name| <= MAX_NAME || !Named(names, Folded(name[..Wrap32(|name|)]))
    ensures |name| < MAX_WORD32 && |name| > MAX_NAME ==> !Named(names, Folded(name[..Wrap32(|name|)]))
  {
    hide Folded;
    if |name| < MAX_WORD32 {
      SmallLength(|name|);
      assert name[..|name|] == name;
      assert |Folded(name)| == |name|;
    }
  }

  /** Such an input: a name of 2^32 bytes, in a directory whose one entry has an empty name. The search finds
      the entry, and the scan does not. */
  lemma SearchFindsTooMuch(name: seq<Byte>)
    requires |name| == MAX_WORD32
    ensures Named([[]], Folded(name[..Wrap32(|name|)])) && !Named([[]], Folded(name))
  {
    var names: seq<seq<Byte>> := [[]];
    assert Wrap32(|name|) == 0 && Folded(name[..0]) == [] == Folded(names[0]);
    assert |Folded(name)| == |name|;
  }

  lemma SmallLength(n: nat)
    requires n < MAX_WORD32
    ensures Wrap32(n) == n
  {
  }

  function Signed(v: nat): int { if v < 0x8000_0000 then v else v - MAX_WORD32 }

  /** The loop over the bytes up to the shorter length. */
  method CommonPrefix(x: seq<Byte>, y: seq<Byte>) returns (i: nat)
    ensures i <= |x| && i <= |y| && Folded(x)[..i] == Folded(y)[..i]
    ensures i == |x| || i == |y| || ToLower(x[i]) != ToLower(y[i])
  {
    i := 0;
    while i < |x| && i < |y|
      invariant 0 <= i <= |x| && i <= |y| && Folded(x)[..i] == Folded(y)[..i]
    {
      if ToLower(x[i]) != ToLower(y[i]) { return; }
      i := i + 1;
    }
  }

  /** The first `end` elements are permuted, the others stay. */
  ghost predicate Rearranged(a: seq<nat>, b: seq<nat>, end: nat) {
    && end <= |a| == |b| && multiset(a) == multiset(b) && a[end..] == b[end..]
    && forall i :: 0 <= i < end ==> b[i] in a[..end]
  }

  lemma SameElements(a: seq<nat>, b: seq<nat>, end: nat)
    requires Rearranged(a, b, end)
    ensures multiset(a) == multiset(b)
  {
  }

  lemma SwapSame(a: seq<nat>, i: nat, j: nat)
    requires i < |a| && j < |a|
    ensures multiset(Swapped(a, i, j)) == multiset(a)
  {
  }

  lemma NothingMoved(a: seq<nat>, end: nat)
    requires end <= |a|
    ensures Rearranged(a, a, end)
  {
  }

  lemma RearrangedSwap(a: seq<nat>, b: seq<nat>, c: seq<nat>, end: nat, i: nat, j: nat)
    requires Rearranged(a, b, end) && i < end && j < end && c == Swapped(b, i, j)
    ensures Rearranged(a, c, end)
  {
  }

  lemma Stays(ks: Keys, root: nat, child: nat, end: nat)
    requires LargerChild(ks, root, child, end) && !Before(ks[root], ks[child])
    ensures HeapAt(ks, root, end)
  {
    hide Before;
    if 2 * root + 1 < end { NotAfterTrans(ks[2 * root + 1], ks[child], ks[root]); }
    if 2 * root + 2 < end { NotAfterTrans(ks[2 * root + 2], ks[child], ks[root]); }
  }

  lemma Leaf(ks: Keys, root: nat, end: nat)
    requires root < end <= |ks| && 2 * root + 1 >= end
    ensures HeapAt(ks, root, end)
  {
  }

  lemma OneSorted(ks: Keys)
    requires |ks| <= 1
    ensures SortedFrom(ks, 0)
  {
  }

  lemma NoParents(ks: Keys, start: nat, end: nat)
    requires start == end / 2 && end <= |ks|
    ensures HeapFrom(ks, start, end)
  {
  }

  lemma NothingSorted(ks: Keys)
    ensures SortedFrom(ks, |ks|)
  {
  }

  lemma AllSorted(ks: Keys)
    requires SortedFrom(ks, 1)
    ensures SortedFrom(ks, 0)
  {
  }

  /** The top of the heap goes to the end of the heap. */
  lemma TopGoes(ks: Keys, end: nat)
    requires 0 < end < |ks| && HeapFrom(ks, 0, end + 1) && SortedFrom(ks, end + 1)
    ensures SortedFrom(Swapped(ks, end, 0), end) && HeapFrom(Swapped(ks, end, 0), 1, end)
  {
    hide Before, NotAfter;
    var ks' := Swapped(ks, end, 0);
    forall i ensures 0 <= i <= end ==> NotAfter(ks[i], ks[0]) {
      if 0 <= i <= end { HeapTop(ks, end + 1, i); }
    }
    forall i | 1 <= i < end ensures HeapAt(ks', i, end) {
      assert HeapAt(ks, i, end + 1);
    }
  }

  /** Rearranging what lies before a sorted end leaves it sorted. */
  lemma StillSorted(names: seq<seq<Byte>>, a: seq<nat>, b: seq<nat>, end: nat)
    requires Rearranged(a, b, end) && (forall k :: 0 <= k < |a| ==> a[k] < |names|) && forall k :: 0 <= k < |b| ==> b[k] < |names|
    requires SortedFrom(KeysOf(names, a), end)
    ensures SortedFrom(KeysOf(names, b), end)
  {
    hide Before, NotAfter, Folded;
    var x, y := KeysOf(names, a), KeysOf(names, b);
    forall i, j | 0 <= i < j < |y| && end <= j ensures NotAfter(y[i], y[j]) {
      assert b[j] == b[end..][j - end] == a[end..][j - end] == a[j];
      if i < end {
        var k :| 0 <= k < end && a[..end][k] == b[i];
        assert y[i] == x[k];
      } else {
        assert b[i] == b[end..][i - end] == a[end..][i - end] == a[i];
      }
    }
  }

  lemma WrapPart(n: nat)
    ensures Wrap32(n) <= n
  {
  }

  /** An entry before the key: so are those before it. A key longer than any name is nowhere. */
  lemma Below(ks: Keys, names: seq<seq<Byte>>, file: nat, m: nat, key: seq<Byte>, len: nat, comp: int)
    requires SortedFrom(ks, 0) && m < |ks| && file < |names| && ks[m] == Folded(names[file]) && |key| == len
    requires comp < 0 && (len <= MAX_NAME ==> Before(ks[m], key)) && forall k :: 0 <= k < |ks| ==> |ks[k]| <= MAX_NAME
    ensures forall k :: 0 <= k <= m ==> ks[k] != key
  {
    hide Before;
    forall k | 0 <= k <= m ensures ks[k] != key {
      if k < m { assert NotAfter(ks[k], ks[m]); }
      BeforeTotal(ks[m], key);
    }
  }

  lemma Above(ks: Keys, names: seq<seq<Byte>>, file: nat, m: nat, key: seq<Byte>, len: nat, comp: int)
    requires SortedFrom(ks, 0) && m < |ks| && file < |names| && ks[m] == Folded(names[file]) && |key| == len
    requires comp > 0 && ks[m] != key && (len <= MAX_NAME ==> !Before(ks[m], key)) && forall k :: 0 <= k < |ks| ==> |ks[k]| <= MAX_NAME
    ensures forall k :: m <= k < |ks| ==> ks[k] != key
  {
    hide Before;
    forall k | m <= k < |ks| ensures ks[k] != key {
      if k > m { assert NotAfter(ks[m], ks[k]); }
      BeforeTotal(ks[m], key);
    }
  }
}
