/** The size tree of `src/types.rs`: a byte count, the entries of the audit
    trail, and the `FileTree` that a walk fills by `push` and that `filtered`
    and `sort` turn into the list to display. */
module Types {
  import opened Wrappers

  /** A byte count. The source's `FileSize` is a `Copy` wrapper around a
      `u64`, so `add(&mut self)` on it is modelled as a value update. */
  datatype FileSize = FileSize(size: u64)
  {
    function Get(): (r: u64)
      ensures r == size
    {
      size
    }

    /** In-place accumulation; the source's `+=` overflows past `u64`. */
    function Add(other: FileSize): (r: FileSize)
      requires size + other.size <= U64_MAX
      ensures r.Get() == Get() + other.Get()
    {
      FileSize(size + other.size)
    }
  }

  function NewFileSize(i: u64): (r: FileSize)
    ensures r.Get() == i
  {
    FileSize(i)
  }

  /** The derived `Ord` of `FileSize`: the order of its one field. */
  predicate SizeLess(a: FileSize, b: FileSize)
  {
    a.size < b.size
  }

  lemma NewGetRoundTrip(i: u64)
    ensures NewFileSize(i).Get() == i
    ensures forall j: u64 :: SizeLess(NewFileSize(i), NewFileSize(j)) <==> i < j
  {
  }

  /** One line of the audit trail: a file, or a directory with the total of
      its subtree, and the depth at which it was recorded. */
  datatype NamePair = NamePair(name: string, bytes: FileSize, depth: nat, isDir: bool)

  /** The predicate `filtered` and `sort` apply to every entry:
      `(if dirs_only { is_dir } else { true }) && Some(bytes) > min_bytes
       && (max_depth.is_none() || Some(depth) <= max_depth)`. */
  predicate Passes(e: NamePair, minBytes: Option<u64>, dirsOnly: bool, maxDepth: Option<nat>)
  {
    (if dirsOnly then e.isDir else true)
    && OptionLess(minBytes, Some(e.bytes.size))
    && (maxDepth.None? || !OptionLess(maxDepth, Some(e.depth)))
  }

  /** The Option comparisons of `Passes` mean: a directory when only
      directories are wanted, strictly above the threshold if there is one,
      and no deeper than the depth limit if there is one. */
  lemma PassesMeaning(e: NamePair, minBytes: Option<u64>, dirsOnly: bool, maxDepth: Option<nat>)
    ensures Passes(e, minBytes, dirsOnly, maxDepth) <==>
      (!dirsOnly || e.isDir)
      && (minBytes.None? || e.bytes.size > minBytes.value)
      && (maxDepth.None? || e.depth <= maxDepth.value)
  {
  }

  /** The grand total a transformed tree keeps: the old total when it is
      strictly above the threshold (always, without one), and 0 otherwise. */
  function KeptTotal(total: FileSize, minBytes: Option<u64>): (r: FileSize)
    ensures minBytes.None? ==> r == total
    ensures minBytes.Some? ==> r == (if total.size > minBytes.value then total else FileSize(0))
  {
    if OptionLess(minBytes, Some(total.size)) then total else FileSize(0)
  }

  /** The entries that pass, in their original order (`into_iter().filter`). */
  function Keep(s: seq<NamePair>, minBytes: Option<u64>, dirsOnly: bool, maxDepth: Option<nat>): seq<NamePair>
  {
    if s == [] then []
    else (if Passes(s[0], minBytes, dirsOnly, maxDepth) then [s[0]] else [])
         + Keep(s[1..], minBytes, dirsOnly, maxDepth)
  }

  /** The entries of size `k`, in order: two sorts are equally stable when
      they agree on every such class. */
  function OfSize(s: seq<NamePair>, k: int): seq<NamePair>
  {
    if s == [] then []
    else (if s[0].bytes.size == k then [s[0]] else []) + OfSize(s[1..], k)
  }

  /** `Iterator::take(n)`. */
  function Take(s: seq<NamePair>, n: nat): seq<NamePair>
  {
    if n < |s| then s[..n] else s
  }

  /** The comparison `sort_by` uses: ascending by size, or descending when the
      comparator's arguments are swapped. */
  predicate InOrder(a: NamePair, b: NamePair, descending: bool)
  {
    if descending then a.bytes.size >= b.bytes.size else a.bytes.size <= b.bytes.size
  }

  ghost predicate Sorted(s: seq<NamePair>, descending: bool)
  {
    forall i, j :: 0 <= i < j < |s| ==> InOrder(s[i], s[j], descending)
  }

  /** Inserts `x` after every entry of `t` that may precede it, so entries of
      equal size keep their relative order. */
  function Insert(x: NamePair, t: seq<NamePair>, descending: bool): seq<NamePair>
  {
    if t == [] || InOrder(t[|t| - 1], x, descending) then t + [x]
    else Insert(x, t[..|t| - 1], descending) + [t[|t| - 1]]
  }

  /** `slice::sort_by` with `sort_by_size`: a stable sort by size. */
  function SortBySize(s: seq<NamePair>, descending: bool): seq<NamePair>
  {
    if s == [] then [] else Insert(s[|s| - 1], SortBySize(s[..|s| - 1], descending), descending)
  }

  /** What `sort(Some(n), ..)` keeps: the first `n` passing entries of the
      descending sort. */
  function TopN(files: seq<NamePair>, n: nat, minBytes: Option<u64>, dirsOnly: bool, maxDepth: Option<nat>): seq<NamePair>
  {
    Take(Keep(SortBySize(files, true), minBytes, dirsOnly, maxDepth), n)
  }

  /** What `sort(None, ..)` keeps: every passing entry of the ascending sort. */
  function Ascending(files: seq<NamePair>, minBytes: Option<u64>, dirsOnly: bool, maxDepth: Option<nat>): seq<NamePair>
  {
    Keep(SortBySize(files, false), minBytes, dirsOnly, maxDepth)
  }

  /** The running total and the flat audit trail of one walk. */
  class FileTree {
    var fileSize: FileSize
    var files: seq<NamePair>

    /** `FileTree::new`. */
    constructor ()
      ensures fileSize == FileSize(0) && files == []
    {
      fileSize := FileSize(0);
      files := [];
    }

    /** The struct literal `FileTree { file_size, files }`. */
    constructor FromParts(size: FileSize, entries: seq<NamePair>)
      ensures fileSize == size && files == entries
    {
      fileSize := size;
      files := entries;
    }

    /** `FileTree::add`: only the total changes. */
    method Add(size: FileSize)
      requires fileSize.size + size.size <= U64_MAX
      modifies this
      ensures fileSize.Get() == old(fileSize.Get()) + size.Get()
      ensures files == old(files)
    {
      fileSize := fileSize.Add(size);
    }

    /** `FileTree::push`: add `size` to the total, move the subtree's entries
        to the end of this tree's, then record the new entry. */
    method Push(path: string, size: FileSize, subtree: FileTree?, depth: nat, isDir: bool)
      requires subtree != this
      requires fileSize.size + size.size <= U64_MAX
      modifies this, subtree
      ensures fileSize.Get() == old(fileSize.Get()) + size.Get()
      ensures files == old(files) + (if subtree == null then [] else old(subtree.files))
                       + [NamePair(path, size, depth, isDir)]
      ensures subtree != null ==> subtree.files == [] && subtree.fileSize == old(subtree.fileSize)
    {
      fileSize := fileSize.Add(size);
      if subtree != null {
        files := files + subtree.files;
        subtree.files := [];
      }
      files := files + [NamePair(path, size, depth, isDir)];
    }

    /** `FileTree::sort`: sorts the entries in place (descending when a count
        is given, ascending otherwise), then keeps the passing ones, at most
        `n` of them when a count `n` is given. */
    method Sort(maybeNum: Option<nat>, minBytes: Option<u64>, dirsOnly: bool, maxDepth: Option<nat>)
      returns (t: FileTree)
      modifies this
      ensures fresh(t)
      ensures t.fileSize == KeptTotal(old(fileSize), minBytes)
      ensures maybeNum.Some? ==> t.files == TopN(old(files), maybeNum.value, minBytes, dirsOnly, maxDepth)
      ensures maybeNum.None? ==> t.files == Ascending(old(files), minBytes, dirsOnly, maxDepth)
    {
      var selfSize := KeptTotal(fileSize, minBytes);
      if maybeNum.Some? {
        files := SortBySize(files, true);
        t := new FileTree.FromParts(selfSize, Take(Keep(files, minBytes, dirsOnly, maxDepth), maybeNum.value));
      } else {
        files := SortBySize(files, false);
        t := new FileTree.FromParts(selfSize, Keep(files, minBytes, dirsOnly, maxDepth));
      }
    }

    /** `FileTree::filtered`: keeps the passing entries in their order. */
    method Filtered(minBytes: Option<u64>, dirsOnly: bool, maxDepth: Option<nat>) returns (t: FileTree)
      modifies this
      ensures fresh(t)
      ensures t.fileSize == KeptTotal(old(fileSize), minBytes)
      ensures t.files == Keep(old(files), minBytes, dirsOnly, maxDepth)
    {
      var selfSize := KeptTotal(fileSize, minBytes);
      files := Keep(files, minBytes, dirsOnly, maxDepth);
      t := new FileTree.FromParts(selfSize, files);
    }
  }

  // ---------------------------------------------------------------------
  // Filtering

  /** `filtered` keeps exactly the passing entries: each as often as it
      occurs in the input, and no other. */
  lemma {:induction false} KeepCount(s: seq<NamePair>, minBytes: Option<u64>, dirsOnly: bool, maxDepth: Option<nat>, e: NamePair)
    ensures multiset(Keep(s, minBytes, dirsOnly, maxDepth))[e]
            == if Passes(e, minBytes, dirsOnly, maxDepth) then multiset(s)[e] else 0
  {
    if s != [] {
      KeepCount(s[1..], minBytes, dirsOnly, maxDepth, e);
      var h := if Passes(s[0], minBytes, dirsOnly, maxDepth) then [s[0]] else [];
      var rest := Keep(s[1..], minBytes, dirsOnly, maxDepth);
      assert Keep(s, minBytes, dirsOnly, maxDepth) == h + rest;
      assert multiset(h + rest) == multiset(h) + multiset(rest);
      assert s == [s[0]] + s[1..];
      assert multiset(s) == multiset{s[0]} + multiset(s[1..]);
    }
  }

  lemma KeepSubset(s: seq<NamePair>, minBytes: Option<u64>, dirsOnly: bool, maxDepth: Option<nat>)
    ensures multiset(Keep(s, minBytes, dirsOnly, maxDepth)) <= multiset(s)
    ensures forall e :: e in Keep(s, minBytes, dirsOnly, maxDepth) <==> e in s && Passes(e, minBytes, dirsOnly, maxDepth)
  {
    forall e ensures multiset(Keep(s, minBytes, dirsOnly, maxDepth))[e] <= multiset(s)[e] {
      KeepCount(s, minBytes, dirsOnly, maxDepth, e);
    }
    forall e ensures e in Keep(s, minBytes, dirsOnly, maxDepth) <==> e in s && Passes(e, minBytes, dirsOnly, maxDepth) {
      KeepCount(s, minBytes, dirsOnly, maxDepth, e);
    }
  }

  /** Raising the threshold only removes entries. */
  lemma FilterMonotone(s: seq<NamePair>, low: u64, high: u64, dirsOnly: bool, maxDepth: Option<nat>)
    requires low <= high
    ensures multiset(Keep(s, Some(high), dirsOnly, maxDepth)) <= multiset(Keep(s, Some(low), dirsOnly, maxDepth))
    ensures forall e :: e in Keep(s, Some(high), dirsOnly, maxDepth) ==> e.bytes.size > high
  {
    forall e ensures multiset(Keep(s, Some(high), dirsOnly, maxDepth))[e] <= multiset(Keep(s, Some(low), dirsOnly, maxDepth))[e] {
      KeepCount(s, Some(high), dirsOnly, maxDepth, e);
      KeepCount(s, Some(low), dirsOnly, maxDepth, e);
    }
    KeepSubset(s, Some(high), dirsOnly, maxDepth);
  }

  lemma {:induction false} KeepPreservesSorted(s: seq<NamePair>, descending: bool, minBytes: Option<u64>, dirsOnly: bool, maxDepth: Option<nat>)
    requires Sorted(s, descending)
    ensures Sorted(Keep(s, minBytes, dirsOnly, maxDepth), descending)
  {
    if s != [] {
      KeepPreservesSorted(s[1..], descending, minBytes, dirsOnly, maxDepth);
      KeepSubset(s[1..], minBytes, dirsOnly, maxDepth);
      var rest := Keep(s[1..], minBytes, dirsOnly, maxDepth);
      forall j | 0 <= j < |rest| ensures InOrder(s[0], rest[j], descending) {
        assert rest[j] in s[1..];
      }
    }
  }

  lemma {:induction false} OfSizeConcat(a: seq<NamePair>, b: seq<NamePair>, k: int)
    ensures OfSize(a + b, k) == OfSize(a, k) + OfSize(b, k)
  {
    if a == [] {
      assert a + b == b;
    } else {
      OfSizeConcat(a[1..], b, k);
      assert (a + b)[0] == a[0];
      assert (a + b)[1..] == a[1..] + b;
      var g := if a[0].bytes.size == k then [a[0]] else [];
      assert OfSize(a + b, k) == g + OfSize(a[1..] + b, k);
      assert OfSize(a, k) == g + OfSize(a[1..], k);
    }
  }

  lemma KeepCons(x: NamePair, t: seq<NamePair>, minBytes: Option<u64>, dirsOnly: bool, maxDepth: Option<nat>)
    ensures Keep([x] + t, minBytes, dirsOnly, maxDepth)
      == (if Passes(x, minBytes, dirsOnly, maxDepth) then [x] else []) + Keep(t, minBytes, dirsOnly, maxDepth)
  {
    assert ([x] + t)[0] == x && ([x] + t)[1..] == t;
  }

  lemma {:induction false} KeepOfSizeCommute(s: seq<NamePair>, k: int, minBytes: Option<u64>, dirsOnly: bool, maxDepth: Option<nat>)
    ensures OfSize(Keep(s, minBytes, dirsOnly, maxDepth), k) == Keep(OfSize(s, k), minBytes, dirsOnly, maxDepth)
  {
    if s != [] {
      var x, t := s[0], s[1..];
      assert s == [x] + t;
      KeepOfSizeCommute(t, k, minBytes, dirsOnly, maxDepth);
      var passes := Passes(x, minBytes, dirsOnly, maxDepth);
      var sized := x.bytes.size == k;
      var h := if passes then [x] else [];
      var g := if sized then [x] else [];
      var both: seq<NamePair> := if passes && sized then [x] else [];
      KeepCons(x, t, minBytes, dirsOnly, maxDepth);
      OfSizeConcat(h, Keep(t, minBytes, dirsOnly, maxDepth), k);
      OfSizeConcat([x], t, k);
      assert OfSize(h, k) == both by {
        if passes {
          OfSizeConcat([x], [], k);
          assert [x] + [] == [x];
        }
      }
      assert Keep(OfSize(s, k), minBytes, dirsOnly, maxDepth) == both + Keep(OfSize(t, k), minBytes, dirsOnly, maxDepth) by {
        assert OfSize([x], k) == g + OfSize([], k);
        assert OfSize(s, k) == g + OfSize(t, k);
        if sized {
          KeepCons(x, OfSize(t, k), minBytes, dirsOnly, maxDepth);
        } else {
          assert g + OfSize(t, k) == OfSize(t, k);
        }
      }
    }
  }

  // ---------------------------------------------------------------------
  // Sorting

  lemma {:induction false} InsertMultiset(x: NamePair, t: seq<NamePair>, descending: bool)
    ensures multiset(Insert(x, t, descending)) == multiset(t) + multiset{x}
  {
    if !(t == [] || InOrder(t[|t| - 1], x, descending)) {
      var init, last := t[..|t| - 1], t[|t| - 1];
      assert t == init + [last];
      InsertMultiset(x, init, descending);
      assert multiset(Insert(x, t, descending)) == multiset(Insert(x, init, descending)) + multiset{last};
    }
  }

  lemma {:induction false} InsertSorted(x: NamePair, t: seq<NamePair>, descending: bool)
    requires Sorted(t, descending)
    ensures Sorted(Insert(x, t, descending), descending)
  {
    if t == [] || InOrder(t[|t| - 1], x, descending) {
      var r := t + [x];
      forall i, j | 0 <= i < j < |r| ensures InOrder(r[i], r[j], descending) {
        if j == |t| && i < |t| - 1 {
          assert InOrder(t[i], t[|t| - 1], descending);
        }
      }
    } else {
      var init, last := t[..|t| - 1], t[|t| - 1];
      assert Sorted(init, descending);
      InsertSorted(x, init, descending);
      InsertMultiset(x, init, descending);
      var r := Insert(x, init, descending);
      forall i | 0 <= i < |r| ensures InOrder(r[i], last, descending) {
        assert r[i] in multiset(r);
        if r[i] != x {
          assert r[i] in multiset(init);
          var m :| 0 <= m < |init| && init[m] == r[i];
          assert t[m] == r[i];
        }
      }
      var r' := r + [last];
      forall i, j | 0 <= i < j < |r'| ensures InOrder(r'[i], r'[j], descending) {
        if j == |r| {
          assert r'[i] == r[i];
        } else {
          assert r'[i] == r[i] && r'[j] == r[j];
        }
      }
    }
  }

  lemma {:induction false} InsertOfSize(x: NamePair, t: seq<NamePair>, descending: bool, k: int)
    requires Sorted(t, descending)
    ensures OfSize(Insert(x, t, descending), k) == OfSize(t, k) + OfSize([x], k)
  {
    if t == [] || InOrder(t[|t| - 1], x, descending) {
      OfSizeConcat(t, [x], k);
    } else {
      var init, last := t[..|t| - 1], t[|t| - 1];
      assert t == init + [last];
      assert Sorted(init, descending);
      InsertOfSize(x, init, descending, k);
      var r := Insert(x, init, descending);
      OfSizeConcat(r, [last], k);
      OfSizeConcat(init, [last], k);
      assert last.bytes.size != x.bytes.size;
      assert OfSize([x], k) == (if x.bytes.size == k then [x] else []) + OfSize([], k);
      assert OfSize([last], k) == (if last.bytes.size == k then [last] else []) + OfSize([], k);
    }
  }

  /** `sort_by` returns a sorted permutation of its input in which entries of
      equal size keep their original relative order. */
  lemma {:induction false} SortBySizeFacts(s: seq<NamePair>, descending: bool)
    ensures multiset(SortBySize(s, descending)) == multiset(s)
    ensures Sorted(SortBySize(s, descending), descending)
    ensures forall k :: OfSize(SortBySize(s, descending), k) == OfSize(s, k)
  {
    if s != [] {
      var init, last := s[..|s| - 1], s[|s| - 1];
      assert s == init + [last];
      SortBySizeFacts(init, descending);
      var sortedInit := SortBySize(init, descending);
      InsertMultiset(last, sortedInit, descending);
      InsertSorted(last, sortedInit, descending);
      forall k ensures OfSize(SortBySize(s, descending), k) == OfSize(s, k) {
        InsertOfSize(last, sortedInit, descending, k);
        OfSizeConcat(init, [last], k);
      }
    }
  }

  /** Sorting before filtering keeps the passing entries as a multiset and
      leaves them sorted. */
  lemma SortedKeep(files: seq<NamePair>, descending: bool, minBytes: Option<u64>, dirsOnly: bool, maxDepth: Option<nat>)
    ensures multiset(Keep(SortBySize(files, descending), minBytes, dirsOnly, maxDepth))
            == multiset(Keep(files, minBytes, dirsOnly, maxDepth))
    ensures Sorted(Keep(SortBySize(files, descending), minBytes, dirsOnly, maxDepth), descending)
  {
    var sorted := SortBySize(files, descending);
    SortBySizeFacts(files, descending);
    KeepPreservesSorted(sorted, descending, minBytes, dirsOnly, maxDepth);
    forall e ensures multiset(Keep(sorted, minBytes, dirsOnly, maxDepth))[e] == multiset(Keep(files, minBytes, dirsOnly, maxDepth))[e] {
      KeepCount(sorted, minBytes, dirsOnly, maxDepth, e);
      KeepCount(files, minBytes, dirsOnly, maxDepth, e);
    }
  }

  /** `sort(None, ..)`: exactly the passing entries (as a multiset), smallest
      first, and entries of equal size in their original relative order. */
  lemma AscendingFacts(files: seq<NamePair>, minBytes: Option<u64>, dirsOnly: bool, maxDepth: Option<nat>)
    ensures multiset(Ascending(files, minBytes, dirsOnly, maxDepth)) == multiset(Keep(files, minBytes, dirsOnly, maxDepth))
    ensures Sorted(Ascending(files, minBytes, dirsOnly, maxDepth), false)
    ensures forall k :: OfSize(Ascending(files, minBytes, dirsOnly, maxDepth), k)
                        == OfSize(Keep(files, minBytes, dirsOnly, maxDepth), k)
  {
    var sorted := SortBySize(files, false);
    SortedKeep(files, false, minBytes, dirsOnly, maxDepth);
    SortBySizeFacts(files, false);
    forall k ensures OfSize(Keep(sorted, minBytes, dirsOnly, maxDepth), k) == OfSize(Keep(files, minBytes, dirsOnly, maxDepth), k) {
      KeepOfSizeCommute(sorted, k, minBytes, dirsOnly, maxDepth);
      KeepOfSizeCommute(files, k, minBytes, dirsOnly, maxDepth);
    }
  }

  /** Cutting a descending list after `n` entries keeps a prefix no entry of
      which is smaller than any entry cut off. */
  lemma TakeOfDescending(all: seq<NamePair>, n: nat)
    requires Sorted(all, true)
    ensures var r := Take(all, n);
      && |r| == (if n < |all| then n else |all|)
      && Sorted(r, true)
      && multiset(r) <= multiset(all)
      && (forall x, e :: x in r && e in multiset(all) - multiset(r) ==> x.bytes.size >= e.bytes.size)
  {
    var r := Take(all, n);
    if n < |all| {
      var dropped := all[n..];
      assert all == r + dropped;
      assert multiset(all) - multiset(r) == multiset(dropped);
      forall x, e | x in r && e in dropped ensures x.bytes.size >= e.bytes.size {
        DescendingSplit(all, n, x, e);
      }
    } else {
      assert multiset(all) - multiset(r) == multiset{};
    }
  }

  lemma DescendingSplit(all: seq<NamePair>, n: nat, x: NamePair, e: NamePair)
    requires Sorted(all, true) && n < |all|
    requires x in all[..n] && e in all[n..]
    ensures x.bytes.size >= e.bytes.size
  {
    var i :| 0 <= i < n && all[..n][i] == x;
    var j :| 0 <= j < |all| - n && all[n..][j] == e;
    assert InOrder(all[i], all[n + j], true);
  }

  /** `sort(Some(n), ..)`: `min(n, passing)` passing entries, largest first,
      and none of the passing entries cut off by `take(n)` is larger than any
      entry kept. */
  lemma TopNFacts(files: seq<NamePair>, n: nat, minBytes: Option<u64>, dirsOnly: bool, maxDepth: Option<nat>)
    ensures var r := TopN(files, n, minBytes, dirsOnly, maxDepth);
      var passing := Keep(files, minBytes, dirsOnly, maxDepth);
      && |r| == (if n < |passing| then n else |passing|)
      && Sorted(r, true)
      && multiset(r) <= multiset(passing)
      && (forall x, e :: x in r && e in multiset(passing) - multiset(r) ==> x.bytes.size >= e.bytes.size)
  {
    var all := Keep(SortBySize(files, true), minBytes, dirsOnly, maxDepth);
    var passing := Keep(files, minBytes, dirsOnly, maxDepth);
    SortedKeep(files, true, minBytes, dirsOnly, maxDepth);
    assert |all| == |multiset(all)| == |multiset(passing)| == |passing|;
    TakeOfDescending(all, n);
  }
}
