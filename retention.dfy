/**
 * The retention sweep of the spool (enforceMaxSize) as functions on the
 * directory's contents, with the properties it promises: a disabled cap and a
 * directory within the cap change nothing, only batch files are deleted,
 * oldest first, only while the running total is over the cap, and the total
 * drops by exactly the sizes of the files whose delete succeeded.
 */
module Retention {
  import opened SpoolNames

  /** A file in the spool directory: `getName`, `length`, `lastModified` and its text. */
  datatype Entry = Entry(name: string, size: nat, mtime: int, content: string)

  /**
   * What one `Files.deleteIfExists` call does: returns true (it deleted the
   * file), returns false (no such file existed any more), or throws (the file
   * stays).
   */
  datatype DeleteOutcome = Deleted | NotDeleted | Threw

  /**
   * The file system as the sweep meets it: whether `listFiles` returns an
   * array (false stands for null) and how each delete attempt turns out.
   */
  datatype SweepIo = SweepIo(listed: bool, delete: Entry -> DeleteOutcome)

  /**
   * The course of the deletion loop: the files whose delete returned true, in
   * deletion order, which are the ones it counts; the files no longer there
   * afterwards (those plus the ones whose delete returned false), in visiting
   * order; how many files of the sorted list it attempted to delete; the
   * running total it ended with; whether an exception ended it.
   */
  datatype Eviction = Eviction(deleted: seq<Entry>, removed: seq<Entry>, visited: nat, remaining: int, aborted: bool)

  /** A Java `int`: the type of the configured cap in megabytes. */
  newtype int32 = x: int | -0x8000_0000 <= x < 0x8000_0000

  const LongMin: int := -0x8000_0000_0000_0000
  const LongMax: int := 0x7fff_ffff_ffff_ffff

  /**
   * `(long) spoolMaxMb * 1024L * 1024L`: the product of a Java int and 2^20
   * always fits in a long, so the cast and multiplication never wrap, and the
   * cap in bytes is positive exactly when the cap in megabytes is.
   */
  function MaxBytes(mb: int32): (r: int)
    ensures LongMin <= r <= LongMax
    ensures r <= 0 <==> mb <= 0
    ensures r % 0x10_0000 == 0 && r / 0x10_0000 == mb as int
  {
    mb as int * 1024 * 1024
  }

  /** The files `listFiles` returns through the `.ndjson.gz` filter, in listing order. */
  function Matching(s: seq<Entry>): seq<Entry> {
    if s == [] then []
    else if IsBatchName(s[0].name) then [s[0]] + Matching(s[1..])
    else Matching(s[1..])
  }

  /** The files the filter leaves out. */
  function Others(s: seq<Entry>): seq<Entry> {
    if s == [] then []
    else if IsBatchName(s[0].name) then Others(s[1..])
    else [s[0]] + Others(s[1..])
  }

  /** The directory once the files named in `gone` are deleted. */
  function Without(s: seq<Entry>, gone: set<string>): seq<Entry> {
    if s == [] then []
    else if s[0].name in gone then Without(s[1..], gone)
    else [s[0]] + Without(s[1..], gone)
  }

  function NamesOf(s: seq<Entry>): set<string> {
    if s == [] then {} else {s[0].name} + NamesOf(s[1..])
  }

  /** No two files of a directory share a name. */
  predicate DistinctNames(s: seq<Entry>) {
    s == [] || (s[0].name !in NamesOf(s[1..]) && DistinctNames(s[1..]))
  }

  /** The sum of the sizes (`total += f.length()`). */
  function TotalSize(s: seq<Entry>): int {
    if s == [] then 0 else s[0].size + TotalSize(s[1..])
  }

  predicate SortedByMtime(s: seq<Entry>) {
    forall i, j :: 0 <= i < j < |s| ==> s[i].mtime <= s[j].mtime
  }

  /** Places `e` before the first file that is not older than it. */
  function Insert(e: Entry, t: seq<Entry>): (r: seq<Entry>)
    ensures |r| == |t| + 1
    ensures multiset(r) == multiset(t) + multiset{e}
  {
    if t == [] || e.mtime <= t[0].mtime then [e] + t
    else
      assert t == [t[0]] + t[1..];
      [t[0]] + Insert(e, t[1..])
  }

  /**
   * `sorted(Comparator.comparingLong(File::lastModified))`: a stable sort by
   * modification time, so files of equal time keep their listing order.
   */
  function SortByMtime(s: seq<Entry>): (r: seq<Entry>)
    ensures |r| == |s|
    ensures multiset(r) == multiset(s)
  {
    if s == [] then []
    else
      assert s == [s[0]] + s[1..];
      Insert(s[0], SortByMtime(s[1..]))
  }

  /** The visited files whose delete returned true. */
  function Succeeded(s: seq<Entry>, delete: Entry -> DeleteOutcome): seq<Entry> {
    if s == [] then []
    else if delete(s[0]) == Deleted then [s[0]] + Succeeded(s[1..], delete)
    else Succeeded(s[1..], delete)
  }

  /** The visited files that are gone afterwards: their delete returned true or false. */
  function Gone(s: seq<Entry>, delete: Entry -> DeleteOutcome): seq<Entry> {
    if s == [] then []
    else if delete(s[0]) != Threw then [s[0]] + Gone(s[1..], delete)
    else Gone(s[1..], delete)
  }

  /** The visited files still there afterwards: their delete threw. */
  function Kept(s: seq<Entry>, delete: Entry -> DeleteOutcome): seq<Entry> {
    if s == [] then []
    else if delete(s[0]) != Threw then Kept(s[1..], delete)
    else [s[0]] + Kept(s[1..], delete)
  }

  /**
   * The deletion loop over `order` starting from running total `total`: stop
   * once the total is within the cap; on a successful delete subtract the
   * file's size; on false go on without subtracting (the file is gone all the
   * same); on an exception stop (the catch is outside the loop).
   */
  function Evict(order: seq<Entry>, total: int, maxBytes: int, delete: Entry -> DeleteOutcome): Eviction
    decreases |order|
  {
    if order == [] || total <= maxBytes then Eviction([], [], 0, total, false)
    else
      match delete(order[0])
      case Threw => Eviction([], [], 1, total, true)
      case NotDeleted =>
        var r := Evict(order[1..], total, maxBytes, delete);
        r.(removed := [order[0]] + r.removed, visited := r.visited + 1)
      case Deleted =>
        var r := Evict(order[1..], total - order[0].size, maxBytes, delete);
        r.(deleted := [order[0]] + r.deleted, removed := [order[0]] + r.removed, visited := r.visited + 1)
  }

  /** One visit of the deletion loop, at position j of the order. */
  lemma EvictAt(order: seq<Entry>, j: nat, total: int, maxBytes: int, delete: Entry -> DeleteOutcome)
    requires j < |order|
    ensures total <= maxBytes || delete(order[j]) == Threw ==>
      Evict(order[j..], total, maxBytes, delete).removed == []
    ensures total > maxBytes && delete(order[j]) == Deleted ==>
      Evict(order[j..], total, maxBytes, delete).removed
        == [order[j]] + Evict(order[j + 1..], total - order[j].size, maxBytes, delete).removed
    ensures total > maxBytes && delete(order[j]) == NotDeleted ==>
      Evict(order[j..], total, maxBytes, delete).removed
        == [order[j]] + Evict(order[j + 1..], total, maxBytes, delete).removed
  {
    assert order[j..][1..] == order[j + 1..];
  }

  /**
   * The whole sweep: nothing when the cap is not positive or the listing
   * failed; otherwise the deletion loop over the batch files sorted by age,
   * starting from their summed size (which also covers the early returns for
   * an empty listing and a total within the cap).
   */
  function EvictionOf(entries: seq<Entry>, maxBytes: int, io: SweepIo): Eviction {
    var files := Matching(entries);
    if maxBytes <= 0 || !io.listed then Eviction([], [], 0, TotalSize(files), false)
    else Evict(SortByMtime(files), TotalSize(files), maxBytes, io.delete)
  }

  /** The directory after the sweep: every file the loop deleted or found gone is absent. */
  function Swept(entries: seq<Entry>, maxBytes: int, io: SweepIo): seq<Entry> {
    Without(entries, NamesOf(EvictionOf(entries, maxBytes, io).removed))
  }

  // ---------------------------------------------------------------------------
  // Facts about the helpers.

  lemma {:induction false} InsertSorted(e: Entry, t: seq<Entry>)
    requires SortedByMtime(t)
    ensures SortedByMtime(Insert(e, t))
    decreases |t|
  {
    if t != [] && e.mtime > t[0].mtime {
      var rest := Insert(e, t[1..]);
      assert SortedByMtime(t[1..]);
      InsertSorted(e, t[1..]);
      forall x | x in rest ensures t[0].mtime <= x.mtime {
        assert x in multiset(rest);
        assert x == e || x in multiset(t[1..]);
      }
      SortedCons(t[0], rest);
    } else if t != [] {
      SortedCons(e, t);
    }
  }

  /** A file no newer than any of an ordered listing may go in front of it. */
  lemma SortedCons(x: Entry, r: seq<Entry>)
    requires SortedByMtime(r)
    requires forall y :: y in r ==> x.mtime <= y.mtime
    ensures SortedByMtime([x] + r)
  {
    var s := [x] + r;
    forall i, j | 0 <= i < j < |s| ensures s[i].mtime <= s[j].mtime {
      assert s[j] == r[j - 1];
      if i > 0 {
        assert s[i] == r[i - 1];
      }
    }
  }

  /** The sort's result is ordered by modification time (and, by its contract, a permutation). */
  lemma {:induction false} SortSorted(s: seq<Entry>)
    ensures SortedByMtime(SortByMtime(s))
    decreases |s|
  {
    if s != [] {
      SortSorted(s[1..]);
      InsertSorted(s[0], SortByMtime(s[1..]));
    }
  }

  /** A listing already in age order comes out unchanged. */
  lemma {:induction false} SortOfSorted(s: seq<Entry>)
    requires SortedByMtime(s)
    ensures SortByMtime(s) == s
    decreases |s|
  {
    if s != [] {
      assert SortedByMtime(s[1..]);
      SortOfSorted(s[1..]);
      assert [s[0]] + s[1..] == s;
    }
  }

  /** The files of `s` modified at time `t`, in the order of `s`. */
  function AtTime(s: seq<Entry>, t: int): seq<Entry> {
    if s == [] then []
    else if s[0].mtime == t then [s[0]] + AtTime(s[1..], t)
    else AtTime(s[1..], t)
  }

  lemma {:induction false} InsertAtTime(e: Entry, r: seq<Entry>, t: int)
    ensures AtTime(Insert(e, r), t) == (if e.mtime == t then [e] else []) + AtTime(r, t)
    decreases |r|
  {
    if r != [] && e.mtime > r[0].mtime {
      InsertAtTime(e, r[1..], t);
      assert ([r[0]] + Insert(e, r[1..]))[1..] == Insert(e, r[1..]);
    } else {
      assert ([e] + r)[1..] == r;
    }
  }

  /**
   * Stability: for every modification time, the files of that time come out of
   * the sort in the order they were listed in.
   */
  lemma {:induction false} SortStable(s: seq<Entry>, t: int)
    ensures AtTime(SortByMtime(s), t) == AtTime(s, t)
    decreases |s|
  {
    if s != [] {
      SortStable(s[1..], t);
      InsertAtTime(s[0], SortByMtime(s[1..]), t);
    }
  }

  lemma {:induction false} TotalSizeAppend(a: seq<Entry>, b: seq<Entry>)
    ensures TotalSize(a + b) == TotalSize(a) + TotalSize(b)
    decreases |a|
  {
    if a != [] {
      assert (a + b)[1..] == a[1..] + b;
      TotalSizeAppend(a[1..], b);
    } else {
      assert a + b == b;
    }
  }

  lemma {:induction false} WithoutAppend(a: seq<Entry>, b: seq<Entry>, gone: set<string>)
    ensures Without(a + b, gone) == Without(a, gone) + Without(b, gone)
    decreases |a|
  {
    if a != [] {
      assert (a + b)[1..] == a[1..] + b;
      WithoutAppend(a[1..], b, gone);
    } else {
      assert a + b == b;
    }
  }

  lemma {:induction false} WithoutNothing(s: seq<Entry>)
    ensures Without(s, {}) == s
    decreases |s|
  {
    if s != [] {
      WithoutNothing(s[1..]);
    }
  }

  lemma {:induction false} WithoutTwice(s: seq<Entry>, a: set<string>, b: set<string>)
    ensures Without(Without(s, a), b) == Without(s, a + b)
    decreases |s|
  {
    if s != [] {
      WithoutTwice(s[1..], a, b);
    }
  }

  /** Removing one more deleted file by name, as the deletion loop does. */
  lemma WithoutOneMore(s: seq<Entry>, done: seq<Entry>, f: Entry)
    ensures Without(Without(s, NamesOf(done)), {f.name}) == Without(s, NamesOf(done + [f]))
  {
    WithoutTwice(s, NamesOf(done), {f.name});
    NamesOfAppend(done, [f]);
    assert NamesOf([f]) == {f.name};
  }

  /** Names no file of `s` carries do not matter to Without. */
  lemma {:induction false} WithoutIgnoresAbsent(s: seq<Entry>, gone: set<string>, absent: set<string>)
    requires absent !! NamesOf(s)
    ensures Without(s, gone + absent) == Without(s, gone)
    decreases |s|
  {
    if s != [] {
      WithoutIgnoresAbsent(s[1..], gone, absent);
    }
  }

  lemma {:induction false} WithoutNames(s: seq<Entry>, gone: set<string>)
    ensures NamesOf(Without(s, gone)) == NamesOf(s) - gone
    ensures forall e :: e in Without(s, gone) ==> e in s && e.name !in gone
    decreases |s|
  {
    if s != [] {
      WithoutNames(s[1..], gone);
    }
  }

  lemma {:induction false} WithoutDistinct(s: seq<Entry>, gone: set<string>)
    requires DistinctNames(s)
    ensures DistinctNames(Without(s, gone))
    decreases |s|
  {
    if s != [] {
      WithoutDistinct(s[1..], gone);
      WithoutNames(s[1..], gone);
    }
  }

  lemma {:induction false} NamesOfMember(s: seq<Entry>, n: string)
    ensures n in NamesOf(s) <==> exists e :: e in s && e.name == n
    decreases |s|
  {
    if s != [] {
      NamesOfMember(s[1..], n);
      if n in NamesOf(s[1..]) {
        var e :| e in s[1..] && e.name == n;
        assert e in s;
      }
    }
  }

  lemma {:induction false} NamesOfAppend(a: seq<Entry>, b: seq<Entry>)
    ensures NamesOf(a + b) == NamesOf(a) + NamesOf(b)
    decreases |a|
  {
    if a != [] {
      assert (a + b)[1..] == a[1..] + b;
      NamesOfAppend(a[1..], b);
    } else {
      assert a + b == b;
    }
  }

  lemma {:induction false} DistinctAppend(a: seq<Entry>, b: seq<Entry>)
    requires DistinctNames(a + b)
    ensures DistinctNames(a) && DistinctNames(b) && NamesOf(a) !! NamesOf(b)
    decreases |a|
  {
    if a != [] {
      assert (a + b)[1..] == a[1..] + b;
      NamesOfAppend(a[1..], b);
      DistinctAppend(a[1..], b);
    } else {
      assert a + b == b;
    }
  }

  lemma {:induction false} MatchingWithout(s: seq<Entry>, gone: set<string>)
    ensures Matching(Without(s, gone)) == Without(Matching(s), gone)
    decreases |s|
  {
    if s != [] {
      MatchingWithout(s[1..], gone);
    }
  }

  lemma {:induction false} MatchingDistinct(s: seq<Entry>)
    requires DistinctNames(s)
    ensures DistinctNames(Matching(s)) && NamesOf(Matching(s)) <= NamesOf(s)
    decreases |s|
  {
    if s != [] {
      MatchingDistinct(s[1..]);
    }
  }

  lemma {:induction false} MatchingMembers(s: seq<Entry>)
    ensures forall e :: e in Matching(s) <==> e in s && IsBatchName(e.name)
    decreases |s|
  {
    if s != [] {
      MatchingMembers(s[1..]);
    }
  }

  /** A directory holding only batch files is listed whole by the filter. */
  lemma {:induction false} MatchingAll(s: seq<Entry>)
    requires forall i :: 0 <= i < |s| ==> IsBatchName(s[i].name)
    ensures Matching(s) == s
    decreases |s|
  {
    if s != [] {
      MatchingAll(s[1..]);
      assert [s[0]] + s[1..] == s;
    }
  }

  lemma {:induction false} InsertNames(e: Entry, t: seq<Entry>)
    ensures NamesOf(Insert(e, t)) == NamesOf(t) + {e.name}
    ensures DistinctNames(t) && e.name !in NamesOf(t) ==> DistinctNames(Insert(e, t))
    decreases |t|
  {
    if t != [] && e.mtime > t[0].mtime {
      InsertNames(e, t[1..]);
    }
  }

  lemma {:induction false} SortNames(s: seq<Entry>)
    ensures NamesOf(SortByMtime(s)) == NamesOf(s)
    ensures DistinctNames(s) ==> DistinctNames(SortByMtime(s))
    decreases |s|
  {
    if s != [] {
      SortNames(s[1..]);
      InsertNames(s[0], SortByMtime(s[1..]));
    }
  }

  lemma {:induction false} InsertTotalWithout(e: Entry, t: seq<Entry>, gone: set<string>)
    ensures TotalSize(Without(Insert(e, t), gone))
            == (if e.name in gone then 0 else e.size) + TotalSize(Without(t, gone))
    decreases |t|
  {
    if t != [] && e.mtime > t[0].mtime {
      InsertTotalWithout(e, t[1..], gone);
    }
  }

  /** Sorting does not change what any set of deletions leaves behind in bytes. */
  lemma {:induction false} SortTotalWithout(s: seq<Entry>, gone: set<string>)
    ensures TotalSize(Without(SortByMtime(s), gone)) == TotalSize(Without(s, gone))
    decreases |s|
  {
    if s != [] {
      SortTotalWithout(s[1..], gone);
      InsertTotalWithout(s[0], SortByMtime(s[1..]), gone);
    }
  }

  lemma {:induction false} SucceededSplit(s: seq<Entry>, delete: Entry -> DeleteOutcome)
    ensures forall e :: e in Succeeded(s, delete) ==> e in s && delete(e) == Deleted
    ensures NamesOf(Succeeded(s, delete)) <= NamesOf(s)
    decreases |s|
  {
    if s != [] {
      SucceededSplit(s[1..], delete);
    }
  }

  lemma {:induction false} SucceededPrefix(s: seq<Entry>, k: nat, delete: Entry -> DeleteOutcome)
    requires 0 < k <= |s|
    ensures Succeeded(s[..k], delete)
            == (if delete(s[0]) == Deleted then [s[0]] else []) + Succeeded(s[1..][..k - 1], delete)
  {
    assert s[..k][1..] == s[1..][..k - 1];
  }

  /**
   * The files gone are the succeeded ones and those whose delete returned
   * false: they weigh at least as much as the succeeded ones, and with the
   * kept ones they make up the whole visited list.
   */
  lemma {:induction false} GoneSplit(s: seq<Entry>, delete: Entry -> DeleteOutcome)
    ensures TotalSize(s) == TotalSize(Gone(s, delete)) + TotalSize(Kept(s, delete))
    ensures TotalSize(Succeeded(s, delete)) <= TotalSize(Gone(s, delete))
    ensures forall e :: e in Gone(s, delete) ==> e in s && delete(e) != Threw
    ensures NamesOf(Gone(s, delete)) <= NamesOf(s)
    decreases |s|
  {
    if s != [] {
      GoneSplit(s[1..], delete);
    }
  }

  lemma {:induction false} GonePrefix(s: seq<Entry>, k: nat, delete: Entry -> DeleteOutcome)
    requires 0 < k <= |s|
    ensures Gone(s[..k], delete)
            == (if delete(s[0]) != Threw then [s[0]] else []) + Gone(s[1..][..k - 1], delete)
  {
    assert s[..k][1..] == s[1..][..k - 1];
  }

  /** With distinct names, deleting by the names of the gone files leaves exactly the kept ones. */
  lemma {:induction false} WithoutGone(s: seq<Entry>, delete: Entry -> DeleteOutcome)
    requires DistinctNames(s)
    ensures Without(s, NamesOf(Gone(s, delete))) == Kept(s, delete)
    decreases |s|
  {
    if s != [] {
      var rest := s[1..];
      var n := NamesOf(Gone(rest, delete));
      WithoutGone(rest, delete);
      GoneSplit(rest, delete);
      if delete(s[0]) != Threw {
        WithoutIgnoresAbsent(rest, n, {s[0].name});
        assert n + {s[0].name} == {s[0].name} + n;
      }
    }
  }

  lemma {:induction false} GoneMember(s: seq<Entry>, k: nat, delete: Entry -> DeleteOutcome)
    requires k < |s| && delete(s[k]) != Threw
    ensures s[k] in Gone(s, delete)
    decreases |s|
  {
    if k > 0 {
      GoneMember(s[1..], k - 1, delete);
    }
  }

  lemma {:induction false} GoneAll(s: seq<Entry>, delete: Entry -> DeleteOutcome)
    requires forall i :: 0 <= i < |s| ==> delete(s[i]) != Threw
    ensures Gone(s, delete) == s
    decreases |s|
  {
    if s != [] {
      GoneAll(s[1..], delete);
    }
  }

  lemma {:induction false} SucceededSorted(s: seq<Entry>, delete: Entry -> DeleteOutcome)
    requires SortedByMtime(s)
    ensures SortedByMtime(Succeeded(s, delete))
    decreases |s|
  {
    if s != [] {
      assert SortedByMtime(s[1..]);
      SucceededSorted(s[1..], delete);
      SucceededSplit(s[1..], delete);
      var r := Succeeded(s[1..], delete);
      assert forall x :: x in r ==> s[0].mtime <= x.mtime;
      SortedCons(s[0], r);
    }
  }

  lemma {:induction false} SucceededAll(s: seq<Entry>, delete: Entry -> DeleteOutcome)
    requires forall i :: 0 <= i < |s| ==> delete(s[i]) == Deleted
    ensures Succeeded(s, delete) == s
    decreases |s|
  {
    if s != [] {
      SucceededAll(s[1..], delete);
    }
  }

  // ---------------------------------------------------------------------------
  // The deletion loop.

  /**
   * Bookkeeping of the loop: it visits a prefix of the order, the files it
   * deletes are exactly the visited ones whose delete returned true, the files
   * gone are exactly the visited ones whose delete did not throw, and the
   * running total drops by exactly the sizes of the deleted ones.
   */
  lemma {:induction false} EvictAccounts(order: seq<Entry>, total: int, maxBytes: int, delete: Entry -> DeleteOutcome)
    ensures var r := Evict(order, total, maxBytes, delete);
      && r.visited <= |order|
      && r.deleted == Succeeded(order[..r.visited], delete)
      && r.removed == Gone(order[..r.visited], delete)
      && r.remaining == total - TotalSize(r.deleted)
    decreases |order|
  {
    var r := Evict(order, total, maxBytes, delete);
    if order != [] && total > maxBytes {
      var f := order[0];
      match delete(f)
      case Threw =>
        assert order[..1] == [f];
      case NotDeleted =>
        EvictAccounts(order[1..], total, maxBytes, delete);
        SucceededPrefix(order, r.visited, delete);
        GonePrefix(order, r.visited, delete);
      case Deleted =>
        EvictAccounts(order[1..], total - f.size, maxBytes, delete);
        SucceededPrefix(order, r.visited, delete);
        GonePrefix(order, r.visited, delete);
    }
  }

  /**
   * Why the loop ended: an exception only at its last visit and at no earlier
   * one; otherwise, short of the end of the list, only because the total was
   * within the cap.
   */
  lemma {:induction false} EvictStops(order: seq<Entry>, total: int, maxBytes: int, delete: Entry -> DeleteOutcome)
    ensures var r := Evict(order, total, maxBytes, delete);
      && r.visited <= |order|
      && (!r.aborted && r.visited < |order| ==> r.remaining <= maxBytes)
      && (r.aborted ==> 0 < r.visited <= |order| && delete(order[r.visited - 1]) == Threw)
      && (forall k :: 0 <= k < r.visited && (r.aborted ==> k < r.visited - 1) ==> delete(order[k]) != Threw)
    decreases |order|
  {
    if order != [] && total > maxBytes {
      var f := order[0];
      match delete(f)
      case Threw =>
      case NotDeleted =>
        EvictStops(order[1..], total, maxBytes, delete);
        assert forall k :: 1 <= k < |order| ==> order[k] == order[1..][k - 1];
      case Deleted =>
        EvictStops(order[1..], total - f.size, maxBytes, delete);
        assert forall k :: 1 <= k < |order| ==> order[k] == order[1..][k - 1];
    }
  }

  /**
   * Minimality: every file the loop visits is visited while the running total
   * (the start total less what was deleted before it) is still over the cap,
   * so no file is deleted once the total is within the cap.
   */
  lemma {:induction false} EvictMinimal(order: seq<Entry>, total: int, maxBytes: int, delete: Entry -> DeleteOutcome)
    ensures var r := Evict(order, total, maxBytes, delete);
      forall k :: 0 <= k < r.visited && k <= |order| ==>
        total - TotalSize(Succeeded(order[..k], delete)) > maxBytes
    decreases |order|
  {
    var r := Evict(order, total, maxBytes, delete);
    if order != [] && total > maxBytes {
      var f := order[0];
      match delete(f)
      case Threw =>
        assert order[..0] == [];
      case NotDeleted =>
        EvictMinimal(order[1..], total, maxBytes, delete);
        forall k | 0 <= k < r.visited && k <= |order|
          ensures total - TotalSize(Succeeded(order[..k], delete)) > maxBytes
        {
          if k > 0 {
            SucceededPrefix(order, k, delete);
            var x := Succeeded(order[1..][..k - 1], delete);
            assert [] + x == x;
          } else {
            assert order[..k] == [];
          }
        }
      case Deleted =>
        EvictMinimal(order[1..], total - f.size, maxBytes, delete);
        forall k | 0 <= k < r.visited && k <= |order|
          ensures total - TotalSize(Succeeded(order[..k], delete)) > maxBytes
        {
          if k > 0 {
            SucceededPrefix(order, k, delete);
            var x := Succeeded(order[1..][..k - 1], delete);
            assert ([f] + x)[1..] == x;
          } else {
            assert order[..k] == [];
          }
        }
    }
  }

  /**
   * When every delete succeeds the deleted files are a prefix of the order,
   * and the loop ends within the cap or at the end of the list.
   */
  lemma EvictAllSucceed(order: seq<Entry>, total: int, maxBytes: int, delete: Entry -> DeleteOutcome)
    requires forall i :: 0 <= i < |order| ==> delete(order[i]) == Deleted
    ensures var r := Evict(order, total, maxBytes, delete);
      && !r.aborted
      && r.visited <= |order|
      && r.deleted == order[..r.visited]
      && (r.visited == |order| || r.remaining <= maxBytes)
  {
    var r := Evict(order, total, maxBytes, delete);
    EvictAccounts(order, total, maxBytes, delete);
    EvictStops(order, total, maxBytes, delete);
    SucceededAll(order[..r.visited], delete);
  }

  /**
   * Oldest first: over a list sorted by age, the deleted files come out in
   * age order and none is newer than any file the loop did not reach.
   */
  lemma EvictInAgeOrder(order: seq<Entry>, total: int, maxBytes: int, delete: Entry -> DeleteOutcome)
    requires SortedByMtime(order)
    ensures var r := Evict(order, total, maxBytes, delete);
      && SortedByMtime(r.deleted)
      && forall d, j :: d in r.deleted && r.visited <= j < |order| ==> d.mtime <= order[j].mtime
  {
    var r := Evict(order, total, maxBytes, delete);
    EvictAccounts(order, total, maxBytes, delete);
    var p := order[..r.visited];
    assert SortedByMtime(p);
    SucceededSorted(p, delete);
    SucceededSplit(p, delete);
    forall d, j | d in r.deleted && r.visited <= j < |order|
      ensures d.mtime <= order[j].mtime
    {
      var i :| 0 <= i < |p| && p[i] == d;
      assert order[i] == d;
    }
  }

  // ---------------------------------------------------------------------------
  // The whole sweep.

  /** A cap of zero or fewer megabytes turns the sweep off, whatever the directory holds. */
  lemma SweepDisabledByCap(entries: seq<Entry>, mb: int32, io: SweepIo)
    requires mb <= 0
    ensures Swept(entries, MaxBytes(mb), io) == entries
  {
    WithoutNothing(entries);
  }

  /** A listing that fails (null) leaves the directory as it is. */
  lemma SweepUnlistable(entries: seq<Entry>, maxBytes: int, io: SweepIo)
    requires !io.listed
    ensures Swept(entries, maxBytes, io) == entries
  {
    WithoutNothing(entries);
  }

  /** Batch files summing to no more than the cap (no batch file at all included): nothing is deleted. */
  lemma SweepWithinCap(entries: seq<Entry>, maxBytes: int, io: SweepIo)
    requires TotalSize(Matching(entries)) <= maxBytes
    ensures Swept(entries, maxBytes, io) == entries
  {
    WithoutNothing(entries);
  }

  /** What the sweep deletes, or finds gone, is a set of batch files of the directory. */
  lemma SweepDeletesBatchFiles(entries: seq<Entry>, maxBytes: int, io: SweepIo)
    ensures var r := EvictionOf(entries, maxBytes, io);
      && (forall d :: d in r.deleted ==> d in entries && IsBatchName(d.name))
      && (forall d :: d in r.removed ==> d in entries && IsBatchName(d.name))
  {
    var files := Matching(entries);
    var r := EvictionOf(entries, maxBytes, io);
    if maxBytes > 0 && io.listed {
      var order := SortByMtime(files);
      EvictAccounts(order, TotalSize(files), maxBytes, io.delete);
      SucceededSplit(order[..r.visited], io.delete);
      GoneSplit(order[..r.visited], io.delete);
      MatchingMembers(entries);
      forall d | d in r.deleted || d in r.removed ensures d in entries && IsBatchName(d.name) {
        assert d in order;
        assert d in multiset(files);
      }
    }
  }

  lemma {:induction false} OthersWithout(s: seq<Entry>, gone: set<string>)
    requires forall n :: n in gone ==> IsBatchName(n)
    ensures Others(Without(s, gone)) == Others(s)
    decreases |s|
  {
    if s != [] {
      OthersWithout(s[1..], gone);
    }
  }

  /** Every file without the `.ndjson.gz` suffix is left alone: same files, same order. */
  lemma SweepKeepsOtherFiles(entries: seq<Entry>, maxBytes: int, io: SweepIo)
    ensures Others(Swept(entries, maxBytes, io)) == Others(entries)
  {
    var r := EvictionOf(entries, maxBytes, io);
    SweepDeletesBatchFiles(entries, maxBytes, io);
    forall n | n in NamesOf(r.removed) ensures IsBatchName(n) {
      NamesOfMember(r.removed, n);
    }
    OthersWithout(entries, NamesOf(r.removed));
  }

  lemma SortKeepsTotal(s: seq<Entry>)
    ensures TotalSize(SortByMtime(s)) == TotalSize(s)
  {
    SortTotalWithout(s, {});
    WithoutNothing(s);
    WithoutNothing(SortByMtime(s));
  }

  /**
   * Over a list of distinctly named files, deleting by name the files gone
   * leaves the start total less their sizes; those sizes include at least
   * every size the loop subtracted.
   */
  lemma RemainingTotal(order: seq<Entry>, total: int, maxBytes: int, delete: Entry -> DeleteOutcome)
    requires DistinctNames(order) && total == TotalSize(order)
    ensures var r := Evict(order, total, maxBytes, delete);
      && TotalSize(Without(order, NamesOf(r.removed))) + TotalSize(r.removed) == total
      && TotalSize(r.deleted) <= TotalSize(r.removed)
  {
    var r := Evict(order, total, maxBytes, delete);
    EvictAccounts(order, total, maxBytes, delete);
    var gone := NamesOf(r.removed);
    var p, q := order[..r.visited], order[r.visited..];
    assert order == p + q;
    DistinctAppend(p, q);
    WithoutAppend(p, q, gone);
    WithoutGone(p, delete);
    GoneSplit(p, delete);
    WithoutIgnoresAbsent(q, {}, gone);
    assert {} + gone == gone;
    WithoutNothing(q);
    TotalSizeAppend(Kept(p, delete), q);
    TotalSizeAppend(p, q);
  }

  /**
   * The batch files left after the sweep and the files gone add up to the
   * batch files before it; what is left is at most the total the loop ended
   * with, and exactly that when no delete returned false.
   */
  lemma SweepTotal(entries: seq<Entry>, maxBytes: int, io: SweepIo)
    requires DistinctNames(entries)
    ensures var r := EvictionOf(entries, maxBytes, io);
      var left := TotalSize(Matching(Swept(entries, maxBytes, io)));
      && left + TotalSize(r.removed) == TotalSize(Matching(entries))
      && left <= r.remaining
      && (r.removed == r.deleted ==> left == r.remaining)
  {
    var files := Matching(entries);
    var r := EvictionOf(entries, maxBytes, io);
    var gone := NamesOf(r.removed);
    MatchingWithout(entries, gone);
    if maxBytes <= 0 || !io.listed {
      WithoutNothing(files);
    } else {
      var order := SortByMtime(files);
      MatchingDistinct(entries);
      SortNames(files);
      SortKeepsTotal(files);
      EvictAccounts(order, TotalSize(files), maxBytes, io.delete);
      RemainingTotal(order, TotalSize(files), maxBytes, io.delete);
      SortTotalWithout(files, gone);
    }
  }

  /**
   * With no delete throwing, the loop over files summing to `total` leaves
   * no more than the cap once the files gone are taken away.
   */
  lemma EvictWithoutThrow(order: seq<Entry>, total: int, maxBytes: int, delete: Entry -> DeleteOutcome)
    requires total == TotalSize(order) && maxBytes > 0
    requires forall i :: 0 <= i < |order| ==> delete(order[i]) != Threw
    ensures total - TotalSize(Evict(order, total, maxBytes, delete).removed) <= maxBytes
  {
    var r := Evict(order, total, maxBytes, delete);
    EvictStops(order, total, maxBytes, delete);
    EvictAccounts(order, total, maxBytes, delete);
    var p := order[..r.visited];
    if r.visited < |order| {
      GoneSplit(p, delete);
    } else {
      assert p == order;
      GoneAll(order, delete);
    }
  }

  /**
   * Cap enforcement: when the listing works and no delete throws, the batch
   * files left add up to no more than a positive cap.
   */
  lemma SweepReachesCap(entries: seq<Entry>, maxBytes: int, io: SweepIo)
    requires DistinctNames(entries)
    requires maxBytes > 0 && io.listed
    requires forall e :: io.delete(e) != Threw
    ensures TotalSize(Matching(Swept(entries, maxBytes, io))) <= maxBytes
  {
    var files := Matching(entries);
    var order := SortByMtime(files);
    SweepTotal(entries, maxBytes, io);
    SortKeepsTotal(files);
    EvictWithoutThrow(order, TotalSize(files), maxBytes, io.delete);
  }

  /**
   * Over a list sorted by age, a file that is still there after the loop is
   * at least as new as every file the loop deleted: the only visited file
   * that stays is the one whose delete threw, the last one visited.
   */
  lemma SurvivorsOfEvict(order: seq<Entry>, total: int, maxBytes: int, delete: Entry -> DeleteOutcome)
    requires SortedByMtime(order)
    ensures var r := Evict(order, total, maxBytes, delete);
      forall d, e :: d in r.deleted && e in order && e.name !in NamesOf(r.removed) ==> d.mtime <= e.mtime
  {
    var r := Evict(order, total, maxBytes, delete);
    EvictInAgeOrder(order, total, maxBytes, delete);
    EvictAccounts(order, total, maxBytes, delete);
    EvictStops(order, total, maxBytes, delete);
    var p := order[..r.visited];
    SucceededSplit(p, delete);
    forall d, e | d in r.deleted && e in order && e.name !in NamesOf(r.removed)
      ensures d.mtime <= e.mtime
    {
      var k :| 0 <= k < |order| && order[k] == e;
      if k < r.visited {
        assert p[k] == e;
        if delete(e) != Threw {
          GoneMember(p, k, delete);
          NamesOfMember(r.removed, e.name);
        }
        var m :| 0 <= m < |p| && p[m] == d;
        assert order[m] == d;
      }
    }
  }

  /** Every batch file left by the sweep was in the sorted listing and is not among the files gone. */
  lemma SweepLeftovers(entries: seq<Entry>, maxBytes: int, io: SweepIo)
    ensures var r := EvictionOf(entries, maxBytes, io);
      forall e :: e in Matching(Swept(entries, maxBytes, io)) ==>
        e in SortByMtime(Matching(entries)) && e.name !in NamesOf(r.removed)
  {
    var files := Matching(entries);
    var gone := NamesOf(EvictionOf(entries, maxBytes, io).removed);
    var left := Matching(Swept(entries, maxBytes, io));
    assert left == Without(files, gone) by {
      MatchingWithout(entries, gone);
    }
    WithoutNames(files, gone);
    forall e | e in left ensures e in SortByMtime(files) {
      assert e in multiset(files);
    }
  }

  /**
   * Oldest first over the whole sweep: the files are deleted in age order; none
   * is newer than a batch file the loop did not reach; and every batch file
   * that survives is at least as new as every file deleted.
   */
  lemma SweepOldestFirst(entries: seq<Entry>, maxBytes: int, io: SweepIo)
    ensures var r := EvictionOf(entries, maxBytes, io);
      var order := SortByMtime(Matching(entries));
      && r.visited <= |order|
      && SortedByMtime(r.deleted)
      && (forall d, j :: d in r.deleted && r.visited <= j < |order| ==> d.mtime <= order[j].mtime)
      && (forall d, e :: d in r.deleted && e in Matching(Swept(entries, maxBytes, io)) ==> d.mtime <= e.mtime)
  {
    var files := Matching(entries);
    var order := SortByMtime(files);
    if maxBytes > 0 && io.listed {
      var r := EvictionOf(entries, maxBytes, io);
      assert r == Evict(order, TotalSize(files), maxBytes, io.delete);
      SortSorted(files);
      EvictAccounts(order, TotalSize(files), maxBytes, io.delete);
      EvictInAgeOrder(order, TotalSize(files), maxBytes, io.delete);
      SurvivorsOfEvict(order, TotalSize(files), maxBytes, io.delete);
      SweepLeftovers(entries, maxBytes, io);
    }
  }
}
