/** What eviction does to the store: which entry goes, what the dirty counter still says, and when the files still
    agree with RAM afterwards. */
module Eviction {
  import opened Bits
  import opened Options
  import opened Records
  import opened MemorySpec
  import opened Persistence

  // ----- which entry goes -----

  ghost function Without(s: seq<Entry>, w: nat): (r: seq<Entry>)
    requires w < |s|
  {
    s[..w] + s[w + 1..]
  }

  lemma PlainFlush(m: Mem, junk: Junk)
    requires FlushFits(m)
    ensures Plain(Flush(m, junk).entries) == Plain(m.entries)
  {
    assert Plain(Clean(m.entries)) == Plain(m.entries);
  }

  /** A store into a full memory drops the earliest episodic entry of least importance below 255, or entry 0, keeps
      the others in order, puts the new entry last, and never exceeds the capacity; flushing on the way changes none
      of this. */
  lemma {:induction false} StoreEvicts(m: Mem, cap: nat, e: Entry, granted: bool, junk: Junk, w: nat)
    requires cap > 0 && |m.entries| == cap && IsWorst(m.entries, w) && StoreFits(m, cap, granted)
    ensures w < cap
    ensures var r := Store(m, cap, e, granted, junk);
            && |r.entries| <= cap
            && Plain(r.entries) == Without(Plain(m.entries), w) + if granted then [Clipped(e)] else []
  {
    WorstScanFinds(m.entries, w);
    WorstScanInvariant(m.entries, |m.entries|);
    var room := Evict(m);
    assert Plain(room.entries) == Without(Plain(m.entries), w);
    PlainAppend(room, e);
    if granted && m.dirty + 1 >= BATCH {
      PlainFlush(Append(room, e), junk);
    }
  }

  lemma PlainAppend(m: Mem, e: Entry)
    ensures Plain(Append(m, e).entries) == Plain(m.entries) + [Clipped(e)]
  {
  }

  /** Below capacity a store only appends. */
  lemma StoreAppends(m: Mem, cap: nat, e: Entry, granted: bool, junk: Junk)
    requires |m.entries| < cap && StoreFits(m, cap, granted)
    ensures Plain(Store(m, cap, e, granted, junk).entries) == Plain(m.entries) + if granted then [Clipped(e)] else []
  {
    PlainAppend(m, e);
    if granted && m.dirty + 1 >= BATCH {
      PlainFlush(Append(m, e), junk);
    }
  }

  // ----- the dirty counter -----

  ghost function DirtyCount(entries: seq<MemEntry>): (r: nat)
  {
    if entries == [] then 0 else DirtyCount(entries[..|entries| - 1]) + if entries[|entries| - 1].dirty then 1 else 0
  }

  lemma {:induction false} DirtyCountAppend(a: seq<MemEntry>, b: seq<MemEntry>)
    ensures DirtyCount(a + b) == DirtyCount(a) + DirtyCount(b)
    decreases |b|
  {
    if b == [] {
      assert a + b == a;
    } else {
      var c := b[..|b| - 1];
      assert (a + b)[..|a + b| - 1] == a + c;
      DirtyCountAppend(a, c);
    }
  }

  lemma {:induction false} DirtyCountZero(entries: seq<MemEntry>)
    ensures DirtyCount(entries) == 0 <==> forall i :: 0 <= i < |entries| ==> !entries[i].dirty
  {
    if entries != [] {
      DirtyCountZero(entries[..|entries| - 1]);
    }
  }

  /** The counter never misses an unsaved entry, and stays below the batch size. */
  ghost predicate Accounted(m: Mem)
  {
    DirtyCount(m.entries) <= m.dirty < BATCH
  }

  lemma SplitAround<T>(s: seq<T>, w: nat)
    requires w < |s|
    ensures s == s[..w] + ([s[w]] + s[w + 1..])
  {
  }

  lemma RemoveCounts(s: seq<MemEntry>, w: nat)
    requires w < |s|
    ensures DirtyCount(s[..w] + s[w + 1..]) <= DirtyCount(s)
  {
    var front, back := s[..w], s[w + 1..];
    SplitAround(s, w);
    DirtyCountAppend(front, [s[w]] + back);
    DirtyCountAppend([s[w]], back);
    DirtyCountAppend(front, back);
  }

  lemma EvictCounts(m: Mem)
    requires m.entries != []
    ensures DirtyCount(Evict(m).entries) <= DirtyCount(m.entries)
  {
    WorstScanInvariant(m.entries, |m.entries|);
    RemoveCounts(m.entries, WorstScan(m.entries, |m.entries|).0);
  }

  /** A flush leaves no entry dirty, also when it returns early. */
  lemma {:induction false} FlushCleans(m: Mem, junk: Junk)
    requires DirtyCount(m.entries) <= m.dirty && FlushFits(m)
    ensures var r := Flush(m, junk);
            r.dirty == 0 && Accounted(r) && forall i :: 0 <= i < |r.entries| ==> !r.entries[i].dirty
  {
    DirtyCountZero(m.entries);
    DirtyCountZero(Clean(m.entries));
  }

  lemma AppendCounts(m: Mem, e: Entry)
    ensures DirtyCount(Append(m, e).entries) == DirtyCount(m.entries) + 1
  {
    var last := MemEntry(Clipped(e), true);
    DirtyCountAppend(m.entries, [last]);
    assert [last][..0] == [];
  }

  lemma RoomCounts(m: Mem, cap: nat)
    requires cap > 0 && Accounted(m)
    ensures Accounted(MakeRoom(m, cap)) && MakeRoom(m, cap).dirty == m.dirty
  {
    if |m.entries| >= cap {
      EvictCounts(m);
    }
  }

  lemma {:induction false} StoreAccounts(m: Mem, cap: nat, e: Entry, granted: bool, junk: Junk)
    requires cap > 0 && Accounted(m) && StoreFits(m, cap, granted)
    ensures Accounted(Store(m, cap, e, granted, junk))
  {
    var room := MakeRoom(m, cap);
    RoomCounts(m, cap);
    AppendCounts(room, e);
    if granted && room.dirty + 1 >= BATCH {
      FlushCleans(Append(room, e), junk);
    }
  }

  lemma {:induction false} LoadRowsClean(files: Files, index: string, buf: string, n: nat, granted: nat -> bool)
    requires |buf| == RECORD_BUF && 8 + ROW * n <= |index|
    ensures forall i :: 0 <= i < |LoadRows(files, index, buf, n, granted).0| ==>
              !LoadRows(files, index, buf, n, granted).0[i].dirty
    decreases n
  {
    if n > 0 {
      LoadRowsClean(files, index, buf, Prev(n), granted);
    }
  }

  /** Loading adds no dirty entries, whatever the files hold and whichever allocations fail. */
  lemma {:induction false} LoadAccounts(m: Mem, b: Buffers, granted: nat -> bool)
    requires Accounted(m) && GoodBuffers(b) && Loadable(m.files, b)
    ensures Accounted(Load(m, b, granted))
  {
    if INDEX_PATH in m.files {
      var index := ReadInto(b.index, m.files[INDEX_PATH]);
      var es := LoadRows(m.files, index, b.record, RowCount(index), granted).0;
      LoadRowsClean(m.files, index, b.record, RowCount(index), granted);
      DirtyCountZero(es);
      DirtyCountAppend(m.entries, es);
    }
  }

  // ----- files and RAM -----

  ghost predicate Filed(files: Files, e: MemEntry, i: nat)
  {
    PathOf(e, i) in files && files[PathOf(e, i)] == Record(e.entry)
  }

  /** Every clean entry has its record in the file named after its position. */
  ghost predicate Synced(m: Mem)
  {
    forall i :: 0 <= i < |m.entries| && !m.entries[i].dirty ==> Filed(m.files, m.entries[i], i)
  }

  lemma RecordInjective(a: Entry, b: Entry)
    requires GoodEntry(a) && GoodEntry(b)
    ensures Record(a) == Record(b) <==> a == b
  {
    if Record(a) == Record(b) {
      DecodeRecord(a, Record(a));
      DecodeRecord(b, Record(a));
    }
  }

  /** Where entry `i` is after entry `w` has gone. */
  function Moved(i: nat, w: nat): (r: nat)
  {
    if i > w then i - 1 else i
  }

  /** The guard: each clean entry but the evicted one has its record in the file of its position after the eviction. */
  ghost predicate StaysFiled(m: Mem, w: nat)
  {
    forall i :: 0 <= i < |m.entries| && i != w && !m.entries[i].dirty ==> Filed(m.files, m.entries[i], Moved(i, w))
  }

  lemma EvictAt(m: Mem, w: nat, k: nat, next: nat)
    requires m.entries != [] && w == WorstScan(m.entries, |m.entries|).0 && w < |m.entries| && next == k + 1
    ensures |Evict(m).entries| == |m.entries| - 1
    ensures k < |Evict(m).entries| ==> Evict(m).entries[k] == if k < w then m.entries[k] else m.entries[next]
  {
  }

  lemma StaysSynced(m: Mem, w: nat, k: nat)
    requires m.entries != [] && w == WorstScan(m.entries, |m.entries|).0 && w < |m.entries| && StaysFiled(m, w)
    requires k < |Evict(m).entries| && !Evict(m).entries[k].dirty
    ensures Filed(m.files, Evict(m).entries[k], k)
  {
    var i := if k < w then k else k + 1;
    EvictAt(m, w, k, k + 1);
    assert m.entries[i] == Evict(m).entries[k] && Moved(i, w) == k;
  }

  lemma SyncedStays(m: Mem, w: nat, i: nat)
    requires m.entries != [] && w == WorstScan(m.entries, |m.entries|).0 && w < |m.entries| && Synced(Evict(m))
    requires i < |m.entries| && i != w && !m.entries[i].dirty
    ensures Filed(m.files, m.entries[i], Moved(i, w))
  {
    var k := Moved(i, w);
    EvictAt(m, w, k, k + 1);
    assert Evict(m).entries[k] == m.entries[i];
  }

  /** Evicting entry `w` leaves files and RAM in step exactly under the guard, in any state. */
  lemma {:induction false} EvictSyncedIff(m: Mem, w: nat)
    requires m.entries != [] && IsWorst(m.entries, w)
    ensures Synced(Evict(m)) <==> StaysFiled(m, w)
  {
    WorstScanFinds(m.entries, w);
    WorstScanInvariant(m.entries, |m.entries|);
    if StaysFiled(m, w) {
      forall k | 0 <= k < |Evict(m).entries| && !Evict(m).entries[k].dirty
        ensures Filed(m.files, Evict(m).entries[k], k)
      {
        StaysSynced(m, w, k);
      }
    }
    if Synced(Evict(m)) {
      forall i | 0 <= i < |m.entries| && i != w && !m.entries[i].dirty
        ensures Filed(m.files, m.entries[i], Moved(i, w))
      {
        SyncedStays(m, w, i);
      }
    }
  }

  /** Each clean entry after `w` repeats the entry before it. */
  ghost predicate Repeats(entries: seq<MemEntry>, w: nat)
  {
    forall i :: w < i < |entries| && !entries[i].dirty ==> Repeated(entries, i)
  }

  ghost predicate Repeated(entries: seq<MemEntry>, i: nat)
    requires 0 < i < |entries|
  {
    entries[i - 1].entry == entries[i].entry
  }

  /** Entry `i` of a represented store, moved down by one, is filed exactly if it repeats its predecessor. */
  lemma {:induction false} ShiftedFiled(m: Mem, log: Log, i: nat, k: nat)
    requires Rep(m, log) && i < |m.entries| && i == k + 1 && !m.entries[i].dirty
    ensures Filed(m.files, m.entries[i], k) <==> Repeated(m.entries, i)
  {
    var a, b := log.live[k], log.live[i];
    assert log.saved[k] == a && log.saved[i] == b;
    PathOfSameDir(a.kind, b.kind, k);
    RecordInjective(a, b);
    assert RecordPath(a.kind, k) in m.files && m.files[RecordPath(a.kind, k)] == Record(a);
  }

  lemma UnshiftedFiled(m: Mem, log: Log, i: nat)
    requires Rep(m, log) && i < |m.entries| && !m.entries[i].dirty
    ensures Filed(m.files, m.entries[i], i)
  {
    assert log.saved[i] == log.live[i];
  }

  /** In a store that still represents a log, as before its first eviction, the guard needs no look at the files. */
  lemma {:induction false} RepeatsIff(m: Mem, log: Log, w: nat)
    requires Rep(m, log)
    ensures StaysFiled(m, w) <==> Repeats(m.entries, w)
  {
    forall i | 0 <= i < |m.entries| && i != w && !m.entries[i].dirty
      ensures Filed(m.files, m.entries[i], Moved(i, w)) <==> i < w || Repeated(m.entries, i)
    {
      if i < w {
        UnshiftedFiled(m, log, i);
      } else {
        ShiftedFiled(m, log, i, Moved(i, w));
      }
    }
  }

  // ----- reloading -----

  ghost predicate AllGood(entries: seq<MemEntry>)
  {
    forall i :: 0 <= i < |entries| ==> GoodEntry(entries[i].entry)
  }

  ghost predicate IsRecord(x: string)
  {
    exists e :: GoodEntry(e) && x == Record(e)
  }

  /** Record files hold records as flush writes them. */
  ghost predicate Canonical(files: Files)
  {
    forall k: nat, i: nat :: RecordPath(k, i) in files ==> IsRecord(files[RecordPath(k, i)])
  }

  ghost predicate AllFiled(files: Files, entries: seq<MemEntry>, n: nat)
    requires n <= |entries|
  {
    forall i :: 0 <= i < n ==> Filed(files, entries[i], i)
  }

  lemma ReadCanonical(files: Files, e: MemEntry, i: nat, buf: string)
    requires |buf| == RECORD_BUF && Canonical(files) && GoodEntry(e.entry)
    ensures ReadRecord(files, PathOf(e, i), buf).1 == Some(e.entry) <==> Filed(files, e, i)
  {
    if PathOf(e, i) in files {
      assert IsRecord(files[PathOf(e, i)]);
      var x :| GoodEntry(x) && files[PathOf(e, i)] == Record(x);
      ReadRecordBack(files, PathOf(e, i), buf, x);
      RecordInjective(x, e.entry);
    }
  }

  /** Loading gives back the first `n` entries exactly if each of them is filed; otherwise a row is skipped or wrong. */
  lemma {:induction false} LoadRowsIff(files: Files, index: string, buf: string, n: nat, granted: nat -> bool,
                                      entries: seq<MemEntry>)
    requires AllGranted(granted) && |buf| == RECORD_BUF && n <= |entries| && 8 + ROW * |entries| <= |index|
    requires Canonical(files) && AllGood(entries)
    requires forall i :: 0 <= i < |entries| ==> PathAt(index, i) == PathOf(entries[i], i)
    ensures Plain(LoadRows(files, index, buf, n, granted).0) == Plain(entries[..n]) <==> AllFiled(files, entries, n)
    decreases n
  {
    if n > 0 {
      var k := Prev(n);
      LoadRowsIff(files, index, buf, k, granted, entries);
      var (es, b) := LoadRows(files, index, buf, k, granted);
      RowFiled(files, index, es, b, k, n, entries);
    }
  }

  lemma RowFiled(files: Files, index: string, es: seq<MemEntry>, buf: string, k: nat, n: nat, entries: seq<MemEntry>)
    requires |buf| == RECORD_BUF && |es| <= k < n <= |entries| && n == k + 1 && 8 + ROW * k + ROW <= |index|
    requires Canonical(files) && GoodEntry(entries[k].entry) && PathAt(index, k) == PathOf(entries[k], k)
    requires Plain(es) == Plain(entries[..k]) <==> AllFiled(files, entries, k)
    ensures Plain(LoadRow(files, index, es, buf, k, true).0) == Plain(entries[..n]) <==> AllFiled(files, entries, n)
  {
    ReadCanonical(files, entries[k], k, buf);
    RowIff(es, ReadRecord(files, PathAt(index, k), buf).1, entries, k, n);
    AllFiledNext(files, entries, k, n);
  }

  lemma AllFiledNext(files: Files, entries: seq<MemEntry>, k: nat, n: nat)
    requires k < n <= |entries| && n == k + 1
    ensures AllFiled(files, entries, n) <==> AllFiled(files, entries, k) && Filed(files, entries[k], k)
  {
    if AllFiled(files, entries, k) && Filed(files, entries[k], k) {
      forall i | 0 <= i < n
        ensures Filed(files, entries[i], i)
      {
        assert i < k || i == k;
      }
    }
  }

  /** A list of at most `k` entries, extended by at most one, is the first k + 1 entries only in the obvious way. */
  lemma RowIff(es: seq<MemEntry>, e: Option<Entry>, entries: seq<MemEntry>, k: nat, n: nat)
    requires |es| <= k < n <= |entries| && n == k + 1
    ensures var r := if e.Some? then es + [MemEntry(e.value, false)] else es;
            Plain(r) == Plain(entries[..n]) <==> Plain(es) == Plain(entries[..k]) && e == Some(entries[k].entry)
  {
    assert Plain(entries[..n]) == Plain(entries[..k]) + [entries[k].entry];
    if e.Some? {
      assert Plain(es + [MemEntry(e.value, false)]) == Plain(es) + [e.value];
      AppendInjective(Plain(es), e.value, Plain(entries[..k]), entries[k].entry);
    }
  }

  lemma AppendInjective<T>(a: seq<T>, x: T, b: seq<T>, y: T)
    ensures a + [x] == b + [y] <==> a == b && x == y
  {
    if a + [x] == b + [y] {
      assert a == (a + [x])[..|a|] && b == (b + [y])[..|b|] && (a + [x])[|a|] == x && (b + [y])[|b|] == y;
    }
  }

  lemma {:induction false} ReloadIff(m: Mem, b: Buffers, granted: nat -> bool)
    requires AllGranted(granted) && GoodBuffers(b)
    requires |m.entries| <= INDEX_ROWS && AllGood(m.entries) && Canonical(m.files)
    requires INDEX_PATH in m.files && IsIndex(m.files[INDEX_PATH], Plain(m.entries))
    ensures Loadable(m.files, b)
    ensures Plain(Load(Init(m), b, granted).entries) == Plain(m.entries) <==> AllFiled(m.files, m.entries, |m.entries|)
  {
    var index := ReadInto(b.index, m.files[INDEX_PATH]);
    IndexReadBack(b.index, m.files[INDEX_PATH], Plain(m.entries));
    LoadRowsIff(m.files, index, b.record, |m.entries|, granted, m.entries);
    assert m.entries[..|m.entries|] == m.entries;
    assert [] + LoadRows(m.files, index, b.record, |m.entries|, granted).0
        == LoadRows(m.files, index, b.record, |m.entries|, granted).0;
  }

  // ----- the whole boot cycle -----

  lemma RepCanonical(m: Mem, log: Log)
    requires Rep(m, log)
    ensures Canonical(m.files) && AllGood(m.entries)
  {
    forall k: nat, i: nat | RecordPath(k, i) in m.files
      ensures IsRecord(m.files[RecordPath(k, i)])
    {
      PathOfSameDir(k, log.saved[i].kind, i);
      assert log.saved[i] == log.live[i];
    }
  }

  lemma {:induction false} FlushCanonical(m: Mem, junk: Junk)
    requires m.dirty > 0 && FlushFits(m) && Canonical(m.files) && AllGood(m.entries)
    ensures Canonical(Flush(m, junk).files)
  {
    forall k: nat, i: nat | RecordPath(k, i) in Flush(m, junk).files
      ensures IsRecord(Flush(m, junk).files[RecordPath(k, i)])
    {
      PathsDistinct(k, i, k, i);
      if j :| 0 <= j < |m.entries| && m.entries[j].dirty && RecordPath(k, i) == PathOf(m.entries[j], j) {
        Written(m.files, m.entries, |m.entries|, j);
      } else {
        Untouched(m.files, m.entries, |m.entries|, RecordPath(k, i));
      }
    }
  }

  /** A flush files the dirty entries, and leaves the clean ones as they were. */
  lemma {:induction false} FlushFiles(m: Mem, junk: Junk, i: nat)
    requires m.dirty > 0 && FlushFits(m) && i < |m.entries|
    ensures Filed(Flush(m, junk).files, m.entries[i], i) <==> m.entries[i].dirty || Filed(m.files, m.entries[i], i)
  {
    var p := PathOf(m.entries[i], i);
    PathsDistinct(m.entries[i].entry.kind, i, 0, 0);
    if m.entries[i].dirty {
      Written(m.files, m.entries, |m.entries|, i);
    } else {
      forall j | 0 <= j < |m.entries| && m.entries[j].dirty
        ensures PathOf(m.entries[j], j) != p
      {
        PathsDistinct(m.entries[j].entry.kind, j, m.entries[i].entry.kind, i);
      }
      Untouched(m.files, m.entries, |m.entries|, p);
    }
  }

  /** A flush that writes, then a boot, gives back RAM exactly if files and RAM were in step before. */
  lemma {:induction false} FlushReloadIff(m: Mem, junk: Junk, b: Buffers, granted: nat -> bool)
    requires m.dirty > 0 && FlushFits(m) && AllGood(m.entries) && Canonical(m.files)
    requires GoodBuffers(b) && AllGranted(granted)
    ensures var f := Flush(m, junk);
            Loadable(f.files, b) && (Plain(Load(Init(f), b, granted).entries) == Plain(m.entries) <==> Synced(m))
  {
    var f := Flush(m, junk);
    FlushCanonical(m, junk);
    PlainFlush(m, junk);
    IndexIsIndex(Plain(m.entries), junk);
    ReloadIff(f, b, granted);
    forall i | 0 <= i < |m.entries|
      ensures Filed(f.files, f.entries[i], i) <==> m.entries[i].dirty || Filed(m.files, m.entries[i], i)
    {
      FlushFiles(m, junk, i);
    }
  }

  lemma AppendSynced(m: Mem, e: Entry)
    ensures Synced(Append(m, e)) <==> Synced(m)
  {
    var r := Append(m, e);
    assert forall i :: 0 <= i < |m.entries| ==> r.entries[i] == m.entries[i];
  }

  /** After a flush or two the boot finds the same: a second flush has nothing to write. */
  lemma FlushTwice(x: Mem, junk: Junk, junk': Junk)
    requires FlushFits(x)
    ensures FlushFits(Flush(x, junk)) && Flush(Flush(x, junk), junk') == Flush(x, junk)
  {
  }

  /** The round trip across an eviction, in any state with good entries whose record files hold records: a full store
      takes one more entry, or refuses it when its text finds no room, and then there is something to flush.  After a
      flush and a boot RAM is as it was exactly under the guard; otherwise an entry is lost or an evicted one comes
      back. */
  lemma {:induction false} EvictionRoundTripIff(m: Mem, cap: nat, e: Entry, room: bool, junk: Junk, junk': Junk,
                                               b: Buffers, granted: nat -> bool, w: nat)
    requires Canonical(m.files) && AllGood(m.entries) && 0 < |m.entries| == cap <= INDEX_ROWS && IsWorst(m.entries, w)
    requires e.kind < 256 && e.importance < 256 && GoodBuffers(b) && AllGranted(granted) && (room || m.dirty > 0)
    ensures StoreFits(m, cap, room) && FlushFits(Store(m, cap, e, room, junk))
    ensures var r := Store(m, cap, e, room, junk);
            var f := Flush(r, junk');
            && Loadable(f.files, b)
            && (Plain(Load(Init(f), b, granted).entries) == Plain(r.entries) <==> StaysFiled(m, w))
  {
    WorstScanInvariant(m.entries, |m.entries|);
    var left := Evict(m);
    var x := Append(left, e);
    EvictSyncedIff(m, w);
    AppendSynced(left, e);
    assert AllGood(left.entries) && AllGood(x.entries);
    if !room {
      FlushReloadIff(left, junk', b, granted);
    } else if x.dirty >= BATCH {
      FlushTwice(x, junk, junk');
      FlushReloadIff(x, junk, b, granted);
      PlainFlush(x, junk);
    } else {
      FlushReloadIff(x, junk', b, granted);
    }
  }

  lemma TwoLoseAgreement(m: Mem, a: Entry, c: Entry, e: Entry, junk: Junk, b: Buffers, granted: nat -> bool)
    requires a.kind == EPISODIC && c.kind == EPISODIC && a.importance == c.importance < 255
    requires Rep(m, Log([a, c], [a, c])) && a != c
    requires e.kind < 256 && e.importance < 256 && GoodBuffers(b) && AllGranted(granted)
    ensures StoreFits(m, 2, true) && FlushFits(Store(m, 2, e, true, junk))
    ensures var r := Store(m, 2, e, true, junk);
            var f := Flush(r, junk);
            Loadable(f.files, b) && Plain(Load(Init(f), b, granted).entries) != Plain(r.entries)
  {
    assert m.entries[0] == MemEntry(a, false) && m.entries[1] == MemEntry(c, false);
    assert IsWorst(m.entries, 0);
    assert !Repeated(m.entries, 1);
    RepeatsIff(m, Log([a, c], [a, c]), 0);
    RepCanonical(m, Log([a, c], [a, c]));
    EvictionRoundTripIff(m, 2, e, true, junk, junk, b, granted, 0);
  }

  /** Two different episodic entries of the same importance, flushed, in a store for two: the next store breaks the
      round trip. */
  lemma EvictionLosesAgreement(a: Entry, c: Entry, e: Entry, junk: Junk, b: Buffers, granted: nat -> bool)
    requires a.kind == EPISODIC && c.kind == EPISODIC && a.importance == c.importance < 255
    requires GoodEntry(a) && GoodEntry(c) && a != c
    requires e.kind < 256 && e.importance < 256 && GoodBuffers(b) && AllGranted(granted)
    ensures var m := Flush(Store(Store(Mem([], 0, map[]), 2, a, true, junk), 2, c, true, junk), junk);
            var r := Store(m, 2, e, true, junk);
            FlushFits(r) && var f := Flush(r, junk);
            Loadable(f.files, b) && Plain(Load(Init(f), b, granted).entries) != Plain(r.entries)
  {
    var m := Flush(Store(Store(Mem([], 0, map[]), 2, a, true, junk), 2, c, true, junk), junk);
    TwoStored(a, c, junk);
    TwoLoseAgreement(m, a, c, e, junk, b, granted);
  }

  lemma TwoStored(a: Entry, c: Entry, junk: Junk)
    requires GoodEntry(a) && GoodEntry(c)
    ensures Rep(Flush(Store(Store(Mem([], 0, map[]), 2, a, true, junk), 2, c, true, junk), junk), Log([a, c], [a, c]))
  {
    EmptyRep();
    var m1 := Store(Mem([], 0, map[]), 2, a, true, junk);
    StoreKeepsRep(Mem([], 0, map[]), Log([], []), 2, a, junk);
    assert LogStore(Log([], []), a) == Log([a], []);
    StoreKeepsRep(m1, Log([a], []), 2, c, junk);
    assert LogStore(Log([a], []), c) == Log([a, c], []);
    FlushKeepsRep(Store(m1, 2, c, true, junk), Log([a, c], []), junk);
  }
}
