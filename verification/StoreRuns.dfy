/** What every state of the store keeps that a run can reach, whatever is stored, evicted, refused room, flushed,
    booted, or written by other code to files that are not the store's own: so the results on a full store hold
    whenever it is full, not only the first time. */
module StoreRuns {
  import opened Bits
  import opened Options
  import opened Records
  import opened MemorySpec
  import opened Persistence
  import opened Eviction

  /** The index is one for `es`, and lists no more rows than the store and the loader's buffer have room for. */
  ghost predicate Lists(files: Files, cap: nat, es: seq<Entry>)
  {
    INDEX_PATH in files && IsIndex(files[INDEX_PATH], es) && |es| <= cap && |es| <= INDEX_ROWS
  }

  ghost predicate IndexFits(files: Files, cap: nat)
  {
    INDEX_PATH in files ==> exists es :: Lists(files, cap, es)
  }

  ghost predicate Sound(m: Mem, cap: nat)
  {
    Accounted(m) && |m.entries| <= cap && AllGood(m.entries) && Canonical(m.files) && IndexFits(m.files, cap)
  }

  /** Types and importances are bytes, the loader's buffers have their sizes, and other code writes none of the store's
      files. */
  ghost predicate Sized(op: Op)
  {
    match op
    case StoreOp(e, _, _) => e.kind < 256 && e.importance < 256
    case FlushOp(_) => true
    case RebootOp(b, _) => GoodBuffers(b)
    case WriteOp(path, _) => Outside(path)
  }

  ghost predicate AllSized(ops: seq<Op>)
  {
    forall i :: 0 <= i < |ops| ==> Sized(ops[i])
  }

  // ----- stores and flushes -----

  lemma FlushKeepsIndex(m: Mem, cap: nat, junk: Junk)
    requires FlushFits(m) && |m.entries| <= cap && IndexFits(m.files, cap)
    ensures IndexFits(Flush(m, junk).files, cap)
  {
    if m.dirty > 0 {
      IndexIsIndex(Plain(m.entries), junk);
      assert Lists(Flush(m, junk).files, cap, Plain(m.entries));
    }
  }

  /** A flush in a state that need not be accounted for yet, as in the middle of a store. */
  lemma FlushKeepsSound(m: Mem, cap: nat, junk: Junk)
    requires FlushFits(m) && DirtyCount(m.entries) <= m.dirty
    requires |m.entries| <= cap && AllGood(m.entries) && Canonical(m.files) && IndexFits(m.files, cap)
    ensures Sound(Flush(m, junk), cap)
  {
    FlushCleans(m, junk);
    FlushKeepsIndex(m, cap, junk);
    if m.dirty > 0 {
      FlushCanonical(m, junk);
    } else {
      assert Flush(m, junk) == m;
    }
  }

  lemma RoomKeepsSound(m: Mem, cap: nat)
    requires cap > 0 && Sound(m, cap)
    ensures Sound(MakeRoom(m, cap), cap) && |MakeRoom(m, cap).entries| < cap
  {
    RoomCounts(m, cap);
    if |m.entries| >= cap {
      WorstScanInvariant(m.entries, |m.entries|);
    }
  }

  lemma StoreKeepsSound(m: Mem, cap: nat, e: Entry, granted: bool, junk: Junk)
    requires cap > 0 && Sound(m, cap) && StoreFits(m, cap, granted) && e.kind < 256 && e.importance < 256
    ensures Sound(Store(m, cap, e, granted, junk), cap)
  {
    var room := MakeRoom(m, cap);
    RoomKeepsSound(m, cap);
    RoomCounts(m, cap);
    AppendCounts(room, e);
    assert AllGood(Append(room, e).entries);
    if granted && m.dirty + 1 >= BATCH {
      FlushKeepsSound(Append(room, e), cap, junk);
    }
  }

  // ----- boots -----

  /** Whatever the files hold, a record that the loader accepts is a good entry. */
  lemma ReadGood(files: Files, path: string, buf: string)
    requires |buf| == RECORD_BUF
    ensures match ReadRecord(files, path, buf).1 case None => true case Some(e) => GoodEntry(e)
  {
    if path in files {
      ByteBelow(ReadInto(buf, files[path])[4..5]);
      ByteBelow(ReadInto(buf, files[path])[5..6]);
    }
  }

  lemma ByteBelow(s: string)
    requires |s| == 1
    ensures Number(s) < 256
  {
    assert s[1..] == [];
  }

  lemma {:induction false} LoadRowsGood(files: Files, index: string, buf: string, n: nat, granted: nat -> bool)
    requires |buf| == RECORD_BUF && 8 + ROW * n <= |index|
    ensures AllGood(LoadRows(files, index, buf, n, granted).0)
    decreases n
  {
    if n > 0 {
      var k := n - 1;
      LoadRowsGood(files, index, buf, k, granted);
      LoadRowsNext(files, index, buf, k, n, granted);
      ReadGood(files, PathAt(index, k), LoadRows(files, index, buf, k, granted).1);
    }
  }

  lemma IndexRows(files: Files, cap: nat, b: Buffers)
    requires IndexFits(files, cap) && GoodBuffers(b) && INDEX_PATH in files
    ensures Loadable(files, b) && RowCount(ReadInto(b.index, files[INDEX_PATH])) <= cap
  {
    var es :| Lists(files, cap, es);
    IndexReadBack(b.index, files[INDEX_PATH], es);
  }

  /** A boot never leaves the loader's buffers nor the array, whichever texts find room. */
  lemma BootKeepsSound(m: Mem, cap: nat, b: Buffers, granted: nat -> bool)
    requires Sound(m, cap) && GoodBuffers(b)
    ensures Loadable(m.files, b) && Sound(Load(Init(m), b, granted), cap)
  {
    if INDEX_PATH in m.files {
      IndexRows(m.files, cap, b);
      var index := ReadInto(b.index, m.files[INDEX_PATH]);
      LoadRowsGood(m.files, index, b.record, RowCount(index), granted);
    }
    LoadAccounts(Init(m), b, granted);
  }

  lemma WriteKeepsSound(m: Mem, cap: nat, path: string, data: string)
    requires Sound(m, cap) && Outside(path)
    ensures Sound(WriteFile(m, path, data), cap)
  {
    var w := WriteFile(m, path, data);
    if INDEX_PATH in m.files {
      var es :| Lists(m.files, cap, es);
      assert Lists(w.files, cap, es);
    }
  }

  // ----- what the files say -----

  /** The entry of a whole record file. */
  ghost function Recorded(files: Files, path: string): (r: Option<Entry>)
  {
    if path !in files || |files[path]| < HEADER || HEADER + LengthOf(files[path]) > |files[path]| then None
    else Some(Decode(files[path]))
  }

  /** The entries whose records the first `n` rows of an index name; rows without a file count for nothing. */
  ghost function DiskRows(files: Files, index: string, n: nat): (r: seq<Entry>)
    requires 8 + ROW * n <= |index|
    decreases n
  {
    if n == 0 then []
    else
      var e := Recorded(files, PathAt(index, Prev(n)));
      DiskRows(files, index, Prev(n)) + if e.Some? then [e.value] else []
  }

  /** What the files alone say that a boot gives back. */
  ghost function DiskList(files: Files): (r: seq<Entry>)
  {
    if INDEX_PATH !in files || |files[INDEX_PATH]| < 8 then []
    else
      var index := files[INDEX_PATH];
      var n := Number(index[..8]);
      if 8 + ROW * n > |index| then [] else DiskRows(files, index, n)
  }

  lemma ReadIsRecorded(files: Files, kind: nat, i: nat, buf: string)
    requires |buf| == RECORD_BUF && Canonical(files)
    ensures ReadRecord(files, RecordPath(kind, i), buf).1 == Recorded(files, RecordPath(kind, i))
  {
    var path := RecordPath(kind, i);
    if path in files {
      assert IsRecord(files[path]);
      var e :| GoodEntry(e) && files[path] == Record(e);
      ReadRecordBack(files, path, buf, e);
      DecodeRecord(e, Record(e));
    }
  }

  /** The rows of the loader's buffer and of the file itself name the same records. */
  lemma {:induction false} LoadRowsAreDiskRows(files: Files, index: string, x: string, es: seq<Entry>, buf: string,
                                              n: nat, granted: nat -> bool)
    requires AllGranted(granted) && |buf| == RECORD_BUF && Canonical(files)
    requires n <= |es| && 8 + ROW * |es| <= |index| && 8 + ROW * |es| <= |x|
    requires forall i :: 0 <= i < |es| ==> PathAt(index, i) == RecordPath(es[i].kind, i) == PathAt(x, i)
    ensures Plain(LoadRows(files, index, buf, n, granted).0) == DiskRows(files, x, n)
    decreases n
  {
    if n > 0 {
      var k := Prev(n);
      LoadRowsAreDiskRows(files, index, x, es, buf, k, granted);
      var (before, b) := LoadRows(files, index, buf, k, granted);
      ReadIsRecorded(files, es[k].kind, k, b);
      PlainRow(before, ReadRecord(files, PathAt(index, k), b).1);
    }
  }

  lemma PlainRow(es: seq<MemEntry>, e: Option<Entry>)
    ensures var r := if e.Some? then es + [MemEntry(e.value, false)] else es;
            Plain(r) == Plain(es) + if e.Some? then [e.value] else []
  {
  }

  /** A boot in which every text finds room gives back just what the files say, however dirty its buffers. */
  lemma {:induction false} BootIsDiskList(m: Mem, cap: nat, b: Buffers, granted: nat -> bool)
    requires Sound(m, cap) && GoodBuffers(b) && AllGranted(granted)
    ensures Loadable(m.files, b) && Plain(Load(Init(m), b, granted).entries) == DiskList(m.files)
  {
    if INDEX_PATH in m.files {
      var es :| Lists(m.files, cap, es);
      var x := m.files[INDEX_PATH];
      var index := ReadInto(b.index, x);
      IndexReadBack(b.index, x, es);
      LoadRowsAreDiskRows(m.files, index, x, es, b.record, |es|, granted);
      var rows := LoadRows(m.files, index, b.record, |es|, granted).0;
      assert [] + rows == rows;
    }
  }

  // ----- runs -----

  lemma StepKeepsSound(m: Mem, cap: nat, op: Op)
    requires cap > 0 && Sound(m, cap) && Sized(op)
    ensures match Step(m, cap, op) case None => cap > 4095 case Some(r) => Sound(r, cap)
  {
    match op
    case StoreOp(e, granted, junk) =>
      RoomKeepsSound(m, cap);
      if StoreFits(m, cap, granted) {
        StoreKeepsSound(m, cap, e, granted, junk);
      }
    case FlushOp(junk) =>
      if FlushFits(m) {
        FlushKeepsSound(m, cap, junk);
      }
    case RebootOp(b, grants) => BootKeepsSound(m, cap, b, grants);
    case WriteOp(path, data) => WriteKeepsSound(m, cap, path, data);
  }

  /** Over any run, with evictions, failing allocations and boots: no dirty entry is ever missed by the counter, the
      counter stays below ten, the capacity is kept, and record files hold records.  A store of at most 4095 entries
      never overruns a buffer. */
  lemma {:induction false} RunKeepsSound(m: Mem, cap: nat, ops: seq<Op>)
    requires cap > 0 && Sound(m, cap) && AllSized(ops)
    ensures match Run(m, cap, ops) case None => cap > 4095 case Some(r) => Sound(r, cap)
    decreases |ops|
  {
    if ops != [] {
      StepKeepsSound(m, cap, ops[0]);
      if Step(m, cap, ops[0]).Some? {
        RunKeepsSound(Step(m, cap, ops[0]).value, cap, ops[1..]);
      }
    }
  }

  lemma EmptySound(cap: nat)
    ensures Sound(Mem([], 0, map[]), cap)
  {
  }

  /** The state that a run from an empty store reaches. */
  ghost predicate Reached(m: Mem, cap: nat, ops: seq<Op>)
    requires cap > 0
  {
    AllSized(ops) && Run(Mem([], 0, map[]), cap, ops) == Some(m)
  }

  lemma ReachedSound(m: Mem, cap: nat, ops: seq<Op>)
    requires cap > 0 && Reached(m, cap, ops)
    ensures Sound(m, cap)
  {
    EmptySound(cap);
    RunKeepsSound(Mem([], 0, map[]), cap, ops);
  }

  /** In every reached state a flush and a boot give back RAM exactly if each clean entry has its record in the file of
      its position; or, where there is nothing to flush, if the files say what RAM holds. */
  lemma ReachedRoundTripIff(m: Mem, cap: nat, ops: seq<Op>, junk: Junk, b: Buffers, granted: nat -> bool)
    requires cap > 0 && Reached(m, cap, ops) && FlushFits(m) && GoodBuffers(b) && AllGranted(granted)
    ensures var f := Flush(m, junk);
            && Loadable(f.files, b)
            && (Plain(Load(Init(f), b, granted).entries) == Plain(m.entries)
                <==> if m.dirty > 0 then Synced(m) else DiskList(m.files) == Plain(m.entries))
  {
    ReachedSound(m, cap, ops);
    if m.dirty > 0 {
      FlushReloadIff(m, junk, b, granted);
    } else {
      BootIsDiskList(m, cap, b, granted);
    }
  }

  /** What a store, a flush and a boot need to give back RAM, seen before the store that evicts entry `w`. */
  ghost predicate SurvivesEviction(m: Mem, room: bool, w: nat)
    requires w < |m.entries|
  {
    if room || m.dirty > 0 then StaysFiled(m, w) else DiskList(m.files) == Without(Plain(m.entries), w)
  }

  lemma RefusedUnflushed(m: Mem, cap: nat, b: Buffers, granted: nat -> bool, w: nat)
    requires Sound(m, cap) && m.dirty == 0 && GoodBuffers(b) && AllGranted(granted)
    requires w < |m.entries| && IsWorst(m.entries, w)
    ensures var r := Evict(m);
            && Loadable(r.files, b)
            && (Plain(Load(Init(r), b, granted).entries) == Plain(r.entries)
                <==> DiskList(m.files) == Without(Plain(m.entries), w))
  {
    WorstScanFinds(m.entries, w);
    BootIsDiskList(m, cap, b, granted);
    assert Plain(Evict(m).entries) == Without(Plain(m.entries), w);
    assert Init(Evict(m)) == Init(m);
  }

  /** Whenever the store is full, however often it has evicted before, and whether or not the text finds room: a store,
      a flush and a boot give back RAM exactly if each clean entry that stays has its record in the file of its new
      position; or, where a refused store leaves nothing to flush, if the files already lack the evicted entry. */
  lemma ReachedEvictionIff(m: Mem, cap: nat, ops: seq<Op>, e: Entry, room: bool, junk: Junk, junk': Junk, b: Buffers,
                           granted: nat -> bool, w: nat)
    requires 0 < cap <= INDEX_ROWS && Reached(m, cap, ops) && |m.entries| == cap
    requires w < cap && IsWorst(m.entries, w)
    requires e.kind < 256 && e.importance < 256 && GoodBuffers(b) && AllGranted(granted)
    ensures StoreFits(m, cap, room) && FlushFits(Store(m, cap, e, room, junk))
    ensures var r := Store(m, cap, e, room, junk);
            var f := Flush(r, junk');
            && Loadable(f.files, b)
            && (Plain(Load(Init(f), b, granted).entries) == Plain(r.entries) <==> SurvivesEviction(m, room, w))
  {
    ReachedSound(m, cap, ops);
    if room || m.dirty > 0 {
      EvictionRoundTripIff(m, cap, e, room, junk, junk', b, granted, w);
    } else {
      RefusedUnflushed(m, cap, b, granted, w);
      assert Store(m, cap, e, room, junk) == Evict(m) && Flush(Evict(m), junk') == Evict(m);
    }
  }

  /** Wherever the files say what RAM holds and nothing is to be flushed, a refused store into a full memory loses the
      round trip: the evicted entry returns. */
  lemma RefusedLosesAgreement(m: Mem, w: nat)
    requires m.dirty == 0 && DiskList(m.files) == Plain(m.entries) && w < |m.entries|
    ensures !SurvivesEviction(m, false, w)
  {
  }

  /** The store for one entry, after that entry has been flushed. */
  function OneStored(a: Entry, junk: Junk): (r: Mem)
  {
    Flush(Store(Mem([], 0, map[]), 1, a, true, junk), junk)
  }

  lemma OneStoredRep(a: Entry, junk: Junk)
    requires GoodEntry(a)
    ensures Rep(OneStored(a, junk), Log([a], [a]))
  {
    EmptyRep();
    StoreKeepsRep(Mem([], 0, map[]), Log([], []), 1, a, junk);
    assert LogStore(Log([], []), a) == Log([a], []);
    FlushKeepsRep(Store(Mem([], 0, map[]), 1, a, true, junk), Log([a], []), junk);
  }

  lemma OneComesBack(m: Mem, a: Entry, b: Buffers, granted: nat -> bool)
    requires Rep(m, Log([a], [a])) && GoodBuffers(b) && AllGranted(granted)
    ensures |m.entries| == 1 && Evict(m).entries == []
    ensures Loadable(Evict(m).files, b) && Plain(Load(Init(Evict(m)), b, granted).entries) == [a]
  {
    RebootKeepsRep(m, Log([a], [a]), b, granted);
    WorstScanInvariant(m.entries, 1);
    assert Init(Evict(m)) == Init(m);
  }

  /** One entry, flushed, in a store for one: a refused store empties RAM, and the next boot brings the entry back. */
  lemma RefusedStoreInput(a: Entry, e: Entry, junk: Junk, b: Buffers, granted: nat -> bool)
    requires GoodEntry(a) && GoodBuffers(b) && AllGranted(granted)
    ensures StoreFits(OneStored(a, junk), 1, false)
    ensures var r := Store(OneStored(a, junk), 1, e, false, junk);
            && r.dirty == 0 && Flush(r, junk) == r && r.entries == []
            && Loadable(r.files, b) && Plain(Load(Init(r), b, granted).entries) == [a]
  {
    var m := OneStored(a, junk);
    OneStoredRep(a, junk);
    OneComesBack(m, a, b, granted);
  }
}
