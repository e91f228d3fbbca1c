/** The persistent store implements a log: what has been flushed comes back at the next boot, and nothing else.

    The abstract store is a sequence of live entries, of which a prefix is saved.  As long as nothing is evicted, the
    files hold exactly the saved prefix, entry i in the file named after i, and the index lists those files. */
module Persistence {
  import opened Bits
  import opened Options
  import opened Records
  import opened MemorySpec

  datatype Log = Log(live: seq<Entry>, saved: seq<Entry>)

  function LogFlush(log: Log): (r: Log)
  {
    Log(log.live, log.live)
  }

  /** A store saves everything once ten entries are unsaved. */
  function LogStore(log: Log, e: Entry): (r: Log)
  {
    var live := log.live + [Clipped(e)];
    Log(live, if |live| - |log.saved| >= BATCH then live else log.saved)
  }

  function LogReboot(log: Log): (r: Log)
  {
    Log(log.saved, log.saved)
  }

  // ----- the representation -----

  /** Every saved entry has its record in its own file. */
  ghost predicate OnDisk(files: Files, saved: seq<Entry>)
  {
    forall i :: 0 <= i < |saved| ==>
      RecordPath(saved[i].kind, i) in files && files[RecordPath(saved[i].kind, i)] == Record(saved[i])
  }

  /** There are no other files. */
  ghost predicate Tidy(files: Files, saved: seq<Entry>)
  {
    forall k: nat, i: nat :: RecordPath(k, i) in files ==> i < |saved| && Dir(k) == Dir(saved[i].kind)
  }

  ghost predicate Indexed(files: Files, saved: seq<Entry>)
  {
    if INDEX_PATH in files then IsIndex(files[INDEX_PATH], saved) else saved == []
  }

  ghost predicate Holds(entries: seq<MemEntry>, log: Log)
  {
    && |entries| == |log.live| && log.saved <= log.live
    && forall i :: 0 <= i < |entries| ==>
         entries[i] == MemEntry(log.live[i], i >= |log.saved|) && GoodEntry(log.live[i])
  }

  ghost predicate Rep(m: Mem, log: Log)
  {
    && Holds(m.entries, log) && |log.live| <= INDEX_ROWS
    && m.dirty == |log.live| - |log.saved| < BATCH
    && OnDisk(m.files, log.saved) && Tidy(m.files, log.saved) && Indexed(m.files, log.saved)
  }

  /** The store of a first boot represents the empty log. */
  lemma EmptyRep()
    ensures Rep(Mem([], 0, map[]), Log([], []))
  {
  }

  // ----- writing -----

  lemma {:induction false} Written(files: Files, entries: seq<MemEntry>, n: nat, i: nat)
    requires i < n <= |entries| && entries[i].dirty
    ensures PathOf(entries[i], i) in WriteDirty(files, entries, n)
    ensures WriteDirty(files, entries, n)[PathOf(entries[i], i)] == Record(entries[i].entry)
    decreases n
  {
    if i < n - 1 {
      PathsDistinct(entries[i].entry.kind, i, entries[n - 1].entry.kind, n - 1);
      Written(files, entries, n - 1, i);
    }
  }

  lemma {:induction false} Untouched(files: Files, entries: seq<MemEntry>, n: nat, p: string)
    requires n <= |entries| && forall i :: 0 <= i < n && entries[i].dirty ==> p != PathOf(entries[i], i)
    ensures p in WriteDirty(files, entries, n) <==> p in files
    ensures p in files ==> WriteDirty(files, entries, n)[p] == files[p]
    decreases n
  {
    if n > 0 {
      Untouched(files, entries, n - 1, p);
    }
  }

  lemma {:induction false} FlushOnDisk(m: Mem, log: Log, junk: Junk)
    requires Holds(m.entries, log) && OnDisk(m.files, log.saved) && m.dirty > 0 && FlushFits(m)
    ensures OnDisk(Flush(m, junk).files, log.live)
  {
    forall i | 0 <= i < |log.live|
      ensures var p := RecordPath(log.live[i].kind, i);
              p in Flush(m, junk).files && Flush(m, junk).files[p] == Record(log.live[i])
    {
      PathsDistinct(log.live[i].kind, i, 0, 0);
      if i >= |log.saved| {
        Written(m.files, m.entries, |m.entries|, i);
      } else {
        forall j | 0 <= j < |m.entries| && m.entries[j].dirty
          ensures PathOf(m.entries[j], j) != RecordPath(log.live[i].kind, i)
        {
          PathsDistinct(m.entries[j].entry.kind, j, log.live[i].kind, i);
        }
        Untouched(m.files, m.entries, |m.entries|, RecordPath(log.live[i].kind, i));
      }
    }
  }

  lemma {:induction false} FlushTidy(m: Mem, log: Log, junk: Junk)
    requires Holds(m.entries, log) && Tidy(m.files, log.saved) && m.dirty > 0 && FlushFits(m)
    ensures Tidy(Flush(m, junk).files, log.live)
  {
    forall k: nat, i: nat | RecordPath(k, i) in Flush(m, junk).files
      ensures i < |log.live| && Dir(k) == Dir(log.live[i].kind)
    {
      PathsDistinct(k, i, k, i);
      if j :| 0 <= j < |m.entries| && m.entries[j].dirty && RecordPath(k, i) == PathOf(m.entries[j], j) {
        PathsDistinct(k, i, m.entries[j].entry.kind, j);
      } else {
        Untouched(m.files, m.entries, |m.entries|, RecordPath(k, i));
      }
    }
  }

  /** The representation without the bound on unsaved entries, as it is just before a batch is written. */
  ghost predicate Unbatched(m: Mem, log: Log)
  {
    && Holds(m.entries, log) && |log.live| <= INDEX_ROWS && m.dirty == |log.live| - |log.saved|
    && OnDisk(m.files, log.saved) && Tidy(m.files, log.saved) && Indexed(m.files, log.saved)
  }

  /** A flush saves everything. */
  lemma {:induction false} FlushKeepsRep(m: Mem, log: Log, junk: Junk)
    requires Unbatched(m, log)
    ensures Rep(Flush(m, junk), LogFlush(log))
  {
    if m.dirty > 0 {
      FlushOnDisk(m, log, junk);
      FlushTidy(m, log, junk);
      IndexIsIndex(Plain(m.entries), junk);
      assert Plain(m.entries) == log.live;
    } else {
      assert log.saved == log.live;
    }
  }

  /** A store appends, and saves everything when the batch is full. */
  lemma {:induction false} StoreKeepsRep(m: Mem, log: Log, cap: nat, e: Entry, junk: Junk)
    requires Rep(m, log) && |log.live| < cap && |log.live| < INDEX_ROWS && GoodEntry(Clipped(e))
    ensures Rep(Store(m, cap, e, true, junk), LogStore(log, e))
  {
    var r, log' := Append(m, e), Log(log.live + [Clipped(e)], log.saved);
    assert Unbatched(r, log');
    if r.dirty >= BATCH {
      FlushKeepsRep(r, log', junk);
    }
  }

  // ----- loading -----

  lemma ReadRecordBack(files: Files, path: string, buf: string, e: Entry)
    requires |buf| == RECORD_BUF && GoodEntry(e) && path in files && files[path] == Record(e)
    ensures ReadRecord(files, path, buf).1 == Some(e)
  {
    DecodeRecord(e, ReadInto(buf, Record(e)));
  }

  ghost predicate Loaded(es: seq<MemEntry>, saved: seq<Entry>, n: nat)
    requires n <= |saved|
  {
    |es| == n && forall i :: 0 <= i < n ==> es[i] == MemEntry(saved[i], false)
  }

  lemma LoadRowBack(files: Files, index: string, es: seq<MemEntry>, buf: string, k: nat, n: nat, saved: seq<Entry>)
    requires |buf| == RECORD_BUF && k < n <= |saved| && n == k + 1 && 8 + ROW * k + ROW <= |index|
    requires Loaded(es, saved, k)
    requires OnDisk(files, saved) && GoodEntry(saved[k]) && PathAt(index, k) == RecordPath(saved[k].kind, k)
    ensures Loaded(LoadRow(files, index, es, buf, k, true).0, saved, n)
  {
    ReadRecordBack(files, PathAt(index, k), buf, saved[k]);
    assert LoadRow(files, index, es, buf, k, true).0 == es + [MemEntry(saved[k], false)];
    LoadedAppend(es, saved, k, n);
  }

  lemma LoadedAppend(es: seq<MemEntry>, saved: seq<Entry>, k: nat, n: nat)
    requires k < n <= |saved| && n == k + 1 && Loaded(es, saved, k)
    ensures Loaded(es + [MemEntry(saved[k], false)], saved, n)
  {
  }

  /** Every text finds room. */
  ghost predicate AllGranted(granted: nat -> bool)
  {
    forall k: nat :: granted(k)
  }

  lemma {:induction false} LoadRowsBack(files: Files, index: string, buf: string, n: nat, granted: nat -> bool,
                                       saved: seq<Entry>)
    requires AllGranted(granted) && |buf| == RECORD_BUF && n <= |saved| && 8 + ROW * |saved| <= |index|
    requires OnDisk(files, saved) && forall i :: 0 <= i < |saved| ==> GoodEntry(saved[i])
    requires forall i :: 0 <= i < |saved| ==> PathAt(index, i) == RecordPath(saved[i].kind, i)
    ensures Loaded(LoadRows(files, index, buf, n, granted).0, saved, n)
    decreases n
  {
    if n > 0 {
      LoadRowsBack(files, index, buf, Prev(n), granted, saved);
      var (es, b) := LoadRows(files, index, buf, Prev(n), granted);
      LoadRowBack(files, index, es, b, Prev(n), n, saved);
    }
  }

  lemma {:induction false} IndexReadBack(buf: string, x: string, saved: seq<Entry>)
    requires |buf| == INDEX_BUF && IsIndex(x, saved) && |saved| <= INDEX_ROWS
    ensures var index := ReadInto(buf, x);
            && RowCount(index) == |saved|
            && forall i :: 0 <= i < |saved| ==> PathAt(index, i) == RecordPath(saved[i].kind, i)
  {
    var index := ReadInto(buf, x);
    assert index[..8] == x[..8];
    forall i | 0 <= i < |saved|
      ensures PathAt(index, i) == PathAt(x, i)
    {
      assert index[8 + ROW * i..8 + ROW * i + 255] == x[8 + ROW * i..8 + ROW * i + 255];
    }
  }

  lemma {:induction false} IndexLoadsBack(files: Files, saved: seq<Entry>, b: Buffers, granted: nat -> bool)
    requires AllGranted(granted) && GoodBuffers(b)
    requires INDEX_PATH in files && IsIndex(files[INDEX_PATH], saved) && |saved| <= INDEX_ROWS
    requires OnDisk(files, saved) && forall i :: 0 <= i < |saved| ==> GoodEntry(saved[i])
    ensures Loadable(files, b)
    ensures Loaded(Load(Mem([], 0, files), b, granted).entries, saved, |saved|)
  {
    var index := ReadInto(b.index, files[INDEX_PATH]);
    IndexReadBack(b.index, files[INDEX_PATH], saved);
    LoadRowsBack(files, index, b.record, |saved|, granted, saved);
  }

  /** A boot never leaves the loader's buffers, and brings back exactly the saved entries. */
  lemma {:induction false} RebootKeepsRep(m: Mem, log: Log, b: Buffers, granted: nat -> bool)
    requires Rep(m, log) && GoodBuffers(b) && AllGranted(granted)
    ensures Loadable(m.files, b)
    ensures Rep(Load(Init(m), b, granted), LogReboot(log))
  {
    if INDEX_PATH in m.files {
      IndexLoadsBack(m.files, log.saved, b, granted);
    }
  }

  // ----- writes by other code -----

  /** Neither the index nor the file of any entry. */
  ghost predicate Outside(path: string)
  {
    path != INDEX_PATH && forall k: nat, i: nat :: path != RecordPath(k, i)
  }

  lemma WriteKeepsRep(m: Mem, log: Log, path: string, data: string)
    requires Rep(m, log) && Outside(path)
    ensures Rep(WriteFile(m, path, data), log)
  {
  }

  /** No byte is NUL, as in every C string. */
  ghost predicate NoNul(data: string)
  {
    forall i :: 0 <= i < |data| ==> data[i] as int % 256 != 0
  }

  lemma RecordHasNul(e: Entry)
    ensures !NoNul(Record(e))
  {
    assert Bytes(0, 2)[0] == Byte(0);
    assert HeaderFront(e)[6] == Bytes(0, 2)[0];
    assert Record(e)[6] == HeaderFront(e)[6];
  }

  lemma IndexHasNul(x: string, entries: seq<Entry>)
    requires IsIndex(x, entries) && |entries| <= INDEX_ROWS
    ensures !NoNul(x)
  {
    assert Pow256(2) == 0x1_0000 && Pow256(4) == 0x1_0000_0000 && Pow256(6) >= Pow256(4) && Pow256(7) >= Pow256(6);
    assert x[..8][7] == x[7];
    if NoNul(x) {
      NumberLast(x[..8]);
    }
  }

  /** A text written by other code leaves the representation alone exactly if it goes to none of the store's files: it
      can be neither a record nor an index, since both contain NULs. */
  lemma {:induction false} WriteKeepsRepIff(m: Mem, log: Log, path: string, data: string)
    requires Rep(m, log) && NoNul(data)
    ensures Rep(WriteFile(m, path, data), log) <==> Outside(path)
  {
    var w := WriteFile(m, path, data);
    if Outside(path) {
      WriteKeepsRep(m, log, path, data);
    } else if Rep(w, log) {
      if path == INDEX_PATH {
        IndexHasNul(data, log.saved);
      } else {
        var k: nat, i: nat :| path == RecordPath(k, i);
        assert RecordPath(k, i) in w.files;
        PathOfSameDir(k, log.saved[i].kind, i);
        RecordHasNul(log.saved[i]);
      }
    }
  }

  lemma {:induction false} LoadRowsNothing(files: Files, index: string, buf: string, n: nat, granted: nat -> bool)
    requires |buf| == RECORD_BUF && 8 + ROW * n <= |index|
    requires forall k :: 0 <= k < n ==> PathAt(index, k) !in files
    ensures LoadRows(files, index, buf, n, granted).0 == []
    decreases n
  {
    if n > 0 {
      LoadRowsNothing(files, index, buf, n - 1, granted);
      LoadRowsNext(files, index, buf, n - 1, n, granted);
    }
  }

  lemma BlankAfterFirst(buf: string, c: char)
    requires |buf| == INDEX_BUF && forall k :: 0 <= k < INDEX_BUF ==> buf[k] == '\0'
    ensures var index := ReadInto(buf, [c]);
            Number(index[..8]) == c as int % 256 && forall k :: 1 <= k < INDEX_BUF ==> index[k] == '\0'
  {
    var index := ReadInto(buf, [c]);
    assert index == [c] + buf[1..];
    NumberFirst(index[..8]);
  }

  lemma BlankRow(index: string, i: nat)
    requires 8 + ROW * i + ROW <= |index| && forall k :: 1 <= k < |index| ==> index[k] == '\0'
    ensures PathAt(index, i) == []
  {
    var row := index[8 + ROW * i..8 + ROW * i + 255];
    assert row[0] == index[8 + ROW * i];
  }

  /** One letter written over the index, and everything is forgotten at the next boot of a machine whose buffers are
      blank: the index then lists 120 empty names. */
  lemma IndexOverwritten(m: Mem, b: Buffers, granted: nat -> bool)
    requires GoodBuffers(b) && (forall k :: 0 <= k < INDEX_BUF ==> b.index[k] == '\0') && "" !in m.files
    ensures var w := WriteFile(m, INDEX_PATH, "x");
            Loadable(w.files, b) && Load(Init(w), b, granted).entries == []
  {
    var w := WriteFile(m, INDEX_PATH, "x");
    var index := ReadInto(b.index, "x");
    BlankAfterFirst(b.index, 'x');
    forall k | 0 <= k < 120
      ensures PathAt(index, k) == ""
    {
      BlankRow(index, k);
    }
    LoadRowsNothing(w.files, index, b.record, 120, granted);
  }

  /** The first `n` saved entries but entry `j`. */
  ghost function AllBut(saved: seq<Entry>, j: nat, n: nat): (r: seq<Entry>)
    requires j < |saved| && n <= |saved|
  {
    if n <= j then saved[..n] else saved[..j] + saved[j + 1..n]
  }

  /** Every entry but `j` has its record, and the file of `j` is one that the loader does not accept. */
  ghost predicate OnlySpoiled(files: Files, saved: seq<Entry>, j: nat)
    requires j < |saved|
  {
    && (forall i :: 0 <= i < |saved| && i != j ==>
          RecordPath(saved[i].kind, i) in files && files[RecordPath(saved[i].kind, i)] == Record(saved[i]))
    && (RecordPath(saved[j].kind, j) in files ==> !Acceptable(files[RecordPath(saved[j].kind, j)]))
  }

  lemma PlainAppended(es: seq<MemEntry>, e: Entry)
    ensures Plain(es + [MemEntry(e, false)]) == Plain(es) + [e]
  {
  }

  lemma AllButNext(saved: seq<Entry>, j: nat, k: nat, n: nat)
    requires j < |saved| && k < n <= |saved| && n == k + 1
    ensures AllBut(saved, j, n) == AllBut(saved, j, k) + if k == j then [] else [saved[k]]
  {
  }

  lemma {:induction false} LoadRowsSkip(files: Files, index: string, buf: string, n: nat, granted: nat -> bool,
                                       saved: seq<Entry>, j: nat)
    requires AllGranted(granted) && |buf| == RECORD_BUF && n <= |saved| && 8 + ROW * |saved| <= |index| && j < |saved|
    requires OnlySpoiled(files, saved, j) && forall i :: 0 <= i < |saved| ==> GoodEntry(saved[i])
    requires forall i :: 0 <= i < |saved| ==> PathAt(index, i) == RecordPath(saved[i].kind, i)
    ensures Plain(LoadRows(files, index, buf, n, granted).0) == AllBut(saved, j, n)
    decreases n
  {
    if n > 0 {
      var k := Prev(n);
      LoadRowsSkip(files, index, buf, k, granted, saved, j);
      var (es, b) := LoadRows(files, index, buf, k, granted);
      AllButNext(saved, j, k, n);
      if k == j {
        ReadRecordIff(files, PathAt(index, k), b);
      } else {
        ReadRecordBack(files, PathAt(index, k), b, saved[k]);
        PlainAppended(es, saved[k]);
      }
    }
  }

  lemma EmptyLoad(files: Files, b: Buffers, granted: nat -> bool, index: string, n: nat)
    requires GoodBuffers(b) && INDEX_PATH in files && index == ReadInto(b.index, files[INDEX_PATH])
    requires RowCount(index) == n <= INDEX_ROWS
    ensures Loadable(files, b)
    ensures Load(Mem([], 0, files), b, granted).entries == LoadRows(files, index, b.record, n, granted).0
  {
    var rows := LoadRows(files, index, b.record, n, granted).0;
    assert [] + rows == rows;
  }

  lemma LoadsAllBut(files: Files, saved: seq<Entry>, j: nat, b: Buffers, granted: nat -> bool)
    requires AllGranted(granted) && GoodBuffers(b) && j < |saved| <= INDEX_ROWS
    requires INDEX_PATH in files && IsIndex(files[INDEX_PATH], saved)
    requires OnlySpoiled(files, saved, j) && forall i :: 0 <= i < |saved| ==> GoodEntry(saved[i])
    ensures Loadable(files, b)
    ensures Plain(Load(Mem([], 0, files), b, granted).entries) == saved[..j] + saved[j + 1..]
  {
    var index := ReadInto(b.index, files[INDEX_PATH]);
    IndexReadBack(b.index, files[INDEX_PATH], saved);
    EmptyLoad(files, b, granted, index, |saved|);
    LoadRowsSkip(files, index, b.record, |saved|, granted, saved, j);
  }

  lemma SpoiledFile(files: Files, saved: seq<Entry>, j: nat, data: string)
    requires OnDisk(files, saved) && j < |saved| && !Acceptable(data)
    ensures OnlySpoiled(files[RecordPath(saved[j].kind, j) := data], saved, j)
  {
    forall i | 0 <= i < |saved| && i != j
      ensures RecordPath(saved[i].kind, i) != RecordPath(saved[j].kind, j)
    {
      PathsDistinct(saved[i].kind, i, saved[j].kind, j);
    }
  }

  /** A text that is no record, written over the file of one saved entry: the next boot gives back exactly the
      others. */
  lemma {:induction false} BootSkipsSpoiled(m: Mem, log: Log, j: nat, data: string, b: Buffers, granted: nat -> bool)
    requires Rep(m, log) && j < |log.saved| && !Acceptable(data) && GoodBuffers(b) && AllGranted(granted)
    ensures var w := WriteFile(m, RecordPath(log.saved[j].kind, j), data);
            && Loadable(w.files, b)
            && Plain(Load(Init(w), b, granted).entries) == log.saved[..j] + log.saved[j + 1..]
  {
    var w := WriteFile(m, RecordPath(log.saved[j].kind, j), data);
    PathsDistinct(log.saved[j].kind, j, 0, 0);
    SpoiledFile(m.files, log.saved, j, data);
    SavedGood(m, log);
    LoadsAllBut(w.files, log.saved, j, b, granted);
  }

  lemma SavedGood(m: Mem, log: Log)
    requires Rep(m, log)
    ensures |log.saved| <= INDEX_ROWS && forall i :: 0 <= i < |log.saved| ==> GoodEntry(log.saved[i])
    ensures log.saved != [] ==> INDEX_PATH in m.files && IsIndex(m.files[INDEX_PATH], log.saved)
  {
  }

  /** Any text of fewer than 28 bytes is such a text. */
  lemma ShortTextSpoils(m: Mem, log: Log, j: nat, data: string, b: Buffers, granted: nat -> bool)
    requires Rep(m, log) && j < |log.saved| && |data| < 28 && GoodBuffers(b) && AllGranted(granted)
    ensures var w := WriteFile(m, RecordPath(log.saved[j].kind, j), data);
            && Loadable(w.files, b)
            && Plain(Load(Init(w), b, granted).entries) == log.saved[..j] + log.saved[j + 1..]
  {
    BootSkipsSpoiled(m, log, j, data, b, granted);
  }

  // ----- runs -----

  datatype Op =
    | StoreOp(e: Entry, granted: bool, junk: Junk)
    | FlushOp(junk: Junk)
    | RebootOp(b: Buffers, grants: nat -> bool)
    | WriteOp(path: string, data: string) // a file written by other code

  /** One operation; nothing is defined where the code would overrun a buffer. */
  function Step(m: Mem, cap: nat, op: Op): (r: Option<Mem>)
    requires cap > 0
  {
    match op
    case StoreOp(e, granted, junk) =>
      if StoreFits(m, cap, granted) then Some(Store(m, cap, e, granted, junk)) else None
    case FlushOp(junk) => if FlushFits(m) then Some(Flush(m, junk)) else None
    case RebootOp(b, grants) =>
      if GoodBuffers(b) && Loadable(m.files, b) then Some(Load(Init(m), b, grants)) else None
    case WriteOp(path, data) => Some(WriteFile(m, path, data))
  }

  function LogStep(log: Log, op: Op): (r: Log)
  {
    match op
    case StoreOp(e, _, _) => LogStore(log, e)
    case FlushOp(_) => LogFlush(log)
    case RebootOp(_, _) => LogReboot(log)
    case WriteOp(_, _) => log
  }

  /** Entries are bytes, texts find room, the store does not fill up, the loader's buffers have their sizes, and other
      code leaves the store's files alone. */
  ghost predicate Fits(log: Log, cap: nat, op: Op)
  {
    match op
    case StoreOp(e, granted, _) =>
      granted && |log.live| < cap && |log.live| < INDEX_ROWS && e.kind < 256 && e.importance < 256
    case FlushOp(_) => true
    case RebootOp(b, grants) => GoodBuffers(b) && AllGranted(grants)
    case WriteOp(path, _) => Outside(path)
  }

  function Run(m: Mem, cap: nat, ops: seq<Op>): (r: Option<Mem>)
    requires cap > 0
    decreases |ops|
  {
    if ops == [] then Some(m)
    else match Step(m, cap, ops[0])
      case None => None
      case Some(m1) => Run(m1, cap, ops[1..])
  }

  function LogRun(log: Log, ops: seq<Op>): (r: Log)
    decreases |ops|
  {
    if ops == [] then log else LogRun(LogStep(log, ops[0]), ops[1..])
  }

  ghost predicate AllFit(log: Log, cap: nat, ops: seq<Op>)
    decreases |ops|
  {
    ops == [] || (Fits(log, cap, ops[0]) && AllFit(LogStep(log, ops[0]), cap, ops[1..]))
  }

  lemma StepKeepsRep(m: Mem, log: Log, cap: nat, op: Op)
    requires cap > 0 && Rep(m, log) && Fits(log, cap, op)
    ensures Step(m, cap, op).Some? && Rep(Step(m, cap, op).value, LogStep(log, op))
  {
    match op
    case StoreOp(e, _, junk) => StoreKeepsRep(m, log, cap, e, junk);
    case FlushOp(junk) => FlushKeepsRep(m, log, junk);
    case RebootOp(b, grants) => RebootKeepsRep(m, log, b, grants);
    case WriteOp(path, data) => WriteKeepsRep(m, log, path, data);
  }

  /** Any run of stores, flushes and boots that does not fill the store behaves as the log says. */
  lemma {:induction false} RunKeepsRep(m: Mem, log: Log, cap: nat, ops: seq<Op>)
    requires cap > 0 && Rep(m, log) && AllFit(log, cap, ops)
    ensures Run(m, cap, ops).Some? && Rep(Run(m, cap, ops).value, LogRun(log, ops))
    decreases |ops|
  {
    if ops != [] {
      StepKeepsRep(m, log, cap, ops[0]);
      RunKeepsRep(Step(m, cap, ops[0]).value, LogStep(log, ops[0]), cap, ops[1..]);
    }
  }

  /** Boots in which every text finds room. */
  ghost predicate AllBoots(ops: seq<Op>)
  {
    forall i :: 0 <= i < |ops| ==> ops[i].RebootOp? && GoodBuffers(ops[i].b) && AllGranted(ops[i].grants)
  }

  lemma {:induction false} RebootsKeep(m: Mem, live: seq<Entry>, cap: nat, ops: seq<Op>)
    requires cap > 0 && Rep(m, Log(live, live)) && AllBoots(ops)
    ensures Run(m, cap, ops).Some? && Plain(Run(m, cap, ops).value.entries) == live
    decreases |ops|
  {
    if ops == [] {
      assert Plain(m.entries) == live;
    } else {
      RebootKeepsRep(m, Log(live, live), ops[0].b, ops[0].grants);
      RebootsKeep(Step(m, cap, ops[0]).value, live, cap, ops[1..]);
    }
  }

  lemma FlushThenBoots(m: Mem, log: Log, cap: nat, junk: Junk, boots: seq<Op>)
    requires cap > 0 && Rep(m, log) && AllBoots(boots)
    ensures FlushFits(m)
    ensures var r := Run(Flush(m, junk), cap, boots); r.Some? && Plain(r.value.entries) == Plain(m.entries)
  {
    FlushKeepsRep(m, log, junk);
    RebootsKeep(Flush(m, junk), log.live, cap, boots);
    assert Plain(m.entries) == log.live;
  }

  /** The round trip: after any such run, a flush and any number of boots, however dirty the buffers, RAM holds the
      same sequence of kind, importance, tick and content. */
  lemma {:induction false} RoundTrip(cap: nat, ops: seq<Op>, junk: Junk, boots: seq<Op>)
    requires cap > 0 && AllFit(Log([], []), cap, ops) && AllBoots(boots)
    ensures var m := Run(Mem([], 0, map[]), cap, ops);
            && m.Some? && FlushFits(m.value)
            && var r := Run(Flush(m.value, junk), cap, boots);
               r.Some? && Plain(r.value.entries) == Plain(m.value.entries)
  {
    EmptyRep();
    RunKeepsRep(Mem([], 0, map[]), Log([], []), cap, ops);
    FlushThenBoots(Run(Mem([], 0, map[]), cap, ops).value, LogRun(Log([], []), ops), cap, junk, boots);
  }
}
