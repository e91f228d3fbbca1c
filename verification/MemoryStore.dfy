/** The persistent memory store in its own form: a fixed array of entries with a count and a dirty counter, updated in
    place, over a map from paths to file contents. */
module MemoryStores {
  import opened Options
  import opened CStrings
  import opened Records
  import opened MemorySpec

  class MemoryStore {
    const store: array<MemEntry>
    var count: nat
    var dirty: nat
    var storeExists: bool
    var files: Files
    var buffers: Buffers // the loader's static buffers

    ghost predicate Valid()
      reads this
    {
      count <= store.Length && store.Length > 0 && GoodBuffers(buffers)
    }

    ghost function View(): (r: Mem)
      requires Valid()
      reads this, store
    {
      Mem(store[..count], dirty, files)
    }

    constructor (capacity: nat, disk: Files, memory: Buffers)
      requires capacity > 0 && GoodBuffers(memory)
      ensures Valid() && fresh(store) && store.Length == capacity && View() == Mem([], 0, disk)
    {
      var blank := MemEntry(Entry(0, 0, 0, []), false);
      store := new MemEntry[capacity](_ => blank);
      count, dirty, storeExists, files, buffers := 0, 0, false, disk, memory;
    }

    method Init()
      requires Valid()
      modifies this
      ensures Valid() && View() == MemorySpec.Init(old(View())) && (storeExists <==> INDEX_PATH in files)
    {
      count, dirty := 0, 0;
      storeExists := INDEX_PATH in files;
    }

    /** The scan for the entry to evict. */
    method FindWorst() returns (worst: nat)
      requires Valid() && count > 0
      ensures worst == WorstScan(store[..count], count).0 && worst < count
    {
      var least := 255;
      var i := 0;
      worst := 0;
      while i < count
        invariant 0 <= i <= count && (worst, least) == WorstScan(store[..count], i)
      {
        if store[i].entry.kind == EPISODIC && store[i].entry.importance < least {
          least := store[i].entry.importance;
          worst := i;
        }
        i := i + 1;
      }
      WorstScanInvariant(store[..count], count);
    }

    /** Moves the entries after `w` down by one. */
    method ShiftDown(w: nat)
      requires Valid() && w < count
      modifies this`count, store
      ensures Valid() && count == old(count) - 1
      ensures store[..count] == old(store[..w] + store[w + 1..count])
    {
      var last := count - 1;
      var j := w;
      while j < last
        invariant w <= j <= last && count == last + 1 <= store.Length
        invariant forall k :: 0 <= k < w ==> store[k] == old(store[k])
        invariant forall k :: w <= k < j ==> store[k] == old(store[k + 1])
        invariant forall k :: j < k <= last ==> store[k] == old(store[k])
      {
        store[j] := store[j + 1];
        j := j + 1;
      }
      count := last;
    }

    /** Drops the least important episodic entry and closes the gap. */
    method EvictWorst()
      requires Valid() && count > 0
      modifies this`count, store
      ensures Valid() && count == old(count) - 1 && View() == Evict(old(View()))
    {
      var worst := FindWorst();
      ghost var entries := store[..count];
      ShiftDown(worst);
      assert entries[..worst] == old(store[..worst]) && entries[worst + 1..] == old(store[worst + 1..count]);
    }

    /** Stores one entry; `granted` tells whether the heap has room for its text. */
    method StoreEntry(e: Entry, granted: bool, junk: Junk)
      requires Valid() && StoreFits(View(), store.Length, granted)
      modifies this, store
      ensures Valid() && View() == Store(old(View()), store.Length, e, granted, junk)
    {
      if count >= store.Length {
        EvictWorst();
      }
      if !granted {
        return;
      }
      ghost var room := View();
      store[count] := MemEntry(Clipped(e), true);
      count := count + 1;
      dirty := dirty + 1;
      assert store[..count] == room.entries + [MemEntry(Clipped(e), true)];
      if dirty >= BATCH {
        FlushAll(junk);
      }
    }

    /** Writes entry `i` to its file if it is dirty, and returns its row of the index. */
    method FlushEntry(i: nat, junk: Junk, ghost entries: seq<MemEntry>) returns (row: string)
      requires Valid() && i < count == |entries| && store[..count] == HalfClean(entries, i)
      modifies this`files, store
      ensures Valid() && store[..count] == HalfClean(entries, i + 1)
      ensures files == if entries[i].dirty then old(files)[PathOf(entries[i], i) := Record(entries[i].entry)]
                       else old(files)
      ensures row == Row(PathOf(entries[i], i), entries[i].entry.importance, junk, i)
    {
      assert store[i] == store[..count][i] == entries[i];
      var e := store[i].entry;
      var path := RecordPath(e.kind, i);
      if store[i].dirty {
        files := files[path := Record(e)];
        store[i] := MemEntry(e, false);
      }
      CleanNext(entries, i, i + 1, old(store[..count]), store[..count]);
      row := Row(path, e.importance, junk, i);
    }

    /** The loop of the flush: writes the dirty entries to their files and collects the rows of the index. */
    method WriteEntries(junk: Junk, ghost entries: seq<MemEntry>) returns (rows: string)
      requires Valid() && store[..count] == entries
      modifies this`files, store
      ensures Valid() && store[..count] == Clean(entries)
      ensures files == WriteDirty(old(files), entries, |entries|)
      ensures rows == Rows(Plain(entries), |entries|, junk)
    {
      rows := [];
      var i := 0;
      HalfCleanEnds(entries);
      while i < count
        invariant 0 <= i <= count == |entries| && Valid()
        invariant store[..count] == HalfClean(entries, i)
        invariant files == WriteDirty(old(files), entries, i)
        invariant rows == Rows(Plain(entries), i, junk)
      {
        var row := FlushEntry(i, junk, entries);
        rows := rows + row;
        ghost var k := i;
        i := i + 1;
        FlushNext(old(files), entries, k, i, junk);
      }
    }

    /** Writes the dirty entries to their files, and then the index.  The index buffer has room for 4095 rows. */
    method FlushAll(junk: Junk)
      requires Valid() && FlushFits(View())
      modifies this`dirty, this`files, store
      ensures Valid() && View() == Flush(old(View()), junk)
    {
      if dirty == 0 {
        return;
      }
      ghost var entries := store[..count];
      var rows := WriteEntries(junk, entries);
      files := files[INDEX_PATH := Bytes(count, 8) + rows];
      dirty := 0;
    }

    /** The array holds `front` and what the rows read so far have yielded; the buffer is as they have left it. */
    ghost predicate Holds(front: seq<MemEntry>, rows: (seq<MemEntry>, string))
      reads this, store
    {
      count <= store.Length && store[..count] == front + rows.0 && buffers.record == rows.1
    }

    /** Row `i` of the index: the record is read, and appended if it is good and its text finds room. */
    method LoadOne(i: nat, granted: bool, ghost front: seq<MemEntry>, ghost rows: (seq<MemEntry>, string))
      requires Valid() && count < store.Length && 8 + ROW * i + ROW <= |buffers.index| && Holds(front, rows)
      modifies this`count, this`buffers, store
      ensures Valid() && buffers.index == old(buffers.index) && count <= old(count) + 1
      ensures Holds(front, LoadRow(files, buffers.index, rows.0, rows.1, i, granted))
    {
      var (record, e) := ReadRecord(files, PathAt(buffers.index, i), buffers.record);
      buffers := buffers.(record := record);
      if e.Some? && granted {
        store[count] := MemEntry(e.value, false);
        count := count + 1;
        assert store[..count] == old(store[..count]) + [MemEntry(e.value, false)];
      }
    }

    /** The loop over the first `n` rows of the index buffer. */
    method LoadListed(n: nat, granted: nat -> bool)
      requires Valid() && 8 + ROW * n <= |buffers.index| && count + n <= store.Length
      modifies this`count, this`buffers, store
      ensures Valid() && buffers.index == old(buffers.index)
      ensures Holds(old(store[..count]), LoadRows(files, buffers.index, old(buffers.record), n, granted))
    {
      ghost var front, start := store[..count], count;
      ghost var rows := LoadRows(files, buffers.index, buffers.record, 0, granted);
      var i: nat := 0;
      while i < n
        invariant i <= n && Valid() && buffers.index == old(buffers.index) && count <= start + i
        invariant rows == LoadRows(files, old(buffers.index), old(buffers.record), i, granted) && Holds(front, rows)
      {
        LoadOne(i, granted(i), front, rows);
        ghost var k := i;
        i := i + 1;
        LoadRowsNext(files, old(buffers.index), old(buffers.record), k, i, granted);
        rows := LoadRows(files, old(buffers.index), old(buffers.record), i, granted);
      }
    }

    /** Reads the index and the record files that it lists, and appends what they yield. */
    method LoadAll(granted: nat -> bool)
      requires Valid() && Loadable(files, buffers)
      requires INDEX_PATH in files ==> count + RowCount(ReadInto(buffers.index, files[INDEX_PATH])) <= store.Length
      modifies this`count, this`buffers, store
      ensures Valid() && View() == Load(old(View()), old(buffers), granted)
      ensures buffers == Reused(files, old(buffers), granted)
    {
      if INDEX_PATH !in files {
        return;
      }
      buffers := buffers.(index := ReadInto(buffers.index, files[INDEX_PATH]));
      LoadListed(RowCount(buffers.index), granted);
    }

    /** The text of the newest entry that contains `key`. */
    method Search(key: string) returns (content: Option<string>)
      requires Valid()
      ensures match SearchDown(View().entries, key, count)
              case None => content == None
              case Some(k) => content == Some(store[k].entry.content)
    {
      var i := count;
      while i > 0
        invariant 0 <= i <= count
        invariant SearchDown(View().entries, key, count) == SearchDown(View().entries, key, i)
      {
        i := i - 1;
        if StrStr(CString(store[i].entry.content), key).Some? {
          return Some(store[i].entry.content);
        }
      }
      content := None;
    }
  }

  lemma FlushNext(files: Files, entries: seq<MemEntry>, k: nat, n: nat, junk: Junk)
    requires k < n <= |entries| && n == k + 1
    ensures WriteDirty(files, entries, n) ==
            (if entries[k].dirty then WriteDirty(files, entries, k)[PathOf(entries[k], k) := Record(entries[k].entry)]
             else WriteDirty(files, entries, k))
    ensures Rows(Plain(entries), n, junk)
         == Rows(Plain(entries), k, junk) + Row(PathOf(entries[k], k), entries[k].entry.importance, junk, k)
  {
  }

  /** The entries when the first `i` have been written. */
  ghost function HalfClean(entries: seq<MemEntry>, i: nat): (r: seq<MemEntry>)
    requires i <= |entries|
    ensures |r| == |entries| && forall k :: i <= k < |r| ==> r[k] == entries[k]
  {
    Clean(entries[..i]) + entries[i..]
  }

  lemma HalfCleanEnds(entries: seq<MemEntry>)
    ensures HalfClean(entries, 0) == entries && HalfClean(entries, |entries|) == Clean(entries)
  {
    assert entries[..|entries|] == entries;
  }

  lemma CleanNext(entries: seq<MemEntry>, i: nat, n: nat, before: seq<MemEntry>, after: seq<MemEntry>)
    requires i < |entries| && n == i + 1
    requires before == HalfClean(entries, i) && after == before[i := MemEntry(entries[i].entry, false)]
    ensures after == HalfClean(entries, n)
  {
  }
}
