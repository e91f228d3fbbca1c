/** The persistent memory store as functions on values: storing with eviction, flushing, loading, searching. */
module MemorySpec {
  import opened Bits
  import opened Options
  import opened CStrings
  import opened Records

  const MAX_MEMORIES: nat := 0x1_0000
  const INDEX_BUF: nat := 0x10_0000 // size of the buffers that hold the index
  const INDEX_ROWS: nat := 4095 // rows that fit such a buffer
  const RECORD_BUF: nat := 4124
  const BATCH: nat := 10

  type Files = map<string, string>

  datatype MemEntry = MemEntry(entry: Entry, dirty: bool)

  datatype Mem = Mem(entries: seq<MemEntry>, dirty: nat, files: Files)

  // ----- eviction -----

  /** The scan for the entry to evict: index and importance of the best candidate among the first `n`. */
  function WorstScan(entries: seq<MemEntry>, n: nat): (r: (nat, nat))
    requires n <= |entries|
  {
    if n == 0 then (0, 255)
    else
      var (w, least) := WorstScan(entries, n - 1);
      var e := entries[n - 1].entry;
      if e.kind == EPISODIC && e.importance < least then (n - 1, e.importance) else (w, least)
  }

  predicate Evictable(e: Entry)
  {
    e.kind == EPISODIC && e.importance < 255
  }

  /** The earliest episodic entry of least importance below 255, or entry 0 if there is none. */
  ghost predicate IsWorst(entries: seq<MemEntry>, w: nat)
  {
    if exists i :: 0 <= i < |entries| && Evictable(entries[i].entry) then
      && w < |entries| && Evictable(entries[w].entry)
      && (forall i :: 0 <= i < |entries| && entries[i].entry.kind == EPISODIC ==>
            entries[w].entry.importance <= entries[i].entry.importance)
      && forall i :: 0 <= i < w && entries[i].entry.kind == EPISODIC ==>
            entries[w].entry.importance < entries[i].entry.importance
    else w == 0
  }

  lemma {:induction false} WorstScanInvariant(entries: seq<MemEntry>, n: nat)
    requires n <= |entries|
    ensures var (w, least) := WorstScan(entries, n);
            && least <= 255
            && (forall i :: 0 <= i < n && entries[i].entry.kind == EPISODIC ==>
                  least <= entries[i].entry.importance || least == 255)
            && (least == 255 ==> w == 0 && forall i :: 0 <= i < n ==> !Evictable(entries[i].entry))
            && (least < 255 ==>
                  && w < n && entries[w].entry.kind == EPISODIC && entries[w].entry.importance == least
                  && forall i :: 0 <= i < w && entries[i].entry.kind == EPISODIC ==>
                       least < entries[i].entry.importance)
  {
    if n > 0 {
      WorstScanInvariant(entries, n - 1);
    }
  }

  /** The scan finds what it should; there is only one such entry. */
  lemma {:induction false} WorstScanFinds(entries: seq<MemEntry>, w: nat)
    ensures IsWorst(entries, w) <==> w == WorstScan(entries, |entries|).0
  {
    WorstScanInvariant(entries, |entries|);
  }

  function Evict(m: Mem): (r: Mem)
    requires m.entries != []
  {
    WorstScanInvariant(m.entries, |m.entries|);
    var w := WorstScan(m.entries, |m.entries|).0;
    m.(entries := m.entries[..w] + m.entries[w + 1..])
  }

  // ----- flushing -----

  function Plain(entries: seq<MemEntry>): (r: seq<Entry>)
    ensures |r| == |entries| && forall i :: 0 <= i < |r| ==> r[i] == entries[i].entry
  {
    seq(|entries|, i requires 0 <= i < |entries| => entries[i].entry)
  }

  function Clean(entries: seq<MemEntry>): (r: seq<MemEntry>)
    ensures |r| == |entries| && forall i :: 0 <= i < |r| ==> r[i] == MemEntry(entries[i].entry, false)
  {
    seq(|entries|, i requires 0 <= i < |entries| => MemEntry(entries[i].entry, false))
  }

  function PathOf(e: MemEntry, i: nat): (r: string)
  {
    RecordPath(e.entry.kind, i)
  }

  /** The files after the dirty ones among the first `n` entries have been written. */
  function WriteDirty(files: Files, entries: seq<MemEntry>, n: nat): (r: Files)
    requires n <= |entries|
    decreases n
  {
    if n == 0 then files
    else
      var f := WriteDirty(files, entries, n - 1);
      var e := entries[n - 1];
      if e.dirty then f[PathOf(e, n - 1) := Record(e.entry)] else f
  }

  /** A flush stays inside its index buffer: it returns early, or has at most 4095 rows to write. */
  predicate FlushFits(m: Mem)
  {
    m.dirty == 0 || |m.entries| <= INDEX_ROWS
  }

  function Flush(m: Mem, junk: Junk): (r: Mem)
    requires FlushFits(m)
  {
    if m.dirty == 0 then m
    else
      var files := WriteDirty(m.files, m.entries, |m.entries|);
      Mem(Clean(m.entries), 0, files[INDEX_PATH := Index(Plain(m.entries), junk)])
  }

  // ----- storing -----

  function Clipped(e: Entry): (r: Entry)
  {
    if |e.content| > MAX_CONTENT then e.(content := e.content[..MAX_CONTENT]) else e
  }

  function MakeRoom(m: Mem, cap: nat): (r: Mem)
    requires cap > 0
  {
    if |m.entries| >= cap then Evict(m) else m
  }

  function Append(m: Mem, e: Entry): (r: Mem)
  {
    Mem(m.entries + [MemEntry(Clipped(e), true)], m.dirty + 1, m.files)
  }

  /** A store stays inside the index buffer: it does not flush, or flushes at most 4095 entries. */
  predicate StoreFits(m: Mem, cap: nat, granted: bool)
    requires cap > 0
  {
    granted && m.dirty + 1 >= BATCH ==> |MakeRoom(m, cap).entries| < INDEX_ROWS
  }

  /** Storing an entry; `granted` tells whether the heap had room for its text. */
  function Store(m: Mem, cap: nat, e: Entry, granted: bool, junk: Junk): (r: Mem)
    requires cap > 0 && StoreFits(m, cap, granted)
  {
    var room := MakeRoom(m, cap);
    if !granted then room
    else
      var r := Append(room, e);
      if r.dirty >= BATCH then Flush(r, junk) else r
  }

  // ----- what a store does, in numbers -----

  /** The new entry comes last, as it was given, its text cut to 4096 bytes. */
  lemma StoredLast(m: Mem, cap: nat, e: Entry, junk: Junk)
    requires cap > 0 && StoreFits(m, cap, true)
    ensures var es := Store(m, cap, e, true, junk).entries;
            && es != []
            && var last := es[|es| - 1].entry;
               && last.kind == e.kind && last.importance == e.importance && last.tick == e.tick
               && last.content == if |e.content| <= 4096 then e.content else e.content[..4096]
  {
  }

  /** Nothing is written until nine entries are unsaved and a tenth is stored; then everything is.  An eviction changes
      nothing in this count. */
  lemma StoreBatches(m: Mem, cap: nat, e: Entry, granted: bool, junk: Junk)
    requires cap > 0 && StoreFits(m, cap, granted)
    ensures var r := Store(m, cap, e, granted, junk);
            if !granted then r.dirty == m.dirty && r.files == m.files
            else if m.dirty < 9 then
              r.dirty == m.dirty + 1 && r.files == m.files && r.entries[|r.entries| - 1].dirty
            else
              r.dirty == 0 && INDEX_PATH in r.files && forall i :: 0 <= i < |r.entries| ==> !r.entries[i].dirty
  {
  }

  // ----- loading -----

  /** Reading a file overwrites the front of a buffer. */
  function ReadInto(buf: string, data: string): (r: string)
    ensures |r| == |buf|
  {
    if |data| >= |buf| then data[..|buf|] else data + buf[|data|..]
  }

  /** What one record file yields: the buffer after the read, and the entry unless the record is rejected. */
  function ReadRecord(files: Files, path: string, buf: string): (r: (string, Option<Entry>))
    requires |buf| == RECORD_BUF
    ensures |r.0| == RECORD_BUF
  {
    if path !in files then (buf, None)
    else
      var got := ReadInto(buf, files[path]);
      if |files[path]| < HEADER || MagicOf(got) != MAGIC || LengthOf(got) > MAX_CONTENT then (got, None)
      else (got, Some(Decode(got)))
  }

  /** A record file that the loader accepts: a whole header, the four letters, and a length that fits. */
  predicate Acceptable(file: string)
  {
    && |file| >= 28
    && file[0] as int % 256 == 0x4D && file[1] as int % 256 == 0x45
    && file[2] as int % 256 == 0x4D && file[3] as int % 256 == 0x41
    && StoredLength(file) <= 4096
  }

  /** The length that a header gives, in four bytes, least first. */
  function StoredLength(file: string): (r: nat)
    requires |file| >= 28
  {
    file[24] as int % 256 + 256 * (file[25] as int % 256) + 0x1_0000 * (file[26] as int % 256)
    + 0x100_0000 * (file[27] as int % 256)
  }

  lemma NumberOfFour(s: string)
    requires |s| == 4
    ensures Number(s) == s[0] as int % 256 + 256 * (s[1] as int % 256) + 0x1_0000 * (s[2] as int % 256)
                         + 0x100_0000 * (s[3] as int % 256)
  {
    var t, u := s[1..], s[2..];
    assert t[1..] == u && u[1..] == s[3..] && s[3..][1..] == [];
    assert Number(s[3..]) == s[3] as int % 256;
    assert Number(u) == s[2] as int % 256 + 256 * Number(s[3..]);
    assert Number(t) == s[1] as int % 256 + 256 * Number(u);
  }

  lemma NumberOfOne(s: string)
    requires |s| == 1
    ensures Number(s) == s[0] as int % 256
  {
    assert s[1..] == [];
  }

  lemma MagicBytes(a: nat, b: nat, c: nat, d: nat)
    requires a < 256 && b < 256 && c < 256 && d < 256
    ensures a + 256 * b + 0x1_0000 * c + 0x100_0000 * d == MAGIC <==> a == 0x4D && b == 0x45 && c == 0x4D && d == 0x41
  {
  }

  lemma HeaderRead(buf: string, file: string, got: string)
    requires |buf| == RECORD_BUF && |file| >= 28 && got == ReadInto(buf, file)
    ensures MagicOf(got) == MAGIC <==>
            && file[0] as int % 256 == 0x4D && file[1] as int % 256 == 0x45
            && file[2] as int % 256 == 0x4D && file[3] as int % 256 == 0x41
    ensures LengthOf(got) == StoredLength(file)
  {
    NumberOfFour(got[0..4]);
    NumberOfFour(got[24..28]);
    assert got[..28] == file[..28];
    MagicBytes(file[0] as int % 256, file[1] as int % 256, file[2] as int % 256, file[3] as int % 256);
  }

  /** A row yields an entry exactly if its file is there and acceptable, whatever was in the buffer before. */
  lemma ReadRecordIff(files: Files, path: string, buf: string)
    requires |buf| == RECORD_BUF
    ensures ReadRecord(files, path, buf).1.Some? <==> path in files && Acceptable(files[path])
  {
    if path in files && |files[path]| >= 28 {
      HeaderRead(buf, files[path], ReadInto(buf, files[path]));
    }
  }

  /** The entry has the fields of the file; where the file is shorter than its header says, the rest of the content is
      what the buffer held before. */
  lemma ReadRecordFields(files: Files, path: string, buf: string)
    requires |buf| == RECORD_BUF && path in files && Acceptable(files[path])
    ensures ReadRecord(files, path, buf).1.Some?
    ensures var e, file := ReadRecord(files, path, buf).1.value, files[path];
            && e.kind == file[4] as int % 256 && e.importance == file[5] as int % 256
            && e.tick == Wrap(Number(file[8..16])) && |e.content| == StoredLength(file)
            && forall i :: 0 <= i < |e.content| ==>
                 e.content[i] == if 28 + i < |file| then file[28 + i] else buf[28 + i]
  {
    var file := files[path];
    var got := ReadInto(buf, file);
    HeaderRead(buf, file, got);
    NumberOfOne(got[4..5]);
    NumberOfOne(got[5..6]);
    assert got[8..16] == file[8..16];
  }

  /** Row `k` of an index buffer, after earlier rows have yielded `es` and left `buf`. */
  function LoadRow(files: Files, index: string, es: seq<MemEntry>, buf: string, k: nat, granted: bool)
    : (r: (seq<MemEntry>, string))
    requires |buf| == RECORD_BUF && 8 + ROW * k + ROW <= |index|
    ensures |r.1| == RECORD_BUF && |es| <= |r.0| <= |es| + 1
  {
    var (b, e) := ReadRecord(files, PathAt(index, k), buf);
    (if e.Some? && granted then es + [MemEntry(e.value, false)] else es, b)
  }

  /** A row adds its entry, clean, exactly if the file is acceptable and the text finds room; a refused text leaves no
      trace but the buffer. */
  lemma LoadRowAdds(files: Files, index: string, es: seq<MemEntry>, buf: string, k: nat, granted: bool)
    requires |buf| == RECORD_BUF && 8 + ROW * k + ROW <= |index|
    ensures var path, more := PathAt(index, k), LoadRow(files, index, es, buf, k, granted).0;
            if granted && path in files && Acceptable(files[path]) then
              |more| == |es| + 1 && more[..|es|] == es && !more[|es|].dirty
              && ReadRecord(files, path, buf).1 == Some(more[|es|].entry)
            else more == es
  {
    ReadRecordIff(files, PathAt(index, k), buf);
  }

  /** The entries that the first `n` rows of an index buffer yield; `granted` tells which texts found room. */
  function LoadRows(files: Files, index: string, buf: string, n: nat, granted: nat -> bool)
    : (r: (seq<MemEntry>, string))
    requires |buf| == RECORD_BUF && 8 + ROW * n <= |index|
    ensures |r.0| <= n && |r.1| == RECORD_BUF
    decreases n
  {
    if n == 0 then ([], buf)
    else
      var (es, b) := LoadRows(files, index, buf, Prev(n), granted);
      LoadRow(files, index, es, b, Prev(n), granted(Prev(n)))
  }

  lemma LoadRowsNext(files: Files, index: string, buf: string, k: nat, n: nat, granted: nat -> bool)
    requires |buf| == RECORD_BUF && 8 + ROW * n <= |index| && n == k + 1
    ensures var (es, b) := LoadRows(files, index, buf, k, granted);
            LoadRows(files, index, buf, n, granted) == LoadRow(files, index, es, b, k, granted(k))
  {
    assert Prev(n) == k;
  }

  /** The loader's static buffers, which keep what earlier reads left in them. */
  datatype Buffers = Buffers(index: string, record: string)

  predicate GoodBuffers(b: Buffers)
  {
    |b.index| == INDEX_BUF && |b.record| == RECORD_BUF
  }

  /** The number of rows that the loader will read. */
  function RowCount(index: string): (r: nat)
    requires |index| >= 8
  {
    var n := Number(index[..8]);
    if n > MAX_MEMORIES then MAX_MEMORIES else n
  }

  /** The loader stays inside its buffer: there is no index, or it has at most 4095 rows. */
  predicate Loadable(files: Files, b: Buffers)
    requires GoodBuffers(b)
  {
    INDEX_PATH in files ==> RowCount(ReadInto(b.index, files[INDEX_PATH])) <= INDEX_ROWS
  }

  function Load(m: Mem, b: Buffers, granted: nat -> bool): (r: Mem)
    requires GoodBuffers(b) && Loadable(m.files, b)
  {
    if INDEX_PATH !in m.files then m
    else
      var index := ReadInto(b.index, m.files[INDEX_PATH]);
      m.(entries := m.entries + LoadRows(m.files, index, b.record, RowCount(index), granted).0)
  }

  /** What a load leaves in the static buffers. */
  function Reused(files: Files, b: Buffers, granted: nat -> bool): (r: Buffers)
    requires GoodBuffers(b) && Loadable(files, b)
    ensures GoodBuffers(r)
  {
    if INDEX_PATH !in files then b
    else
      var index := ReadInto(b.index, files[INDEX_PATH]);
      Buffers(index, LoadRows(files, index, b.record, RowCount(index), granted).1)
  }

  /** A load only appends to what RAM holds, and leaves files and counter alone. */
  lemma LoadAppends(m: Mem, b: Buffers, granted: nat -> bool)
    requires GoodBuffers(b) && Loadable(m.files, b)
    ensures var r := Load(m, b, granted); m.entries <= r.entries && r.dirty == m.dirty && r.files == m.files
  {
  }

  function Init(m: Mem): (r: Mem)
  {
    Mem([], 0, m.files)
  }

  /** Any other code that writes a whole file. */
  function WriteFile(m: Mem, path: string, data: string): (r: Mem)
  {
    m.(files := m.files[path := data])
  }

  // ----- searching -----

  predicate Matches(e: MemEntry, key: string)
  {
    StrStr(CString(e.entry.content), key).Some?
  }

  /** The newest of the first `n` entries whose text contains `key`. */
  function SearchDown(entries: seq<MemEntry>, key: string, n: nat): (r: Option<nat>)
    requires n <= |entries|
    ensures r.Some? ==> r.value < n && Matches(entries[r.value], key)
    ensures r.Some? ==> forall i :: r.value < i < n ==> !Matches(entries[i], key)
    ensures r.None? ==> forall i :: 0 <= i < n ==> !Matches(entries[i], key)
  {
    if n == 0 then None
    else if Matches(entries[n - 1], key) then Some(n - 1)
    else SearchDown(entries, key, n - 1)
  }

  /** The key occurs at `i`, with no NUL before its end. */
  ghost predicate KeyAt(c: string, key: string, i: int)
  {
    0 <= i && i + |key| <= |c| && c[i..i + |key|] == key && forall k :: 0 <= k < i + |key| ==> c[k] != '\0'
  }

  lemma KeyInCString(c: string, key: string, i: int)
    requires KeyAt(c, key, i)
    ensures i + |key| <= |CString(c)| && key <= CString(c)[i..]
  {
    var t := CString(c);
    assert t == c[..|t|];
    assert t[i..][..|key|] == c[i..i + |key|];
  }

  lemma CStringKey(c: string, key: string, i: nat)
    requires i + |key| <= |CString(c)| && key <= CString(c)[i..]
    ensures KeyAt(c, key, i)
  {
    var t := CString(c);
    assert t[i..][..|key|] == c[i..i + |key|];
  }

  /** A text matches exactly if the key occurs in it before its first NUL. */
  lemma {:induction false} MatchesIff(e: MemEntry, key: string)
    ensures Matches(e, key) <==> exists i :: KeyAt(e.entry.content, key, i)
  {
    var c := e.entry.content;
    StrStrFirst(CString(c), key);
    if Matches(e, key) {
      CStringKey(c, key, StrStr(CString(c), key).value);
    } else if i :| KeyAt(c, key, i) {
      KeyInCString(c, key, i);
    }
  }
}
