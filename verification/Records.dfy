/** What the persistent store writes to the file system: record files, their paths, and the index.

    Characters stand for bytes.  Words are stored with the least significant byte first. */
module Records {
  import opened Bits
  import opened Digits

  const HEADER: nat := 28 // size of a record's header
  const MAX_CONTENT: nat := 4096
  const ROW: nat := 256 // size of an index row
  const MAGIC: nat := 0x414D_454D

  const EPISODIC: nat := 0
  const SEMANTIC: nat := 1
  const SELF: nat := 2

  const INDEX_PATH: string := "/AION/memory/index.bin"

  /** A remembered text.  The time stamp of the record format is never set, so it is no part of it. */
  datatype Entry = Entry(kind: nat, importance: nat, tick: u64, content: string)

  predicate GoodEntry(e: Entry)
  {
    e.kind < 256 && e.importance < 256 && |e.content| <= MAX_CONTENT
  }

  // ----- bytes and words -----

  function Byte(x: nat): (c: char)
  {
    (x % 256) as char
  }

  function Bytes(v: nat, n: nat): (r: string)
    ensures |r| == n
    decreases n, v
  {
    if n == 0 then [] else [Byte(v)] + Bytes(v / 256, n - 1)
  }

  /** The word stored in `s`; characters count modulo 256. */
  function Number(s: string): (r: nat)
  {
    if s == [] then 0 else s[0] as int % 256 + 256 * Number(s[1..])
  }

  function Pow256(n: nat): (r: nat)
    ensures r > 0
  {
    if n == 0 then 1 else 256 * Pow256(n - 1)
  }

  lemma {:induction false} NumberOfBytes(v: nat, n: nat)
    requires v < Pow256(n)
    ensures Number(Bytes(v, n)) == v
    decreases n
  {
    if n > 0 {
      NumberOfBytes(v / 256, n - 1);
      assert Bytes(v, n)[1..] == Bytes(v / 256, n - 1);
    }
  }

  /** A word is at least what its last byte stands for. */
  lemma {:induction false} NumberLast(s: string)
    requires s != [] && s[|s| - 1] as int % 256 != 0
    ensures Number(s) >= Pow256(|s| - 1)
  {
    if |s| > 1 {
      NumberLast(s[1..]);
    }
  }

  /** A word of NULs after its first byte. */
  lemma {:induction false} NumberFirst(s: string)
    requires s != [] && forall k :: 1 <= k < |s| ==> s[k] == '\0'
    ensures Number(s) == s[0] as int % 256
  {
    if |s| > 1 {
      NumberFirst(s[1..]);
    }
  }

  /** The part of a buffer before the first NUL. */
  function CString(s: string): (r: string)
    ensures |r| <= |s| && r == s[..|r|]
    ensures forall k :: 0 <= k < |r| ==> r[k] != '\0'
    ensures |r| < |s| ==> s[|r|] == '\0'
  {
    if s == [] || s[0] == '\0' then [] else [s[0]] + CString(s[1..])
  }

  lemma CStringOf(s: string, rest: string)
    requires forall k :: 0 <= k < |s| ==> s[k] != '\0'
    requires rest != [] && rest[0] == '\0'
    ensures CString(s + rest) == s
  {
    var t := s + rest;
    assert t[|s|] == '\0';
    assert forall k :: 0 <= k < |s| ==> t[k] != '\0';
    assert t[..|s|] == s;
  }

  // ----- paths -----

  function Dir(kind: nat): (r: string)
  {
    if kind == EPISODIC then "/AION/memory/episodic/"
    else if kind == SELF then "/AION/memory/self/"
    else "/AION/memory/semantic/"
  }

  /** The file of entry number `i`. */
  function RecordPath(kind: nat, i: nat): (r: string)
  {
    Dir(kind) + Decimal(i) + ".mem"
  }

  lemma DirsApart(j: nat, k: nat, s: string, t: string)
    requires Dir(j) + s == Dir(k) + t
    ensures Dir(j) == Dir(k) && s == t
  {
    var p := Dir(j) + s;
    assert p[13] == Dir(j)[13] == Dir(k)[13] && p[15] == Dir(j)[15] == Dir(k)[15];
    assert Dir(j) == Dir(k);
    assert s == p[|Dir(j)|..] && t == p[|Dir(k)|..];
  }

  lemma PathSplits(kind: nat, i: nat)
    ensures RecordPath(kind, i) == Dir(kind) + (Decimal(i) + ".mem")
  {
  }

  /** Entries at different positions never share a file, and no entry's file is the index. */
  lemma PathsDistinct(j: nat, m: nat, k: nat, n: nat)
    ensures RecordPath(j, m) == RecordPath(k, n) ==> m == n && Dir(j) == Dir(k)
    ensures RecordPath(j, m) != INDEX_PATH
  {
    var p := RecordPath(j, m);
    assert p[13] == Dir(j)[13];
    if p == RecordPath(k, n) {
      PathSplits(j, m);
      PathSplits(k, n);
      DirsApart(j, k, Decimal(m) + ".mem", Decimal(n) + ".mem");
      DecimalParses(m, ".mem");
      DecimalParses(n, ".mem");
    }
  }

  lemma PathOfSameDir(j: nat, k: nat, i: nat)
    ensures RecordPath(j, i) == RecordPath(k, i) <==> Dir(j) == Dir(k)
  {
    PathsDistinct(j, i, k, i);
  }

  // ----- record files -----

  /** The fields before the tick: magic, kind, importance, flags. */
  function HeaderFront(e: Entry): (r: string)
    ensures |r| == 8
  {
    Bytes(MAGIC, 4) + Bytes(e.kind, 1) + Bytes(e.importance, 1) + Bytes(0, 2)
  }

  /** The fields from the tick on: tick, time stamp, content length. */
  function HeaderBack(e: Entry): (r: string)
    ensures |r| == 20
  {
    Bytes(e.tick, 8) + Bytes(0, 8) + Bytes(|e.content|, 4)
  }

  function Header(e: Entry): (r: string)
    ensures |r| == HEADER
  {
    HeaderFront(e) + HeaderBack(e)
  }

  function Record(e: Entry): (r: string)
    ensures |r| == HEADER + |e.content|
  {
    Header(e) + e.content
  }

  function MagicOf(buf: string): (r: nat)
    requires |buf| >= HEADER
  {
    Number(buf[0..4])
  }

  function LengthOf(buf: string): (r: nat)
    requires |buf| >= HEADER
  {
    Number(buf[24..28])
  }

  /** The entry that the loader sees in its buffer. */
  function Decode(buf: string): (r: Entry)
    requires |buf| >= HEADER && HEADER + LengthOf(buf) <= |buf|
  {
    var tick := Number(buf[8..16]);
    Entry(Number(buf[4..5]), Number(buf[5..6]), Wrap(tick), buf[HEADER..HEADER + LengthOf(buf)])
  }

  lemma FrontSlices(e: Entry)
    ensures HeaderFront(e)[0..4] == Bytes(MAGIC, 4) && HeaderFront(e)[4..5] == Bytes(e.kind, 1)
    ensures HeaderFront(e)[5..6] == Bytes(e.importance, 1)
  {
  }

  lemma BackSlices(e: Entry)
    ensures HeaderBack(e)[0..8] == Bytes(e.tick, 8) && HeaderBack(e)[16..20] == Bytes(|e.content|, 4)
  {
  }

  lemma HeaderSlices(e: Entry)
    ensures Header(e)[0..4] == Bytes(MAGIC, 4) && Header(e)[4..5] == Bytes(e.kind, 1)
    ensures Header(e)[5..6] == Bytes(e.importance, 1) && Header(e)[8..16] == Bytes(e.tick, 8)
    ensures Header(e)[24..28] == Bytes(|e.content|, 4)
  {
    FrontSlices(e);
    BackSlices(e);
    Subslices(HeaderFront(e), HeaderBack(e));
  }

  lemma Subslices(f: string, b: string)
    requires |f| == 8 && |b| == 20
    ensures (f + b)[0..4] == f[0..4] && (f + b)[4..5] == f[4..5] && (f + b)[5..6] == f[5..6]
    ensures (f + b)[8..16] == b[0..8] && (f + b)[24..28] == b[16..20]
  {
  }

  lemma BufferSlices(h: string, e: Entry, buf: string)
    requires |h| == HEADER && h + e.content <= buf
    ensures buf[0..4] == h[0..4] && buf[4..5] == h[4..5] && buf[5..6] == h[5..6]
    ensures buf[8..16] == h[8..16] && buf[24..28] == h[24..28]
    ensures buf[HEADER..HEADER + |e.content|] == e.content
  {
    var r := h + e.content;
    assert buf[..|r|] == r;
    assert buf[HEADER..HEADER + |e.content|] == r[HEADER..];
  }

  /** Whatever follows a record in the buffer, the loader reads the entry back. */
  lemma {:induction false} DecodeRecord(e: Entry, buf: string)
    requires GoodEntry(e) && Record(e) <= buf
    ensures MagicOf(buf) == MAGIC && LengthOf(buf) == |e.content| && Decode(buf) == e
  {
    HeaderSlices(e);
    BufferSlices(Header(e), e, buf);
    FieldsRead(e);
    WrapOfWord(e.tick);
  }

  lemma FieldsRead(e: Entry)
    requires GoodEntry(e)
    ensures Number(Bytes(MAGIC, 4)) == MAGIC && Number(Bytes(e.kind, 1)) == e.kind
    ensures Number(Bytes(e.importance, 1)) == e.importance && Number(Bytes(e.tick, 8)) == e.tick
    ensures Number(Bytes(|e.content|, 4)) == |e.content|
  {
    assert Pow256(1) == 256 && Pow256(4) == 0x1_0000_0000 && Pow256(8) == WORD;
    NumberOfBytes(MAGIC, 4);
    NumberOfBytes(e.kind, 1);
    NumberOfBytes(e.importance, 1);
    NumberOfBytes(e.tick, 8);
    NumberOfBytes(|e.content|, 4);
  }

  // ----- the index -----

  /** Bytes of the stack that the path buffers hold beyond the path; row and position choose one. */
  type Junk = (nat, nat) -> char

  /** A 256-byte row: the path with its NUL, whatever else the path buffer held, and the importance. */
  function Row(path: string, importance: nat, junk: Junk, i: nat): (r: string)
    ensures |r| == ROW
  {
    seq(255, k requires 0 <= k => if k < |path| then path[k] else if k == |path| then '\0' else junk(i, k))
    + [Byte(importance)]
  }

  function Rows(entries: seq<Entry>, n: nat, junk: Junk): (r: string)
    requires n <= |entries|
    ensures |r| == ROW * n
  {
    if n == 0 then []
    else
      var e := entries[n - 1];
      Rows(entries, n - 1, junk) + Row(RecordPath(e.kind, n - 1), e.importance, junk, n - 1)
  }

  function Index(entries: seq<Entry>, junk: Junk): (r: string)
    ensures |r| == 8 + ROW * |entries|
  {
    Bytes(|entries|, 8) + Rows(entries, |entries|, junk)
  }

  /** The path in row `i` of an index buffer. */
  function PathAt(buf: string, i: nat): (r: string)
    requires 8 + ROW * i + ROW <= |buf|
  {
    CString(buf[8 + ROW * i..8 + ROW * i + 255])
  }

  lemma RecordPathShort(kind: nat, i: nat)
    requires i < 0x1_0000
    ensures |RecordPath(kind, i)| < 255
  {
    assert Pow2(8) == 256;
    Pow2Add(8, 8);
    DigitsFit(i, 10, 16);
  }

  lemma {:induction false} DecimalNoNul(kind: nat, i: nat)
    ensures forall k :: 0 <= k < |RecordPath(kind, i)| ==> RecordPath(kind, i)[k] != '\0'
  {
    DecimalParses(i, []);
  }

  lemma RowPath(path: string, importance: nat, junk: Junk, i: nat)
    requires |path| < 255 && forall k :: 0 <= k < |path| ==> path[k] != '\0'
    ensures CString(Row(path, importance, junk, i)[..255]) == path
  {
    var r := Row(path, importance, junk, i)[..255];
    assert r[|path|] == '\0' && r[..|path|] == path;
    CStringOf(path, r[|path|..]);
    assert r == path + r[|path|..];
  }

  lemma {:induction false} RowsAt(entries: seq<Entry>, n: nat, junk: Junk, i: nat)
    requires i < n <= |entries|
    ensures Rows(entries, n, junk)[ROW * i..ROW * i + ROW]
         == Row(RecordPath(entries[i].kind, i), entries[i].importance, junk, i)
    decreases n
  {
    if i < n - 1 {
      RowsAt(entries, n - 1, junk, i);
    }
  }

  /** `x` is an index file for these entries. */
  ghost predicate IsIndex(x: string, entries: seq<Entry>)
  {
    && |x| == 8 + ROW * |entries| && Number(x[..8]) == |entries|
    && forall i :: 0 <= i < |entries| ==> PathAt(x, i) == RecordPath(entries[i].kind, i)
  }

  lemma IndexStarts(entries: seq<Entry>, junk: Junk)
    requires |entries| < 0x1_0000
    ensures Number(Index(entries, junk)[..8]) == |entries|
  {
    assert Pow256(8) == WORD;
    NumberOfBytes(|entries|, 8);
    assert Index(entries, junk)[..8] == Bytes(|entries|, 8);
  }

  /** The slice of a row is the same in the index and in its rows alone. */
  lemma RowSlice(head: string, rows: string, at: nat, i: nat)
    requires |head| == 8 && at == 8 + ROW * i && ROW * i + ROW <= |rows|
    ensures (head + rows)[at..at + 255] == rows[ROW * i..ROW * i + ROW][..255]
  {
  }

  lemma IndexRow(entries: seq<Entry>, junk: Junk, i: nat)
    requires i < |entries| < 0x1_0000
    ensures PathAt(Index(entries, junk), i) == RecordPath(entries[i].kind, i)
  {
    RowsAt(entries, |entries|, junk, i);
    RecordPathShort(entries[i].kind, i);
    DecimalNoNul(entries[i].kind, i);
    RowPath(RecordPath(entries[i].kind, i), entries[i].importance, junk, i);
    RowSlice(Bytes(|entries|, 8), Rows(entries, |entries|, junk), 8 + ROW * i, i);
  }

  /** The index that flush writes is one, whatever the stack held. */
  lemma {:induction false} IndexIsIndex(entries: seq<Entry>, junk: Junk)
    requires |entries| < 0x1_0000
    ensures IsIndex(Index(entries, junk), entries)
  {
    IndexStarts(entries, junk);
    forall i | 0 <= i < |entries|
      ensures PathAt(Index(entries, junk), i) == RecordPath(entries[i].kind, i)
    {
      IndexRow(entries, junk, i);
    }
  }

  // ----- the formats, byte by byte -----

  lemma {:induction false} BytesAt(v: nat, n: nat, i: nat)
    requires i < n
    ensures Bytes(v, n)[i] as int == v / Pow256(i) % 256
    decreases n
  {
    if i > 0 {
      BytesAt(v / 256, n - 1, i - 1);
      DivideTwice(v, i);
    }
  }

  lemma DivideTwice(v: nat, i: nat)
    requires i > 0
    ensures v / 256 / Pow256(i - 1) == v / Pow256(i)
  {
    var m := Pow256(i - 1);
    var h := v / 256;
    DivModUnique(v, 256 * m, h / m, 256 * (h % m) + v % 256);
  }

  /** The file of a directory that the entry's kind selects. */
  lemma RecordPathText(kind: nat, i: nat)
    ensures RecordPath(0, i) == "/AION/memory/episodic/" + Decimal(i) + ".mem"
    ensures RecordPath(2, i) == "/AION/memory/self/" + Decimal(i) + ".mem"
    ensures kind != 0 && kind != 2 ==> RecordPath(kind, i) == "/AION/memory/semantic/" + Decimal(i) + ".mem"
  {
  }

  lemma FrontBytes(e: Entry)
    requires GoodEntry(e)
    ensures var x := HeaderFront(e);
            && x[0] as int == 0x4D && x[1] as int == 0x45 && x[2] as int == 0x4D && x[3] as int == 0x41
            && x[4] as int == e.kind && x[5] as int == e.importance && x[6] == x[7] == '\0'
  {
    assert Pow256(1) == 256 && Pow256(2) == 0x1_0000 && Pow256(3) == 0x100_0000;
    BytesAt(MAGIC, 4, 0);
    BytesAt(MAGIC, 4, 1);
    BytesAt(MAGIC, 4, 2);
    BytesAt(MAGIC, 4, 3);
    BytesAt(e.kind, 1, 0);
    BytesAt(e.importance, 1, 0);
    BytesAt(0, 2, 0);
    BytesAt(0, 2, 1);
  }

  lemma BackBytes(e: Entry, i: nat)
    requires i < 8
    ensures HeaderBack(e)[i] as int == e.tick / Pow256(i) % 256 && HeaderBack(e)[8 + i] == '\0'
    ensures i < 4 ==> HeaderBack(e)[16 + i] as int == |e.content| / Pow256(i) % 256
  {
    BytesAt(e.tick, 8, i);
    BytesAt(0, 8, i);
    ZeroDivided(Pow256(i));
    if i < 4 {
      BytesAt(|e.content|, 4, i);
    }
  }

  lemma ZeroDivided(m: nat)
    requires m > 0
    ensures 0 / m == 0
  {
  }

  /** A record file: the letters "MEMA", kind, importance, two zero bytes, the tick in eight bytes, eight zero bytes
      where a time stamp would be, the length in four bytes, all least byte first, and then the content. */
  lemma RecordLayout(e: Entry)
    requires GoodEntry(e)
    ensures var x := Record(e);
            && |x| == 28 + |e.content| && x[28..] == e.content
            && x[0] == 'M' && x[1] == 'E' && x[2] == 'M' && x[3] == 'A'
            && x[4] as int == e.kind && x[5] as int == e.importance && x[6] == x[7] == '\0'
            && (forall i :: 0 <= i < 8 ==> x[8 + i] as int == e.tick / Pow256(i) % 256 && x[16 + i] == '\0')
            && forall i :: 0 <= i < 4 ==> x[24 + i] as int == |e.content| / Pow256(i) % 256
  {
    var x, front, back := Record(e), HeaderFront(e), HeaderBack(e);
    FrontBytes(e);
    forall i | 0 <= i < 8
      ensures x[8 + i] as int == e.tick / Pow256(i) % 256 && x[16 + i] == '\0'
      ensures i < 4 ==> x[24 + i] as int == |e.content| / Pow256(i) % 256
    {
      BackBytes(e, i);
      assert x[8 + i] == back[i] && x[16 + i] == back[8 + i];
      assert i < 4 ==> x[24 + i] == back[16 + i];
    }
  }

  lemma RowBytes(path: string, importance: nat, junk: Junk, i: nat)
    requires |path| < 255 && importance < 256
    ensures var row := Row(path, importance, junk, i);
            row[..|path|] == path && row[|path|] == '\0' && row[255] as int == importance
  {
  }

  lemma SubRow(x: string, row: string, at: nat, n: nat)
    requires at + 256 <= |x| && x[at..at + 256] == row && n < 256
    ensures |row| == 256 && x[at..at + n] == row[..n] && x[at + n] == row[n] && x[at + 255] == row[255]
  {
  }

  lemma WholeRow(head: string, rows: string, at: nat, i: nat)
    requires |head| == 8 && at == 8 + ROW * i && ROW * i + ROW <= |rows|
    ensures (head + rows)[at..at + 256] == rows[ROW * i..ROW * i + ROW]
  {
  }

  /** An index begins with the number of its rows in eight bytes, least first. */
  lemma IndexCount(entries: seq<Entry>, junk: Junk, k: nat)
    requires k < 8
    ensures |Index(entries, junk)| == 8 + 256 * |entries|
    ensures Index(entries, junk)[k] as int == |entries| / Pow256(k) % 256
  {
    BytesAt(|entries|, 8, k);
    assert Index(entries, junk)[k] == Bytes(|entries|, 8)[k];
  }

  lemma RowInIndex(entries: seq<Entry>, junk: Junk, i: nat, at: nat)
    requires i < |entries| && at == 8 + ROW * i
    ensures at + ROW <= |Index(entries, junk)|
    ensures Index(entries, junk)[at..at + ROW]
         == Row(RecordPath(entries[i].kind, i), entries[i].importance, junk, i)
  {
    RowsAt(entries, |entries|, junk, i);
    WholeRow(Bytes(|entries|, 8), Rows(entries, |entries|, junk), at, i);
  }

  /** Its row for an entry has the path, a zero byte, and at the end the importance. */
  lemma IndexRowLayout(entries: seq<Entry>, junk: Junk, i: nat, at: nat)
    requires i < |entries| < 0x1_0000 && entries[i].importance < 256 && at == 8 + 256 * i
    ensures var x, path := Index(entries, junk), RecordPath(entries[i].kind, i);
            && at + 256 <= |x| && |path| < 255
            && x[at..at + |path|] == path && x[at + |path|] == '\0' && x[at + 255] as int == entries[i].importance
  {
    var path := RecordPath(entries[i].kind, i);
    RecordPathShort(entries[i].kind, i);
    RowInIndex(entries, junk, i, at);
    RowBytes(path, entries[i].importance, junk, i);
    SubRow(Index(entries, junk), Row(path, entries[i].importance, junk, i), at, |path|);
  }
}
