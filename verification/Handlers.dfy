/** What the handlers of the action language do: storing and recalling memories, and decoding sound. */
module Handlers {
  import opened Bits
  import opened Options
  import opened CStrings
  import opened Digits
  import opened Scanner
  import opened Actions
  import opened Records
  import opened MemorySpec
  import opened Persistence

  // ----- sound -----

  const PCM_BUF: nat := 2048
  const HEX_BUF: nat := 4096

  /** A C character as a number: bytes from 128 on are negative. */
  function Signed(c: char): (r: int)
  {
    var b := c as int % 256;
    if b >= 128 then b - 256 else b
  }

  /** The value that the decoder gives a character, stored in a byte. */
  function Nibble(c: char): (r: nat)
  {
    var s := Signed(c);
    (if s >= 97 then s - 97 + 10 else if s >= 65 then s - 65 + 10 else s - 48) % 256
  }

  /** Two nibbles as a byte. */
  function Joined(hi: nat, lo: nat): (r: nat)
  {
    Or(hi * 16, lo) % 256
  }

  function PcmByte(hi: char, lo: char): (r: nat)
  {
    Joined(Nibble(hi), Nibble(lo))
  }

  /** The bytes of a text in hexadecimal, at most `room` of them; an odd last digit is dropped. */
  function Pcm(hex: string, room: nat): (r: seq<nat>)
    decreases room
  {
    if |hex| < 2 || room == 0 then [] else [PcmByte(hex[0], hex[1])] + Pcm(hex[2..], Prev(room))
  }

  const UPPER: string := "0123456789ABCDEF"

  /** `c` is the hexadecimal digit for `v`, in either case. */
  predicate IsHexDigit(c: char, v: nat)
  {
    v < 16 && (c == DIGITS[v] || c == UPPER[v])
  }

  /** `hex` writes these bytes, each letter in either case. */
  predicate IsHexOf(hex: string, bytes: seq<nat>)
  {
    && |hex| == 2 * |bytes|
    && forall i :: 0 <= i < |bytes| ==>
         bytes[i] < 256 && IsHexDigit(hex[2 * i], bytes[i] / 16) && IsHexDigit(hex[2 * i + 1], bytes[i] % 16)
  }

  lemma NibbleOfDigit(c: char, v: nat)
    requires IsHexDigit(c, v)
    ensures Nibble(c) == v && c != '"' && c != '=' && c != '>' && c != '\0'
  {
  }

  lemma JoinedNibbles(q: nat, r: nat)
    requires q < 16 && r < 16
    ensures Joined(q, r) == q * 16 + r
  {
    assert Pow2(4) == 16;
    OrDisjoint(q * 16, r, 4);
  }

  lemma JoinedByte(b: nat)
    requires b < 256
    ensures Joined(b / 16, b % 16) == b
  {
    JoinedNibbles(b / 16, b % 16);
  }

  lemma PcmByteOfDigits(hi: char, lo: char, b: nat)
    requires b < 256 && IsHexDigit(hi, b / 16) && IsHexDigit(lo, b % 16)
    ensures PcmByte(hi, lo) == b
  {
    JoinedByte(b);
    NibbleOfDigit(hi, b / 16);
    NibbleOfDigit(lo, b % 16);
  }

  /** What the decoder makes of any byte, digit or not. */
  lemma NibbleIs(c: char)
    requires c as int < 256
    ensures Nibble(c) == (c as int + 256 - if 97 <= c as int < 128 then 87
                                           else if 65 <= c as int < 97 then 55 else 48) % 256
  {
  }

  /** It makes one byte of every two characters, as many as there is room for. */
  lemma {:induction false} PcmBytes(hex: string, room: nat, i: nat)
    ensures |Pcm(hex, room)| == if |hex| / 2 <= room then |hex| / 2 else room
    ensures i < |Pcm(hex, room)| ==>
            2 * i + 1 < |hex| && Pcm(hex, room)[i] == Or(Nibble(hex[2 * i]) * 16, Nibble(hex[2 * i + 1])) % 256
    decreases room
  {
    if |hex| >= 2 && room > 0 {
      PcmBytes(hex[2..], Prev(room), if i == 0 then 0 else i - 1);
    }
  }

  /** The decoder inverts hexadecimal in upper case, lower case or any mixture. */
  lemma {:induction false} PcmInvertsHex(hex: string, bytes: seq<nat>, room: nat)
    requires IsHexOf(hex, bytes) && |bytes| <= room
    ensures Pcm(hex, room) == bytes
    decreases room
  {
    if bytes != [] {
      var h, b := hex[2..], bytes[1..];
      assert hex[2 * 0] == hex[0] && hex[2 * 0 + 1] == hex[1];
      PcmByteOfDigits(hex[0], hex[1], bytes[0]);
      forall i | 0 <= i < |b|
        ensures b[i] < 256 && IsHexDigit(h[2 * i], b[i] / 16) && IsHexDigit(h[2 * i + 1], b[i] % 16)
      {
        assert b[i] == bytes[i + 1] && h[2 * i] == hex[2 * (i + 1)] && h[2 * i + 1] == hex[2 * (i + 1) + 1];
      }
      PcmInvertsHex(h, b, Prev(room));
    }
  }

  /** What the sound handler plays for a token; nothing if there is no complete data parameter. */
  function Playing(token: string): (r: Option<seq<nat>>)
  {
    match ParamStr(token, DATA, HEX_BUF)
    case None => None
    case Some(hex) => Some(Pcm(hex, PCM_BUF))
  }

  // ----- tokens with parameters -----

  /** A quoted parameter, and what follows it. */
  function Param(key: string, text: string, after: string): (r: string)
  {
    key + "=" + "\"" + (text + (['"'] + after))
  }

  lemma ParamStrAt(prefix: string, key: string, rest: string, size: nat)
    requires |key| >= 2 && '=' !in key && Harmless(prefix, key)
    ensures ParamStr(prefix + (key + "=" + "\"" + rest), key, size) == Unquote(rest, size)
  {
    ParamFound(prefix, key, "\"", rest);
    TailAfter(prefix, key + "=" + "\"", rest, |prefix| + |key| + 2);
  }

  lemma TailAfter(a: string, b: string, c: string, n: nat)
    requires n == |a| + |b|
    ensures (a + (b + c))[n..] == c
  {
  }

  lemma UnquoteIs(text: string, after: string, size: nat)
    requires '"' !in text
    ensures Unquote(text + (['"'] + after), size) == Some(Clip(text, size))
  {
    StrChrAt(text, '"', after);
    assert (text + (['"'] + after))[..|text|] == text;
  }

  lemma ParamStrIs(prefix: string, key: string, text: string, after: string, size: nat)
    requires |key| >= 2 && '=' !in key && Harmless(prefix, key) && '"' !in text
    ensures ParamStr(prefix + Param(key, text, after), key, size) == Some(Clip(text, size))
  {
    ParamStrAt(prefix, key, text + (['"'] + after), size);
    UnquoteIs(text, after, size);
  }

  /** A parameter whose closing quote is missing is not there. */
  lemma ParamStrOpen(prefix: string, key: string, text: string, size: nat)
    requires |key| >= 2 && '=' !in key && Harmless(prefix, key) && '"' !in text
    ensures ParamStr(prefix + (key + "=" + "\"" + text), key, size) == None
  {
    ParamStrAt(prefix, key, text, size);
    StrChrNone(text, '"');
  }

  /** Any text can follow the name of a number: its leading digits count, and without any the number is 0. */
  lemma {:induction false} ParamIntAt(prefix: string, key: string, digits: string, rest: string)
    requires |key| >= 2 && '=' !in key && Harmless(prefix, key)
    requires (forall i :: 0 <= i < |digits| ==> '0' <= digits[i] <= '9')
    requires rest == [] || !('0' <= rest[0] <= '9')
    ensures ParamInt(prefix + (key + "=" + "" + (digits + rest)), key) == Some(Value(digits, 10))
  {
    ParamFound(prefix, key, "", digits + rest);
    assert key + "=" + "" == key + "=";
    TailAfter(prefix, key + "=" + "", digits + rest, |prefix| + |key| + 1);
    ParseIsValue(digits, rest);
  }

  lemma {:induction false} ParamIntIs(prefix: string, key: string, v: nat)
    requires |key| >= 2 && '=' !in key && Harmless(prefix, key)
    ensures ParamInt(prefix + (key + "=" + "" + Decimal(v)), key) == Some(v)
  {
    DecimalParses(v, []);
    DigitsStandFor(v, 10);
    ParamIntAt(prefix, key, Decimal(v), []);
    assert Decimal(v) + [] == Decimal(v);
  }

  /** `prefix` with a whole parameter and `gap` after it. */
  function Through(prefix: string, key: string, text: string, gap: string): (r: string)
  {
    prefix + Param(key, text, gap)
  }

  lemma Regroup(prefix: string, key: string, text: string, gap: string, after: string)
    ensures prefix + Param(key, text, gap + after) == Through(prefix, key, text, gap) + after
  {
  }

  const PCM_HEAD: string := "ACT:AUDIO_PCM "

  const DATA: string := "data"

  function PcmToken(hex: string, tail: string): (r: string)
  {
    PCM_HEAD + Param(DATA, hex, tail)
  }

  /** Cutting a text after its front cuts what follows the front. */
  lemma CutAfter(front: string, tail: string, n: nat)
    requires |front| <= n <= |front| + |tail|
    ensures (front + tail)[..n] == front + tail[..n - |front|]
  {
  }

  lemma ParamFront(key: string, text: string, tail: string)
    ensures Param(key, text, tail) == Param(key, text, []) + tail
    ensures |Param(key, text, tail)| == |key| + |text| + |tail| + 3
  {
  }

  lemma CutParam(head: string, key: string, text: string, tail: string, n: nat)
    requires |head| + |key| + 2 <= n <= |head| + |key| + 2 + |text|
    ensures (head + Param(key, text, tail))[..n] == head + (key + "=" + "\"" + text[..n - |head| - |key| - 2])
  {
  }

  lemma CutTail(head: string, key: string, text: string, tail: string, n: nat)
    requires |head| + |key| + |text| + 3 <= n <= |head| + |key| + |text| + 3 + |tail|
    ensures (head + Param(key, text, tail))[..n]
         == head + Param(key, text, tail[..n - |head| - |key| - |text| - 3])
  {
    ParamFront(key, text, tail);
    ParamFront(key, text, []);
    var front := head + Param(key, text, []);
    assert head + Param(key, text, tail) == front + tail;
    CutAfter(front, tail, n);
    ParamFront(key, text, tail[..n - |front|]);
  }

  /** A quoted parameter of a token survives the token buffer exactly if its closing quote is among the first 2047
      bytes. */
  lemma {:induction false} TokenParam(head: string, key: string, text: string, tail: string, size: nat)
    requires |key| >= 2 && '=' !in key && Harmless(head, key) && '"' !in text && |head| + |key| + 2 <= 2047
    ensures ParamStr(Token(head + Param(key, text, tail)), key, size)
         == if |head| + |key| + |text| + 3 <= 2047 then Some(Clip(text, size)) else None
  {
    var token, n := head + Param(key, text, tail), TOKEN_BUF - 1;
    ParamFront(key, text, tail);
    if |token| < TOKEN_BUF {
      ParamStrIs(head, key, text, tail, size);
    } else if |head| + |key| + |text| + 3 <= n {
      CutTail(head, key, text, tail, n);
      ParamStrIs(head, key, text, tail[..n - |head| - |key| - |text| - 3], size);
    } else {
      CutParam(head, key, text, tail, n);
      ParamStrOpen(head, key, text[..n - |head| - |key| - 2], size);
    }
  }

  lemma {:induction false} HexIsPlain(hex: string, bytes: seq<nat>)
    requires IsHexOf(hex, bytes)
    ensures '"' !in hex && '=' !in hex
  {
    forall i | 0 <= i < |hex|
      ensures hex[i] != '"' && hex[i] != '='
    {
      var k := i / 2;
      if i == 2 * k {
        NibbleOfDigit(hex[i], bytes[k] / 16);
      } else {
        assert i == 2 * k + 1;
        NibbleOfDigit(hex[i], bytes[k] % 16);
      }
    }
  }

  lemma PcmNames()
    ensures Harmless(PCM_HEAD, DATA) && |PCM_HEAD| == 14 && |DATA| == 4 && '=' !in DATA
  {
  }

  /** Sound written in hexadecimal is played exactly if it has at most 1013 bytes: the token buffer cuts a longer one
      before its closing quote, and then nothing is played. */
  lemma {:induction false} PcmPlaysIff(hex: string, bytes: seq<nat>, tail: string)
    requires IsHexOf(hex, bytes)
    ensures Playing(Token(PcmToken(hex, tail))) == if |bytes| <= 1013 then Some(bytes) else None
  {
    PcmNames();
    HexIsPlain(hex, bytes);
    TokenParam(PCM_HEAD, DATA, hex, tail, HEX_BUF);
    if |bytes| <= 1013 {
      PcmInvertsHex(hex, bytes, PCM_BUF);
    }
  }

  /** Without a data parameter nothing is played. */
  lemma NoDataNoSound(token: string)
    requires Harmless(token, DATA)
    ensures Playing(token) == None
  {
    PcmNames();
    ParamStrMissing(token, DATA, HEX_BUF);
  }

  // ----- memories and files -----

  const KEY_BUF: nat := 128
  const VALUE_BUF: nat := 1024
  const CONTENT_BUF: nat := 1200
  const PATH_BUF: nat := 512
  const DATA_BUF: nat := 4096

  const KEY: string := "key"
  const VALUE: string := "value"
  const IMPORTANCE: string := "importance"
  const PATH: string := "path"

  /** What a handler's run amounts to. */
  datatype Outcome =
    | Other(call: Call)
    | Played(bytes: Option<seq<nat>>)
    | Stored(key: string)
    | Recalled(content: Option<string>)
    | Wrote(path: string, data: string)
    | Rejected(path: string)

  function OrElse<T>(o: Option<T>, d: T): (r: T)
  {
    match o case None => d case Some(v) => v
  }

  /** A quoted parameter, or the empty text that its zeroed buffer holds. */
  function TextOf(token: string, key: string, size: nat): (r: string)
  {
    OrElse(ParamStr(token, key, size), "")
  }

  function KeyOf(token: string): (r: string)
  {
    TextOf(token, KEY, KEY_BUF)
  }

  function ValueOf(token: string): (r: string)
  {
    TextOf(token, VALUE, VALUE_BUF)
  }

  function ImportanceOf(token: string): (r: nat)
  {
    OrElse(ParamInt(token, IMPORTANCE), 1)
  }

  /** The signed sum of the number parser does not overflow. */
  predicate ImportanceFits(token: string)
  {
    ImportanceOf(token) < 0x8000_0000_0000_0000
  }

  function Content(key: string, value: string): (r: string)
  {
    Clip(key + ": " + value, CONTENT_BUF)
  }

  /** The entry that a store token asks for; importance defaults to 1 and saturates at 255. */
  function EntryOf(token: string): (r: Entry)
    requires ImportanceFits(token)
  {
    var importance := ImportanceOf(token);
    Entry(SEMANTIC, if importance > 255 then 255 else importance, 0, Content(KeyOf(token), ValueOf(token)))
  }

  function Recall(m: Mem, key: string): (r: Option<string>)
  {
    match SearchDown(m.entries, key, |m.entries|)
    case None => None
    case Some(k) => Some(m.entries[k].entry.content)
  }

  /** Whether anything is recalled, and what: the text of the newest entry that matches. */
  lemma RecallIs(m: Mem, key: string)
    ensures match Recall(m, key)
            case None => forall i :: 0 <= i < |m.entries| ==> !Matches(m.entries[i], key)
            case Some(content) =>
              exists k :: IsNewest(m.entries, key, k) && content == m.entries[k].entry.content
  {
    var k := SearchDown(m.entries, key, |m.entries|);
    if k.Some? {
      assert IsNewest(m.entries, key, k.value);
    }
  }

  ghost predicate IsNewest(entries: seq<MemEntry>, key: string, k: int)
  {
    0 <= k < |entries| && Matches(entries[k], key) && forall i :: k < i < |entries| ==> !Matches(entries[i], key)
  }

  /** Only absolute paths without ".." are written. */
  predicate Rejects(path: string)
  {
    path == "" || path[0] != '/' || StrStr(path, "..").Some?
  }

  lemma DotsAt(path: string, dots: string, i: int)
    requires dots == ".." && 0 <= i && i + 1 < |path| && path[i] == '.' && path[i + 1] == '.'
    ensures dots <= path[i..]
  {
    assert path[i..][..2] == dots;
  }

  lemma TwoDots(path: string, dots: string, i: nat)
    requires i <= |path| && dots == ".." && dots <= path[i..]
    ensures i + 1 < |path| && path[i] == '.' && path[i + 1] == '.'
  {
    var t := path[i..];
    assert t[0] == dots[0] && t[1] == dots[1];
  }

  lemma {:induction false} HasDotsIff(path: string, dots: string)
    requires dots == ".."
    ensures StrStr(path, dots).Some? <==> exists i :: 0 <= i && i + 1 < |path| && path[i] == '.' && path[i + 1] == '.'
  {
    StrStrFirst(path, dots);
    if StrStr(path, dots).Some? {
      TwoDots(path, dots, StrStr(path, dots).value);
    } else if i :| 0 <= i && i + 1 < |path| && path[i] == '.' && path[i + 1] == '.' {
      DotsAt(path, dots, i);
    }
  }

  /** A path is rejected exactly if it does not begin with a slash or has two dots in a row. */
  lemma RejectsIff(path: string)
    ensures Rejects(path) <==>
            path == [] || path[0] != '/' || exists i :: 0 <= i && i + 1 < |path| && path[i] == '.' && path[i + 1] == '.'
  {
    HasDotsIff(path, "..");
  }

  /** The file handler writes any such path, also those of the store. */
  function PutFile(m: Mem, path: string, data: string): (r: (Mem, Outcome))
  {
    if Rejects(path) then (m, Rejected(path)) else (WriteFile(m, path, data), Wrote(path, data))
  }

  function DataOf(token: string): (r: string)
  {
    TextOf(token, DATA, DATA_BUF)
  }

  /** A call overruns neither the index buffer of the store nor the number parser. */
  predicate Performable(m: Mem, cap: nat, call: Call, granted: bool)
    requires cap > 0
  {
    call.action == MEMORY_STORE ==> StoreFits(m, cap, granted) && ImportanceFits(call.token)
  }

  /** One call, on the memory; `granted` tells whether a stored text finds room in the heap. */
  function Perform(m: Mem, cap: nat, call: Call, granted: bool, junk: Junk): (r: (Mem, Outcome))
    requires cap > 0 && Performable(m, cap, call, granted)
  {
    if call.action == MEMORY_STORE then
      (Store(m, cap, EntryOf(call.token), granted, junk), Stored(KeyOf(call.token)))
    else if call.action == MEMORY_RECALL then (m, Recalled(Recall(m, KeyOf(call.token))))
    else if call.action == FILE_WRITE then PutFile(m, TextOf(call.token, PATH, PATH_BUF), DataOf(call.token))
    else if call.action == AUDIO_PCM then (m, Played(Playing(call.token)))
    else (m, Other(call))
  }

  /** What comes from outside for each call of an output: whether a stored text finds room, and the bytes of the stack
      that its flush would write. */
  datatype World = World(grants: nat -> bool, junks: nat -> Junk)

  /** None of the calls overruns anything. */
  predicate AllPerformable(m: Mem, cap: nat, calls: seq<Call>, k: nat, world: World)
    requires cap > 0
    decreases |calls|
  {
    calls == [] ||
    (&& Performable(m, cap, calls[0], world.grants(k))
     && AllPerformable(Perform(m, cap, calls[0], world.grants(k), world.junks(k)).0, cap, calls[1..], k + 1, world))
  }

  /** All calls of a list, the first of which is number `k` of the output. */
  function PerformAll(m: Mem, cap: nat, calls: seq<Call>, k: nat, world: World): (r: (Mem, seq<Outcome>))
    requires cap > 0 && AllPerformable(m, cap, calls, k, world)
    ensures |r.1| == |calls|
    decreases |calls|
  {
    if calls == [] then (m, [])
    else
      var (m1, o) := Perform(m, cap, calls[0], world.grants(k), world.junks(k));
      var (m2, os) := PerformAll(m1, cap, calls[1..], k + 1, world);
      (m2, [o] + os)
  }

  lemma PerformableFirst(m: Mem, cap: nat, calls: seq<Call>, k: nat, world: World)
    requires cap > 0 && calls != [] && AllPerformable(m, cap, calls, k, world)
    ensures Performable(m, cap, calls[0], world.grants(k))
  {
  }

  lemma PerformableNext(m: Mem, cap: nat, calls: seq<Call>, k: nat, world: World, m1: Mem)
    requires cap > 0 && calls != [] && AllPerformable(m, cap, calls, k, world)
    requires Performable(m, cap, calls[0], world.grants(k))
    requires m1 == Perform(m, cap, calls[0], world.grants(k), world.junks(k)).0
    ensures AllPerformable(m1, cap, calls[1..], k + 1, world)
  {
  }

  lemma PerformAllNext(m: Mem, cap: nat, calls: seq<Call>, k: nat, next: nat, world: World)
    requires cap > 0 && calls != [] && next == k + 1 && AllPerformable(m, cap, calls, k, world)
    ensures Performable(m, cap, calls[0], world.grants(k))
    ensures var (m1, o) := Perform(m, cap, calls[0], world.grants(k), world.junks(k));
            && AllPerformable(m1, cap, calls[1..], next, world)
            && var (m2, os) := PerformAll(m1, cap, calls[1..], next, world);
               PerformAll(m, cap, calls, k, world) == (m2, [o] + os)
  {
    PerformableFirst(m, cap, calls, k, world);
    PerformableNext(m, cap, calls, k, world, Perform(m, cap, calls[0], world.grants(k), world.junks(k)).0);
  }

  lemma PerformGrows(m: Mem, cap: nat, call: Call, granted: bool, junk: Junk)
    requires cap > 0 && |m.entries| <= cap && Performable(m, cap, call, granted)
    ensures var r := Perform(m, cap, call, granted, junk).0; |r.entries| <= cap && |r.entries| <= |m.entries| + 1
  {
    WorstScanInvariant(m.entries, |m.entries|);
  }

  ghost predicate NumbersFit(calls: seq<Call>)
  {
    forall i :: 0 <= i < |calls| && calls[i].action == MEMORY_STORE ==> ImportanceFits(calls[i].token)
  }

  /** In a small store, and in one with room in its index for each call, nothing is overrun. */
  lemma {:induction false} FewCallsFit(m: Mem, cap: nat, calls: seq<Call>, k: nat, world: World)
    requires cap > 0 && |m.entries| <= cap && (cap <= 4095 || |m.entries| + |calls| <= 4095)
    requires NumbersFit(calls)
    ensures AllPerformable(m, cap, calls, k, world)
    decreases |calls|
  {
    if calls != [] {
      WorstScanInvariant(m.entries, |m.entries|);
      assert Performable(m, cap, calls[0], world.grants(k));
      PerformGrows(m, cap, calls[0], world.grants(k), world.junks(k));
      FewCallsFit(Perform(m, cap, calls[0], world.grants(k), world.junks(k)).0, cap, calls[1..], k + 1, world);
    }
  }

  /** A list of calls is performed by performing its two parts, one after the other. */
  lemma {:induction false} PerformAllAppend(m: Mem, cap: nat, a: seq<Call>, b: seq<Call>, k: nat, mid: nat,
                                           world: World)
    requires cap > 0 && mid == k + |a| && AllPerformable(m, cap, a + b, k, world)
    ensures AllPerformable(m, cap, a, k, world)
    ensures var (m1, os) := PerformAll(m, cap, a, k, world);
            && AllPerformable(m1, cap, b, mid, world)
            && var (m2, more) := PerformAll(m1, cap, b, mid, world);
               PerformAll(m, cap, a + b, k, world) == (m2, os + more)
    decreases |a|
  {
    if a == [] {
      assert a + b == b;
      assert [] + PerformAll(m, cap, b, mid, world).1 == PerformAll(m, cap, b, mid, world).1;
    } else {
      AppendTail(a, b);
      PerformAllNext(m, cap, a + b, k, k + 1, world);
      var (m1, o) := Perform(m, cap, a[0], world.grants(k), world.junks(k));
      PerformAllAppend(m1, cap, a[1..], b, k + 1, mid, world);
      PerformAllNext(m, cap, a, k, k + 1, world);
      var (m2, os) := PerformAll(m1, cap, a[1..], k + 1, world);
      ConsAppend(o, os, PerformAll(m2, cap, b, mid, world).1);
    }
  }

  lemma AppendTail(a: seq<Call>, b: seq<Call>)
    requires a != []
    ensures (a + b)[0] == a[0] && (a + b)[1..] == a[1..] + b
  {
  }

  lemma ConsAppend<T>(x: T, a: seq<T>, b: seq<T>)
    ensures [x] + (a + b) == ([x] + a) + b
  {
  }

  // ----- storing, then recalling -----

  /** A recall right after a successful store of a text that contains the key finds that text. */
  lemma RecallAfterStore(m: Mem, cap: nat, e: Entry, junk: Junk, key: string)
    requires cap > 0 && StoreFits(m, cap, true)
    requires |e.content| <= MAX_CONTENT && '\0' !in e.content && StrStr(e.content, key).Some?
    ensures Recall(Store(m, cap, e, true, junk), key) == Some(e.content)
  {
    var room := MakeRoom(m, cap);
    var r := Append(room, e);
    var s := Store(m, cap, e, true, junk);
    var n := |room.entries|;
    assert |s.entries| == n + 1 && s.entries[n].entry == e by {
      assert r.entries[n] == MemEntry(e, true);
    }
    NoNulCString(e.content);
  }

  lemma {:induction false} NoNulCString(s: string)
    requires '\0' !in s
    ensures CString(s) == s
    decreases |s|
  {
    if s != [] {
      NoNulCString(s[1..]);
    }
  }

  lemma TextOfFits(token: string, key: string, size: nat)
    requires size > 0
    ensures |TextOf(token, key, size)| < size
  {
  }

  /** No text that a token can hold is cut once more. */
  lemma WholeContent(key: string, value: string)
    requires |key| < KEY_BUF && |value| < VALUE_BUF && '\0' !in key && '\0' !in value
    ensures Content(key, value) == key + ": " + value && '\0' !in key + ": " + value
  {
  }

  lemma ContentHasKey(key: string, value: string)
    ensures StrStr(key + ": " + value, key).Some?
  {
    StrStrFinds([], key, ": " + value);
    assert [] + key + (": " + value) == key + ": " + value;
  }

  lemma StorePerformed(m: Mem, cap: nat, token: string, key: string, value: string, junk: Junk)
    requires cap > 0 && Performable(m, cap, Call(MEMORY_STORE, token), true)
    requires key == KeyOf(token) && value == ValueOf(token) && '\0' !in key && '\0' !in value
    ensures var (m1, o) := Perform(m, cap, Call(MEMORY_STORE, token), true, junk);
            o == Stored(key) && Recall(m1, key) == Some(key + ": " + value)
  {
    TextOfFits(token, KEY, KEY_BUF);
    TextOfFits(token, VALUE, VALUE_BUF);
    WholeContent(key, value);
    ContentHasKey(key, value);
    RecallAfterStore(m, cap, EntryOf(token), junk, key);
  }

  lemma StoreRecallCalls(m: Mem, cap: nat, a: string, b: string, rest: seq<Call>, k: nat, world: World)
    requires cap > 0 && world.grants(k) && KeyOf(a) == KeyOf(b) && '\0' !in KeyOf(a) && '\0' !in ValueOf(a)
    requires AllPerformable(m, cap, [Call(MEMORY_STORE, a)] + ([Call(MEMORY_RECALL, b)] + rest), k, world)
    ensures var os := PerformAll(m, cap, [Call(MEMORY_STORE, a)] + ([Call(MEMORY_RECALL, b)] + rest), k, world).1;
            |os| >= 2 && os[0] == Stored(KeyOf(a)) && os[1] == Recalled(Some(KeyOf(a) + ": " + ValueOf(a)))
  {
    var more := [Call(MEMORY_RECALL, b)] + rest;
    var calls := [Call(MEMORY_STORE, a)] + more;
    assert calls[1..] == more;
    PerformAllNext(m, cap, calls, k, k + 1, world);
    StorePerformed(m, cap, a, KeyOf(a), ValueOf(a), world.junks(k));
    PerformAllNext(Perform(m, cap, calls[0], world.grants(k), world.junks(k)).0, cap, more, k + 1, k + 2, world);
  }

  lemma WritablePair(ps: seq<Piece>, p: Piece, q: Piece)
    requires AllWritable(ps) && Writable(p) && Writable(q)
    ensures AllWritable(ps + [p, q])
  {
  }

  lemma GroupPair(cs: seq<Call>, a: Call, b: Call, rest: seq<Call>)
    ensures (cs + [a, b]) + rest == cs + ([a] + ([b] + rest))
  {
  }

  lemma RenderedPair(ps: seq<Piece>, p: Piece, q: Piece, rest: string)
    requires AllWritable(ps) && Writable(p) && Writable(q)
    ensures Calls(Render(ps + [p, q], rest))
         == CallsFor(ps, MatchName) + ([CallFor(p, MatchName)] + ([CallFor(q, MatchName)] + Calls(rest)))
  {
    WritablePair(ps, p, q);
    CallsOfRendered(ps + [p, q], rest);
    CallsForPair(ps, p, q, MatchName);
    GroupPair(CallsFor(ps, MatchName), CallFor(p, MatchName), CallFor(q, MatchName), Calls(rest));
  }

  /** Storing, then recalling, end to end: in an output with any actions before and anything after, a token that stores
      a value under a key, and next a token that recalls the key, however the two are spelled.  The recall finds exactly
      "key: value": whatever was stored before, whether or not the store evicts or flushes, provided the text finds room
      in the heap and nothing is overrun. */
  lemma StoreThenRecall(m: Mem, cap: nat, ps: seq<Piece>, p: Piece, q: Piece, rest: string, world: World)
    requires cap > 0 && AllWritable(ps) && Writable(p) && Writable(q) && world.grants(|ps|)
    requires MatchName(p.token) == Some(MEMORY_STORE) && MatchName(q.token) == Some(MEMORY_RECALL)
    requires KeyOf(Token(p.token)) == KeyOf(Token(q.token))
    requires '\0' !in KeyOf(Token(p.token)) && '\0' !in ValueOf(Token(p.token))
    requires AllPerformable(m, cap, Calls(Render(ps + [p, q], rest)), 0, world)
    ensures var key, value := KeyOf(Token(p.token)), ValueOf(Token(p.token));
            var os := PerformAll(m, cap, Calls(Render(ps + [p, q], rest)), 0, world).1;
            && |os| >= |ps| + 2
            && os[|ps|] == Stored(key) && os[|ps| + 1] == Recalled(Some(key + ": " + value))
  {
    var before := CallsFor(ps, MatchName);
    var pair := [CallFor(p, MatchName)] + ([CallFor(q, MatchName)] + Calls(rest));
    RenderedPair(ps, p, q, rest);
    PerformAllAppend(m, cap, before, pair, 0, |ps|, world);
    var m1 := PerformAll(m, cap, before, 0, world).0;
    StoreRecallCalls(m1, cap, Token(p.token), Token(q.token), Calls(rest), |ps|, world);
  }

  // ----- one action of an output -----

  lemma CallsForOne(ps: seq<Piece>, p: Piece)
    requires AllWritable(ps) && Writable(p)
    ensures AllWritable(ps + [p])
    ensures CallsFor(ps + [p], MatchName) == CallsFor(ps, MatchName) + [CallFor(p, MatchName)]
  {
    CallsForLast(ps, p, MatchName);
  }

  lemma GroupOne(cs: seq<Call>, a: Call, rest: seq<Call>)
    ensures (cs + [a]) + rest == cs + ([a] + rest) && ([a] + rest)[1..] == rest
  {
  }

  /** An action of an output is performed in the state that those before it leave, and what follows it in the state that
      it leaves. */
  lemma {:induction false} PieceAt(m: Mem, cap: nat, ps: seq<Piece>, p: Piece, rest: string, next: nat, world: World)
    requires cap > 0 && AllWritable(ps) && Writable(p) && next == |ps| + 1
    requires AllPerformable(m, cap, Calls(Render(ps + [p], rest)), 0, world)
    ensures AllPerformable(m, cap, CallsFor(ps, MatchName), 0, world)
    ensures var m1 := PerformAll(m, cap, CallsFor(ps, MatchName), 0, world).0;
            && Performable(m1, cap, CallFor(p, MatchName), world.grants(|ps|))
            && var (m2, o) := Perform(m1, cap, CallFor(p, MatchName), world.grants(|ps|), world.junks(|ps|));
               && AllPerformable(m2, cap, Calls(rest), next, world)
               && var all := PerformAll(m, cap, Calls(Render(ps + [p], rest)), 0, world);
                  |all.1| > |ps| && all.1[|ps|] == o && all.0 == PerformAll(m2, cap, Calls(rest), next, world).0
  {
    var cs, c := CallsFor(ps, MatchName), CallFor(p, MatchName);
    CallsForOne(ps, p);
    CallsOfRendered(ps + [p], rest);
    GroupOne(cs, c, Calls(rest));
    PerformAllAppend(m, cap, cs, [c] + Calls(rest), 0, |ps|, world);
    var m1 := PerformAll(m, cap, cs, 0, world).0;
    PerformAllNext(m1, cap, [c] + Calls(rest), |ps|, next, world);
  }

  /** Tokens that begin with any other name than the two that store and write leave memories and files as they are. */
  lemma QuietTokens(m: Mem, cap: nat, p: Piece, granted: bool, junk: Junk)
    requires cap > 0 && Writable(p)
    requires !("ACT:MEMORY_STORE" <= p.token) && !("ACT:FILE_WRITE" <= p.token)
    ensures Performable(m, cap, CallFor(p, MatchName), granted)
    ensures Perform(m, cap, CallFor(p, MatchName), granted, junk).0 == m
  {
    MatchFirst(p.token, 0);
  }

  /** Sound, from the text of its token: it is played if it has at most 1013 bytes, and changes nothing else. */
  lemma SoundFromText(m: Mem, cap: nat, text: string, hex: string, bytes: seq<nat>, tail: string,
                      granted: bool, junk: Junk)
    requires cap > 0 && IsHexOf(hex, bytes) && '<' !in text && '>' !in tail
    ensures var p := Piece(text, "ACT:AUDIO_PCM data=\"" + hex + "\"" + tail);
            && Writable(p) && Performable(m, cap, CallFor(p, MatchName), granted)
            && Perform(m, cap, CallFor(p, MatchName), granted, junk)
               == (m, Played(if |bytes| <= 1013 then Some(bytes) else None))
  {
    var p := Piece(text, PcmToken(hex, tail));
    PcmTokenText(hex, tail);
    PcmTokenMarks(hex, bytes, tail);
    AudioRows(p.token);
    PcmPlaysIff(hex, bytes, tail);
  }

  lemma PcmTokenText(hex: string, tail: string)
    ensures PcmToken(hex, tail) == "ACT:AUDIO_PCM data=\"" + hex + "\"" + tail
    ensures "ACT:AUDIO_PCM" <= PcmToken(hex, tail)
  {
    OneParamText(PCM_HEAD, DATA, hex, tail);
    assert PCM_HEAD == "ACT:AUDIO_PCM" + " ";
    HeadFirst("ACT:AUDIO_PCM", " ", Param(DATA, hex, tail));
  }

  lemma HeadFirst(name: string, gap: string, rest: string)
    ensures name <= (name + gap) + rest
  {
  }

  lemma HexNoMark(hex: string, bytes: seq<nat>)
    requires IsHexOf(hex, bytes)
    ensures '>' !in hex
  {
    forall i | 0 <= i < |hex|
      ensures hex[i] != '>'
    {
      var k := i / 2;
      if i == 2 * k {
        NibbleOfDigit(hex[i], bytes[k] / 16);
      } else {
        assert i == 2 * k + 1;
        NibbleOfDigit(hex[i], bytes[k] % 16);
      }
    }
  }

  lemma PcmTokenMarks(hex: string, bytes: seq<nat>, tail: string)
    requires IsHexOf(hex, bytes) && '>' !in tail
    ensures '>' !in PcmToken(hex, tail)
  {
    HexNoMark(hex, bytes);
  }

  lemma OneParamText(head: string, key: string, text: string, tail: string)
    ensures head + Param(key, text, tail) == head + key + "=\"" + text + "\"" + tail
  {
  }

  // ----- the usual spelling -----

  const STORE_HEAD: string := "ACT:MEMORY_STORE "
  const RECALL_HEAD: string := "ACT:MEMORY_RECALL "

  /** Text that can be a parameter: no quote, no '=', no token marks, no NUL. */
  predicate Plainly(s: string)
  {
    '"' !in s && '=' !in s && '<' !in s && '>' !in s && '\0' !in s
  }

  function NumberParam(key: string, v: nat): (r: string)
  {
    key + "=" + "" + Decimal(v)
  }

  /** Two quoted parameters after a head, and anything after them. */
  function TwoParams(head: string, k1: string, t1: string, k2: string, t2: string, tail: string): (r: string)
  {
    head + Param(k1, t1, " " + Param(k2, t2, tail))
  }

  function StoreToken(key: string, value: string, tail: string): (r: string)
  {
    TwoParams(STORE_HEAD, KEY, key, VALUE, value, tail)
  }

  function RecallToken(key: string, tail: string): (r: string)
  {
    RECALL_HEAD + Param(KEY, key, tail)
  }

  lemma TwoParamsText(head: string, k1: string, t1: string, k2: string, t2: string, tail: string)
    ensures TwoParams(head, k1, t1, k2, t2, tail)
         == head + k1 + "=\"" + t1 + "\" " + k2 + "=\"" + t2 + "\"" + tail
  {
  }

  /** The tokens as they are written. */
  lemma StoreTokenText(key: string, value: string, tail: string)
    ensures StoreToken(key, value, tail)
         == "ACT:MEMORY_STORE key=\"" + key + "\" value=\"" + value + "\"" + tail
  {
    TwoParamsText(STORE_HEAD, KEY, key, VALUE, value, tail);
  }

  lemma RecallTokenText(key: string, tail: string)
    ensures RecallToken(key, tail) == "ACT:MEMORY_RECALL key=\"" + key + "\"" + tail
  {
    OneParamText(RECALL_HEAD, KEY, key, tail);
  }

  lemma ImportanceText(v: nat)
    ensures " " + NumberParam(IMPORTANCE, v) == " importance=" + Decimal(v)
  {
  }

  lemma TwoParamsHead(name: string, head: string, k1: string, t1: string, k2: string, t2: string, tail: string)
    requires head == name + " "
    ensures name <= TwoParams(head, k1, t1, k2, t2, tail)
  {
    HeadFirst(name, " ", Param(k1, t1, " " + Param(k2, t2, tail)));
  }

  lemma TwoParamsMarks(head: string, k1: string, t1: string, k2: string, t2: string, tail: string)
    requires Plainly(head) && Plainly(k1) && Plainly(t1) && Plainly(k2) && Plainly(t2) && '>' !in tail
    ensures '>' !in TwoParams(head, k1, t1, k2, t2, tail)
  {
    NoEndMark("", k2, t2, tail);
    assert "" + Param(k2, t2, tail) == Param(k2, t2, tail);
    NoEndMark(head, k1, t1, " " + Param(k2, t2, tail));
  }

  lemma HarmlessNoEquals(s: string, key: string)
    requires |key| >= 2 && '=' !in s
    ensures Harmless(s, key)
  {
  }

  lemma HarmlessThrough(prefix: string, key: string, text: string, gap: string, next: string)
    requires |next| >= 2 && |key| >= 2 && Harmless(prefix, next) && '=' !in key && '=' !in text && '=' !in gap
    requires key[|key| - 1] != next[|next| - 1] || key[|key| - 2] != next[|next| - 2]
    ensures Harmless(Through(prefix, key, text, gap), next)
  {
    var opening := key + "=" + "\"";
    assert Harmless(opening, next);
    HarmlessNoEquals(text + (['"'] + gap), next);
    HarmlessConcat(opening, text + (['"'] + gap), next);
    HarmlessConcat(prefix, Param(key, text, gap), next);
  }

  /** The last two letters of two names differ. */
  predicate EndsDiffer(a: string, b: string)
  {
    |a| >= 2 && |b| >= 2 && (a[|a| - 1] != b[|b| - 1] || a[|a| - 2] != b[|b| - 2])
  }

  lemma FirstParam(head: string, k1: string, t1: string, after: string, size: nat)
    requires Plainly(head) && Plainly(k1) && Plainly(t1) && |k1| >= 2
    ensures ParamStr(head + Param(k1, t1, after), k1, size) == Some(Clip(t1, size))
  {
    HarmlessNoEquals(head, k1);
    ParamStrIs(head, k1, t1, after, size);
  }

  lemma SecondParam(head: string, k1: string, t1: string, k2: string, t2: string, after: string, size: nat)
    requires Plainly(head) && Plainly(k1) && Plainly(k2) && Plainly(t1) && Plainly(t2)
    requires EndsDiffer(k1, k2)
    ensures ParamStr(TwoParams(head, k1, t1, k2, t2, after), k2, size) == Some(Clip(t2, size))
  {
    HarmlessNoEquals(head, k2);
    HarmlessThrough(head, k1, t1, " ", k2);
    Regroup(head, k1, t1, " ", Param(k2, t2, after));
    ParamStrIs(Through(head, k1, t1, " "), k2, t2, after, size);
  }

  /** What comes before a third parameter is harmless. */
  lemma ThroughTwo(head: string, k1: string, t1: string, k2: string, t2: string, gap: string, after: string, k3: string)
    requires Plainly(head) && Plainly(k1) && Plainly(k2) && Plainly(t1) && Plainly(t2) && '=' !in gap
    requires EndsDiffer(k1, k3) && EndsDiffer(k2, k3)
    ensures Harmless(TwoParams(head, k1, t1, k2, t2, gap), k3)
    ensures TwoParams(head, k1, t1, k2, t2, gap + after) == TwoParams(head, k1, t1, k2, t2, gap) + after
  {
    var p1 := Through(head, k1, t1, " ");
    HarmlessNoEquals(head, k3);
    HarmlessThrough(head, k1, t1, " ", k3);
    HarmlessThrough(p1, k2, t2, gap, k3);
    Regroup(head, k1, t1, " ", Param(k2, t2, gap));
    Regroup(head, k1, t1, " ", Param(k2, t2, gap + after));
    Regroup(p1, k2, t2, gap, after);
  }

  lemma ThirdParam(head: string, k1: string, t1: string, k2: string, t2: string, k3: string, v: nat)
    requires Plainly(head) && Plainly(k1) && Plainly(k2) && Plainly(k3) && Plainly(t1) && Plainly(t2)
    requires EndsDiffer(k1, k3) && EndsDiffer(k2, k3)
    ensures ParamInt(TwoParams(head, k1, t1, k2, t2, " " + NumberParam(k3, v)), k3) == Some(v)
    ensures ParamInt(TwoParams(head, k1, t1, k2, t2, ""), k3) == None
  {
    ThroughTwo(head, k1, t1, k2, t2, " ", NumberParam(k3, v), k3);
    ParamIntIs(TwoParams(head, k1, t1, k2, t2, " "), k3, v);
    ThroughTwo(head, k1, t1, k2, t2, "", "", k3);
    ParamMissing(TwoParams(head, k1, t1, k2, t2, ""), k3);
  }

  lemma HeadsPlain()
    ensures Plainly(STORE_HEAD) && Plainly(RECALL_HEAD)
  {
  }

  lemma KeysPlain()
    ensures Plainly(KEY) && Plainly(VALUE) && Plainly(IMPORTANCE)
  {
  }

  lemma KeysEndApart()
    ensures EndsDiffer(KEY, VALUE) && EndsDiffer(KEY, IMPORTANCE) && EndsDiffer(VALUE, IMPORTANCE)
  {
  }

  /** A store token yields the first 127 bytes of its key and the first 1023 of its value, whatever follows them. */
  lemma StoreTokenParams(key: string, value: string, tail: string)
    requires Plainly(key) && Plainly(value)
    ensures KeyOf(StoreToken(key, value, tail)) == if |key| <= 127 then key else key[..127]
    ensures ValueOf(StoreToken(key, value, tail)) == if |value| <= 1023 then value else value[..1023]
  {
    HeadsPlain();
    KeysPlain();
    KeysEndApart();
    FirstParam(STORE_HEAD, KEY, key, " " + Param(VALUE, value, tail), KEY_BUF);
    SecondParam(STORE_HEAD, KEY, key, VALUE, value, tail, VALUE_BUF);
  }

  /** Its importance is the number that follows, or 1 if none does. */
  lemma StoreTokenImportance(key: string, value: string, v: nat)
    requires Plainly(key) && Plainly(value)
    ensures ImportanceOf(StoreToken(key, value, " " + NumberParam(IMPORTANCE, v))) == v
    ensures ImportanceOf(StoreToken(key, value, "")) == 1
  {
    HeadsPlain();
    KeysPlain();
    KeysEndApart();
    ThirdParam(STORE_HEAD, KEY, key, VALUE, value, IMPORTANCE, v);
  }

  lemma RecallTokenKey(key: string, tail: string)
    requires Plainly(key) && |key| < KEY_BUF
    ensures KeyOf(RecallToken(key, tail)) == key
  {
    HeadsPlain();
    KeysPlain();
    FirstParam(RECALL_HEAD, KEY, key, tail, KEY_BUF);
  }

  lemma StoreTokenFront(key: string, value: string, tail: string)
    ensures StoreToken(key, value, tail) == StoreToken(key, value, []) + tail
    ensures |StoreToken(key, value, [])| == 32 + |key| + |value|
  {
    ParamFront(VALUE, value, tail);
    ParamFront(VALUE, value, []);
    ParamFront(KEY, key, " " + Param(VALUE, value, tail));
    ParamFront(KEY, key, " " + Param(VALUE, value, []));
    assert |STORE_HEAD| == 17 && |KEY| == 3 && |VALUE| == 5;
  }

  /** The token buffer never cuts a key or a value, only what follows them. */
  lemma StoreTokenCut(key: string, value: string, tail: string)
    requires |key| < KEY_BUF && |value| < VALUE_BUF
    ensures exists rest :: Token(StoreToken(key, value, tail)) == StoreToken(key, value, rest)
  {
    var front, n := StoreToken(key, value, []), TOKEN_BUF - 1;
    StoreTokenFront(key, value, tail);
    if |StoreToken(key, value, tail)| >= TOKEN_BUF {
      CutAfter(front, tail, n);
      StoreTokenFront(key, value, tail[..n - |front|]);
      assert Token(StoreToken(key, value, tail)) == StoreToken(key, value, tail[..n - |front|]);
    } else {
      assert Token(StoreToken(key, value, tail)) == StoreToken(key, value, tail);
    }
  }

  lemma RecallTokenCut(key: string, tail: string)
    requires |key| < KEY_BUF
    ensures exists rest :: Token(RecallToken(key, tail)) == RecallToken(key, rest)
  {
    var front, n := RECALL_HEAD + Param(KEY, key, []), TOKEN_BUF - 1;
    ParamFront(KEY, key, tail);
    assert |RECALL_HEAD| == 18 && |KEY| == 3 && RecallToken(key, tail) == front + tail;
    if |RecallToken(key, tail)| >= TOKEN_BUF {
      CutAfter(front, tail, n);
      ParamFront(KEY, key, tail[..n - |front|]);
      assert Token(RecallToken(key, tail)) == RecallToken(key, tail[..n - |front|]);
    } else {
      assert Token(RecallToken(key, tail)) == RecallToken(key, tail);
    }
  }

  lemma HeadNames(token: string, i: nat, head: string, rest: string)
    requires 3 <= i < ACTIONS && Name(i) <= head && token == head + rest
    ensures MatchName(token) == Some(i)
  {
    assert Name(i) <= token;
    MatchIsOwn(token, i);
  }

  lemma HeadsAreNames()
    ensures Name(MEMORY_STORE) <= STORE_HEAD && Name(MEMORY_RECALL) <= RECALL_HEAD
  {
  }

  /** Putting a parameter after a plain head keeps the end mark out. */
  lemma NoEndMark(head: string, key: string, text: string, tail: string)
    requires Plainly(head) && Plainly(key) && Plainly(text) && '>' !in tail
    ensures '>' !in head + Param(key, text, tail)
  {
  }

  /** Both tokens can be written after any text without '<', with anything but an end mark after their parameters. */
  lemma StoreTokenWritable(text: string, key: string, value: string, tail: string)
    requires '<' !in text && Plainly(key) && Plainly(value) && '>' !in tail
    ensures var p := Piece(text, StoreToken(key, value, tail));
            Writable(p) && MatchName(p.token) == Some(MEMORY_STORE)
  {
    HeadsPlain();
    KeysPlain();
    HeadsAreNames();
    TwoParamsMarks(STORE_HEAD, KEY, key, VALUE, value, tail);
    HeadNames(StoreToken(key, value, tail), MEMORY_STORE, STORE_HEAD, Param(KEY, key, " " + Param(VALUE, value, tail)));
  }

  lemma RecallTokenWritable(text: string, key: string, tail: string)
    requires '<' !in text && Plainly(key) && '>' !in tail
    ensures var p := Piece(text, RecallToken(key, tail)); Writable(p) && MatchName(p.token) == Some(MEMORY_RECALL)
  {
    HeadsPlain();
    KeysPlain();
    HeadsAreNames();
    NoEndMark(RECALL_HEAD, KEY, key, tail);
    HeadNames(RecallToken(key, tail), MEMORY_RECALL, RECALL_HEAD, Param(KEY, key, tail));
  }

  /** The two tokens, each after its text and with its tail. */
  function StoreAndRecall(text: string, key: string, value: string, tail: string, text': string, tail': string)
    : (r: (Piece, Piece))
  {
    (Piece(text, StoreToken(key, value, tail)), Piece(text', RecallToken(key, tail')))
  }

  /** In the usual spelling: key and value in quotes, with an importance, without one, or with anything else after
      them. */
  lemma WrittenStoreThenRecall(m: Mem, cap: nat, ps: seq<Piece>, text: string, key: string, value: string, tail: string,
                               text': string, tail': string, rest: string, world: World)
    requires cap > 0 && AllWritable(ps) && world.grants(|ps|) && '<' !in text && '<' !in text'
    requires Plainly(key) && Plainly(value) && |key| < KEY_BUF && |value| < VALUE_BUF && '>' !in tail && '>' !in tail'
    requires var (p, q) := StoreAndRecall(text, key, value, tail, text', tail');
             AllPerformable(m, cap, Calls(Render(ps + [p, q], rest)), 0, world)
    ensures var (p, q) := StoreAndRecall(text, key, value, tail, text', tail');
            var os := PerformAll(m, cap, Calls(Render(ps + [p, q], rest)), 0, world).1;
            && |os| >= |ps| + 2
            && os[|ps|] == Stored(key) && os[|ps| + 1] == Recalled(Some(key + ": " + value))
  {
    var (p, q) := StoreAndRecall(text, key, value, tail, text', tail');
    StoreTokenWritable(text, key, value, tail);
    RecallTokenWritable(text', key, tail');
    StoreTokenCut(key, value, tail);
    RecallTokenCut(key, tail');
    var cut :| Token(p.token) == StoreToken(key, value, cut);
    var cut' :| Token(q.token) == RecallToken(key, cut');
    StoreTokenParams(key, value, cut);
    RecallTokenKey(key, cut');
    StoreThenRecall(m, cap, ps, p, q, rest, world);
  }

  /** What a store token leaves in memory as the last entry. */
  lemma LastStored(m: Mem, cap: nat, token: string, key: string, value: string, v: nat, junk: Junk)
    requires cap > 0 && |key| < KEY_BUF && |value| < VALUE_BUF && '\0' !in key && '\0' !in value
    requires v < 0x8000_0000_0000_0000 && StoreFits(m, cap, true)
    requires KeyOf(token) == key && ValueOf(token) == value && ImportanceOf(token) == v
    ensures Performable(m, cap, Call(MEMORY_STORE, token), true)
    ensures var es := Perform(m, cap, Call(MEMORY_STORE, token), true, junk).0.entries;
            es != [] && es[|es| - 1].entry == Entry(1, if v > 255 then 255 else v, 0, key + ": " + value)
  {
    WholeContent(key, value);
    StoredLast(m, cap, EntryOf(token), junk);
  }

  lemma StoreTokenShort(key: string, value: string, tail: string)
    requires |key| < KEY_BUF && |value| < VALUE_BUF && |tail| <= 800
    ensures Token(StoreToken(key, value, tail)) == StoreToken(key, value, tail)
  {
    StoreTokenFront(key, value, tail);
  }

  lemma ImportanceShort(v: u64)
    ensures |" " + NumberParam(IMPORTANCE, v)| <= 800 && '>' !in " " + NumberParam(IMPORTANCE, v)
  {
    KeysPlain();
    DigitsOfWord(v, 10);
    DecimalParses(v, []);
    assert |IMPORTANCE| == 10;
  }

  /** From the text of a store token to the last entry in memory: a semantic one, of the given importance but at most
      255, with the text "key: value". */
  lemma StoreFromText(m: Mem, cap: nat, text: string, key: string, value: string, v: u64, junk: Junk)
    requires cap > 0 && '<' !in text && Plainly(key) && Plainly(value) && |key| < KEY_BUF && |value| < VALUE_BUF
    requires v < 0x8000_0000_0000_0000 && StoreFits(m, cap, true)
    ensures var p := Piece(text, "ACT:MEMORY_STORE key=\"" + key + "\" value=\"" + value + "\""
                                 + (" importance=" + Decimal(v)));
            && Writable(p) && Performable(m, cap, CallFor(p, MatchName), true)
            && var es := Perform(m, cap, CallFor(p, MatchName), true, junk).0.entries;
               es != [] && es[|es| - 1].entry == Entry(1, if v > 255 then 255 else v, 0, key + ": " + value)
  {
    var tail := " " + NumberParam(IMPORTANCE, v);
    ImportanceText(v);
    ImportanceShort(v);
    StoreTokenText(key, value, tail);
    StoreTokenWritable(text, key, value, tail);
    StoreTokenShort(key, value, tail);
    StoreTokenImportance(key, value, v);
    StoreTokenParams(key, value, tail);
    LastStored(m, cap, StoreToken(key, value, tail), key, value, v, junk);
  }

  /** Without an importance it is 1. */
  lemma PlainStoreFromText(m: Mem, cap: nat, text: string, key: string, value: string, junk: Junk)
    requires cap > 0 && '<' !in text && Plainly(key) && Plainly(value) && |key| < KEY_BUF && |value| < VALUE_BUF
    requires StoreFits(m, cap, true)
    ensures var p := Piece(text, "ACT:MEMORY_STORE key=\"" + key + "\" value=\"" + value + "\"" + "");
            && Writable(p) && Performable(m, cap, CallFor(p, MatchName), true)
            && var es := Perform(m, cap, CallFor(p, MatchName), true, junk).0.entries;
               es != [] && es[|es| - 1].entry == Entry(1, 1, 0, key + ": " + value)
  {
    StoreTokenText(key, value, "");
    StoreTokenWritable(text, key, value, "");
    StoreTokenShort(key, value, "");
    StoreTokenImportance(key, value, 1);
    StoreTokenParams(key, value, "");
    LastStored(m, cap, StoreToken(key, value, ""), key, value, 1, junk);
  }

  /** From the text of a recall token to what is recalled, which RecallIs describes; memories and files stay. */
  lemma RecallFromText(m: Mem, cap: nat, text: string, key: string, tail: string, granted: bool, junk: Junk)
    requires cap > 0 && '<' !in text && Plainly(key) && |key| < KEY_BUF && '>' !in tail
    ensures var p := Piece(text, "ACT:MEMORY_RECALL key=\"" + key + "\"" + tail);
            && Writable(p) && Performable(m, cap, CallFor(p, MatchName), granted)
            && Perform(m, cap, CallFor(p, MatchName), granted, junk) == (m, Recalled(Recall(m, key)))
  {
    RecallTokenText(key, tail);
    RecallTokenWritable(text, key, tail);
    RecallTokenCut(key, tail);
    var cut :| Token(RecallToken(key, tail)) == RecallToken(key, cut);
    RecallTokenKey(key, cut);
  }

  // ----- writing files -----

  const FILE_HEAD: string := "ACT:FILE_WRITE "

  function FileToken(path: string, data: string, tail: string): (r: string)
  {
    TwoParams(FILE_HEAD, PATH, path, DATA, data, tail)
  }

  lemma FileNames()
    ensures Plainly(FILE_HEAD) && Plainly(PATH) && Plainly(DATA) && EndsDiffer(PATH, DATA)
  {
  }

  /** The token as it is written. */
  lemma FileTokenText(path: string, data: string, tail: string)
    ensures FileToken(path, data, tail)
         == "ACT:FILE_WRITE path=\"" + path + "\" data=\"" + data + "\"" + tail
  {
    TwoParamsText(FILE_HEAD, PATH, path, DATA, data, tail);
  }

  lemma FileLengths()
    ensures |FILE_HEAD| == 15 && |PATH| == 4 && |DATA| == 4
  {
  }

  lemma SecondTokenParam(head: string, k1: string, t1: string, k2: string, t2: string, tail: string, size: nat)
    requires Plainly(head) && Plainly(k1) && Plainly(k2) && Plainly(t1) && Plainly(t2) && EndsDiffer(k1, k2)
    requires |head| + |k1| + |t1| + |k2| + 6 <= 2047
    ensures ParamStr(Token(TwoParams(head, k1, t1, k2, t2, tail)), k2, size)
         == if |head| + |k1| + |t1| + |k2| + |t2| + 7 <= 2047 then Some(Clip(t2, size)) else None
  {
    HarmlessNoEquals(head, k2);
    HarmlessThrough(head, k1, t1, " ", k2);
    Regroup(head, k1, t1, " ", Param(k2, t2, tail));
    ParamFront(k1, t1, " ");
    TokenParam(Through(head, k1, t1, " "), k2, t2, tail, size);
  }

  /** What a file token writes and where: the first 511 bytes of its path get its data, if the path and the data
      together have at most 2017 bytes; otherwise the token buffer cuts the closing quote of the data, and the file is
      left empty. */
  lemma {:induction false} FileTokenYields(path: string, data: string, tail: string)
    requires Plainly(path) && Plainly(data) && |path| <= 2017
    ensures var t := Token(FileToken(path, data, tail));
            && TextOf(t, PATH, PATH_BUF) == (if |path| <= 511 then path else path[..511])
            && DataOf(t) == if |path| + |data| <= 2017 then data else ""
  {
    FileNames();
    FileLengths();
    HarmlessNoEquals(FILE_HEAD, PATH);
    TokenParam(FILE_HEAD, PATH, path, " " + Param(DATA, data, tail), PATH_BUF);
    SecondTokenParam(FILE_HEAD, PATH, path, DATA, data, tail, DATA_BUF);
  }

  /** A file token writes its path, unless that is rejected; nothing else changes. */
  lemma FileTokenWrites(m: Mem, cap: nat, path: string, data: string, tail: string, granted: bool, junk: Junk)
    requires cap > 0 && Plainly(path) && Plainly(data) && |path| <= 2017
    ensures Perform(m, cap, Call(FILE_WRITE, Token(FileToken(path, data, tail))), granted, junk)
         == PutFile(m, if |path| <= 511 then path else path[..511],
                       if |path| + |data| <= 2017 then data else "")
  {
    FileTokenYields(path, data, tail);
  }

  lemma FileTokenWritable(text: string, path: string, data: string, tail: string)
    requires '<' !in text && Plainly(path) && Plainly(data) && '>' !in tail
    ensures var p := Piece(text, FileToken(path, data, tail));
            Writable(p) && MatchName(p.token) == Some(FILE_WRITE)
  {
    FileNames();
    TwoParamsMarks(FILE_HEAD, PATH, path, DATA, data, tail);
    TwoParamsHead("ACT:FILE_WRITE", FILE_HEAD, PATH, path, DATA, data, tail);
    StoreRows(FileToken(path, data, tail));
  }

  /** A token whose path is relative or has two dots in a row writes nothing. */
  lemma FileRejected(m: Mem, cap: nat, path: string, data: string, tail: string, granted: bool, junk: Junk)
    requires cap > 0 && Plainly(path) && Plainly(data) && |path| <= 511
    requires path == [] || path[0] != '/'
             || exists i :: 0 <= i && i + 1 < |path| && path[i] == '.' && path[i + 1] == '.'
    ensures Perform(m, cap, Call(FILE_WRITE, Token(FileToken(path, data, tail))), granted, junk) == (m, Rejected(path))
  {
    FileTokenWrites(m, cap, path, data, tail, granted, junk);
    RejectsIff(path);
  }

  /** From the text of an output to the file: an output with any actions before and anything after, and between them a
      token that names an acceptable path. */
  lemma {:induction false} FileFromText(m: Mem, cap: nat, ps: seq<Piece>, text: string, path: string, data: string,
                                        tail: string, rest: string, world: World)
    requires cap > 0 && AllWritable(ps) && '<' !in text && '>' !in tail && Plainly(path) && Plainly(data)
    requires |path| <= 511 && path != [] && path[0] == '/'
    requires forall i :: 0 <= i && i + 1 < |path| ==> path[i] != '.' || path[i + 1] != '.'
    requires AllPerformable(m, cap, Calls(Render(ps + [Piece(text, FileToken(path, data, tail))], rest)), 0, world)
    ensures var output := Render(ps + [Piece(text, FileToken(path, data, tail))], rest);
            var written := if |path| + |data| <= 2017 then data else "";
            var os := PerformAll(m, cap, Calls(output), 0, world).1;
            && |os| > |ps| && os[|ps|] == Wrote(path, written)
            && AllPerformable(m, cap, CallsFor(ps, MatchName), 0, world)
            && var m1 := PerformAll(m, cap, CallsFor(ps, MatchName), 0, world).0;
               var m2 := m1.(files := m1.files[path := written]);
               && AllPerformable(m2, cap, Calls(rest), |ps| + 1, world)
               && PerformAll(m, cap, Calls(output), 0, world).0 == PerformAll(m2, cap, Calls(rest), |ps| + 1, world).0
  {
    var p := Piece(text, FileToken(path, data, tail));
    FileTokenWritable(text, path, data, tail);
    PieceAt(m, cap, ps, p, rest, |ps| + 1, world);
    var m1 := PerformAll(m, cap, CallsFor(ps, MatchName), 0, world).0;
    FileTokenWrites(m1, cap, path, data, tail, world.grants(|ps|), world.junks(|ps|));
    RejectsIff(path);
  }

  lemma DotApart(a: string, b: string, j: nat)
    requires '.' !in a && '.' !in b && j + 1 < |a + (['.'] + b)|
    ensures var s := a + (['.'] + b); s[j] != '.' || s[j + 1] != '.'
  {
  }

  lemma OneDot(a: string, b: string, dots: string)
    requires '.' !in a && '.' !in b && dots == ".."
    ensures StrStr(a + (['.'] + b), dots) == None
  {
    var s := a + (['.'] + b);
    StrStrFirst(s, dots);
    forall j: nat | j <= |s|
      ensures !(dots <= s[j..])
    {
      if dots <= s[j..] {
        TwoDots(s, dots, j);
        DotApart(a, b, j);
      }
    }
  }

  lemma IndexPathAccepted()
    ensures !Rejects(INDEX_PATH) && Plainly(INDEX_PATH) && |INDEX_PATH| == 22
  {
    var front, back := "/AION/memory/index", "bin";
    IndexPathDots(front, back);
    OneDot(front, back, "..");
    IndexPathPlain();
  }

  lemma IndexPathPlain()
    ensures Plainly(INDEX_PATH)
  {
  }

  lemma IndexPathDots(front: string, back: string)
    requires front == "/AION/memory/index" && back == "bin"
    ensures '.' !in front && '.' !in back && INDEX_PATH == front + (['.'] + back)
  {
  }

  /** The store's own index is not protected: one such token, and a machine with blank buffers forgets everything at its
      next boot. */
  lemma FileTokenForgets(m: Mem, cap: nat, granted: bool, junk: Junk, b: Buffers, loads: nat -> bool)
    requires cap > 0 && GoodBuffers(b) && (forall k :: 0 <= k < INDEX_BUF ==> b.index[k] == '\0') && "" !in m.files
    ensures var r := Perform(m, cap, Call(FILE_WRITE, Token(FileToken(INDEX_PATH, "x", ""))), granted, junk).0;
            r.entries == m.entries && Loadable(r.files, b) && Load(Init(r), b, loads).entries == []
  {
    IndexPathAccepted();
    FileTokenWrites(m, cap, INDEX_PATH, "x", "", granted, junk);
    IndexOverwritten(m, b, loads);
  }

  /** A call that writes a file keeps the store in agreement with its log exactly if it is rejected or writes none of
      the store's files. */
  lemma FileCallKeepsRepIff(m: Mem, cap: nat, log: Log, token: string, granted: bool, junk: Junk)
    requires cap > 0 && Rep(m, log) && NoNul(DataOf(token))
    ensures var path := TextOf(token, PATH, PATH_BUF);
            Rep(Perform(m, cap, Call(FILE_WRITE, token), granted, junk).0, log) <==> Rejects(path) || Outside(path)
  {
    WriteKeepsRepIff(m, log, TextOf(token, PATH, PATH_BUF), DataOf(token));
  }
}
