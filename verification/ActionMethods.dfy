/** The action language in its own form: loops that advance through C strings and fill buffers. */
module ActionMethods {
  import opened Bits
  import opened Options
  import opened CStrings
  import opened Digits
  import opened Scanner
  import opened Actions
  import opened Handlers
  import opened Records
  import opened MemorySpec
  import opened MemoryStores

  /** Reads a number by advancing over its digits. */
  method ParseParamInt(token: string, key: string) returns (out: Option<nat>)
    ensures out == ParamInt(token, key)
  {
    var found := StrStr(token, key + "=");
    if found.None? {
      return None;
    }
    var p, v: nat := found.value + |key| + 1, 0;
    ghost var digits := token[p..];
    while p < |token| && IsDigit(token[p])
      invariant p <= |token| && v <= ParseFrom(token[p..], v) == ParseFrom(digits, 0)
    {
      assert token[p..][1..] == token[p + 1..];
      v := v * 10 + (token[p] as int - '0' as int);
      p := p + 1;
      ParseGrows(token[p..], v);
    }
    out := Some(v);
  }

  /** Decodes a hexadecimal text into the sample buffer. */
  method DecodePcm(hex: string, buf: array<nat>) returns (len: nat)
    requires buf.Length == PCM_BUF
    modifies buf
    ensures len <= PCM_BUF && buf[..len] == Pcm(hex, PCM_BUF)
  {
    var i := 0;
    len := 0;
    ghost var rest, room: nat, want := hex, PCM_BUF, Pcm(hex, PCM_BUF);
    assert buf[..0] + want == want;
    while i + 1 < |hex| && len < PCM_BUF
      invariant i <= |hex| && rest == hex[i..] && len + room == PCM_BUF
      invariant buf[..len] + Pcm(rest, room) == want
      decreases room
    {
      ghost var done := buf[..len];
      var b := PcmByte(hex[i], hex[i + 1]);
      buf[len] := b;
      PcmNext(done, rest, room, b);
      i, len := i + 2, len + 1;
      assert buf[..len] == done + [b];
      rest, room := rest[2..], Prev(room);
    }
    assert buf[..len] + [] == buf[..len];
  }

  lemma PcmNext(done: seq<nat>, hex: string, room: nat, b: nat)
    requires |hex| >= 2 && room > 0 && b == PcmByte(hex[0], hex[1])
    ensures done + Pcm(hex, room) == (done + [b]) + Pcm(hex[2..], Prev(room))
  {
  }

  /** The search of the dispatch table. */
  method MatchAction(s: string) returns (action: Option<nat>)
    ensures action == MatchName(s)
  {
    var i := 0;
    while i < ACTIONS
      invariant 0 <= i <= ACTIONS && MatchFrom(s, i) == MatchName(s)
    {
      if Name(i) <= s {
        return Some(i);
      }
      i := i + 1;
    }
    action := None;
  }

  /** The bytes sent to the sound device for a token. */
  method PlayPcm(token: string) returns (bytes: Option<seq<nat>>)
    ensures bytes == Playing(token)
  {
    var hex := ParamStr(token, DATA, HEX_BUF);
    if hex.None? {
      return None;
    }
    var buf := new nat[PCM_BUF];
    var len := DecodePcm(hex.value, buf);
    bytes := Some(buf[..len]);
  }

  /** Writes a whole file, if its path is acceptable. */
  method PutToFile(memory: MemoryStore, path: string, data: string) returns (outcome: Outcome)
    requires memory.Valid()
    modifies memory`files
    ensures memory.Valid() && (memory.View(), outcome) == PutFile(old(memory.View()), path, data)
  {
    if path == "" || path[0] != '/' || StrStr(path, "..").Some? {
      return Rejected(path);
    }
    memory.files := memory.files[path := data];
    outcome := Wrote(path, data);
  }

  /** Runs the handler of a call on the memory store. */
  method Handle(call: Call, memory: MemoryStore, granted: bool, junk: Junk) returns (outcome: Outcome)
    requires memory.Valid() && Performable(memory.View(), memory.store.Length, call, granted)
    modifies memory, memory.store
    ensures memory.Valid()
    ensures (memory.View(), outcome) == Perform(old(memory.View()), memory.store.Length, call, granted, junk)
  {
    if call.action == MEMORY_STORE {
      memory.StoreEntry(EntryOf(call.token), granted, junk);
      outcome := Stored(KeyOf(call.token));
    } else if call.action == MEMORY_RECALL {
      var content := memory.Search(KeyOf(call.token));
      outcome := Recalled(content);
    } else if call.action == FILE_WRITE {
      outcome := PutToFile(memory, TextOf(call.token, PATH, PATH_BUF), DataOf(call.token));
    } else if call.action == AUDIO_PCM {
      var bytes := PlayPcm(call.token);
      outcome := Played(bytes);
    } else {
      outcome := Other(call);
    }
  }

  lemma CallsHit(s: string, k: nat, t: string, i: nat, n: nat)
    requires StrChr(s, '<') == Some(k) && t == After(s, k) && MatchName(t) == Some(i) && StrChr(t, '>') == Some(n)
    ensures Calls(s) == [Call(i, Token(t[..n]))] + Calls(After(t, n))
  {
    LookActionRight();
    RoundHits(s, MatchName, LookAction, k, t, i, n);
  }

  lemma CallsSkip(s: string, k: nat, t: string)
    requires StrChr(s, '<') == Some(k) && t == After(s, k) && (MatchName(t) == None || StrChr(t, '>') == None)
    ensures Calls(s) == Calls(t)
  {
    LookActionRight();
    RoundSkips(s, MatchName, LookAction, k, t);
  }

  lemma CallsEnd(s: string)
    requires StrChr(s, '<') == None
    ensures Calls(s) == []
  {
    LookActionRight();
  }

  /** The outcome of a run with `done` outcomes before its own. */
  function Before(done: seq<Outcome>, r: (Mem, seq<Outcome>)): (r': (Mem, seq<Outcome>))
  {
    (r.0, done + r.1)
  }

  lemma BeforeNext(done: seq<Outcome>, o: Outcome, m: Mem, os: seq<Outcome>)
    ensures Before(done, (m, [o] + os)) == Before(done + [o], (m, os))
  {
    assert done + ([o] + os) == (done + [o]) + os;
  }

  /** Everything that comes of the calls `left`, when `done` outcomes are there. */
  ghost function Whole(m: Mem, cap: nat, done: seq<Outcome>, left: seq<Call>, k: nat, world: World)
    : (r: (Mem, seq<Outcome>))
    requires cap > 0 && AllPerformable(m, cap, left, k, world)
  {
    Before(done, PerformAll(m, cap, left, k, world))
  }

  lemma WholeNext(m: Mem, cap: nat, done: seq<Outcome>, left: seq<Call>, k: nat, next: nat, world: World)
    requires cap > 0 && left != [] && next == k + 1 && AllPerformable(m, cap, left, k, world)
    ensures Performable(m, cap, left[0], world.grants(k))
    ensures var (m1, o) := Perform(m, cap, left[0], world.grants(k), world.junks(k));
            && AllPerformable(m1, cap, left[1..], next, world)
            && Whole(m, cap, done, left, k, world) == Whole(m1, cap, done + [o], left[1..], next, world)
  {
    PerformAllNext(m, cap, left, k, next, world);
    var (m1, o) := Perform(m, cap, left[0], world.grants(k), world.junks(k));
    var (m2, os) := PerformAll(m1, cap, left[1..], next, world);
    BeforeNext(done, o, m2, os);
  }

  /** Scans an output and runs the handlers of its action tokens. */
  method ParseAndExecute(output: string, memory: MemoryStore, world: World)
    returns (outcomes: seq<Outcome>)
    requires memory.Valid() && AllPerformable(memory.View(), memory.store.Length, Calls(output), 0, world)
    modifies memory, memory.store
    ensures memory.Valid()
    ensures (memory.View(), outcomes)
         == PerformAll(old(memory.View()), memory.store.Length, Calls(output), 0, world)
  {
    outcomes := [];
    var rest := output;
    ghost var cap, left := memory.store.Length, Calls(output);
    ghost var want := PerformAll(memory.View(), cap, left, 0, world);
    ghost var k: nat := 0;
    assert [] + want.1 == want.1;
    var open := StrChr(rest, '<');
    while open.Some?
      invariant memory.Valid() && open == StrChr(rest, '<') && left == Calls(rest)
      invariant k == |outcomes| && AllPerformable(memory.View(), cap, left, k, world)
      invariant want == Whole(memory.View(), cap, outcomes, left, k, world)
      decreases |rest|
    {
      var t := After(rest, open.value);
      var action := MatchAction(t);
      var end := StrChr(t, '>');
      if action.Some? && end.Some? {
        CallsHit(rest, open.value, t, action.value, end.value);
        var call := Call(action.value, Token(t[..end.value]));
        t := After(t, end.value);
        WholeNext(memory.View(), cap, outcomes, left, k, k + 1, world);
        var outcome := Handle(call, memory, world.grants(|outcomes|), world.junks(|outcomes|));
        outcomes := outcomes + [outcome];
        left, k := left[1..], k + 1;
      } else {
        CallsSkip(rest, open.value, t);
      }
      rest := t;
      open := StrChr(rest, '<');
    }
    CallsEnd(rest);
    assert outcomes + [] == outcomes;
  }
}
