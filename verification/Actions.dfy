/** The action language: scanning text for action tokens, dispatching them, and reading their parameters. */
module Actions {
  import opened Options
  import opened CStrings
  import opened Digits
  import opened Scanner

  const ACTIONS: nat := 14

  /** The dispatch table, in the order in which it is searched. */
  function Name(i: nat): (r: string)
    requires i < ACTIONS
  {
    match i
    case 0 => "ACT:DISPLAY"
    case 1 => "ACT:DISPLAY_PIXEL"
    case 2 => "ACT:DISPLAY_CLEAR"
    case 3 => "ACT:AUDIO_FREQ"
    case 4 => "ACT:AUDIO_PCM"
    case 5 => "ACT:AUDIO_STOP"
    case 6 => "ACT:MEMORY_STORE"
    case 7 => "ACT:MEMORY_RECALL"
    case 8 => "ACT:FILE_READ"
    case 9 => "ACT:FILE_WRITE"
    case 10 => "ACT:NET_FETCH"
    case 11 => "ACT:CPU_FREQ_SET"
    case 12 => "ACT:SLEEP_MS"
    case _ => "ACT:HARDWARE_QUERY"
  }

  const DISPLAY_PIXEL: nat := 1
  const DISPLAY_CLEAR: nat := 2
  const AUDIO_PCM: nat := 4
  const MEMORY_STORE: nat := 6
  const MEMORY_RECALL: nat := 7
  const FILE_WRITE: nat := 9

  /** The first table entry from `i` on whose name begins the text. */
  function MatchFrom(s: string, i: nat): (r: Option<nat>)
    requires i <= ACTIONS
    decreases ACTIONS - i, s
  {
    if i == ACTIONS then None else if Name(i) <= s then Some(i) else MatchFrom(s, i + 1)
  }

  lemma {:induction false} MatchFirst(s: string, i: nat)
    requires i <= ACTIONS
    ensures match MatchFrom(s, i)
            case None => forall j :: i <= j < ACTIONS ==> !(Name(j) <= s)
            case Some(n) => i <= n < ACTIONS && Name(n) <= s && forall j :: i <= j < n ==> !(Name(j) <= s)
    decreases ACTIONS - i
  {
    if i < ACTIONS && !(Name(i) <= s) {
      MatchFirst(s, i + 1);
    }
  }

  function MatchName(s: string): (r: Option<nat>)
    ensures r.Some? ==> r.value < ACTIONS
  {
    MatchFirst(s, 0);
    MatchFrom(s, 0)
  }

  lemma LaterNames(i: nat)
    requires 3 <= i < ACTIONS
    ensures |Name(i)| >= 12 && Name(i)[4] != 'D'
  {
  }

  lemma DisplayNames(i: nat)
    requires i < 3
    ensures |Name(i)| >= 11 && Name(i)[..11] == Name(0) && Name(i)[4] == 'D'
  {
  }

  /** Only the three DISPLAY names share a beginning. */
  lemma NamesApart(i: nat, j: nat, s: string)
    requires i < ACTIONS && j < ACTIONS && Name(i) <= s && Name(j) <= s
    ensures i == j || (i < 3 && j < 3)
  {
    if i < 3 {
      DisplayNames(i);
    } else {
      LaterNames(i);
    }
    if j < 3 {
      DisplayNames(j);
    } else {
      LaterNames(j);
    }
    assert Name(i)[4] == s[4] == Name(j)[4];
    if i >= 3 && j >= 3 {
      assert Name(i)[9] == s[9] == Name(j)[9];
      assert Name(i)[10] == s[10] == Name(j)[10];
      assert Name(i)[11] == s[11] == Name(j)[11];
    }
  }

  /** A name finds its own entry, except that the two longer DISPLAY names find the first entry, whose name they
      begin with: those two rows of the table are never chosen. */
  lemma {:induction false} MatchIsOwn(s: string, i: nat)
    requires i < ACTIONS && Name(i) <= s
    ensures MatchName(s) == Some(if i < 3 then 0 else i)
  {
    var r := MatchName(s);
    MatchFirst(s, 0);
    NamesApart(i, r.value, s);
    if i < 3 {
      DisplayNames(i);
      assert Name(0) <= s;
    }
  }

  lemma ShadowedRows(s: string)
    ensures MatchName(s) != Some(DISPLAY_PIXEL) && MatchName(s) != Some(DISPLAY_CLEAR)
  {
    var r := MatchName(s);
    MatchFirst(s, 0);
    if r.Some? {
      MatchIsOwn(s, r.value);
    }
  }

  lemma MatchExtends(token: string, rest: string)
    requires MatchName(token).Some?
    ensures MatchName(token + rest) == MatchName(token)
  {
    var i := MatchName(token).value;
    MatchFirst(token, 0);
    assert Name(i) <= token + rest;
    MatchIsOwn(token, i);
    MatchIsOwn(token + rest, i);
  }

  /** Which handler the text after a '<' is given to, name by name. */
  lemma DisplayRows(s: string)
    ensures "ACT:DISPLAY" <= s ==> MatchName(s) == Some(0)
    ensures "ACT:DISPLAY_PIXEL" <= s ==> MatchName(s) == Some(0)
    ensures "ACT:DISPLAY_CLEAR" <= s ==> MatchName(s) == Some(0)
  {
    RowText(s, 0, "ACT:DISPLAY");
    RowText(s, 1, "ACT:DISPLAY_PIXEL");
    RowText(s, 2, "ACT:DISPLAY_CLEAR");
  }

  lemma AudioRows(s: string)
    ensures "ACT:AUDIO_FREQ" <= s ==> MatchName(s) == Some(3)
    ensures "ACT:AUDIO_PCM" <= s ==> MatchName(s) == Some(4)
    ensures "ACT:AUDIO_STOP" <= s ==> MatchName(s) == Some(5)
  {
    RowText(s, 3, "ACT:AUDIO_FREQ");
    RowText(s, 4, "ACT:AUDIO_PCM");
    RowText(s, 5, "ACT:AUDIO_STOP");
  }

  lemma StoreRows(s: string)
    ensures "ACT:MEMORY_STORE" <= s ==> MatchName(s) == Some(6)
    ensures "ACT:MEMORY_RECALL" <= s ==> MatchName(s) == Some(7)
    ensures "ACT:FILE_READ" <= s ==> MatchName(s) == Some(8)
    ensures "ACT:FILE_WRITE" <= s ==> MatchName(s) == Some(9)
  {
    RowText(s, 6, "ACT:MEMORY_STORE");
    RowText(s, 7, "ACT:MEMORY_RECALL");
    RowText(s, 8, "ACT:FILE_READ");
    RowText(s, 9, "ACT:FILE_WRITE");
  }

  lemma OtherRows(s: string)
    ensures "ACT:NET_FETCH" <= s ==> MatchName(s) == Some(10)
    ensures "ACT:CPU_FREQ_SET" <= s ==> MatchName(s) == Some(11)
    ensures "ACT:SLEEP_MS" <= s ==> MatchName(s) == Some(12)
    ensures "ACT:HARDWARE_QUERY" <= s ==> MatchName(s) == Some(13)
  {
    RowText(s, 10, "ACT:NET_FETCH");
    RowText(s, 11, "ACT:CPU_FREQ_SET");
    RowText(s, 12, "ACT:SLEEP_MS");
    RowText(s, 13, "ACT:HARDWARE_QUERY");
  }

  lemma RowText(s: string, i: nat, name: string)
    requires i < ACTIONS && Name(i) == name
    ensures name <= s ==> MatchName(s) == Some(if i < 3 then 0 else i)
  {
    if name <= s {
      MatchIsOwn(s, i);
    }
  }

  /** Text that begins with none of the names is given to no handler. */
  lemma NoRow(s: string)
    ensures MatchName(s) == None <==>
            forall i: nat :: i < 14 ==> !(Name(i) <= s)
  {
    MatchFirst(s, 0);
  }

  /** The scan step of the dispatcher. */
  function LookAction(s: string): (r: Found)
  {
    Look(s, MatchName)
  }

  lemma LookActionRight()
    ensures Right(LookAction, MatchName) && Progress(LookAction)
  {
    forall s
      ensures LooksRight(s, MatchName, LookAction(s))
    {
      LookIsRight(s, MatchName);
    }
  }

  /** All calls of an output. */
  function Calls(output: string): (r: seq<Call>)
  {
    LookActionRight();
    Scan(output, LookAction)
  }

  /** The calls of an output are exactly those of the tokens that should be executed: in order, without overlap, each
      given to the first table entry on whose name it begins, and none left out.  No other list of calls is. */
  lemma CallsExact(output: string, calls: seq<Call>)
    ensures calls == Calls(output) <==>
            exists spans :: Exact(output, MatchName, 0, spans) && SameCalls(spans, calls)
  {
    LookActionRight();
    var right := Spans(output, LookAction, 0);
    SpansExact(output, MatchName, LookAction, 0);
    ScanIsSpans(output, LookAction, 0);
    assert Rest(output, 0) == output;
    if spans :| Exact(output, MatchName, 0, spans) && SameCalls(spans, calls) {
      ExactUnique(output, MatchName, 0, spans, right);
      SameCallsUnique(right, calls, Calls(output));
    }
  }

  lemma SameCallsUnique(spans: seq<Span>, a: seq<Call>, b: seq<Call>)
    requires SameCalls(spans, a) && SameCalls(spans, b)
    ensures a == b
  {
  }

  /** A token that begins with a table name and contains no '>', after text without '<'. */
  predicate Writable(p: Piece)
  {
    '<' !in p.text && MatchName(p.token).Some? && '>' !in p.token
  }

  predicate AllWritable(ps: seq<Piece>)
  {
    forall i :: 0 <= i < |ps| ==> Writable(ps[i])
  }

  lemma WritableIsWellFormed(p: Piece)
    requires Writable(p)
    ensures WellFormed(p, MatchName)
  {
    forall rest
      ensures MatchName(p.token + rest) == MatchName(p.token)
    {
      MatchExtends(p.token, rest);
    }
  }

  /** Writing any list of actions and scanning the result executes exactly that list, and then what follows. */
  lemma {:induction false} CallsOfRendered(ps: seq<Piece>, tail: string)
    requires AllWritable(ps)
    ensures Calls(Render(ps, tail)) == CallsFor(ps, MatchName) + Calls(tail)
    ensures '<' !in tail ==> Calls(tail) == []
  {
    LookActionRight();
    forall i | 0 <= i < |ps|
      ensures WellFormed(ps[i], MatchName)
    {
      WritableIsWellFormed(ps[i]);
    }
    ScanInvertsRender(ps, MatchName, LookAction, tail);
    if '<' !in tail {
      LookAtTail(tail, MatchName);
    }
  }

  // ----- parameters -----

  /** The text up to the closing quote, cut to a buffer of `size` bytes. */
  function Unquote(s: string, size: nat): (r: Option<string>)
  {
    match StrChr(s, '"')
    case None => None
    case Some(n) => Some(Clip(s[..n], size))
  }

  /** The text of parameter `key`. */
  function ParamStr(token: string, key: string, size: nat): (r: Option<string>)
  {
    match StrStr(token, key + "=" + "\"")
    case None => None
    case Some(p) => Unquote(token[p + |key| + 2..], size)
  }

  /** The number of parameter `key`: its leading decimal digits. */
  function ParamInt(token: string, key: string): (r: Option<nat>)
  {
    match StrStr(token, key + "=")
    case None => None
    case Some(p) => Some(ParseFrom(token[p + |key| + 1..], 0))
  }

  /** No '=' in `prefix` comes after the last two letters of `key`. */
  ghost predicate Harmless(prefix: string, key: string)
    requires |key| >= 2
  {
    forall q :: 0 <= q < |prefix| && prefix[q] == '=' ==>
      q >= 2 && (prefix[q - 1] != key[|key| - 1] || prefix[q - 2] != key[|key| - 2])
  }

  lemma HarmlessConcat(a: string, b: string, key: string)
    requires |key| >= 2 && Harmless(a, key) && Harmless(b, key)
    ensures Harmless(a + b, key)
  {
    var s := a + b;
    forall q | 0 <= q < |s| && s[q] == '='
      ensures q >= 2 && (s[q - 1] != key[|key| - 1] || s[q - 2] != key[|key| - 2])
    {
      if q >= |a| {
        assert b[q - |a|] == '=';
        assert s[q - 1] == b[q - |a| - 1] && s[q - 2] == b[q - |a| - 2];
      } else {
        assert a[q] == '=';
      }
    }
  }

  lemma OccurrenceAt(s: string, key: string, more: string, j: nat)
    requires j <= |s| && key + "=" + more <= s[j..] && |key| >= 2
    ensures j + |key| < |s| && s[j + |key|] == '='
    ensures s[j + |key| - 1] == key[|key| - 1] && s[j + |key| - 2] == key[|key| - 2]
  {
    var want, t := key + "=" + more, s[j..];
    assert t[|key|] == want[|key|] && t[|key| - 1] == want[|key| - 1] && t[|key| - 2] == want[|key| - 2];
  }

  /** Where no '=' comes after the end of its name, a quoted parameter is missing. */
  lemma {:induction false} ParamStrMissing(token: string, key: string, size: nat)
    requires |key| >= 2 && '=' !in key && Harmless(token, key)
    ensures ParamStr(token, key, size) == None
  {
    var want := key + "=" + "\"";
    StrStrFirst(token, want);
    if StrStr(token, want).Some? {
      OccurrenceAt(token, key, "\"", StrStr(token, want).value);
    }
  }

  /** Where no '=' comes after the end of its name, a number parameter is missing. */
  lemma {:induction false} ParamMissing(token: string, key: string)
    requires |key| >= 2 && '=' !in key && Harmless(token, key)
    ensures ParamInt(token, key) == None
  {
    var want := key + "=";
    StrStrFirst(token, want);
    if StrStr(token, want).Some? {
      var j := StrStr(token, want).value;
      assert key + "=" + "" == want;
      OccurrenceAt(token, key, "", j);
    }
  }

  /** After a harmless prefix, the search for a parameter finds it right there. */
  lemma {:induction false} ParamFound(prefix: string, key: string, more: string, rest: string)
    requires |key| >= 2 && '=' !in key && Harmless(prefix, key)
    ensures StrStr(prefix + (key + "=" + more + rest), key + "=" + more) == Some(|prefix|)
  {
    var want := key + "=" + more;
    var s := prefix + (want + rest);
    assert key + "=" + more + rest == want + rest;
    StrStrFirst(s, want);
    assert s[|prefix|..] == want + rest;
    assert forall q :: |prefix| <= q < |prefix| + |key| ==> s[q] == key[q - |prefix|];
    forall j | 0 <= j < |prefix| && want <= s[j..]
      ensures false
    {
      OccurrenceAt(s, key, more, j);
    }
  }
}
