/** The scan for action tokens, for any way of matching names: where tokens lie, in what order they are executed, and
    that it reads back what was written. */
module Scanner {
  import opened Options
  import opened CStrings

  const TOKEN_BUF: nat := 2048

  /** A handler to be run, by its place in the table, and the token it gets. */
  datatype Call = Call(action: nat, token: string)

  /** Which table entry, if any, the text after a '<' begins with. */
  type Matcher = string -> Option<nat>

  /** What the scan finds next in a text: nothing, a '<' to be skipped, or a token from '<' to '>' and its call. */
  datatype Found = Nothing | Skip(next: nat) | Hit(start: nat, end: nat, call: Call)

  type Looker = string -> Found

  function Token(s: string): (r: string)
  {
    if |s| >= TOKEN_BUF then s[..TOKEN_BUF - 1] else s
  }

  /** The text after position `k`. */
  function After(s: string, k: nat): (r: string)
    requires k < |s|
  {
    s[k + 1..]
  }

  function Between(s: string, k: nat, e: nat): (r: string)
    requires k < e <= |s|
  {
    s[k + 1..e]
  }

  function Look(s: string, m: Matcher): (r: Found)
  {
    match StrChr(s, '<')
    case None => Nothing
    case Some(k) =>
      var t := After(s, k);
      match (m(t), StrChr(t, '>'))
      case (Some(i), Some(n)) => Hit(k, k + 1 + n, Call(i, Token(t[..n])))
      case (_, _) => Skip(k + 1)
  }

  /** The scan gets on. */
  ghost predicate Progress(look: Looker)
  {
    forall s :: match look(s)
                case Nothing => true
                case Skip(n) => 1 <= n <= |s|
                case Hit(k, e, _) => k < e < |s|
  }

  /** The calls that a text makes. */
  function Scan(s: string, look: Looker): (r: seq<Call>)
    requires Progress(look)
    decreases |s|
  {
    match look(s)
    case Nothing => []
    case Skip(n) => Scan(s[n..], look)
    case Hit(_, e, call) => [call] + Scan(After(s, e), look)
  }

  // ----- which tokens are executed -----

  /** The '<' at `k` and the '>' at `e` enclose a token that names an action, and this is its call. */
  ghost predicate IsToken(s: string, m: Matcher, k: int, e: int, call: Call)
  {
    && 0 <= k < e < |s| && s[k] == '<' && s[e] == '>' && (forall j :: k < j < e ==> s[j] != '>')
    && m(After(s, k)) == Some(call.action) && call.token == Token(Between(s, k, e))
  }

  /** No token with a known name begins at `k`. */
  ghost predicate NoToken(s: string, m: Matcher, k: int)
  {
    forall e, call :: !IsToken(s, m, k, e, call)
  }

  ghost predicate LooksRight(s: string, m: Matcher, f: Found)
  {
    match f
    case Nothing => forall k :: NoToken(s, m, k)
    case Skip(n) => 1 <= n <= |s| && forall k :: k < n ==> NoToken(s, m, k)
    case Hit(k, e, call) => IsToken(s, m, k, e, call) && forall j :: j < k ==> NoToken(s, m, j)
  }

  /** The search for the closing '>' runs on the text after the '<'; in terms of the whole text it finds the next. */
  lemma CloseFound(s: string, k: nat, n: nat, e: nat)
    requires k < |s| && StrChr(After(s, k), '>') == Some(n) && e == k + 1 + n
    ensures k < e < |s| && s[e] == '>' && forall j :: k < j < e ==> s[j] != '>'
    ensures After(s, k)[..n] == Between(s, k, e)
  {
    var t := After(s, k);
    StrChrFirst(t, '>');
    forall j | k < j < e
      ensures s[j] != '>'
    {
      assert s[j] == t[j - k - 1];
    }
  }

  lemma CloseMissing(s: string, k: nat)
    requires k < |s| && StrChr(After(s, k), '>') == None
    ensures forall j :: k < j < |s| ==> s[j] != '>'
  {
    var t := After(s, k);
    StrChrFirst(t, '>');
    forall j | k < j < |s|
      ensures s[j] != '>'
    {
      assert s[j] == t[j - k - 1];
    }
  }

  lemma NoOpenBefore(s: string, m: Matcher, k: int)
    requires forall j :: 0 <= j < |s| && j < k ==> s[j] != '<'
    ensures forall j :: j < k ==> NoToken(s, m, j)
  {
  }

  lemma LookHits(s: string, m: Matcher, k: nat, n: nat, i: nat)
    requires StrChr(s, '<') == Some(k) && m(After(s, k)) == Some(i) && StrChr(After(s, k), '>') == Some(n)
    ensures LooksRight(s, m, Hit(k, k + 1 + n, Call(i, Token(After(s, k)[..n]))))
  {
    StrChrFirst(s, '<');
    NoOpenBefore(s, m, k);
    CloseFound(s, k, n, k + 1 + n);
  }

  lemma LookSkips(s: string, m: Matcher, k: nat)
    requires StrChr(s, '<') == Some(k) && (m(After(s, k)) == None || StrChr(After(s, k), '>') == None)
    ensures LooksRight(s, m, Skip(k + 1))
  {
    StrChrFirst(s, '<');
    NoOpenBefore(s, m, k);
    if StrChr(After(s, k), '>') == None {
      CloseMissing(s, k);
    }
    assert NoToken(s, m, k);
  }

  lemma LookIsRight(s: string, m: Matcher)
    ensures LooksRight(s, m, Look(s, m))
  {
    match StrChr(s, '<')
    case None =>
      StrChrFirst(s, '<');
      NoOpenBefore(s, m, |s|);
    case Some(k) =>
      var t := After(s, k);
      if m(t).Some? && StrChr(t, '>').Some? {
        LookHits(s, m, k, StrChr(t, '>').value, m(t).value);
      } else {
        LookSkips(s, m, k);
      }
  }

  /** Position `n` of s[p..] as a position of `s`. */
  function Past(p: nat, n: nat): (r: nat)
  {
    p + n
  }

  function Rest(s: string, p: nat): (r: string)
    requires p <= |s|
  {
    s[p..]
  }

  /** A token of a suffix is a token of the text, with the same call. */
  lemma TokenShift(s: string, m: Matcher, p: nat, k: int, e: int, k': int, e': int, call: Call)
    requires p <= |s| && k' == p + k && e' == p + e && k >= 0
    ensures IsToken(Rest(s, p), m, k, e, call) <==> IsToken(s, m, k', e', call)
  {
    var t := Rest(s, p);
    if 0 <= k < e < |t| {
      assert After(t, k) == After(s, k') && Between(t, k, e) == Between(s, k', e');
      assert forall j :: k < j < e ==> t[j] == s[p + j];
      assert forall j :: k' < j < e' ==> s[j] == t[j - p];
    }
  }

  lemma NoTokenShift(s: string, m: Matcher, p: nat, k: int, k': int)
    requires p <= |s| && k' == p + k && k >= 0
    ensures NoToken(Rest(s, p), m, k) <==> NoToken(s, m, k')
  {
    if NoToken(Rest(s, p), m, k) {
      forall e', call
        ensures !IsToken(s, m, k', e', call)
      {
        TokenShift(s, m, p, k, e' - p, k', e', call);
      }
    }
    if NoToken(s, m, k') {
      forall e, call
        ensures !IsToken(Rest(s, p), m, k, e, call)
      {
        TokenShift(s, m, p, k, e, k', p + e, call);
      }
    }
  }

  /** An executed token, by its place in the whole text. */
  datatype Span = Span(start: nat, end: nat, call: Call)

  function Spans(s: string, look: Looker, p: nat): (r: seq<Span>)
    requires Progress(look) && p <= |s|
    decreases |s| - p
  {
    match look(Rest(s, p))
    case Nothing => []
    case Skip(n) => Spans(s, look, Past(p, n))
    case Hit(k, e, call) => [Span(Past(p, k), Past(p, e), call)] + Spans(s, look, Past(p, e + 1))
  }

  ghost predicate Inside(spans: seq<Span>, k: int)
  {
    exists i :: 0 <= i < |spans| && spans[i].start <= k < spans[i].end
  }

  /** The tokens executed from position `p` on are tokens, in order and without overlap; and every '<' that begins a
      token with a known name is executed, unless it lies inside an executed token before it. */
  ghost predicate Exact(s: string, m: Matcher, p: int, spans: seq<Span>)
  {
    && (forall i :: 0 <= i < |spans| ==>
          p <= spans[i].start && IsToken(s, m, spans[i].start, spans[i].end, spans[i].call))
    && (forall i, j :: 0 <= i < j < |spans| ==> spans[i].end < spans[j].start)
    && forall k :: p <= k && !Inside(spans, k) ==> NoToken(s, m, k)
  }

  lemma ExactSkip(s: string, m: Matcher, p: nat, q: nat, spans: seq<Span>)
    requires p <= q && Exact(s, m, q, spans) && forall k :: p <= k < q ==> NoToken(s, m, k)
    ensures Exact(s, m, p, spans)
  {
  }

  lemma InsideFirst(first: Span, rest: seq<Span>, k: int)
    ensures Inside([first] + rest, k) <==> first.start <= k < first.end || Inside(rest, k)
  {
    var spans := [first] + rest;
    assert spans[0] == first;
    if Inside(rest, k) {
      var i :| 0 <= i < |rest| && rest[i].start <= k < rest[i].end;
      assert spans[i + 1] == rest[i];
    }
    if Inside(spans, k) {
      var i :| 0 <= i < |spans| && spans[i].start <= k < spans[i].end;
      assert i > 0 ==> spans[i] == rest[i - 1];
    }
  }

  lemma NotAtClose(s: string, m: Matcher, e: int)
    requires 0 <= e < |s| && s[e] == '>'
    ensures NoToken(s, m, e)
  {
  }

  lemma ExactHit(s: string, m: Matcher, p: nat, first: Span, q: nat, rest: seq<Span>)
    requires p <= first.start && IsToken(s, m, first.start, first.end, first.call) && q == first.end + 1
    requires Exact(s, m, q, rest) && forall k :: p <= k < first.start ==> NoToken(s, m, k)
    ensures Exact(s, m, p, [first] + rest)
  {
    NotAtClose(s, m, first.end);
    forall k | p <= k && !Inside([first] + rest, k)
      ensures NoToken(s, m, k)
    {
      InsideFirst(first, rest, k);
    }
  }

  ghost predicate Right(look: Looker, m: Matcher)
  {
    forall s {:trigger LooksRight(s, m, look(s))} :: LooksRight(s, m, look(s))
  }

  lemma NoTokensBefore(s: string, m: Matcher, p: nat, n: int, q: int)
    requires p <= |s| && q == p + n && forall k :: k < n ==> NoToken(Rest(s, p), m, k)
    ensures forall k :: p <= k < q ==> NoToken(s, m, k)
  {
    forall k | p <= k < q
      ensures NoToken(s, m, k)
    {
      NoTokenShift(s, m, p, k - p, k);
    }
  }

  lemma ExactNothing(s: string, m: Matcher, p: nat)
    requires p <= |s| && forall k :: NoToken(Rest(s, p), m, k)
    ensures Exact(s, m, p, [])
  {
    forall k: int | p <= k
      ensures NoToken(s, m, k)
    {
      NoTokenShift(s, m, p, k - p, k);
    }
  }

  lemma ExactAfterSkip(s: string, m: Matcher, p: nat, n: nat, q: nat, spans: seq<Span>)
    requires p <= |s| && q == p + n && Exact(s, m, q, spans)
    requires LooksRight(Rest(s, p), m, Skip(n))
    ensures Exact(s, m, p, spans)
  {
    NoTokensBefore(s, m, p, n, q);
    ExactSkip(s, m, p, q, spans);
  }

  lemma ExactAfterHit(s: string, m: Matcher, p: nat, k: nat, e: nat, first: Span, q: nat, rest: seq<Span>)
    requires p <= |s| && first.start == p + k && first.end == p + e && q == first.end + 1 && Exact(s, m, q, rest)
    requires LooksRight(Rest(s, p), m, Hit(k, e, first.call))
    ensures Exact(s, m, p, [first] + rest)
  {
    TokenShift(s, m, p, k, e, first.start, first.end, first.call);
    NoTokensBefore(s, m, p, k, first.start);
    ExactHit(s, m, p, first, q, rest);
  }

  lemma SpansNothing(s: string, look: Looker, p: nat)
    requires Progress(look) && p <= |s| && look(Rest(s, p)) == Nothing
    ensures Spans(s, look, p) == []
  {
  }

  lemma SpansSkip(s: string, look: Looker, p: nat, n: nat, q: nat)
    requires Progress(look) && p <= |s| && look(Rest(s, p)) == Skip(n) && q == Past(p, n)
    ensures p < q <= |s| && Spans(s, look, p) == Spans(s, look, q)
  {
  }

  lemma SpansHit(s: string, look: Looker, p: nat, k: nat, e: nat, call: Call, q: nat)
    requires Progress(look) && p <= |s| && look(Rest(s, p)) == Hit(k, e, call) && q == Past(p, e + 1)
    ensures p < q <= |s| && Spans(s, look, p) == [Span(Past(p, k), Past(p, e), call)] + Spans(s, look, q)
  {
  }

  /** The main result on the scan: the executed tokens are exactly those that they should be. */
  lemma {:induction false} SpansExact(s: string, m: Matcher, look: Looker, p: nat)
    requires Progress(look) && Right(look, m) && p <= |s|
    ensures Exact(s, m, p, Spans(s, look, p))
    decreases |s| - p
  {
    var f := look(Rest(s, p));
    assert LooksRight(Rest(s, p), m, f);
    match f
    case Nothing =>
      SpansNothing(s, look, p);
      ExactNothing(s, m, p);
    case Skip(n) =>
      var q := Past(p, n);
      SpansSkip(s, look, p, n, q);
      SpansExact(s, m, look, q);
      ExactAfterSkip(s, m, p, n, q, Spans(s, look, q));
    case Hit(k, e, call) =>
      var q := Past(p, e + 1);
      SpansHit(s, look, p, k, e, call, q);
      SpansExact(s, m, look, q);
      ExactAfterHit(s, m, p, k, e, Span(Past(p, k), Past(p, e), call), q, Spans(s, look, q));
  }

  /** A token is determined by where it begins. */
  lemma TokenUnique(s: string, m: Matcher, k: int, e: int, call: Call, e': int, call': Call)
    requires IsToken(s, m, k, e, call) && IsToken(s, m, k, e', call')
    ensures e == e' && call == call'
  {
  }

  lemma StartsInOrder(spans: seq<Span>, i: int)
    requires 0 <= i < |spans|
    requires forall i :: 0 <= i < |spans| ==> spans[i].start < spans[i].end
    requires forall i, j :: 0 <= i < j < |spans| ==> spans[i].end < spans[j].start
    ensures spans[0].start <= spans[i].start
  {
  }

  /** The first token of one list is met in the other, so the other does not begin later. */
  lemma FirstNotLater(s: string, m: Matcher, p: int, a: seq<Span>, b: seq<Span>)
    requires Exact(s, m, p, a) && Exact(s, m, p, b) && a != []
    ensures b != [] && b[0].start <= a[0].start
  {
    var k := a[0].start;
    assert IsToken(s, m, k, a[0].end, a[0].call);
    assert !NoToken(s, m, k);
    assert Inside(b, k);
    var i :| 0 <= i < |b| && b[i].start <= k < b[i].end;
    StartsInOrder(b, i);
  }

  lemma ExactTail(s: string, m: Matcher, p: int, a: seq<Span>, q: int)
    requires Exact(s, m, p, a) && a != [] && q == a[0].end + 1
    ensures Exact(s, m, q, a[1..])
  {
    var t := a[1..];
    forall k | q <= k && !Inside(t, k)
      ensures NoToken(s, m, k)
    {
      InsideFirst(a[0], t, k);
      assert [a[0]] + t == a;
    }
  }

  /** There is only one exact list of tokens. */
  lemma {:induction false} ExactUnique(s: string, m: Matcher, p: int, a: seq<Span>, b: seq<Span>)
    requires Exact(s, m, p, a) && Exact(s, m, p, b)
    ensures a == b
    decreases |a|
  {
    if a != [] {
      FirstNotLater(s, m, p, a, b);
      FirstNotLater(s, m, p, b, a);
      TokenUnique(s, m, a[0].start, a[0].end, a[0].call, b[0].end, b[0].call);
      var q := a[0].end + 1;
      ExactTail(s, m, p, a, q);
      ExactTail(s, m, p, b, q);
      ExactUnique(s, m, q, a[1..], b[1..]);
      assert a == [a[0]] + a[1..] && b == [b[0]] + b[1..];
    } else if b != [] {
      FirstNotLater(s, m, p, b, a);
    }
  }

  lemma RestOfRest(s: string, p: nat, n: nat, q: nat)
    requires p <= |s| && n <= |Rest(s, p)| && q == p + n
    ensures Rest(s, p)[n..] == Rest(s, q)
  {
  }

  /** The calls of a text are those of its executed tokens, in order. */
  lemma {:induction false} ScanIsSpans(s: string, look: Looker, p: nat)
    requires Progress(look) && p <= |s|
    ensures SameCalls(Spans(s, look, p), Scan(Rest(s, p), look))
    decreases |s| - p
  {
    match look(Rest(s, p))
    case Nothing =>
    case Skip(n) =>
      var q := Past(p, n);
      ScanIsSpans(s, look, q);
      RestOfRest(s, p, n, q);
    case Hit(k, e, call) =>
      var q := Past(p, e + 1);
      ScanIsSpans(s, look, q);
      RestOfRest(s, p, e + 1, q);
      SameCallsCons(Span(Past(p, k), Past(p, e), call), Spans(s, look, q), Scan(Rest(s, q), look));
  }

  ghost predicate SameCalls(spans: seq<Span>, calls: seq<Call>)
  {
    |calls| == |spans| && forall i :: 0 <= i < |spans| ==> calls[i] == spans[i].call
  }

  lemma SameCallsCons(first: Span, spans: seq<Span>, calls: seq<Call>)
    requires SameCalls(spans, calls)
    ensures SameCalls([first] + spans, [first.call] + calls)
  {
  }

  // ----- writing actions -----

  /** Text without '<', and a token to follow it. */
  datatype Piece = Piece(text: string, token: string)

  /** What follows a token does not change which name it begins with. */
  ghost predicate Stable(m: Matcher, token: string)
  {
    forall rest :: m(token + rest) == m(token)
  }

  ghost predicate WellFormed(p: Piece, m: Matcher)
  {
    '<' !in p.text && m(p.token).Some? && Stable(m, p.token) && '>' !in p.token
  }

  function Written(p: Piece, rest: string): (r: string)
  {
    p.text + (['<'] + (p.token + (['>'] + rest)))
  }

  function Render(ps: seq<Piece>, tail: string): (r: string)
  {
    if ps == [] then tail else Written(ps[0], Render(ps[1..], tail))
  }

  /** The call for a piece; a token that is too long for its buffer arrives cut. */
  function CallFor(p: Piece, m: Matcher): (r: Call)
    requires m(p.token).Some?
  {
    Call(m(p.token).value, Token(p.token))
  }

  /** The first thing the scan finds in a written piece is its token. */
  lemma {:induction false} LookAtWritten(p: Piece, m: Matcher, rest: string)
    requires WellFormed(p, m)
    ensures var s := Written(p, rest);
            var e := |p.text| + 1 + |p.token|;
            Look(s, m) == Hit(|p.text|, e, CallFor(p, m)) && e < |s| && After(s, e) == rest
  {
    var close := ['>'] + rest;
    var t := p.token + close;
    var s := Written(p, rest);
    StrChrAt(p.text, '<', t);
    StrChrAt(p.token, '>', rest);
    assert After(s, |p.text|) == t;
    assert m(t) == m(p.token);
    assert t[..|p.token|] == p.token;
  }

  lemma LookAtTail(tail: string, m: Matcher)
    requires '<' !in tail
    ensures Look(tail, m) == Nothing
  {
  }

  lemma ScanHit(s: string, look: Looker, k: nat, e: nat, call: Call, rest: string)
    requires Progress(look) && look(s) == Hit(k, e, call) && e < |s| && After(s, e) == rest
    ensures Scan(s, look) == [call] + Scan(rest, look)
  {
  }

  lemma ScanSkip(s: string, look: Looker, n: nat)
    requires Progress(look) && look(s) == Skip(n) && n <= |s|
    ensures Scan(s, look) == Scan(s[n..], look)
  {
  }

  lemma AfterAfter(s: string, k: nat, n: nat, e: nat)
    requires k < |s| && n < |After(s, k)| && e == k + 1 + n
    ensures e < |s| && After(s, e) == After(After(s, k), n)
  {
  }

  /** One round of the scan that executes a token. */
  lemma RoundHits(s: string, m: Matcher, look: Looker, k: nat, t: string, i: nat, n: nat)
    requires Progress(look) && look(s) == Look(s, m)
    requires StrChr(s, '<') == Some(k) && t == After(s, k) && m(t) == Some(i) && StrChr(t, '>') == Some(n)
    ensures Scan(s, look) == [Call(i, Token(t[..n]))] + Scan(After(t, n), look)
  {
    AfterAfter(s, k, n, k + 1 + n);
    ScanHit(s, look, k, k + 1 + n, Call(i, Token(t[..n])), After(t, n));
  }

  /** One round that does not. */
  lemma RoundSkips(s: string, m: Matcher, look: Looker, k: nat, t: string)
    requires Progress(look) && look(s) == Look(s, m)
    requires StrChr(s, '<') == Some(k) && t == After(s, k) && (m(t) == None || StrChr(t, '>') == None)
    ensures Scan(s, look) == Scan(t, look)
  {
    ScanSkip(s, look, k + 1);
  }

  /** One well-formed action, whatever follows it. */
  lemma ScanOne(p: Piece, m: Matcher, look: Looker, rest: string)
    requires WellFormed(p, m) && Progress(look) && look(Written(p, rest)) == Look(Written(p, rest), m)
    ensures Scan(Written(p, rest), look) == [CallFor(p, m)] + Scan(rest, look)
  {
    LookAtWritten(p, m, rest);
    ScanHit(Written(p, rest), look, |p.text|, |p.text| + 1 + |p.token|, CallFor(p, m), rest);
  }

  ghost predicate AllWellFormed(ps: seq<Piece>, m: Matcher)
  {
    forall i :: 0 <= i < |ps| ==> WellFormed(ps[i], m)
  }

  function CallsFor(ps: seq<Piece>, m: Matcher): (r: seq<Call>)
    requires forall i :: 0 <= i < |ps| ==> m(ps[i].token).Some?
    ensures |r| == |ps| && forall i :: 0 <= i < |ps| ==> r[i] == CallFor(ps[i], m)
  {
    if ps == [] then [] else [CallFor(ps[0], m)] + CallsFor(ps[1..], m)
  }

  lemma CallsForLast(ps: seq<Piece>, p: Piece, m: Matcher)
    requires forall i :: 0 <= i < |ps| ==> m(ps[i].token).Some?
    requires m(p.token).Some?
    ensures forall i :: 0 <= i < |ps + [p]| ==> m((ps + [p])[i].token).Some?
    ensures CallsFor(ps + [p], m) == CallsFor(ps, m) + [CallFor(p, m)]
  {
  }

  lemma CallsForPair(ps: seq<Piece>, p: Piece, q: Piece, m: Matcher)
    requires forall i :: 0 <= i < |ps| ==> m(ps[i].token).Some?
    requires m(p.token).Some? && m(q.token).Some?
    ensures forall i :: 0 <= i < |ps + [p, q]| ==> m((ps + [p, q])[i].token).Some?
    ensures CallsFor(ps + [p, q], m) == CallsFor(ps, m) + [CallFor(p, m), CallFor(q, m)]
  {
  }

  /** Rendered actions are executed exactly, in order, and then what follows them. */
  lemma {:induction false} ScanInvertsRender(ps: seq<Piece>, m: Matcher, look: Looker, tail: string)
    requires AllWellFormed(ps, m) && Progress(look) && forall s :: look(s) == Look(s, m)
    ensures Scan(Render(ps, tail), look) == CallsFor(ps, m) + Scan(tail, look)
    decreases |ps|
  {
    if ps == [] {
      assert [] + Scan(tail, look) == Scan(tail, look);
    } else {
      ScanOne(ps[0], m, look, Render(ps[1..], tail));
      ScanInvertsRender(ps[1..], m, look, tail);
      Consed(CallFor(ps[0], m), CallsFor(ps[1..], m), Scan(tail, look));
    }
  }

  lemma Consed(c: Call, a: seq<Call>, b: seq<Call>)
    ensures [c] + (a + b) == ([c] + a) + b
  {
  }
}
