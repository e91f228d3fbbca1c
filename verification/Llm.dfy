/** The working memory of the language model: a window of tokens that slides when it is nearly full, and the model's own
    cache, which should hold the same tokens. Tokenizing, sampling and decoding are outcomes given from outside. */
module Llm {
  import opened Options

  type Token = int

  const CTX_SIZE: nat := 4096
  const ROOM: nat := 4095
  const LIMIT: nat := 3968
  const KEEP: nat := 3072
  const MAX_NEW: nat := 512

  /** The outcome of a decode: its return code, and what a failed one leaves in the cache. */
  datatype Decode = Decode(rc: int, left: seq<Token>)

  /** What the model answers in one round of generation. */
  datatype Draw = Draw(token: Token, ends: bool, piece: Option<string>, decode: Decode)

  /** The window, the model's cache, and all tokens that were ever put into the window. */
  datatype Life = Life(context: seq<Token>, cache: seq<Token>, recorded: seq<Token>)

  function Decoded(cache: seq<Token>, batch: seq<Token>, d: Decode): (r: seq<Token>)
  {
    if d.rc == 0 then cache + batch else d.left
  }

  // ----- feeding -----

  predicate Crowded(l: Life, added: seq<Token>)
  {
    |l.context| + |added| > LIMIT
  }

  /** Forgets all but the latest tokens, and evaluates those again. */
  function Compress(l: Life, again: Decode): (r: Life)
    requires |l.context| >= KEEP
  {
    var kept := l.context[|l.context| - KEEP..];
    Life(kept, Decoded([], kept, again), l.recorded)
  }

  function Append(l: Life, added: seq<Token>, d: Decode): (r: Life)
  {
    Life(l.context + added, Decoded(l.cache, added, d), l.recorded + added)
  }

  function Feed(l: Life, added: seq<Token>, again: Decode, d: Decode): (r: Life)
    requires |added| <= MAX_NEW
  {
    Append(if Crowded(l, added) then Compress(l, again) else l, added, d)
  }

  lemma FeedIs(l: Life, added: seq<Token>, again: Decode, d: Decode)
    requires |added| <= MAX_NEW
    ensures if |l.context| + |added| > LIMIT
            then |l.context| >= KEEP && Feed(l, added, again, d) == Append(Compress(l, again), added, d)
            else Feed(l, added, again, d) == Append(l, added, d)
  {
  }

  // ----- thinking -----

  function Record(l: Life, t: Token): (r: Life)
  {
    if |l.context| < ROOM then Life(l.context + [t], l.cache, l.recorded + [t]) else l
  }

  function Say(l: Life, d: Draw): (r: Life)
  {
    var m := Record(l, d.token);
    Life(m.context, Decoded(m.cache, [d.token], d.decode), m.recorded)
  }

  function SayAll(l: Life, ds: seq<Draw>): (r: Life)
    decreases |ds|
  {
    if ds == [] then l else SayAll(Say(l, ds[0]), ds[1..])
  }

  predicate Stops(d: Draw)
  {
    d.ends || d.piece.None?
  }

  /** The rounds that produce a token: up to the end of generation, or to the first decode that fails. */
  function Spoken(draws: seq<Draw>): (r: seq<Draw>)
    decreases |draws|
  {
    if draws == [] || Stops(draws[0]) then []
    else if draws[0].decode.rc != 0 then [draws[0]]
    else [draws[0]] + Spoken(draws[1..])
  }

  function PieceOf(d: Draw): (r: string)
  {
    match d.piece
    case None => ""
    case Some(text) => text
  }

  /** A piece that does not fit is left out as a whole. */
  function Put(out: string, piece: string, size: nat): (r: string)
  {
    if |out| + |piece| + 1 < size then out + piece else out
  }

  function Text(out: string, ds: seq<Draw>, size: nat): (r: string)
    decreases |ds|
  {
    if ds == [] then out else Text(Put(out, PieceOf(ds[0]), size), ds[1..], size)
  }

  /** Which rounds produce a token: all before the first that ends generation, and none after the first whose decode
      fails. */
  lemma {:induction false} SpokenIs(draws: seq<Draw>)
    ensures var n := |Spoken(draws)|;
            && n <= |draws| && Spoken(draws) == draws[..n]
            && (forall i :: 0 <= i < n ==> !draws[i].ends && draws[i].piece.Some?)
            && (forall i :: 0 <= i < n - 1 ==> draws[i].decode.rc == 0)
            && (n == |draws| || draws[n].ends || draws[n].piece.None? || (n > 0 && draws[n - 1].decode.rc != 0))
    decreases |draws|
  {
    if draws != [] && !Stops(draws[0]) && draws[0].decode.rc == 0 {
      SpokenIs(draws[1..]);
      var n := |Spoken(draws[1..])|;
      assert draws[..n + 1] == [draws[0]] + draws[1..][..n];
    }
  }

  // ----- the text -----

  /** A kept piece, or nothing. */
  function Chosen(d: Draw, k: bool): (r: string)
  {
    if k then PieceOf(d) else ""
  }

  /** The pieces that are kept, one after the other. */
  function Selected(ds: seq<Draw>, keep: seq<bool>): (r: string)
    requires |keep| == |ds|
    decreases |ds|
  {
    if ds == [] then "" else Chosen(ds[0], keep[0]) + Selected(ds[1..], keep[1..])
  }

  lemma SelectedOne(d: Draw, ds: seq<Draw>, k: bool, keep: seq<bool>)
    requires |keep| == |ds|
    ensures Selected([d] + ds, [k] + keep) == Chosen(d, k) + Selected(ds, keep)
  {
    assert ([d] + ds)[1..] == ds && ([k] + keep)[1..] == keep;
  }

  lemma JoinThree(a: string, b: string, c: string)
    ensures (a + b) + c == a + (b + c)
  {
  }

  /** A piece is kept exactly if it leaves two bytes of the buffer free after what was kept before it. */
  ghost predicate Keeps(out: nat, ds: seq<Draw>, keep: seq<bool>, size: nat)
  {
    |keep| == |ds| && forall i :: 0 <= i < |ds| ==>
      (keep[i] <==> out + |Selected(ds[..i], keep[..i])| + |PieceOf(ds[i])| + 2 <= size)
  }

  lemma KeepsMore(out: nat, d: Draw, ds: seq<Draw>, k: bool, keep: seq<bool>, size: nat)
    requires k <==> out + |PieceOf(d)| + 2 <= size
    requires Keeps(out + |Chosen(d, k)|, ds, keep, size)
    ensures Keeps(out, [d] + ds, [k] + keep, size)
  {
    var all, ks := [d] + ds, [k] + keep;
    forall i | 0 <= i < |all|
      ensures ks[i] <==> out + |Selected(all[..i], ks[..i])| + |PieceOf(all[i])| + 2 <= size
    {
      if i > 0 {
        assert all[..i] == [d] + ds[..i - 1] && ks[..i] == [k] + keep[..i - 1];
        SelectedOne(d, ds[..i - 1], k, keep[..i - 1]);
      }
    }
  }

  lemma PutIs(out: string, d: Draw, k: bool, size: nat)
    requires k <==> |out| + |PieceOf(d)| + 2 <= size
    ensures Put(out, PieceOf(d), size) == out + Chosen(d, k)
  {
  }

  /** The text is what was there and the kept pieces, whole and in order. */
  lemma {:induction false} TextIs(out: string, ds: seq<Draw>, size: nat) returns (keep: seq<bool>)
    ensures Keeps(|out|, ds, keep, size) && Text(out, ds, size) == out + Selected(ds, keep)
    decreases |ds|
  {
    if ds == [] {
      keep := [];
      assert out + "" == out;
    } else {
      var d, rest := ds[0], ds[1..];
      var k := |out| + |PieceOf(d)| + 2 <= size;
      PutIs(out, d, k, size);
      var more := TextIs(out + Chosen(d, k), rest, size);
      keep := [k] + more;
      assert [d] + rest == ds;
      KeepsMore(|out|, d, rest, k, more, size);
      SelectedOne(d, rest, k, more);
      JoinThree(out, Chosen(d, k), Selected(rest, more));
    }
  }

  function AllPieces(ds: seq<Draw>): (r: string)
    decreases |ds|
  {
    if ds == [] then "" else PieceOf(ds[0]) + AllPieces(ds[1..])
  }

  lemma {:induction false} TextFits(out: string, ds: seq<Draw>, size: nat)
    requires |out| < size
    ensures out <= Text(out, ds, size) && |Text(out, ds, size)| < size
    decreases |ds|
  {
    if ds != [] {
      TextFits(Put(out, PieceOf(ds[0]), size), ds[1..], size);
    }
  }

  /** The text is complete exactly when all of it, with the terminator and one more byte, fits the buffer. */
  lemma {:induction false} TextCompleteIff(out: string, ds: seq<Draw>, size: nat)
    requires |out| + 1 < size
    ensures Text(out, ds, size) == out + AllPieces(ds) <==> |out| + |AllPieces(ds)| + 1 < size
    ensures |Text(out, ds, size)| <= |out| + |AllPieces(ds)| && |Text(out, ds, size)| + 1 < size
    decreases |ds|
  {
    if ds == [] {
      assert out + "" == out;
    } else {
      var piece := PieceOf(ds[0]);
      var next := Put(out, piece, size);
      TextCompleteIff(next, ds[1..], size);
      if |out| + |piece| + 1 < size {
        JoinThree(out, piece, AllPieces(ds[1..]));
      } else {
        assert |Text(out, ds, size)| != |out + AllPieces(ds)|;
      }
    }
  }

  // ----- the window -----

  function Least(a: nat, b: nat): (r: nat)
  {
    if a < b then a else b
  }

  function Latest(s: seq<Token>, n: nat): (r: seq<Token>)
    requires n <= |s|
  {
    s[|s| - n..]
  }

  /** The window holds the latest recorded tokens, 3072 of them at least unless fewer were ever recorded, and it is
      never full. */
  ghost predicate Window(l: Life)
  {
    && |l.context| <= ROOM
    && Least(KEEP, |l.recorded|) <= |l.context| <= |l.recorded|
    && l.context == Latest(l.recorded, |l.context|)
  }

  lemma LatestOfLatest(s: seq<Token>, n: nat, k: nat)
    requires k <= n <= |s|
    ensures Latest(Latest(s, n), k) == Latest(s, k)
  {
  }

  lemma LatestAppend(s: seq<Token>, n: nat, t: seq<Token>)
    requires n <= |s|
    ensures Latest(s, n) + t == Latest(s + t, n + |t|)
  {
  }

  lemma CompressKeepsWindow(l: Life, again: Decode)
    requires Window(l) && |l.context| >= KEEP
    ensures Window(Compress(l, again)) && Compress(l, again).context == Latest(l.recorded, KEEP)
  {
    LatestOfLatest(l.recorded, |l.context|, KEEP);
  }

  lemma AppendKeepsWindow(l: Life, added: seq<Token>, d: Decode)
    requires Window(l) && |l.context| + |added| <= ROOM
    ensures Window(Append(l, added, d))
  {
    LatestAppend(l.recorded, |l.context|, added);
  }

  /** A feed leaves at least 128 places free; the window slides by 385 tokens or more when it slides, and to the latest
      3072 tokens of before. */
  lemma FeedKeepsWindow(l: Life, added: seq<Token>, again: Decode, d: Decode)
    requires Window(l) && |added| <= MAX_NEW
    ensures var r := Feed(l, added, again, d);
            && Window(r) && |r.context| <= 3968 && r.recorded == l.recorded + added
            && if |l.context| + |added| > 3968
               then |l.context| >= 3072 + 385 && r.context == l.context[|l.context| - 3072..] + added
               else r.context == l.context + added
  {
    if Crowded(l, added) {
      CompressKeepsWindow(l, again);
      AppendKeepsWindow(Compress(l, again), added, d);
    } else {
      AppendKeepsWindow(l, added, d);
    }
  }

  lemma SayKeepsWindow(l: Life, d: Draw)
    requires Window(l)
    ensures Window(Say(l, d))
  {
    if |l.context| < ROOM {
      LatestAppend(l.recorded, |l.context|, [d.token]);
    }
  }

  lemma {:induction false} SayAllKeepsWindow(l: Life, ds: seq<Draw>)
    requires Window(l)
    ensures Window(SayAll(l, ds))
    decreases |ds|
  {
    if ds != [] {
      SayKeepsWindow(l, ds[0]);
      SayAllKeepsWindow(Say(l, ds[0]), ds[1..]);
    }
  }

  // ----- the cache -----

  function TokensOf(ds: seq<Draw>): (r: seq<Token>)
    decreases |ds|
  {
    if ds == [] then [] else [ds[0].token] + TokensOf(ds[1..])
  }

  lemma {:induction false} TokensOfSize(ds: seq<Draw>)
    ensures |TokensOf(ds)| == |ds|
    decreases |ds|
  {
    if ds != [] {
      TokensOfSize(ds[1..]);
    }
  }

  ghost predicate AllDecoded(ds: seq<Draw>)
  {
    forall i :: 0 <= i < |ds| ==> ds[i].decode.rc == 0
  }

  /** Generation records its tokens until the window is full, and not the others. */
  lemma {:induction false} SayAllRecords(l: Life, ds: seq<Draw>)
    requires |l.context| <= ROOM
    ensures |TokensOf(ds)| == |ds|
    ensures var heard := TokensOf(ds)[..Least(|ds|, ROOM - |l.context|)];
            SayAll(l, ds).context == l.context + heard && SayAll(l, ds).recorded == l.recorded + heard
    decreases |ds|
  {
    TokensOfSize(ds);
    if ds == [] {
      assert TokensOf(ds)[..0] == [];
    } else {
      var m, rest := Say(l, ds[0]), ds[1..];
      SayAllRecords(m, rest);
      if |l.context| < ROOM {
        var n := Least(|rest|, ROOM - |m.context|);
        assert TokensOf(ds)[..n + 1] == [ds[0].token] + TokensOf(rest)[..n];
      }
    }
  }

  lemma Regroup(a: seq<Token>, b: seq<Token>, c: seq<Token>)
    ensures (a + b) + c == a + (b + c)
  {
  }

  /** The cache gets them all. */
  lemma {:induction false} SayAllCaches(l: Life, ds: seq<Draw>)
    requires AllDecoded(ds)
    ensures SayAll(l, ds).cache == l.cache + TokensOf(ds)
    decreases |ds|
  {
    if ds != [] {
      SayAllCaches(Say(l, ds[0]), ds[1..]);
      Regroup(l.cache, [ds[0].token], TokensOf(ds[1..]));
    }
  }

  ghost predicate Synced(l: Life)
  {
    l.cache == l.context
  }

  /** Generation keeps cache and window equal exactly as long as every token still found room. */
  lemma ThinkSyncedIff(l: Life, ds: seq<Draw>)
    requires Synced(l) && |l.context| <= ROOM && AllDecoded(ds)
    ensures Synced(SayAll(l, ds)) <==> |ds| <= ROOM - |l.context|
  {
    SayAllRecords(l, ds);
    SayAllCaches(l, ds);
    assert TokensOf(ds)[..|ds|] == TokensOf(ds);
  }

  lemma SameTail(a: seq<Token>, b: seq<Token>, t: seq<Token>)
    ensures a + t == b + t <==> a == b
  {
    if a + t == b + t {
      assert |a| == |b|;
      assert a == (a + t)[..|a|] == (b + t)[..|b|] == b;
    }
  }

  /** A feed makes them equal exactly when they were or the window slides: a slide evaluates the window anew. */
  lemma FeedSyncedIff(l: Life, added: seq<Token>, again: Decode, d: Decode)
    requires |added| <= MAX_NEW && d.rc == 0 && again.rc == 0
    ensures Synced(Feed(l, added, again, d)) <==> Crowded(l, added) || Synced(l)
  {
    if Crowded(l, added) {
      assert [] + Compress(l, again).context == Compress(l, again).context;
    }
    SameTail(l.cache, l.context, added);
  }

  /** A decode that is refused loses the agreement: its token is in the window already. */
  lemma RefusalLosesAgreement(l: Life, d: Draw)
    requires Synced(l) && d.decode.rc != 0 && d.decode.left == l.cache
    ensures Synced(Say(l, d)) <==> |l.context| >= ROOM
  {
  }

  // ----- whole lives -----

  datatype Event = Fed(tokens: seq<Token>, again: Decode, decode: Decode) | Thought(draws: seq<Draw>) | Restarted

  ghost predicate Possible(es: seq<Event>)
  {
    forall i :: 0 <= i < |es| && es[i].Fed? ==> |es[i].tokens| <= MAX_NEW
  }

  /** Nothing is generated from an empty window. */
  function Think(l: Life, draws: seq<Draw>): (r: Life)
  {
    if l.context == [] then l else SayAll(l, Spoken(draws))
  }

  /** A new model context has an empty cache; the window stays as it was. */
  function Restart(l: Life): (r: Life)
  {
    Life(l.context, [], l.recorded)
  }

  /** So a restart keeps agreement only where there is nothing to agree on. */
  lemma RestartSyncedIff(l: Life)
    ensures Synced(Restart(l)) <==> l.context == []
  {
  }

  function Live(l: Life, e: Event): (r: Life)
    requires e.Fed? ==> |e.tokens| <= MAX_NEW
  {
    match e
    case Fed(tokens, again, decode) => Feed(l, tokens, again, decode)
    case Thought(draws) => Think(l, draws)
    case Restarted => Restart(l)
  }

  function Run(l: Life, es: seq<Event>): (r: Life)
    requires Possible(es)
    decreases |es|
  {
    if es == [] then l else Run(Live(l, es[0]), es[1..])
  }

  const BORN: Life := Life([], [], [])

  lemma RestartKeepsWindow(l: Life)
    requires Window(l)
    ensures Window(Restart(l))
  {
  }

  lemma LiveKeepsWindow(l: Life, e: Event)
    requires Window(l) && (e.Fed? ==> |e.tokens| <= MAX_NEW)
    ensures Window(Live(l, e))
  {
    match e
    case Fed(tokens, again, decode) => FeedKeepsWindow(l, tokens, again, decode);
    case Thought(draws) => SayAllKeepsWindow(l, Spoken(draws));
    case Restarted => RestartKeepsWindow(l);
  }

  /** The main result on the window: over every life, whatever the model answers, the window is the latest part of all
      that was recorded. */
  lemma {:induction false} RunKeepsWindow(l: Life, es: seq<Event>)
    requires Window(l) && Possible(es)
    ensures Window(Run(l, es))
    decreases |es|
  {
    if es != [] {
      LiveKeepsWindow(l, es[0]);
      RunKeepsWindow(Live(l, es[0]), es[1..]);
    }
  }

  /** The cache holds the window, and more only when the window has no room. */
  ghost predicate Ahead(l: Life)
  {
    |l.context| <= ROOM && l.context <= l.cache && (|l.context| < ROOM ==> Synced(l))
  }

  ghost predicate Smooth(e: Event)
  {
    match e
    case Fed(_, again, decode) => again.rc == 0 && decode.rc == 0
    case Thought(draws) => AllDecoded(draws)
    case Restarted => false
  }

  lemma {:induction false} SpokenDecoded(draws: seq<Draw>)
    requires AllDecoded(draws)
    ensures AllDecoded(Spoken(draws))
    decreases |draws|
  {
    if draws != [] && !Stops(draws[0]) {
      SpokenDecoded(draws[1..]);
    }
  }

  lemma SayAhead(l: Life, d: Draw)
    requires Ahead(l) && d.decode.rc == 0
    ensures Ahead(Say(l, d))
  {
  }

  lemma {:induction false} SayAllAhead(l: Life, ds: seq<Draw>)
    requires Ahead(l) && AllDecoded(ds)
    ensures Ahead(SayAll(l, ds))
    decreases |ds|
  {
    if ds != [] {
      SayAhead(l, ds[0]);
      SayAllAhead(Say(l, ds[0]), ds[1..]);
    }
  }

  /** After a feed they agree, even if generation had run past the window before it: a full window always slides. */
  lemma FeedAgrees(l: Life, added: seq<Token>, again: Decode, d: Decode)
    requires Ahead(l) && |added| <= MAX_NEW && again.rc == 0 && d.rc == 0
    ensures Synced(Feed(l, added, again, d)) && Ahead(Feed(l, added, again, d))
  {
    FeedSyncedIff(l, added, again, d);
  }

  lemma LiveAhead(l: Life, e: Event)
    requires Ahead(l) && (e.Fed? ==> |e.tokens| <= MAX_NEW) && Smooth(e)
    ensures Ahead(Live(l, e)) && (e.Fed? ==> Synced(Live(l, e)))
  {
    match e
    case Fed(tokens, again, decode) => FeedAgrees(l, tokens, again, decode);
    case Thought(draws) =>
      SpokenDecoded(draws);
      SayAllAhead(l, Spoken(draws));
    case Restarted =>
  }

  /** The main result on the cache: over every life in which decoding does not fail and the model is not restarted, the
      cache equals the window after every feed, and at any time while the window has room. */
  lemma {:induction false} RunAgrees(l: Life, es: seq<Event>)
    requires Ahead(l) && Possible(es) && forall i :: 0 <= i < |es| ==> Smooth(es[i])
    ensures Ahead(Run(l, es)) && (es != [] && es[|es| - 1].Fed? ==> Synced(Run(l, es)))
    decreases |es|
  {
    if es != [] {
      LiveAhead(l, es[0]);
      RunAgrees(Live(l, es[0]), es[1..]);
      assert |es| > 1 ==> es[1..][|es| - 2] == es[|es| - 1];
    }
  }

  lemma BornInWindow()
    ensures Window(BORN) && Ahead(BORN)
  {
  }

  // ----- a life that overruns its window -----

  /** `n` feeds of 496 tokens each; eight of them just do not slide the window. */
  function Feeds(n: nat): (r: seq<Event>)
  {
    seq(n, _ => Fed(seq(496, _ => 0), Decode(0, []), Decode(0, [])))
  }

  lemma {:induction false} FeedsFill(l: Life, n: nat)
    requires Synced(l) && |l.context| + 496 * n <= LIMIT
    ensures Possible(Feeds(n)) && Synced(Run(l, Feeds(n))) && |Run(l, Feeds(n)).context| == |l.context| + 496 * n
    decreases n
  {
    if n > 0 {
      assert Feeds(n)[1..] == Feeds(n - 1);
      FeedsFill(Live(l, Feeds(n)[0]), n - 1);
    }
  }

  lemma {:induction false} SpokenAll(draws: seq<Draw>)
    requires AllDecoded(draws) && forall i :: 0 <= i < |draws| ==> !Stops(draws[i])
    ensures Spoken(draws) == draws
    decreases |draws|
  {
    if draws != [] {
      SpokenAll(draws[1..]);
      assert draws == [draws[0]] + draws[1..];
    }
  }

  /** After eight such feeds a thought of 127 tokens keeps agreement, and one of 128 loses it. */
  lemma {:induction false} LongThoughtLosesAgreement(draws: seq<Draw>)
    requires AllDecoded(draws) && forall i :: 0 <= i < |draws| ==> !Stops(draws[i])
    ensures Possible(Feeds(8)) && var l := Run(BORN, Feeds(8)); Synced(Think(l, draws)) <==> |draws| <= 127
  {
    var l := Run(BORN, Feeds(8));
    FeedsFill(BORN, 8);
    SpokenAll(draws);
    ThinkSyncedIff(l, draws);
  }

  /** Everything that comes of saying `left`. */
  ghost function Said(l: Life, out: string, left: seq<Draw>, size: nat): (r: (Life, string))
  {
    (SayAll(l, left), Text(out, left, size))
  }

  lemma SaidNext(l: Life, out: string, left: seq<Draw>, d: Draw, size: nat)
    requires left != [] && left[0] == d && d.piece.Some?
    ensures Said(l, out, left, size) == Said(Say(l, d), Put(out, d.piece.value, size), left[1..], size)
  {
  }

  /** What is left to be said before a round and after it. */
  lemma NextRound(draws: seq<Draw>, k: nat, d: Draw, left: seq<Draw>)
    requires k < |draws| && d == draws[k] && left == Spoken(draws[k..])
    ensures if Stops(d) then left == []
            else left != [] && left[0] == d && left[1..] == if d.decode.rc != 0 then [] else Spoken(draws[k + 1..])
  {
    assert draws[k..][0] == d && draws[k..][1..] == draws[k + 1..];
  }

  // ----- the runtime itself -----

  class Runtime {
    const tokens: array<Token>
    var len: nat
    var ready: bool
    var attached: bool // there is a model context
    /** What the window, the model's cache and the whole record hold. */
    ghost var life: Life

    ghost predicate Valid()
      reads this, tokens
    {
      && tokens.Length == CTX_SIZE && len <= CTX_SIZE
      && life.context == tokens[..len] && Window(life)
    }

    constructor ()
      ensures Valid() && fresh(tokens) && life == BORN && !ready && !attached
    {
      tokens := new Token[CTX_SIZE](_ => 0);
      len := 0;
      ready, attached := false, false;
      life := BORN;
      BornInWindow();
    }

    /** Opens the model and a context for it, each of which may fail.  A second start that gets no context loses the one
        that was there, and stays ready. */
    method Start(loaded: bool, granted: bool) returns (rc: int)
      requires Valid()
      modifies `ready, `attached, `life
      ensures Valid() && rc == (if !loaded then -1 else if !granted then -2 else 0)
      ensures ready == (rc == 0 || old(ready)) && attached == if rc == -1 then old(attached) else rc == 0
      ensures life == if rc == -1 then old(life) else Restart(old(life))
    {
      if !loaded {
        return -1;
      }
      RestartKeepsWindow(life);
      life := Restart(life);
      attached := granted;
      if !granted {
        return -2;
      }
      ready := true;
      rc := 0;
    }

    method Shutdown()
      requires Valid()
      modifies `ready, `attached, `life
      ensures Valid() && !ready && !attached && life == Restart(old(life))
    {
      RestartKeepsWindow(life);
      ready, attached, life := false, false, Restart(life);
    }

    /** Moves the latest tokens to the front, and evaluates them again. */
    method KeepLatest(again: Decode)
      requires Valid() && len >= KEEP
      modifies `len, `life, tokens
      ensures Valid() && len == KEEP && life == Compress(old(life), again)
    {
      CompressKeepsWindow(life, again);
      var drop := len - KEEP;
      forall i | 0 <= i < KEEP {
        tokens[i] := tokens[i + drop];
      }
      len := KEEP;
      assert tokens[..len] == old(tokens[..len])[drop..];
      life := Compress(life, again);
    }

    /** Adds tokens, and evaluates just those. */
    method AppendTokens(added: seq<Token>, d: Decode)
      requires Valid() && len + |added| <= ROOM
      modifies `len, `life, tokens
      ensures Valid() && life == Append(old(life), added, d)
    {
      AppendKeepsWindow(life, added, d);
      forall i | 0 <= i < |added| {
        tokens[len + i] := added[i];
      }
      len := len + |added|;
      assert tokens[..len] == old(tokens[..len]) + added;
      life := Append(life, added, d);
    }

    /** Takes in the tokens of a text, if there is one and it could be tokenized. */
    method FeedText(text: Option<seq<Token>>, again: Decode, decode: Decode) returns (rc: int)
      requires Valid() && (ready ==> attached) && (text.Some? ==> |text.value| <= MAX_NEW)
      modifies `len, `life, tokens
      ensures Valid()
      ensures if !ready || text.None? then rc == -1 && life == old(life)
              else rc == decode.rc && life == Feed(old(life), text.value, again, decode)
    {
      if !ready || text.None? {
        return -1;
      }
      FeedIs(life, text.value, again, decode);
      if len + |text.value| > LIMIT {
        KeepLatest(again);
      }
      AppendTokens(text.value, decode);
      rc := decode.rc;
    }

    /** One generated token goes into the window, if there is room, and to the model. */
    method SayToken(d: Draw)
      requires Valid()
      modifies `len, `life, tokens
      ensures Valid() && life == Say(old(life), d)
    {
      SayKeepsWindow(life, d);
      if len < CTX_SIZE - 1 {
        tokens[len] := d.token;
        len := len + 1;
        assert tokens[..len] == old(tokens[..len]) + [d.token];
      }
      life := Say(life, d);
    }

    /** Copies a piece into the buffer, if it fits. */
    static method PutPiece(buf: array<char>, pos: nat, piece: string, size: nat) returns (next: nat)
      requires pos < size <= buf.Length
      modifies buf
      ensures next < size && buf[..next] == Put(old(buf[..pos]), piece, size)
    {
      next := pos;
      if pos + |piece| < size - 1 {
        forall i | 0 <= i < |piece| {
          buf[pos + i] := piece[i];
        }
        next := pos + |piece|;
      }
    }

    /** One generated token goes to the text, the window and the model. */
    method SpeakToken(buf: array<char>, pos: nat, d: Draw, size: nat) returns (next: nat)
      requires Valid() && d.piece.Some? && pos < size <= buf.Length && buf as object != tokens as object
      modifies `len, `life, tokens, buf
      ensures Valid() && life == Say(old(life), d)
      ensures next < size && buf[..next] == Put(old(buf[..pos]), d.piece.value, size)
    {
      next := PutPiece(buf, pos, d.piece.value, size);
      SayToken(d);
    }

    /** Generates up to `max` tokens; `draws` is what the model answers, round by round. */
    method ThinkOn(buf: array<char>, size: nat, max: int, draws: seq<Draw>) returns (r: int)
      requires Valid() && (ready ==> attached) && 0 < size <= buf.Length && |draws| == if max < 0 then 0 else max
      requires buf as object != tokens as object
      modifies `len, `life, tokens, buf
      ensures Valid()
      ensures if !ready || old(len) == 0 then r == -1 && life == old(life) && buf[..] == old(buf[..])
              else 0 <= r < size && life == Think(old(life), draws)
                   && buf[..r] == Text("", Spoken(draws), size) && buf[r] == '\0'
    {
      if !ready || len == 0 {
        return -1;
      }
      ghost var left := Spoken(draws);
      ghost var want := Said(life, "", left, size);
      var pos: nat, generated: nat := 0, 0;
      ghost var out: string := [];
      assert draws[0..] == draws;
      while generated < max
        invariant Valid() && pos < size && generated <= |draws|
        invariant left == Spoken(draws[generated..])
        invariant out == buf[..pos] && want == Said(life, out, left, size)
        decreases max - generated
      {
        var d := draws[generated];
        NextRound(draws, generated, d, left);
        if d.ends || d.piece.None? {
          break;
        }
        SaidNext(life, out, left, d, size);
        pos := SpeakToken(buf, pos, d, size);
        out, left := buf[..pos], left[1..];
        if d.decode.rc != 0 {
          break;
        }
        generated := generated + 1;
      }
      assert want == (life, out);
      buf[pos] := '\0';
      r := pos;
    }
  }
}
