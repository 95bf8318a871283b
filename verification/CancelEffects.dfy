/**
 What ares_cancel does to the queries of a channel, on values. The callbacks it makes are user code: they
 may send further queries, and may cancel the channel again from inside.
 */
module CancelEffects {

  type QueryId = nat

  /** A query, with what its callback will do once it is called. */
  datatype Query = Query(id: QueryId, script: Script)

  datatype Script = Done | Send(query: Query, more: Script) | CancelAll(more: Script)

  // ---- what cancelling does ----------------------------------------------------------------------

  function QuerySize(q: Query): nat { 1 + ScriptSize(q.script) }

  function ScriptSize(script: Script): nat {
    match script
    case Done => 0
    case Send(q, more) => 1 + QuerySize(q) + ScriptSize(more)
    case CancelAll(more) => 1 + ScriptSize(more)
  }

  function Total(qs: seq<Query>): nat { if qs == [] then 0 else QuerySize(qs[0]) + Total(qs[1..]) }

  lemma {:induction false} TotalAppend(qs: seq<Query>, q: Query)
    ensures Total(qs + [q]) == Total(qs) + QuerySize(q)
  {
    if qs == [] {
      assert qs + [q] == [q] && [q][1..] == [];
    } else {
      assert (qs + [q])[1..] == qs[1..] + [q];
      TotalAppend(qs[1..], q);
    }
  }

  /** Queries called back, queries left on the channel's list, and whether a call found that list empty at its end. */
  datatype Effect = Effect(calls: seq<Query>, pending: seq<Query>, emptied: bool)

  function Then(a: Effect, b: Effect): Effect { Effect(a.calls + b.calls, b.pending, a.emptied || b.emptied) }

  /** A callback at work, with `pending` on the channel's list. */
  function Run(script: Script, pending: seq<Query>): (e: Effect)
    ensures Total(e.pending) <= ScriptSize(script) + Total(pending)
    decreases ScriptSize(script) + Total(pending), 0
  {
    match script
    case Done => Effect([], pending, false)
    case Send(q, more) =>
      TotalAppend(pending, q);
      Run(more, pending + [q])
    case CancelAll(more) =>
      var c := CancelPending(pending);
      Then(c, Run(more, c.pending))
  }

  /** ares_cancel with `pending` on the channel's list. */
  function CancelPending(pending: seq<Query>): (e: Effect)
    ensures Total(e.pending) <= Total(pending)
    decreases Total(pending), 2
  {
    var e := CancelFrom(pending, []);
    Effect(e.calls, e.pending, e.emptied || e.pending == [])
  }

  /** Its loop, with `rest` still on the copied head and `pending` on the channel's list. */
  function CancelFrom(rest: seq<Query>, pending: seq<Query>): (e: Effect)
    ensures Total(e.pending) <= Total(rest) + Total(pending)
    decreases Total(rest) + Total(pending), 1
  {
    if rest == [] then Effect([], pending, false)
    else
      var c := Called(rest[0], pending);
      Then(c, CancelFrom(rest[1..], c.pending))
  }

  /** One callback with the cancelled status. */
  function Called(q: Query, pending: seq<Query>): (e: Effect)
    ensures Total(e.pending) < QuerySize(q) + Total(pending)
    decreases QuerySize(q) + Total(pending), 0
  {
    var c := Run(q.script, pending);
    Effect([q] + c.calls, c.pending, c.emptied)
  }

  // ---- every query exactly once ----------------------------------------------------------------------

  /** The queries a script sends. */
  function Sends(script: Script): seq<Query> {
    match script
    case Done => []
    case Send(q, more) => [q] + Sends(more)
    case CancelAll(more) => Sends(more)
  }

  /** The queries sent by the callbacks of `calls`. */
  function SentBy(calls: seq<Query>): seq<Query> {
    if calls == [] then [] else Sends(calls[0].script) + SentBy(calls[1..])
  }

  lemma {:induction false} SentByAppend(a: seq<Query>, b: seq<Query>)
    ensures SentBy(a + b) == SentBy(a) + SentBy(b)
  {
    if a == [] {
      assert a + b == b;
    } else {
      assert (a + b)[1..] == a[1..] + b;
      SentByAppend(a[1..], b);
    }
  }

  /** All there was and all that was sent has been called back or is pending, each query once. */
  ghost predicate Conserves(before: multiset<Query>, e: Effect) {
    multiset(e.calls) + multiset(e.pending) == before + multiset(SentBy(e.calls))
  }

  lemma ThenConserves(before: multiset<Query>, extra: multiset<Query>, a: Effect, b: Effect)
    requires Conserves(before, a) && Conserves(multiset(a.pending) + extra, b)
    ensures Conserves(before + extra, Then(a, b))
  {
    SentByAppend(a.calls, b.calls);
    calc {
      multiset(a.calls + b.calls) + multiset(b.pending);
      multiset(a.calls) + (multiset(b.calls) + multiset(b.pending));
      multiset(a.calls) + multiset(a.pending) + extra + multiset(SentBy(b.calls));
      before + extra + multiset(SentBy(a.calls) + SentBy(b.calls));
    }
  }

  /** A callback at work loses no query, calls none back twice, and leaves none pending that was called back. */
  lemma {:induction false} RunConserves(script: Script, pending: seq<Query>)
    ensures Conserves(multiset(pending) + multiset(Sends(script)), Run(script, pending))
    decreases ScriptSize(script) + Total(pending), 0
  {
    match script
    case Done =>
    case Send(q, more) =>
      TotalAppend(pending, q);
      RunConserves(more, pending + [q]);
      assert multiset(pending + [q]) + multiset(Sends(more)) == multiset(pending) + multiset([q] + Sends(more));
    case CancelAll(more) =>
      var c := CancelPending(pending);
      CancelConserves(pending);
      RunConserves(more, c.pending);
      ThenConserves(multiset(pending), multiset(Sends(more)), c, Run(more, c.pending));
  }

  /** Neither does ares_cancel. */
  lemma {:induction false} CancelConserves(pending: seq<Query>)
    ensures Conserves(multiset(pending), CancelPending(pending))
    decreases Total(pending), 2
  {
    CancelFromConserves(pending, []);
    assert multiset(pending) + multiset([]) == multiset(pending);
  }

  lemma {:induction false} CancelFromConserves(rest: seq<Query>, pending: seq<Query>)
    ensures Conserves(multiset(rest) + multiset(pending), CancelFrom(rest, pending))
    decreases Total(rest) + Total(pending), 1
  {
    if rest != [] {
      var c := Called(rest[0], pending);
      CalledConserves(rest[0], pending);
      CancelFromConserves(rest[1..], c.pending);
      var more := CancelFrom(rest[1..], c.pending);
      assert multiset(c.pending) + multiset(rest[1..]) == multiset(rest[1..]) + multiset(c.pending);
      ThenConserves(multiset{rest[0]} + multiset(pending), multiset(rest[1..]), c, more);
      assert rest == [rest[0]] + rest[1..];
      assert multiset{rest[0]} + multiset(pending) + multiset(rest[1..]) == multiset(rest) + multiset(pending);
    }
  }

  lemma {:induction false} CalledConserves(q: Query, pending: seq<Query>)
    ensures Conserves(multiset{q} + multiset(pending), Called(q, pending))
    decreases QuerySize(q) + Total(pending), 0
  {
    RunConserves(q.script, pending);
    var c := Run(q.script, pending);
    assert ([q] + c.calls)[1..] == c.calls;
    assert multiset([q] + c.calls) + multiset(c.pending)
        == multiset{q} + (multiset(pending) + multiset(Sends(q.script)) + multiset(SentBy(c.calls)));
  }

  // ---- in list order -----------------------------------------------------------------------------------

  /** The elements of a occur in b in this order. */
  ghost predicate InOrder(a: seq<Query>, b: seq<Query>) {
    a == [] || (b != [] && if a[0] == b[0] then InOrder(a[1..], b[1..]) else InOrder(a, b[1..]))
  }

  lemma {:induction false} InOrderTail(a: seq<Query>, b: seq<Query>)
    requires a != [] && InOrder(a, b)
    ensures InOrder(a[1..], b)
    decreases |b|
  {
    if a[0] != b[0] {
      InOrderTail(a, b[1..]);
    }
    if |a| > 1 && a[1] == b[0] { InOrderTail(a[1..], b[1..]); }
  }

  lemma {:induction false} InOrderLater(a: seq<Query>, front: seq<Query>, b: seq<Query>)
    requires InOrder(a, b)
    ensures InOrder(a, front + b)
    decreases |front|
  {
    if front == [] {
      assert front + b == b;
    } else {
      assert (front + b)[1..] == front[1..] + b;
      InOrderLater(a, front[1..], b);
      if a != [] { InOrderTail(a, front[1..] + b); }
    }
  }

  /** Whatever the callbacks do, the queries present on entry are called back in list order. */
  lemma {:induction false} CalledInOrder(rest: seq<Query>, pending: seq<Query>)
    ensures InOrder(rest, CancelFrom(rest, pending).calls)
    decreases |rest|
  {
    if rest != [] {
      var c := Run(rest[0].script, pending);
      var e := CancelFrom(rest[1..], c.pending);
      CalledInOrder(rest[1..], c.pending);
      InOrderLater(rest[1..], c.calls, e.calls);
      assert ([rest[0]] + c.calls + e.calls)[1..] == c.calls + e.calls;
    }
  }

  // ---- when only the queries present on entry are called back -------------------------------------------

  /** Whether a callback, begun with (`sent`) or without queries on the channel's list, cancels while some are there. */
  predicate CancelsSent(script: Script, sent: bool) {
    match script
    case Done => false
    case Send(_, more) => CancelsSent(more, true)
    case CancelAll(more) => sent || CancelsSent(more, false)
  }

  /** Whether one of the callbacks does, each begun with what those before it have sent. */
  predicate AnyCancelsSent(rest: seq<Query>, sent: bool) {
    rest != [] && (CancelsSent(rest[0].script, sent) || AnyCancelsSent(rest[1..], sent || Sends(rest[0].script) != []))
  }

  predicate Cancels(script: Script) {
    match script
    case Done => false
    case Send(_, more) => Cancels(more)
    case CancelAll(_) => true
  }

  predicate AnyCancels(rest: seq<Query>) { rest != [] && (Cancels(rest[0].script) || AnyCancels(rest[1..])) }

  /** Every query of the list is called back, so a list that is not empty brings calls. */
  lemma {:induction false} CallsAtLeast(rest: seq<Query>, pending: seq<Query>)
    ensures |CancelFrom(rest, pending).calls| >= |rest|
    decreases |rest|
  {
    if rest != [] { CallsAtLeast(rest[1..], Called(rest[0], pending).pending); }
  }

  /** A callback has nothing called back exactly when it does not cancel what has been sent; then its sends pile up. */
  lemma {:induction false} RunCallsNone(script: Script, pending: seq<Query>)
    ensures Run(script, pending).calls == [] <==> !CancelsSent(script, pending != [])
    ensures !CancelsSent(script, pending != []) ==>
      Run(script, pending) == Effect([], pending + Sends(script), Cancels(script))
  {
    match script
    case Done =>
      assert pending + [] == pending;
    case Send(q, more) =>
      RunCallsNone(more, pending + [q]);
      assert pending + [q] + Sends(more) == pending + ([q] + Sends(more));
    case CancelAll(more) =>
      CallsAtLeast(pending, []);
      if pending == [] {
        assert CancelPending(pending) == Effect([], [], true);
        RunCallsNone(more, []);
        assert [] + Sends(more) == Sends(more);
      }
  }

  /**
   Exactly the queries present on entry are called back, once and in list order, if and only if no callback
   cancels while a query sent meanwhile is pending. Then what was pending and what was sent remains.
   */
  lemma {:induction false} CallsEntryOnlyIff(rest: seq<Query>, pending: seq<Query>)
    ensures CancelFrom(rest, pending).calls == rest <==> !AnyCancelsSent(rest, pending != [])
    ensures !AnyCancelsSent(rest, pending != []) ==>
      CancelFrom(rest, pending) == Effect(rest, pending + SentBy(rest), AnyCancels(rest))
    decreases |rest|
  {
    if rest == [] {
      assert pending + [] == pending;
    } else {
      var q, more, sent := rest[0], rest[1..], Sends(rest[0].script);
      var c := Called(q, pending);
      assert rest == [q] + more;
      RunCallsNone(q.script, pending);
      CallsAtLeast(more, c.pending);
      if !CancelsSent(q.script, pending != []) {
        assert c == Effect([q], pending + sent, Cancels(q.script));
        CallsEntryOnlyIff(more, pending + sent);
        assert CancelFrom(rest, pending).calls[1..] == CancelFrom(more, c.pending).calls;
        assert pending + sent + SentBy(more) == pending + (sent + SentBy(more));
      } else {
        assert |CancelFrom(rest, pending).calls| > |rest|;
      }
    }
  }

  /** The same for a call of ares_cancel. */
  lemma CancelsEntryOnlyIff(pending: seq<Query>)
    ensures CancelPending(pending).calls == pending <==> !AnyCancelsSent(pending, false)
    ensures !AnyCancelsSent(pending, false) ==>
      && CancelPending(pending).pending == SentBy(pending)
      && (CancelPending(pending).emptied <==> AnyCancels(pending) || SentBy(pending) == [])
  {
    CallsEntryOnlyIff(pending, []);
    assert [] + SentBy(pending) == SentBy(pending);
  }

  predicate OnlySends(script: Script) { !Cancels(script) }

  lemma {:induction false} OnlySendsCancelsNone(script: Script, sent: bool)
    requires OnlySends(script)
    ensures !CancelsSent(script, sent)
  {
    match script
    case Done =>
    case Send(_, more) => OnlySendsCancelsNone(more, true);
  }

  lemma {:induction false} NoneCancels(rest: seq<Query>, sent: bool)
    requires forall i :: 0 <= i < |rest| ==> OnlySends(rest[i].script)
    ensures !AnyCancelsSent(rest, sent) && !AnyCancels(rest)
    decreases |rest|
  {
    if rest != [] {
      OnlySendsCancelsNone(rest[0].script, sent);
      NoneCancels(rest[1..], sent || Sends(rest[0].script) != []);
    }
  }

  lemma {:induction false} NoneCancelsSent(rest: seq<Query>, sent: bool)
    requires !AnyCancels(rest)
    ensures !AnyCancelsSent(rest, sent)
    decreases |rest|
  {
    if rest != [] {
      OnlySendsCancelsNone(rest[0].script, sent);
      NoneCancelsSent(rest[1..], sent || Sends(rest[0].script) != []);
    }
  }

  /** In particular when no callback cancels at all. */
  lemma CancelOnlySends(rest: seq<Query>, pending: seq<Query>)
    requires forall i :: 0 <= i < |rest| ==> OnlySends(rest[i].script)
    ensures CancelFrom(rest, pending) == Effect(rest, pending + SentBy(rest), false)
  {
    NoneCancels(rest, pending != []);
    CallsEntryOnlyIff(rest, pending);
  }

  // ---- when a call finds the list empty at its end --------------------------------------------------------

  /** What is pending at the end of each call of ares_cancel a callback makes, and of the calls made inside these. */
  function RunEnds(script: Script, pending: seq<Query>): seq<seq<Query>>
    decreases ScriptSize(script) + Total(pending), 0
  {
    match script
    case Done => []
    case Send(q, more) =>
      TotalAppend(pending, q);
      RunEnds(more, pending + [q])
    case CancelAll(more) => CancelEnds(pending) + RunEnds(more, CancelPending(pending).pending)
  }

  /** The same for a call itself: those made inside it, then its own end. */
  function CancelEnds(pending: seq<Query>): seq<seq<Query>>
    decreases Total(pending), 2
  {
    FromEnds(pending, []) + [CancelPending(pending).pending]
  }

  function FromEnds(rest: seq<Query>, pending: seq<Query>): seq<seq<Query>>
    decreases Total(rest) + Total(pending), 1
  {
    if rest == [] then []
    else RunEnds(rest[0].script, pending) + FromEnds(rest[1..], Called(rest[0], pending).pending)
  }

  /** In general: the flag is up exactly when some call, nested ones included, leaves nothing pending. */
  lemma {:induction false} EmptiedExactly(pending: seq<Query>)
    ensures CancelPending(pending).emptied <==> [] in CancelEnds(pending)
    decreases Total(pending), 2
  {
    FromEmptiedExactly(pending, []);
  }

  lemma {:induction false} FromEmptiedExactly(rest: seq<Query>, pending: seq<Query>)
    ensures CancelFrom(rest, pending).emptied <==> [] in FromEnds(rest, pending)
    decreases Total(rest) + Total(pending), 1
  {
    if rest != [] {
      RunEmptiedExactly(rest[0].script, pending);
      FromEmptiedExactly(rest[1..], Called(rest[0], pending).pending);
    }
  }

  lemma {:induction false} RunEmptiedExactly(script: Script, pending: seq<Query>)
    ensures Run(script, pending).emptied <==> [] in RunEnds(script, pending)
    decreases ScriptSize(script) + Total(pending), 0
  {
    match script
    case Done =>
    case Send(q, more) =>
      TotalAppend(pending, q);
      RunEmptiedExactly(more, pending + [q]);
    case CancelAll(more) =>
      EmptiedExactly(pending);
      RunEmptiedExactly(more, CancelPending(pending).pending);
  }

  /** A query sent by the last query called back, even in a nested call, is still there: no call ends empty. */
  lemma NeverEmptiedExample(a: QueryId, b: QueryId, c: QueryId)
    ensures var last := Query(c, Done);
      var sent := Query(b, Send(last, Done));
      var first := Query(a, Send(sent, CancelAll(Done)));
      CancelPending([first]) == Effect([first, sent], [last], false)
  {
    var last := Query(c, Done);
    var sent := Query(b, Send(last, Done));
    var first := Query(a, Send(sent, CancelAll(Done)));
    assert !Cancels(Done) && Sends(Done) == [];
    assert !Cancels(sent.script) && Sends(sent.script) == [last];
    CancelOnlySends([sent], []);
    assert SentBy([sent]) == Sends(sent.script) + SentBy([]) by { assert [sent][1..] == []; }
    assert CancelPending([sent]) == Effect([sent], [last], false);
    assert Run(CancelAll(Done), [sent]) == Effect([sent], [last], false);
    assert [] + [sent] == [sent];
    assert Called(first, []) == Effect([first, sent], [last], false);
    assert [first][1..] == [];
  }

  /** A callback that cancels again calls back what has been sent so far, but nothing of the list being cancelled. */
  lemma NestedCancelExample(a: QueryId, b: QueryId, c: QueryId)
    ensures var sent, second := Query(c, Done), Query(b, Done);
      var first := Query(a, Send(sent, CancelAll(Done)));
      CancelPending([first, second]) == Effect([first, sent, second], [], true)
  {
    var sent, second := Query(c, Done), Query(b, Done);
    var first := Query(a, Send(sent, CancelAll(Done)));
    CancelOnlySends([sent], []);
    assert SentBy([sent]) == [] by { assert [sent][1..] == []; }
    assert CancelPending([sent]) == Effect([sent], [], true);
    assert Run(CancelAll(Done), [sent]) == Effect([sent], [], true);
    assert [] + [sent] == [sent];
    assert Called(first, []) == Effect([first, sent], [], true);
    CancelOnlySends([second], []);
    assert SentBy([second]) == [] by { assert [second][1..] == []; }
    assert [first, second][1..] == [second];
  }
}
