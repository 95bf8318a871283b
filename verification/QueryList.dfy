/** ares_llist.c and ares_cancel.c: circular lists with a dummy head, and cancelling every query on one. */
module QueryList {

  import opened CancelEffects

  datatype Status = Cancelled

  // ---- circular lists ------------------------------------------------------------------------------

  /** struct list_node, embedded in each query and used bare as a list head, whose data means nothing. */
  class ListNode {
    var prev: ListNode?
    var next: ListNode?
    const data: Query

    constructor (d: Query)
      ensures prev == null && next == null && data == d
    {
      prev, next, data := null, null, d;
    }
  }

  /** The node at position i of the list on `head`; the head stands before the first and after the last. */
  ghost function At(head: ListNode, nodes: seq<ListNode>, i: int): ListNode {
    if 0 <= i < |nodes| then nodes[i] else head
  }

  /** `nodes` hang on `head` in this order: all different, each link matched by its opposite. */
  ghost predicate Ring(head: ListNode, nodes: seq<ListNode>)
    reads head, nodes
  {
    && (forall i :: 0 <= i < |nodes| ==> nodes[i] != head)
    && (forall i, j :: 0 <= i < j < |nodes| ==> nodes[i] != nodes[j])
    && head.next == At(head, nodes, 0) && head.prev == At(head, nodes, |nodes| - 1)
    && (forall i {:trigger nodes[i].next} :: 0 <= i < |nodes| ==> nodes[i].next == At(head, nodes, i + 1))
    && (forall i {:trigger nodes[i].prev} :: 0 <= i < |nodes| ==> nodes[i].prev == At(head, nodes, i - 1))
  }

  /** In no list. */
  ghost predicate Unlinked(nodes: set<ListNode>)
    reads nodes
  {
    forall n :: n in nodes ==> n.next == null && n.prev == null
  }

  ghost function Elements(nodes: seq<ListNode>): set<ListNode> { set n | n in nodes }

  ghost function Data(nodes: seq<ListNode>): (r: seq<Query>)
    ensures |r| == |nodes| && forall i :: 0 <= i < |nodes| ==> r[i] == nodes[i].data
  {
    seq(|nodes|, i requires 0 <= i < |nodes| => nodes[i].data)
  }

  /** ares__init_list_head */
  method InitHead(head: ListNode)
    modifies head`prev, head`next
    ensures Ring(head, [])
  {
    head.prev := head;
    head.next := head;
  }

  /** ares__is_list_empty */
  method IsEmpty(head: ListNode, ghost nodes: seq<ListNode>) returns (empty: bool)
    requires Ring(head, nodes)
    ensures empty <==> nodes == []
  {
    assert nodes != [] ==> nodes[0] != head;
    empty := head.next == head && head.prev == head;
  }

  /** ares__insert_in_list(node, head): the node goes in just before the head, at the end of the list. */
  method Append(node: ListNode, head: ListNode, ghost nodes: seq<ListNode>)
    requires Ring(head, nodes) && node != head && (forall i :: 0 <= i < |nodes| ==> nodes[i] != node)
    modifies node`prev, node`next, head`prev, head`next, nodes`prev, nodes`next
    ensures Ring(head, nodes + [node])
    ensures Data(nodes + [node]) == Data(nodes) + [node.data]
  {
    node.next := head;
    node.prev := head.prev;
    head.prev.next := node;
    head.prev := node;
  }

  ghost function Without(nodes: seq<ListNode>, k: nat): seq<ListNode>
    requires k < |nodes|
  {
    nodes[..k] + nodes[k + 1..]
  }

  /** The two neighbours of a node are linked to it, and neither is the node. */
  lemma Neighbours(head: ListNode, nodes: seq<ListNode>, k: nat)
    requires Ring(head, nodes) && k < |nodes|
    ensures nodes[k].next == At(head, nodes, k + 1) != nodes[k] && nodes[k].prev == At(head, nodes, k - 1) != nodes[k]
  {
  }

  /** Positions left of the gap keep their number, those right of it lose one. */
  lemma AtWithout(head: ListNode, nodes: seq<ListNode>, k: nat)
    requires k < |nodes|
    ensures |Without(nodes, k)| == |nodes| - 1
    ensures forall i {:trigger At(head, Without(nodes, k), i)} :: -1 <= i < |nodes| ==>
      At(head, Without(nodes, k), i) == At(head, nodes, if i < k then i else i + 1)
  {
  }

  /** The links of a ring whose k-th node has been bypassed in both directions. */
  ghost predicate Bypassed(head: ListNode, nodes: seq<ListNode>, k: nat)
    requires k < |nodes|
    reads head, nodes
  {
    && (forall i :: 0 <= i < |nodes| ==> nodes[i] != head)
    && (forall i, j :: 0 <= i < j < |nodes| ==> nodes[i] != nodes[j])
    && head.next == At(head, nodes, if k == 0 then 1 else 0)
    && head.prev == At(head, nodes, if k == |nodes| - 1 then k - 1 else |nodes| - 1)
    && (forall i {:trigger nodes[i].next} :: 0 <= i < |nodes| && i != k ==>
          nodes[i].next == At(head, nodes, if i == k - 1 then i + 2 else i + 1))
    && (forall i {:trigger nodes[i].prev} :: 0 <= i < |nodes| && i != k ==>
          nodes[i].prev == At(head, nodes, if i == k + 1 then i - 2 else i - 1))
  }

  /** They make a ring of the other nodes. */
  lemma BypassedIsRing(head: ListNode, nodes: seq<ListNode>, k: nat)
    requires k < |nodes| && Bypassed(head, nodes, k)
    ensures Ring(head, Without(nodes, k))
  {
    var w := Without(nodes, k);
    AtWithout(head, nodes, k);
    forall i {:trigger w[i].next} | 0 <= i < |w| ensures w[i].next == At(head, w, i + 1) {
      var j := if i < k then i else i + 1;
      assert w[i] == nodes[j];
    }
    forall i {:trigger w[i].prev} | 0 <= i < |w| ensures w[i].prev == At(head, w, i - 1) {
      var j := if i < k then i else i + 1;
      assert w[i] == nodes[j];
    }
    assert head.next == At(head, w, 0) && head.prev == At(head, w, |w| - 1);
  }

  /** ares__remove_from_list on the k-th node of a list, or (k past the end) on a node of no list. */
  method Remove(node: ListNode, ghost head: ListNode, ghost nodes: seq<ListNode>, ghost k: nat)
    requires Ring(head, nodes) && if k < |nodes| then nodes[k] == node else node.next == null && node.prev == null
    modifies head`prev, head`next, nodes`prev, nodes`next
    ensures k < |nodes| ==> Ring(head, Without(nodes, k))
    ensures k >= |nodes| ==> Ring(head, nodes)
    ensures node.next == null && node.prev == null
  {
    if node.next != null {
      Neighbours(head, nodes, k);
      node.prev.next := node.next;
      node.next.prev := node.prev;
      node.prev := null;
      node.next := null;
      BypassedIsRing(head, nodes, k);
    }
  }

  /** The swap at the start of ares_cancel: the whole list moves over to `copy`, `head` becomes empty. */
  method TakeOver(head: ListNode, copy: ListNode, ghost nodes: seq<ListNode>)
    requires Ring(head, nodes) && nodes != [] && copy != head && (forall i :: 0 <= i < |nodes| ==> nodes[i] != copy)
    modifies head`prev, head`next, copy`prev, copy`next, nodes`prev, nodes`next
    ensures Ring(copy, nodes) && Ring(head, [])
  {
    copy.prev := head.prev;
    copy.next := head.next;
    copy.prev.next := copy;
    copy.next.prev := copy;
    head.prev := head;
    head.next := head;
  }

  // ---- ares_cancel on a channel ----------------------------------------------------------------------

  /** ares_channeldata, as far as cancelling goes. `queries` follows the list; `calls` records callbacks. */
  class Channel {
    const head: ListNode
    const stayOpen: bool
    ghost var queries: seq<ListNode>
    ghost var repr: set<ListNode>
    var calls: seq<(Query, Status)>
    var socketsClosed: bool

    ghost predicate Valid()
      reads this, repr
    {
      && head in repr && (forall i :: 0 <= i < |queries| ==> queries[i] in repr)
      && Ring(head, queries)
    }

    ghost function Pending(): seq<Query>
      requires Valid()
      reads this, repr
    {
      Data(queries)
    }

    constructor (stayOpen: bool)
      ensures Valid() && fresh(repr) && queries == [] && calls == [] && !socketsClosed && this.stayOpen == stayOpen
    {
      var h := new ListNode(Query(0, Done));
      head := h;
      this.stayOpen := stayOpen;
      queries, calls, socketsClosed, repr := [], [], false, {h};
      new;
      InitHead(head);
    }

    /** A query sent on the channel joins at the end (ares_send.c:126). */
    method Send(query: Query)
      requires Valid()
      modifies this`queries, this`repr, repr`prev, repr`next
      ensures Valid() && fresh(repr - old(repr))
      ensures Pending() == old(Pending()) + [query]
    {
      var node := new ListNode(query);
      Append(node, head, queries);
      queries := queries + [node];
      repr := repr + {node};
    }
  }

  /** The callbacks recorded for these queries: one each, all with the cancelled status. */
  function Told(calls: seq<Query>): (r: seq<(Query, Status)>)
    ensures |r| == |calls| && forall i :: 0 <= i < |r| ==> r[i] == (calls[i], Cancelled)
  {
    seq(|calls|, i requires 0 <= i < |calls| => (calls[i], Cancelled))
  }

  /** The channel as an effect leaves it. */
  ghost predicate Shows(channel: Channel, calls: seq<(Query, Status)>, closed: bool, e: Effect)
    requires channel.Valid()
    reads channel, channel.repr
  {
    && channel.calls == calls + Told(e.calls)
    && channel.Pending() == e.pending
    && channel.socketsClosed == (closed || (!channel.stayOpen && e.emptied))
  }

  lemma ShowsThen(channel: Channel, calls: seq<(Query, Status)>, closed: bool, a: Effect, b: Effect)
    requires channel.Valid() && Shows(channel, calls + Told(a.calls), closed || (!channel.stayOpen && a.emptied), b)
    ensures Shows(channel, calls, closed, Then(a, b))
  {
    assert Told(a.calls + b.calls) == Told(a.calls) + Told(b.calls);
  }

  /** A callback at work. */
  method Perform(channel: Channel, script: Script)
    requires channel.Valid()
    modifies channel, channel.repr`prev, channel.repr`next
    ensures channel.Valid() && fresh(channel.repr - old(channel.repr))
    ensures Shows(channel, old(channel.calls), old(channel.socketsClosed), Run(script, old(channel.Pending())))
    decreases ScriptSize(script) + Total(channel.Pending()), 0
  {
    match script
    case Done =>
    case Send(q, more) =>
      TotalAppend(channel.Pending(), q);
      channel.Send(q);
      Perform(channel, more);
    case CancelAll(more) =>
      ghost var c := CancelPending(channel.Pending());
      Cancel(channel);
      Perform(channel, more);
      ShowsThen(channel, old(channel.calls), old(channel.socketsClosed), c, Run(more, c.pending));
  }

  /**
   ares_cancel. Each query present on entry is called back; its callback may send queries and may itself
   cancel the channel. What remains are queries sent during the call.
   */
  method Cancel(channel: Channel)
    requires channel.Valid()
    modifies channel, channel.repr`prev, channel.repr`next
    ensures channel.Valid() && fresh(channel.repr - old(channel.repr))
    ensures Shows(channel, old(channel.calls), old(channel.socketsClosed), CancelPending(old(channel.Pending())))
    ensures forall i :: 0 <= i < |channel.queries| ==> fresh(channel.queries[i])
    ensures Unlinked(Elements(old(channel.queries)))
    ensures ClosesSockets(channel, old(channel.socketsClosed), old(channel.Pending()))
    decreases Total(channel.Pending()), 6
  {
    ghost var calls, closed, pending := channel.calls, channel.socketsClosed, channel.Pending();
    var empty := IsEmpty(channel.head, channel.queries);
    if !empty { CancelQueries(channel); }
    empty := IsEmpty(channel.head, channel.queries);
    if !channel.stayOpen && empty { channel.socketsClosed := true; }
    ClosesExactly(channel, calls, closed, pending);
  }

  /**
   The sockets close only without STAYOPEN: always when no query is left, and otherwise not unless a callback
   cancels; when none cancels a pending query, exactly if one cancels at all or none sends.
   */
  ghost predicate ClosesSockets(channel: Channel, closed: bool, pending: seq<Query>)
    reads channel
  {
    && (closed ==> channel.socketsClosed)
    && (channel.stayOpen ==> channel.socketsClosed == closed)
    && (!channel.stayOpen && channel.queries == [] ==> channel.socketsClosed)
    && (channel.queries != [] && !AnyCancels(pending) ==> channel.socketsClosed == closed)
    && (!channel.stayOpen && !closed ==>
          && (channel.socketsClosed <==> [] in CancelEnds(pending))
          && (!AnyCancelsSent(pending, false) ==>
                (channel.socketsClosed <==> AnyCancels(pending) || SentBy(pending) == [])))
  }

  lemma ClosesExactly(channel: Channel, calls: seq<(Query, Status)>, closed: bool, pending: seq<Query>)
    requires channel.Valid() && Shows(channel, calls, closed, CancelPending(pending))
    ensures ClosesSockets(channel, closed, pending)
  {
    EmptiedExactly(pending);
    CancelsEntryOnlyIff(pending);
    if !AnyCancels(pending) { NoneCancelsSent(pending, false); }
  }

  method CancelQueries(channel: Channel)
    requires channel.Valid() && channel.queries != []
    modifies channel, channel.repr`prev, channel.repr`next
    ensures channel.Valid() && fresh(channel.repr - {channel.head})
    ensures Shows(channel, old(channel.calls), old(channel.socketsClosed), CancelFrom(old(channel.Pending()), []))
    ensures Unlinked(Elements(old(channel.queries)))
    decreases Total(channel.Pending()), 5
  {
    ghost var all := channel.queries;
    ghost var mine;
    var copy;
    copy, mine := Detach(channel);
    CancelEach(channel, copy, all, mine);
  }

  /** Move the channel's list to a head of its own. */
  method Detach(channel: Channel) returns (copy: ListNode, ghost mine: set<ListNode>)
    requires channel.Valid() && channel.queries != []
    modifies channel`queries, channel`repr, channel.repr`prev, channel.repr`next
    ensures channel.queries == [] && channel.repr == {channel.head} && fresh(copy)
    ensures mine == old(channel.repr) - {channel.head} + {copy}
    ensures Cancelling(channel, copy, {}, old(channel.queries), mine)
  {
    copy := new ListNode(Query(0, Done));
    TakeOver(channel.head, copy, channel.queries);
    mine := channel.repr - {channel.head} + {copy};
    channel.queries, channel.repr := [], {channel.head};
  }

  /**
   Between two rounds: `rest` hangs on the copied head, `gone` is unlinked, and neither shares a
   node with the channel's own list.
   */
  ghost predicate Cancelling(channel: Channel, copy: ListNode, gone: set<ListNode>, rest: seq<ListNode>,
                             mine: set<ListNode>)
    reads channel, channel.repr, copy, gone, rest
  {
    && channel.Valid() && mine !! channel.repr
    && copy in mine
    && (forall k :: 0 <= k < |rest| ==> rest[k] in mine)
    && gone <= mine && Unlinked(gone)
    && Ring(copy, rest)
  }

  /** How far the loop has come: `e` is what the rounds so far have done, the rest will do the rest. */
  ghost predicate Progress(all: seq<ListNode>, gone: set<ListNode>, rest: seq<ListNode>, e: Effect) {
    && (forall k {:trigger all[k]} :: 0 <= k < |all| ==> all[k] in gone || all[k] in rest)
    && Then(e, CancelFrom(Data(rest), e.pending)) == CancelFrom(Data(all), [])
    && Total(Data(rest)) + Total(e.pending) <= Total(Data(all))
  }

  /** The loop over the list that hangs on the copied head. */
  method CancelEach(channel: Channel, copy: ListNode, ghost all: seq<ListNode>, ghost mine: set<ListNode>)
    requires Cancelling(channel, copy, {}, all, mine) && channel.queries == []
    modifies channel, channel.repr`prev, channel.repr`next, mine`prev, mine`next
    ensures channel.Valid() && Unlinked(Elements(all))
    ensures fresh(channel.repr - old(channel.repr))
    ensures Shows(channel, old(channel.calls), old(channel.socketsClosed), CancelFrom(Data(all), []))
    decreases Total(Data(all)), 4
  {
    ghost var gone: set<ListNode>, rest, e := {}, all, Effect([], [], false);
    ghost var calls, closed := channel.calls, channel.socketsClosed;
    Begins(all);
    var node: ListNode := copy.next;
    while node != copy
      invariant Cancelling(channel, copy, gone, rest, mine) && node == At(copy, rest, 0)
      invariant fresh(channel.repr - old(channel.repr))
      invariant Shows(channel, calls, closed, e)
      invariant Progress(all, gone, rest, e)
      decreases |rest|
    {
      node, gone, rest, e := Round(channel, copy, node, all, gone, rest, mine, calls, closed, e);
    }
    Completed(copy, all, gone, rest, e);
  }

  lemma Begins(all: seq<ListNode>)
    ensures Progress(all, {}, all, Effect([], [], false))
  {
    var e := CancelFrom(Data(all), []);
    assert [] + e.calls == e.calls;
  }

  lemma Completed(copy: ListNode, all: seq<ListNode>, gone: set<ListNode>, rest: seq<ListNode>, e: Effect)
    requires Progress(all, gone, rest, e) && Ring(copy, rest) && At(copy, rest, 0) == copy
    ensures Elements(all) <= gone && e == CancelFrom(Data(all), [])
  {
    assert e.calls + [] == e.calls;
  }

  /** One pass through the loop. */
  method Round(channel: Channel, copy: ListNode, query: ListNode, ghost all: seq<ListNode>, ghost gone0: set<ListNode>,
               ghost rest0: seq<ListNode>, ghost mine: set<ListNode>, ghost calls: seq<(Query, Status)>,
               ghost closed: bool, ghost e0: Effect)
    returns (node: ListNode, ghost gone: set<ListNode>, ghost rest: seq<ListNode>, ghost e: Effect)
    requires Cancelling(channel, copy, gone0, rest0, mine) && query == At(copy, rest0, 0) != copy
    requires Shows(channel, calls, closed, e0) && Progress(all, gone0, rest0, e0)
    modifies channel, channel.repr`prev, channel.repr`next, mine`prev, mine`next
    ensures Cancelling(channel, copy, gone, rest, mine) && node == At(copy, rest, 0)
    ensures fresh(channel.repr - old(channel.repr))
    ensures Shows(channel, calls, closed, e) && Progress(all, gone, rest, e)
    ensures |rest| < |rest0|
    decreases Total(Data(rest0)) + Total(e0.pending), 3
  {
    Advance(all, gone0, rest0, e0);
    ghost var c := Called(query.data, e0.pending);
    node := CancelOne(channel, copy, query, gone0, rest0, mine);
    ShowsThen(channel, calls, closed, e0, c);
    gone, rest, e := gone0 + {query}, rest0[1..], Then(e0, c);
  }

  /** One round, on values. */
  lemma Advance(all: seq<ListNode>, gone: set<ListNode>, rest: seq<ListNode>, e: Effect)
    requires rest != [] && Progress(all, gone, rest, e)
    ensures Progress(all, gone + {rest[0]}, rest[1..], Then(e, Called(rest[0].data, e.pending)))
    ensures ScriptSize(rest[0].data.script) < Total(Data(rest))
  {
    var c := Called(rest[0].data, e.pending);
    var more := CancelFrom(Data(rest[1..]), c.pending);
    assert Data(rest)[1..] == Data(rest[1..]);
    assert e.calls + (c.calls + more.calls) == e.calls + c.calls + more.calls;
    assert rest == [rest[0]] + rest[1..];
  }

  /** One round: remember the successor, call back, unlink. */
  method CancelOne(channel: Channel, copy: ListNode, query: ListNode,
                   ghost gone: set<ListNode>, ghost rest: seq<ListNode>, ghost mine: set<ListNode>)
    returns (node: ListNode)
    requires rest != [] && rest[0] == query && Cancelling(channel, copy, gone, rest, mine)
    modifies channel, channel.repr`prev, channel.repr`next, mine`prev, mine`next
    ensures Cancelling(channel, copy, gone + {query}, rest[1..], mine)
    ensures fresh(channel.repr - old(channel.repr))
    ensures node == At(copy, rest[1..], 0)
    ensures Shows(channel, old(channel.calls), old(channel.socketsClosed), Called(query.data, old(channel.Pending())))
    decreases ScriptSize(query.data.script) + Total(channel.Pending()), 3
  {
    node := query.next;
    CallBack(channel, copy, query, gone, rest, mine);
    Unlink(channel, copy, query, gone, rest, mine);
  }

  /** The callback leaves the list being cancelled alone, even where it cancels the channel again. */
  method CallBack(channel: Channel, copy: ListNode, query: ListNode,
                  ghost gone: set<ListNode>, ghost rest: seq<ListNode>, ghost mine: set<ListNode>)
    requires Cancelling(channel, copy, gone, rest, mine)
    modifies channel, channel.repr`prev, channel.repr`next
    ensures Cancelling(channel, copy, gone, rest, mine)
    ensures fresh(channel.repr - old(channel.repr))
    ensures Shows(channel, old(channel.calls), old(channel.socketsClosed), Called(query.data, old(channel.Pending())))
    decreases ScriptSize(query.data.script) + Total(channel.Pending()), 2
  {
    Tell(channel, query.data);
  }

  /** Call a query's callback with the cancelled status. */
  method Tell(channel: Channel, query: Query)
    requires channel.Valid()
    modifies channel, channel.repr`prev, channel.repr`next
    ensures channel.Valid() && fresh(channel.repr - old(channel.repr))
    ensures Shows(channel, old(channel.calls), old(channel.socketsClosed), Called(query, old(channel.Pending())))
    decreases ScriptSize(query.script) + Total(channel.Pending()), 1
  {
    channel.calls := channel.calls + [(query, Cancelled)];
    Perform(channel, query.script);
    ghost var e := Run(query.script, old(channel.Pending()));
    assert Told([query] + e.calls) == [(query, Cancelled)] + Told(e.calls);
  }

  /** The part of ares__free_query that concerns this list: the query leaves it. */
  method Unlink(ghost channel: Channel, ghost copy: ListNode, query: ListNode,
                ghost gone: set<ListNode>, ghost rest: seq<ListNode>, ghost mine: set<ListNode>)
    requires rest != [] && rest[0] == query && Cancelling(channel, copy, gone, rest, mine)
    modifies mine`prev, mine`next
    ensures Cancelling(channel, copy, gone + {query}, rest[1..], mine)
  {
    RemoveFirst(copy, query, gone, rest);
  }

  method RemoveFirst(ghost copy: ListNode, query: ListNode, ghost gone: set<ListNode>, ghost rest: seq<ListNode>)
    requires rest != [] && rest[0] == query && Ring(copy, rest) && Unlinked(gone)
    modifies copy`prev, copy`next, rest`prev, rest`next
    ensures Ring(copy, rest[1..]) && Unlinked(gone + {query})
  {
    GoneApart(copy, gone, rest);
    Remove(query, copy, rest, 0);
    assert Without(rest, 0) == rest[1..];
  }

  /** A node without links is not on the list. */
  lemma GoneApart(copy: ListNode, gone: set<ListNode>, rest: seq<ListNode>)
    requires Ring(copy, rest) && Unlinked(gone)
    ensures forall n :: n in gone ==> n != copy && n !in rest
  {
    assert forall l :: 0 <= l < |rest| ==> rest[l].next == At(copy, rest, l + 1);
  }
}
