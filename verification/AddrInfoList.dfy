/**
 The list helpers of ares_getaddrinfo.c: walk to the last node and hang one more node, or a whole list,
 behind it. They are what ParseAddrInfo writes as `+` on sequences.
 */
module AddrInfoList {
  import opened AddressSort

  /** ares__append_addrinfo_node */
  method Append(head0: AddrNode?, addr: SockAddr, ghost nodes: seq<AddrNode>) returns (head: AddrNode?, tail: AddrNode)
    requires Chain(head0, nodes)
    modifies nodes
    ensures fresh(tail) && tail.addr == addr
    ensures Chain(head, nodes + [tail]) && head == if nodes == [] then tail else head0
  {
    tail := new AddrNode(addr);
    head := Concatenate(head0, tail, nodes, [tail]);
  }

  /** ares__addrinfo_cat_nodes */
  method Concatenate(head0: AddrNode?, tail: AddrNode?, ghost nodes: seq<AddrNode>, ghost more: seq<AddrNode>)
    returns (head: AddrNode?)
    requires Chain(head0, nodes) && Chain(tail, more)
    requires forall i, j :: 0 <= i < |nodes| && 0 <= j < |more| ==> nodes[i] != more[j]
    modifies nodes
    ensures Chain(head, nodes + more) && head == if nodes == [] then tail else head0
  {
    if head0 == null {
      assert nodes == [] && nodes + more == more;
      return tail;
    }
    var last := LastOf(head0, nodes);
    last.next := tail;
    head := head0;
    Hung(head, nodes, more);
  }

  method LastOf(head: AddrNode, ghost nodes: seq<AddrNode>) returns (last: AddrNode)
    requires Chain(head, nodes)
    ensures nodes != [] && last == nodes[|nodes| - 1]
  {
    last := head;
    ghost var k := 0;
    while last.next != null
      invariant k < |nodes| && last == nodes[k]
      decreases |nodes| - k
    {
      last := last.next;
      k := k + 1;
    }
  }

  /** A list whose last node points at another list is the two together. */
  lemma Hung(head: AddrNode, nodes: seq<AddrNode>, more: seq<AddrNode>)
    requires nodes != [] && head == nodes[0] && Chain(NodeAt(more, 0), more)
    requires forall i, j :: 0 <= i < j < |nodes| ==> nodes[i] != nodes[j]
    requires forall i, j :: 0 <= i < |nodes| && 0 <= j < |more| ==> nodes[i] != more[j]
    requires forall i {:trigger nodes[i].next} :: 0 <= i < |nodes| - 1 ==> nodes[i].next == nodes[i + 1]
    requires nodes[|nodes| - 1].next == NodeAt(more, 0)
    ensures Chain(head, nodes + more)
  {
    var all := nodes + more;
    forall i {:trigger all[i].next} | 0 <= i < |all| ensures all[i].next == NodeAt(all, i + 1) {
      if i < |nodes| {
        assert all[i] == nodes[i] && nodes[i].next == all[i].next;
      } else {
        assert all[i] == more[i - |nodes|] && more[i - |nodes|].next == all[i].next;
      }
    }
  }
}
