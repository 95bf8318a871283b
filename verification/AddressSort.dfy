/** ares__sortaddrinfo.c: the destination order of RFC 6724 section 6, and relinking a list in it. */
module AddressSort {
  import opened AddressPrefix

  datatype Family = Inet | Inet6 | OtherFamily

  /** A socket address: family, the IPv4 address in host order, the IPv6 address. */
  datatype SockAddr = SockAddr(family: Family, v4: bv32, v6: In6)

  /** One element handed to qsort. `src` is meaningless unless `hasSrc`. */
  datatype Elem = Elem(dst: SockAddr, hasSrc: bool, src: SockAddr, order: nat)

  // ---- classification of addresses ---------------------------------------------------

  predicate ZeroUpTo(a: In6, n: nat)
    requires n <= 16
  {
    forall i :: 0 <= i < n ==> a[i] == 0
  }

  predicate IsMulticast(a: In6) { a[0] == 0xFF }
  predicate IsLoopback(a: In6) { ZeroUpTo(a, 15) && a[15] == 1 }
  predicate IsLinkLocal(a: In6) { a[0] == 0xFE && a[1] & 0xC0 == 0x80 }
  predicate IsSiteLocal(a: In6) { a[0] == 0xFE && a[1] & 0xC0 == 0xC0 }
  predicate IsV4Mapped(a: In6) { ZeroUpTo(a, 10) && a[10] == 0xFF && a[11] == 0xFF }
  predicate IsV4Compat(a: In6) { ZeroUpTo(a, 12) && !(ZeroUpTo(a, 15) && a[15] <= 1) }
  predicate Is6To4(a: In6) { a[0] == 0x20 && a[1] == 0x02 }
  predicate IsTeredo(a: In6) { a[0] == 0x20 && a[1] == 0x01 && a[2] == 0 && a[3] == 0 }
  predicate IsUla(a: In6) { a[0] & 0xFE == 0xFC }
  predicate Is6Bone(a: In6) { a[0] == 0x3F && a[1] == 0xFE }

  function Scope(s: SockAddr): int {
    match s.family
    case Inet6 =>
      if IsMulticast(s.v6) then (s.v6[1] & 0x0F) as int
      else if IsLoopback(s.v6) || IsLinkLocal(s.v6) then 0x02
      else if IsSiteLocal(s.v6) then 0x05
      else 0x0E
    case Inet =>
      if s.v4 & 0xFF00_0000 == 0x7F00_0000 || s.v4 & 0xFFFF_0000 == 0xA9FE_0000 then 0x02 else 0x0E
    case OtherFamily => 0x01
  }

  function LabelOf(s: SockAddr): int {
    match s.family
    case Inet => 4
    case Inet6 =>
      if IsLoopback(s.v6) then 0
      else if IsV4Mapped(s.v6) then 4
      else if Is6To4(s.v6) then 2
      else if IsTeredo(s.v6) then 5
      else if IsUla(s.v6) then 13
      else if IsV4Compat(s.v6) then 3
      else if IsSiteLocal(s.v6) then 11
      else if Is6Bone(s.v6) then 12
      else 1
    case OtherFamily => 1
  }

  function Precedence(s: SockAddr): int {
    match s.family
    case Inet => 35
    case Inet6 =>
      if IsLoopback(s.v6) then 50
      else if IsV4Mapped(s.v6) then 35
      else if Is6To4(s.v6) then 30
      else if IsTeredo(s.v6) then 5
      else if IsUla(s.v6) then 3
      else if IsV4Compat(s.v6) || IsSiteLocal(s.v6) || Is6Bone(s.v6) then 1
      else 40
    case OtherFamily => 1
  }

  // ---- the comparator ------------------------------------------------------------------

  function Flag(b: bool): int { if b then 1 else 0 }

  predicate ScopeMatch(e: Elem) { Scope(e.src) == Scope(e.dst) }
  predicate LabelMatch(e: Elem) { LabelOf(e.src) == LabelOf(e.dst) }

  /** Rule 9 looks at this element's prefix. */
  predicate Ranked(e: Elem) { e.hasSrc && e.dst.family == Inet6 }

  ghost function Prefix(e: Elem): nat { CommonPrefix(e.src.v6, e.dst.v6) }

  /** Rules 1 to 8 (rules 3, 4 and 7 are not implemented). */
  function ClassCompare(a: Elem, b: Elem): int {
    if a.hasSrc != b.hasSrc then Flag(b.hasSrc) - Flag(a.hasSrc)
    else if ScopeMatch(a) != ScopeMatch(b) then Flag(ScopeMatch(b)) - Flag(ScopeMatch(a))
    else if LabelMatch(a) != LabelMatch(b) then Flag(LabelMatch(b)) - Flag(LabelMatch(a))
    else if Precedence(a.dst) != Precedence(b.dst) then Precedence(b.dst) - Precedence(a.dst)
    else Scope(a.dst) - Scope(b.dst)
  }

  /** rfc6724_compare: negative, zero or positive. */
  ghost function Compare(a: Elem, b: Elem): int {
    if ClassCompare(a, b) != 0 then ClassCompare(a, b)
    else if Ranked(a) && Ranked(b) && Prefix(a) != Prefix(b) then Prefix(b) as int - Prefix(a)
    else a.order as int - b.order
  }

  ghost predicate Before(a: Elem, b: Elem) { Compare(a, b) < 0 }

  /** The comparator as executed: rule by rule, with the bit scan for rule 9. */
  method Rfc6724Compare(a: Elem, b: Elem) returns (c: int)
    ensures c == Compare(a, b)
  {
    c := CompareClasses(a, b);
    if c != 0 { return; }
    if a.hasSrc && a.dst.family == Inet6 && b.hasSrc && b.dst.family == Inet6 {
      var prefixLen1 := CommonPrefixLen(a.src.v6, a.dst.v6);
      var prefixLen2 := CommonPrefixLen(b.src.v6, b.dst.v6);
      if prefixLen1 != prefixLen2 { return prefixLen2 as int - prefixLen1; }
    }
    c := a.order as int - b.order;
  }

  method CompareClasses(a: Elem, b: Elem) returns (c: int)
    ensures c == ClassCompare(a, b)
  {
    if a.hasSrc != b.hasSrc { return Flag(b.hasSrc) - Flag(a.hasSrc); }
    var scopeMatch1, scopeMatch2 := ScopeMatch(a), ScopeMatch(b);
    if scopeMatch1 != scopeMatch2 { return Flag(scopeMatch2) - Flag(scopeMatch1); }
    var labelMatch1, labelMatch2 := LabelMatch(a), LabelMatch(b);
    if labelMatch1 != labelMatch2 { return Flag(labelMatch2) - Flag(labelMatch1); }
    var precedence1, precedence2 := Precedence(a.dst), Precedence(b.dst);
    if precedence1 != precedence2 { return precedence2 - precedence1; }
    c := Scope(a.dst) - Scope(b.dst);
  }

  // ---- is it an order? -----------------------------------------------------------------

  ghost predicate DistinctOrders(s: seq<Elem>) {
    forall i, j :: 0 <= i < j < |s| ==> s[i].order != s[j].order
  }

  /** No element precedes itself, any two are comparable, and precedence carries over. */
  ghost predicate StrictTotalOrderOn(s: seq<Elem>) {
    && (forall i :: 0 <= i < |s| ==> !Before(s[i], s[i]))
    && (forall i, j :: 0 <= i < |s| && 0 <= j < |s| && i != j ==> (Before(s[i], s[j]) <==> !Before(s[j], s[i])))
    && (forall i, j, k :: 0 <= i < |s| && 0 <= j < |s| && 0 <= k < |s| && Before(s[i], s[j]) && Before(s[j], s[k])
          ==> Before(s[i], s[k]))
  }

  /** Equal under rules 1 to 8. */
  predicate SameClass(a: Elem, b: Elem) { ClassCompare(a, b) == 0 }

  /**
   Three elements equal under rules 1 to 8, in list order: two IPv6 destinations, the later of which
   shares the longer prefix with its source, and between them one that rule 9 passes over.
   */
  ghost predicate Straddles(a: Elem, b: Elem, c: Elem) {
    && SameClass(a, b) && SameClass(b, c)
    && Ranked(a) && !Ranked(b) && Ranked(c)
    && a.order < b.order < c.order && Prefix(a) < Prefix(c)
  }

  ghost predicate NoStraddle(s: seq<Elem>) {
    forall i, j, k :: 0 <= i < |s| && 0 <= j < |s| && 0 <= k < |s| ==> !Straddles(s[i], s[j], s[k])
  }

  /** What rules 1 to 8 look at, in order, smaller being better. */
  function Rank(e: Elem): (r: seq<int>)
    ensures |r| == 5
  {
    [if e.hasSrc then 0 else 1, if ScopeMatch(e) then 0 else 1, if LabelMatch(e) then 0 else 1,
     0 - Precedence(e.dst), Scope(e.dst)]
  }

  /** Rule k is the first to tell the elements apart, and prefers a. */
  ghost predicate DecidedBy(a: Elem, b: Elem, k: nat)
    requires k < 5
  {
    Rank(a)[k] < Rank(b)[k] && forall j :: 0 <= j < k ==> Rank(a)[j] == Rank(b)[j]
  }

  /**
   What precedes what: the first rule of 1 to 8 that differs decides; then, between IPv6 destinations with
   sources, the longer common prefix; then the original position.
   */
  lemma PrecedesExactly(a: Elem, b: Elem)
    ensures Before(a, b) <==>
      || (exists k: nat :: k < 5 && DecidedBy(a, b, k))
      || (Rank(a) == Rank(b) && if Ranked(a) && Ranked(b) && Prefix(a) != Prefix(b)
                                then Prefix(a) > Prefix(b) else a.order < b.order)
  {
    var k := if a.hasSrc != b.hasSrc then 0 else if ScopeMatch(a) != ScopeMatch(b) then 1
             else if LabelMatch(a) != LabelMatch(b) then 2 else if Precedence(a.dst) != Precedence(b.dst) then 3 else 4;
    if ClassCompare(a, b) < 0 {
      assert DecidedBy(a, b, k);
    } else if ClassCompare(a, b) > 0 {
      assert DecidedBy(b, a, k);
    } else {
      assert Rank(a) == Rank(b);
    }
  }

  lemma CompareAntisymmetric(a: Elem, b: Elem)
    ensures Compare(a, b) == -Compare(b, a)
  {
  }

  /** Across classes the comparator is decided by rules 1 to 8, which order the classes. */
  lemma ClassesTransitive(a: Elem, b: Elem, c: Elem)
    requires Before(a, b) && Before(b, c) && !(SameClass(a, b) && SameClass(b, c))
    ensures Before(a, c)
  {
  }

  /** Inside a class precedence carries over unless the three straddle. */
  lemma InClassTransitive(a: Elem, b: Elem, c: Elem)
    requires Before(a, b) && Before(b, c) && SameClass(a, b) && SameClass(b, c)
    requires !Straddles(a, b, c) && !Straddles(b, c, a) && !Straddles(c, a, b)
    requires a.order != c.order
    ensures Before(a, c)
  {
  }

  /** Straddling elements precede each other in a circle. */
  lemma StraddleIsCycle(a: Elem, b: Elem, c: Elem)
    requires Straddles(a, b, c)
    ensures Before(a, b) && Before(b, c) && Before(c, a)
  {
  }

  /** The comparator is a strict total order on a list exactly when no three elements straddle. */
  lemma OrderIffNoStraddle(s: seq<Elem>)
    requires DistinctOrders(s)
    ensures StrictTotalOrderOn(s) <==> NoStraddle(s)
  {
    forall i, j | 0 <= i < |s| && 0 <= j < |s| && i != j ensures Before(s[i], s[j]) <==> !Before(s[j], s[i]) {
      CompareAntisymmetric(s[i], s[j]);
      assert s[i].order != s[j].order;
    }
    if NoStraddle(s) {
      forall i, j, k | 0 <= i < |s| && 0 <= j < |s| && 0 <= k < |s| && Before(s[i], s[j]) && Before(s[j], s[k])
        ensures Before(s[i], s[k])
      {
        CompareAntisymmetric(s[i], s[j]);
        assert i != k;
        if SameClass(s[i], s[j]) && SameClass(s[j], s[k]) {
          InClassTransitive(s[i], s[j], s[k]);
        } else {
          ClassesTransitive(s[i], s[j], s[k]);
        }
      }
    }
    if !NoStraddle(s) {
      var i, j, k :| 0 <= i < |s| && 0 <= j < |s| && 0 <= k < |s| && Straddles(s[i], s[j], s[k]);
      StraddleIsCycle(s[i], s[j], s[k]);
      CompareAntisymmetric(s[i], s[k]);
    }
  }

  /** Only a V4-mapped destination is in the same class as an IPv4 one: without those the order is total. */
  lemma OrderWithoutV4Mapped(s: seq<Elem>)
    requires DistinctOrders(s)
    requires forall i :: 0 <= i < |s| ==>
      s[i].dst.family == Inet || (s[i].dst.family == Inet6 && !IsV4Mapped(s[i].dst.v6))
    ensures StrictTotalOrderOn(s)
  {
    forall i, j, k | 0 <= i < |s| && 0 <= j < |s| && 0 <= k < |s| ensures !Straddles(s[i], s[j], s[k]) {
      UnmappedDoNotStraddle(s[i], s[j], s[k]);
    }
    OrderIffNoStraddle(s);
  }

  lemma UnmappedDoNotStraddle(a: Elem, b: Elem, c: Elem)
    requires a.dst.family == Inet6 ==> !IsV4Mapped(a.dst.v6)
    requires b.dst.family != OtherFamily
    ensures !Straddles(a, b, c)
  {
    if a.dst.family == Inet6 && b.dst.family == Inet {
      assert Precedence(a.dst) != 35 == Precedence(b.dst);
    }
  }

  const ZEROS: In6 := [0, 0, 0, 0, 0, 0, 0, 0, 0, 0, 0, 0, 0, 0, 0, 0]
  const MAPPED_HERE: In6 := [0, 0, 0, 0, 0, 0, 0, 0, 0, 0, 0xFF, 0xFF, 10, 0, 0, 1]
  const MAPPED_FAR: In6 := [0, 0, 0, 0, 0, 0, 0, 0, 0, 0, 0xFF, 0xFF, 192, 0, 2, 1]

  lemma MappedAddress(a: In6)
    requires a == MAPPED_HERE || a == MAPPED_FAR
    ensures Scope(SockAddr(Inet6, 0, a)) == 0x0E && LabelOf(SockAddr(Inet6, 0, a)) == 4
    ensures Precedence(SockAddr(Inet6, 0, a)) == 35
  {
    assert a[12] != 0 && ZeroUpTo(a, 10) && a[10] == 0xFF == a[11];
  }

  /**
   The circle is real: a host with the mapped source ::ffff:10.0.0.1 and the IPv4 source 10.0.0.1, and the
   destinations ::ffff:192.0.2.1, 192.0.2.1 and ::ffff:10.0.0.1 in this order.
   */
  lemma MappedCycleExample() returns (a: Elem, b: Elem, c: Elem)
    ensures a == Elem(SockAddr(Inet6, 0, MAPPED_FAR), true, SockAddr(Inet6, 0, MAPPED_HERE), 0)
    ensures b == Elem(SockAddr(Inet, 0xC000_0201, ZEROS), true, SockAddr(Inet, 0x0A00_0001, ZEROS), 1)
    ensures c == Elem(SockAddr(Inet6, 0, MAPPED_HERE), true, SockAddr(Inet6, 0, MAPPED_HERE), 2)
    ensures Before(a, b) && Before(b, c) && Before(c, a)
  {
    a := Elem(SockAddr(Inet6, 0, MAPPED_FAR), true, SockAddr(Inet6, 0, MAPPED_HERE), 0);
    b := Elem(SockAddr(Inet, 0xC000_0201, ZEROS), true, SockAddr(Inet, 0x0A00_0001, ZEROS), 1);
    c := Elem(SockAddr(Inet6, 0, MAPPED_HERE), true, SockAddr(Inet6, 0, MAPPED_HERE), 2);
    SameClasses(a, b, c);
    NearerPrefix();
    StraddleIsCycle(a, b, c);
  }

  lemma SameClasses(a: Elem, b: Elem, c: Elem)
    requires a == Elem(SockAddr(Inet6, 0, MAPPED_FAR), true, SockAddr(Inet6, 0, MAPPED_HERE), 0)
    requires b == Elem(SockAddr(Inet, 0xC000_0201, ZEROS), true, SockAddr(Inet, 0x0A00_0001, ZEROS), 1)
    requires c == Elem(SockAddr(Inet6, 0, MAPPED_HERE), true, SockAddr(Inet6, 0, MAPPED_HERE), 2)
    ensures SameClass(a, b) && SameClass(b, c)
  {
    MappedAddress(MAPPED_HERE);
    MappedAddress(MAPPED_FAR);
    assert Scope(b.src) == 0x0E == Scope(b.dst);
  }

  lemma NearerPrefix()
    ensures CommonPrefix(MAPPED_HERE, MAPPED_FAR) < CommonPrefix(MAPPED_HERE, MAPPED_HERE)
  {
    CommonPrefixFull(MAPPED_HERE, MAPPED_HERE);
    CommonPrefixFull(MAPPED_HERE, MAPPED_FAR);
    assert MAPPED_HERE[12] != MAPPED_FAR[12];
  }

  // ---- sorting a list in place -----------------------------------------------------------

  /** struct ares_addrinfo_node: an address and the next node. */
  class AddrNode {
    const addr: SockAddr
    var next: AddrNode?

    constructor (addr: SockAddr)
      ensures this.addr == addr && next == null
    {
      this.addr := addr;
      next := null;
    }
  }

  /** What find_src_addr reports for a destination; for an unreachable one it writes no address, and `junk` stays. */
  datatype Source = Fatal | Unreachable(junk: SockAddr) | From(addr: SockAddr)

  /** `OutOfBounds`: the source has read past the array it was given; C promises nothing from there on. */
  datatype Status = Success | NotFound | OutOfBounds

  ghost function NodeAt(nodes: seq<AddrNode>, i: nat): AddrNode? {
    if i < |nodes| then nodes[i] else null
  }

  /** `first` starts a NULL-terminated list of exactly these nodes. */
  ghost predicate Chain(first: AddrNode?, nodes: seq<AddrNode>)
    reads nodes
  {
    && first == NodeAt(nodes, 0)
    && (forall i, j :: 0 <= i < j < |nodes| ==> nodes[i] != nodes[j])
    && (forall i {:trigger nodes[i].next} :: 0 <= i < |nodes| ==> nodes[i].next == NodeAt(nodes, i + 1))
  }

  function ElemOf(addr: SockAddr, source: Source, order: nat): Elem {
    match source
    case From(src) => Elem(addr, true, src, order)
    case Unreachable(junk) => Elem(addr, false, junk, order)
    case Fatal => Elem(addr, false, addr, order)
  }

  /** A source that is in another scope than the destination. */
  function OutOfScope(dst: SockAddr): (src: SockAddr)
    ensures Scope(src) != Scope(dst)
  {
    if Scope(dst) == 1 then SockAddr(Inet, 0, ZEROS) else SockAddr(OtherFamily, 0, ZEROS)
  }

  /** The same report with other bytes left behind. */
  function Again(from: Source, junk: SockAddr): Source { if from.Unreachable? then Unreachable(junk) else from }

  /** The unreachable destination `a` goes before `b`, given what was left behind in their sources. */
  ghost predicate GoesFirst(a: SockAddr, i: nat, junk: SockAddr, b: SockAddr, j: nat, from: Source) {
    Before(ElemOf(a, Unreachable(junk), i), ElemOf(b, from, j))
  }

  /**
   Where an unreachable destination goes does not depend on what the allocation left in its source if and only
   if the other destination has a source. Of two unreachable ones those bytes can put either first.
   */
  lemma JunkDecidesIff(a: SockAddr, i: nat, b: SockAddr, j: nat, from: Source)
    requires from != Fatal
    ensures (forall junk, junk' {:trigger GoesFirst(a, i, junk, b, j, Again(from, junk'))} ::
              GoesFirst(a, i, junk, b, j, Again(from, junk')) <==> GoesFirst(a, i, a, b, j, Again(from, b)))
       <==> from.From?
    ensures from.From? ==> forall junk :: !GoesFirst(a, i, junk, b, j, from)
  {
    if from.Unreachable? {
      assert GoesFirst(a, i, a, b, j, Again(from, OutOfScope(b)));
      assert !GoesFirst(a, i, OutOfScope(a), b, j, Again(from, b));
    }
  }

  ghost function Elems(nodes: seq<AddrNode>, sources: seq<Source>): (r: seq<Elem>)
    requires |nodes| == |sources|
    ensures |r| == |nodes| && forall i :: 0 <= i < |r| ==> r[i].order == i
  {
    seq(|nodes|, i requires 0 <= i < |nodes| => ElemOf(nodes[i].addr, sources[i], i))
  }

  ghost predicate SortedByCompare(s: seq<Elem>) {
    forall i, j :: 0 <= i < j < |s| ==> Before(s[i], s[j])
  }

  /** The library sort: always a permutation, and sorted when the comparator is an order on the input. */
  ghost predicate IsQsort(qsort: seq<Elem> -> seq<Elem>) {
    forall s :: multiset(qsort(s)) == multiset(s) && (StrictTotalOrderOn(s) ==> SortedByCompare(qsort(s)))
  }

  /** The nodes the sorted elements stand for; `order` is the element's original position. */
  ghost function Reordered(nodes: seq<AddrNode>, sorted: seq<Elem>): (r: seq<AddrNode>)
    requires forall i :: 0 <= i < |sorted| ==> sorted[i].order < |nodes|
    ensures |r| == |sorted| && forall i :: 0 <= i < |r| ==> r[i] == nodes[sorted[i].order]
  {
    seq(|sorted|, i requires 0 <= i < |sorted| => nodes[sorted[i].order])
  }

  /** A permutation of elements numbered 0, 1, ... is again in range and without repetition. */
  lemma PermutationIndices(elems: seq<Elem>, sorted: seq<Elem>)
    requires multiset(sorted) == multiset(elems)
    requires forall i :: 0 <= i < |elems| ==> elems[i].order == i
    ensures |sorted| == |elems|
    ensures forall i :: 0 <= i < |sorted| ==> sorted[i].order < |elems| && elems[sorted[i].order] == sorted[i]
    ensures forall i, j :: 0 <= i < j < |sorted| ==> sorted[i].order != sorted[j].order
  {
    assert |multiset(sorted)| == |multiset(elems)|;
    forall i | 0 <= i < |sorted| ensures sorted[i].order < |elems| && elems[sorted[i].order] == sorted[i] {
      assert sorted[i] in multiset(elems);
    }
    forall i, j | 0 <= i < j < |sorted| ensures sorted[i].order != sorted[j].order {
      if sorted[i].order == sorted[j].order {
        TwiceInMultiset(sorted, i, j);
        OnceInMultiset(elems, sorted[i].order);
      }
    }
  }

  /** Every node of the list is among the reordered ones. */
  lemma NothingLost(nodes: seq<AddrNode>, sources: seq<Source>, sorted: seq<Elem>)
    requires |nodes| == |sources| && multiset(sorted) == multiset(Elems(nodes, sources))
    requires forall i :: 0 <= i < |sorted| ==> sorted[i].order < |nodes|
    ensures |Reordered(nodes, sorted)| == |nodes|
    ensures forall i :: 0 <= i < |nodes| ==> nodes[i] in Reordered(nodes, sorted)
  {
    var elems := Elems(nodes, sources);
    PermutationIndices(elems, sorted);
    forall i | 0 <= i < |nodes| ensures nodes[i] in Reordered(nodes, sorted) {
      assert elems[i] in multiset(elems);
      var j :| 0 <= j < |sorted| && sorted[j] == elems[i];
      assert Reordered(nodes, sorted)[j] == nodes[i];
    }
  }

  lemma TwiceInMultiset(s: seq<Elem>, i: nat, j: nat)
    requires i < j < |s| && s[i] == s[j]
    ensures multiset(s)[s[i]] >= 2
  {
    var a, b := s[..j], s[j..];
    assert s == a + b;
    assert s[i] in multiset(a) && s[i] in multiset(b) by { assert a[i] == s[i] && b[0] == s[j]; }
  }

  lemma OnceInMultiset(s: seq<Elem>, i: nat)
    requires i < |s| && forall k :: 0 <= k < |s| ==> s[k].order == k
    ensures multiset(s)[s[i]] == 1
  {
    var a, b := s[..i], s[i + 1..];
    assert s == a + [s[i]] + b;
    assert s[i] !in multiset(a) by { assert forall k :: 0 <= k < |a| ==> a[k] == s[k]; }
    assert s[i] !in multiset(b) by { assert forall k :: 0 <= k < |b| ==> b[k] == s[i + 1 + k]; }
  }

  /**
   ares__sortaddrinfo. On an empty list the first element of an empty array is read; a fatal source lookup
   leaves the list as it was; otherwise the same nodes are relinked in the order of the sorted elements.
   */
  method SortAddrInfo(sentinel: AddrNode, ghost nodes: seq<AddrNode>, sources: seq<Source>,
                      qsort: seq<Elem> -> seq<Elem>)
    returns (status: Status, ghost sorted: seq<Elem>)
    requires Chain(sentinel.next, nodes) && sentinel !in nodes && |sources| == |nodes| && IsQsort(qsort)
    modifies sentinel, nodes
    ensures status == OutOfBounds <==> nodes == []
    ensures status == NotFound <==> exists i :: 0 <= i < |sources| && sources[i] == Fatal
    ensures status == NotFound ==> Chain(sentinel.next, nodes)
    ensures status == Success ==>
      && multiset(sorted) == multiset(Elems(nodes, sources))
      && (forall i :: 0 <= i < |sorted| ==> sorted[i].order < |nodes|)
      && Chain(sentinel.next, Reordered(nodes, sorted))
      && (NoStraddle(Elems(nodes, sources)) ==> SortedByCompare(sorted))
  {
    var ptrs := Collect(sentinel.next, nodes);
    var ok, elems := Examine(ptrs, sources);
    sorted := [];
    if !ok { return NotFound, []; }
    var result := qsort(elems);
    sorted := result;
    PermutationIndices(elems, result);
    OrderIffNoStraddle(elems);
    if |result| == 0 { return OutOfBounds, []; }
    Relink(sentinel, ptrs, result);
    status := Success;
  }

  /** First loop: walk the list and count; the nodes are kept for the array. */
  method Collect(first: AddrNode?, ghost nodes: seq<AddrNode>) returns (ptrs: seq<AddrNode>)
    requires Chain(first, nodes)
    ensures ptrs == nodes
  {
    var cur := first;
    ptrs := [];
    while cur != null
      invariant |ptrs| <= |nodes| && ptrs == nodes[..|ptrs|] && cur == NodeAt(nodes, |ptrs|)
      decreases |nodes| - |ptrs|
    {
      assert cur == nodes[|ptrs|];
      ptrs := ptrs + [cur];
      cur := cur.next;
    }
  }

  /** Second loop: pair each destination with its source; stop at a fatal error. */
  method Examine(ptrs: seq<AddrNode>, sources: seq<Source>) returns (ok: bool, elems: seq<Elem>)
    requires |ptrs| == |sources|
    ensures ok <==> forall i :: 0 <= i < |sources| ==> sources[i] != Fatal
    ensures ok ==> elems == Elems(ptrs, sources)
  {
    elems := [];
    for i := 0 to |ptrs|
      invariant |elems| == i && forall k :: 0 <= k < i ==> elems[k] == ElemOf(ptrs[k].addr, sources[k], k)
      invariant forall k :: 0 <= k < i ==> sources[k] != Fatal
    {
      if sources[i] == Fatal { return false, elems; }
      elems := elems + [ElemOf(ptrs[i].addr, sources[i], i)];
    }
    ok := true;
  }

  /** Third loop: each node points to the one after it in sorted order, the last to NULL. */
  method Relink(sentinel: AddrNode, ptrs: seq<AddrNode>, sorted: seq<Elem>)
    requires |sorted| == |ptrs| > 0 && sentinel !in ptrs
    requires forall i :: 0 <= i < |sorted| ==> sorted[i].order < |ptrs|
    requires forall i, j :: 0 <= i < j < |sorted| ==> sorted[i].order != sorted[j].order
    requires forall i, j :: 0 <= i < j < |ptrs| ==> ptrs[i] != ptrs[j]
    modifies sentinel, ptrs
    ensures Chain(sentinel.next, Reordered(ptrs, sorted))
  {
    ghost var out := Reordered(ptrs, sorted);
    var n := |sorted|;
    sentinel.next := ptrs[sorted[0].order];
    for i := 0 to n - 1
      invariant sentinel.next == out[0]
      invariant forall k {:trigger out[k].next} :: 0 <= k < i ==> out[k].next == out[k + 1]
    {
      assert out[i] in ptrs;
      ptrs[sorted[i].order].next := ptrs[sorted[i + 1].order];
    }
    assert out[n - 1] in ptrs;
    ptrs[sorted[n - 1].order].next := null;
  }
}
