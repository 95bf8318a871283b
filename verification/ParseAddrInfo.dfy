/** ares__parse_into_addrinfo.c: the answer section of a response, following CNAMEs as they come. */
module ParseAddrInfo {
  import opened Octets
  import opened DomainNames
  import ExpandName

  const RRFIXEDSZ := 10
  const C_IN := 1
  const T_A := 1
  const T_CNAME := 5
  const T_AAAA := 28

  type Text = seq<octet>

  datatype Status = Success | BadResponse | NoData
  datatype Family = Inet | Inet6
  datatype Node = Node(family: Family, addr: seq<octet>, ttl: int)
  datatype Cname = Cname(ttl: int, alias: Text, name: Text)

  /** A resource record: owner text, fixed fields, and where its data lies. */
  datatype Record = Record(owner: Text, rtype: nat, rclass: nat, ttl: int, data: nat, len: nat)

  /** The caller's result lists. */
  class AddrInfo {
    var nodes: seq<Node>
    var cnames: seq<Cname>
    constructor ()
      ensures nodes == [] && cnames == []
    {
      nodes, cnames := [], [];
    }
  }

  // ---- specification ---------------------------------------------------------------

  /** An unsigned 32-bit field stored in a C int. */
  function AsInt32(v: nat): int {
    if v < 0x8000_0000 then v else v - 0x1_0000_0000
  }

  function TextAt(m: seq<octet>, p: nat): Option<Text> {
    match NameAt(m, p)
    case None => None
    case Some(labels) => Some(Dotted(labels))
  }

  /** The record at p and the offset behind it. */
  function RecordAt(m: seq<octet>, p: nat): Option<(Record, nat)> {
    if p >= |m| || TextAt(m, p).None? then None
    else
      var f := p + Span(m, p);
      if f + RRFIXEDSZ > |m| then None
      else
        var len := Read16(m, f + 8);
        var data := f + RRFIXEDSZ;
        if data + len > |m| then None
        else Some((Record(TextAt(m, p).value, Read16(m, f), Read16(m, f + 2), AsInt32(Read32(m, f + 4)), data, len),
                   data + len))
  }

  function Records(m: seq<octet>, p: nat, count: nat): Option<seq<Record>>
    decreases count
  {
    if count == 0 then Some([])
    else match RecordAt(m, p)
      case None => None
      case Some(pair) =>
        match Records(m, pair.1, count - 1)
        case None => None
        case Some(more) => Some([pair.0] + more)
  }

  predicate IsCname(r: Record) { r.rclass == C_IN && r.rtype == T_CNAME }
  predicate IsA(r: Record) { r.rclass == C_IN && r.rtype == T_A && r.len == 4 }
  predicate IsAaaa(r: Record) { r.rclass == C_IN && r.rtype == T_AAAA && r.len == 16 }

  /** Every alias among the records names a readable target. */
  ghost predicate TargetsReadable(m: seq<octet>, rs: seq<Record>) {
    forall i {:trigger IsCname(rs[i])} :: 0 <= i < |rs| && IsCname(rs[i]) ==> TextAt(m, rs[i].data).Some?
  }

  /** The name being looked for once `rs` have been seen: the last alias target, else the question. */
  function HostAfter(m: seq<octet>, question: Text, rs: seq<Record>): Text {
    if rs == [] then question
    else
      var r := rs[|rs| - 1];
      if IsCname(r) && TextAt(m, r.data).Some? then TextAt(m, r.data).value
      else HostAfter(m, question, rs[..|rs| - 1])
  }

  /** Record i is an address of the name looked for at that point. */
  ghost predicate Answers(m: seq<octet>, question: Text, rs: seq<Record>, i: nat)
    requires i < |rs|
  {
    (IsA(rs[i]) || IsAaaa(rs[i])) && EqualIgnoringCase(rs[i].owner, HostAfter(m, question, rs[..i]))
  }

  /** Indices of the answering records, in order. */
  ghost function Picked(m: seq<octet>, question: Text, rs: seq<Record>): seq<nat> {
    if rs == [] then []
    else Picked(m, question, rs[..|rs| - 1]) + (if Answers(m, question, rs, |rs| - 1) then [|rs| - 1] else [])
  }

  ghost function AliasIndices(rs: seq<Record>): seq<nat> {
    if rs == [] then []
    else AliasIndices(rs[..|rs| - 1]) + if IsCname(rs[|rs| - 1]) then [|rs| - 1] else []
  }

  function NodeOf(m: seq<octet>, r: Record): Node
    requires r.data + r.len <= |m|
  {
    Node(if r.rtype == T_A then Inet else Inet6, m[r.data..r.data + r.len], r.ttl)
  }

  function CnameOf(m: seq<octet>, r: Record): Cname
    requires TextAt(m, r.data).Some?
  {
    Cname(r.ttl, r.owner, TextAt(m, r.data).value)
  }

  ghost predicate InMessage(m: seq<octet>, rs: seq<Record>) {
    forall i :: 0 <= i < |rs| ==> rs[i].data + rs[i].len <= |m|
  }

  ghost function NodesOf(m: seq<octet>, question: Text, rs: seq<Record>): seq<Node>
    requires InMessage(m, rs)
  {
    PickedInRange(m, question, rs);
    var at := Picked(m, question, rs);
    seq(|at|, j requires 0 <= j < |at| => NodeOf(m, rs[at[j]]))
  }

  ghost function CnamesOf(m: seq<octet>, rs: seq<Record>): seq<Cname>
    requires TargetsReadable(m, rs)
  {
    AliasesExact(rs);
    var at := AliasIndices(rs);
    seq(|at|, j requires 0 <= j < |at| => CnameOf(m, rs[at[j]]))
  }

  /** The picked indices are exactly the answering ones, each once, in ascending order. */
  lemma {:induction false} PickedExact(m: seq<octet>, question: Text, rs: seq<Record>)
    ensures forall j :: 0 <= j < |Picked(m, question, rs)| ==> Picked(m, question, rs)[j] < |rs|
    ensures forall j, k :: 0 <= j < k < |Picked(m, question, rs)| ==>
      Picked(m, question, rs)[j] < Picked(m, question, rs)[k]
    ensures forall i: nat :: i < |rs| ==> (i in Picked(m, question, rs) <==> Answers(m, question, rs, i))
  {
    if rs != [] {
      var init := rs[..|rs| - 1];
      PickedExact(m, question, init);
      forall i: nat | i < |init| ensures Answers(m, question, init, i) <==> Answers(m, question, rs, i) {
        assert init[..i] == rs[..i];
      }
    }
  }

  /** Once an alias has been seen, and until the next one, its target is the name looked for. */
  lemma {:induction false} HostAfterAlias(m: seq<octet>, question: Text, rs: seq<Record>, i: nat, j: nat)
    requires i < j <= |rs| && IsCname(rs[i]) && TextAt(m, rs[i].data).Some?
    requires forall k :: i < k < j ==> !IsCname(rs[k])
    ensures HostAfter(m, question, rs[..j]) == TextAt(m, rs[i].data).value
    decreases j
  {
    assert rs[..j][..j - 1] == rs[..j - 1];
    if j > i + 1 { HostAfterAlias(m, question, rs, i, j - 1); }
  }

  lemma {:induction false} HostBeforeAliases(m: seq<octet>, question: Text, rs: seq<Record>, j: nat)
    requires j <= |rs| && forall k :: 0 <= k < j ==> !IsCname(rs[k])
    ensures HostAfter(m, question, rs[..j]) == question
  {
    if j > 0 {
      assert rs[..j][..j - 1] == rs[..j - 1];
      HostBeforeAliases(m, question, rs, j - 1);
    }
  }

  /** An IPv4 or IPv6 address of class Internet, by its type code and length (RFC 1035 section 3.4.1, RFC 3596). */
  predicate HoldsAddress(r: Record) {
    r.rclass == 1 && ((r.rtype == 1 && r.len == 4) || (r.rtype == 28 && r.len == 16))
  }

  /** Behind an alias exactly the addresses of its target are taken, up to the next alias. */
  lemma AliasIsFollowed(m: seq<octet>, question: Text, rs: seq<Record>, i: nat, j: nat)
    requires i < j < |rs| && rs[i].rclass == 1 && rs[i].rtype == 5 && TextAt(m, rs[i].data).Some?
    requires forall k :: i < k < j ==> !(rs[k].rclass == 1 && rs[k].rtype == 5)
    ensures j in Picked(m, question, rs) <==>
      HoldsAddress(rs[j]) && EqualIgnoringCase(rs[j].owner, TextAt(m, rs[i].data).value)
  {
    HostAfterAlias(m, question, rs, i, j);
    PickedExact(m, question, rs);
  }

  /** Before any alias exactly the addresses of the question are. */
  lemma QuestionIsAnswered(m: seq<octet>, question: Text, rs: seq<Record>, j: nat)
    requires j < |rs| && forall k :: 0 <= k < j ==> !(rs[k].rclass == 1 && rs[k].rtype == 5)
    ensures j in Picked(m, question, rs) <==> HoldsAddress(rs[j]) && EqualIgnoringCase(rs[j].owner, question)
  {
    HostBeforeAliases(m, question, rs, j);
    PickedExact(m, question, rs);
  }

  lemma PickedInRange(m: seq<octet>, question: Text, rs: seq<Record>)
    ensures forall j :: 0 <= j < |Picked(m, question, rs)| ==> Picked(m, question, rs)[j] < |rs|
  {
    PickedExact(m, question, rs);
  }

  lemma {:induction false} AliasesExact(rs: seq<Record>)
    ensures forall j :: 0 <= j < |AliasIndices(rs)| ==>
      AliasIndices(rs)[j] < |rs| && IsCname(rs[AliasIndices(rs)[j]])
    ensures forall j, k :: 0 <= j < k < |AliasIndices(rs)| ==> AliasIndices(rs)[j] < AliasIndices(rs)[k]
    ensures forall i: nat :: i < |rs| && IsCname(rs[i]) ==> i in AliasIndices(rs)
  {
    if rs != [] {
      var init, last := rs[..|rs| - 1], |rs| - 1;
      AliasesExact(init);
      var at := AliasIndices(init);
      assert forall i :: 0 <= i < |init| ==> init[i] == rs[i];
      assert AliasIndices(rs) == if IsCname(rs[last]) then at + [last] else at;
      forall i: nat | i < |rs| && IsCname(rs[i]) ensures i in AliasIndices(rs) {
        if i < last { assert IsCname(init[i]) && i in at; }
      }
    }
  }

  datatype Outcome = Rejected | Decoded(question: Text, records: seq<Record>)

  /** Header and question, then every announced record and every alias target, or nothing. */
  function Decode(m: seq<octet>): Outcome {
    if |m| < HFIXEDSZ || Read16(m, 4) != 1 then Rejected
    else match TextAt(m, HFIXEDSZ)
      case None => Rejected
      case Some(question) =>
        var p := HFIXEDSZ + Span(m, HFIXEDSZ) + QFIXEDSZ;
        if p > |m| then Rejected
        else match Records(m, p, Read16(m, 6))
          case None => Rejected
          case Some(rs) =>
            if exists i :: 0 <= i < |rs| && IsCname(rs[i]) && TextAt(m, rs[i].data).None? then Rejected
            else Decoded(question, rs)
  }

  /** Once the question has been read, the answers decide. */
  lemma DecodeAnswers(m: seq<octet>, question: Text, p: nat)
    requires |m| >= HFIXEDSZ && Read16(m, 4) == 1 && TextAt(m, HFIXEDSZ) == Some(question)
    requires p == HFIXEDSZ + Span(m, HFIXEDSZ) + QFIXEDSZ <= |m|
    ensures var rs := Records(m, p, Read16(m, 6));
      Decode(m) == if rs.Some? && TargetsReadable(m, rs.value) then Decoded(question, rs.value) else Rejected
  {
  }

  ghost function ExpectedStatus(m: seq<octet>): Status {
    match Decode(m)
    case Rejected => BadResponse
    case Decoded(question, rs) =>
      if AliasIndices(rs) == [] && Picked(m, question, rs) == [] then NoData else Success
  }

  // ---- properties of the decoding --------------------------------------------------

  /** A record takes at least 11 bytes and ends inside the message. */
  lemma RecordAdvances(m: seq<octet>, p: nat)
    requires RecordAt(m, p).Some?
    ensures p + 1 + RRFIXEDSZ <= RecordAt(m, p).value.1 <= |m|
    ensures RecordAt(m, p).value.0.data + RecordAt(m, p).value.0.len == RecordAt(m, p).value.1
  {
    SpanInMessage(m, p, Min(|m|, MAX_INDIRS));
  }

  /** So a response can only be accepted when the announced answers could fit. */
  lemma {:induction false} RecordsFit(m: seq<octet>, p: nat, count: nat)
    requires p <= |m| && Records(m, p, count).Some?
    ensures |Records(m, p, count).value| == count && p + 11 * count <= |m|
    ensures InMessage(m, Records(m, p, count).value)
    decreases count
  {
    if count > 0 {
      RecordAdvances(m, p);
      RecordsFit(m, RecordAt(m, p).value.1, count - 1);
    }
  }

  lemma DecodedInMessage(m: seq<octet>)
    requires Decode(m).Decoded?
    ensures InMessage(m, Decode(m).records) && TargetsReadable(m, Decode(m).records)
    ensures 11 * |Decode(m).records| + HFIXEDSZ + QFIXEDSZ < |m|
    ensures Read16(m, 4) == 1 && Read16(m, 6) == |Decode(m).records|
    ensures TextAt(m, 12) == Some(Decode(m).question)
  {
    var p := HFIXEDSZ + Span(m, HFIXEDSZ) + QFIXEDSZ;
    RecordsFit(m, p, Read16(m, 6));
    SpanInMessage(m, HFIXEDSZ, Min(|m|, MAX_INDIRS));
  }

  /** No data: all was read, and there is neither an alias nor an address of the name asked for. */
  lemma StatusExactly(m: seq<octet>)
    ensures ExpectedStatus(m) == BadResponse <==> Decode(m).Rejected?
    ensures ExpectedStatus(m) == NoData <==> Decode(m).Decoded? && var rs := Decode(m).records;
      forall i :: 0 <= i < |rs| ==>
        && !(rs[i].rclass == 1 && rs[i].rtype == 5)
        && !(HoldsAddress(rs[i]) && EqualIgnoringCase(rs[i].owner, Decode(m).question))
  {
    if Decode(m).Decoded? { NothingPicked(m, Decode(m).question, Decode(m).records); }
  }

  lemma NothingPicked(m: seq<octet>, question: Text, rs: seq<Record>)
    ensures AliasIndices(rs) == [] && Picked(m, question, rs) == [] <==> forall i :: 0 <= i < |rs| ==>
      && !(rs[i].rclass == 1 && rs[i].rtype == 5)
      && !(HoldsAddress(rs[i]) && EqualIgnoringCase(rs[i].owner, question))
  {
    NoAliasListed(rs);
    if forall k :: 0 <= k < |rs| ==> !(rs[k].rclass == 1 && rs[k].rtype == 5) {
      PickedExact(m, question, rs);
      forall i: nat | i < |rs|
        ensures i in Picked(m, question, rs) <==> HoldsAddress(rs[i]) && EqualIgnoringCase(rs[i].owner, question)
      {
        QuestionIsAnswered(m, question, rs, i);
      }
      if Picked(m, question, rs) != [] { assert Picked(m, question, rs)[0] in Picked(m, question, rs); }
    }
  }

  lemma NoAliasListed(rs: seq<Record>)
    ensures AliasIndices(rs) == [] <==> forall k :: 0 <= k < |rs| ==> !(rs[k].rclass == 1 && rs[k].rtype == 5)
  {
    AliasesExact(rs);
    if AliasIndices(rs) != [] { assert IsCname(rs[AliasIndices(rs)[0]]); }
  }

  // ---- implementation --------------------------------------------------------------

  /** Reads one name; the method keeps it as text. */
  method ReadText(m: seq<octet>, p: nat) returns (text: Option<Text>, len: nat)
    ensures text == TextAt(m, p)
    ensures text.Some? ==> p < |m| && len == Span(m, p) && p + len <= |m| && len >= 1
  {
    var status, s, enclen := ExpandName.Expand(m, p);
    if status == ExpandName.BadName { return None, 0; }
    text, len := Some(s[..s.Length - 1]), enclen;
  }

  /** What the loop variables hold once the records `got` have been examined. */
  ghost predicate Collected(m: seq<octet>, question: Text, got: seq<Record>, hostname: Text, nodes: seq<Node>,
                            cnames: seq<Cname>, gotAddress: bool, gotCname: bool)
  {
    && InMessage(m, got) && TargetsReadable(m, got)
    && hostname == HostAfter(m, question, got)
    && nodes == NodesOf(m, question, got) && cnames == CnamesOf(m, got)
    && (gotAddress <==> Picked(m, question, got) != [])
    && (gotCname <==> AliasIndices(got) != [])
  }

  /**
   On success the caller's lists grow by exactly the answers and aliases, in message order; on any
   other status they are untouched.
   */
  method Parse(m: seq<octet>, ai: AddrInfo) returns (status: Status, question: Option<Text>)
    modifies ai
    ensures status == ExpectedStatus(m)
    ensures status == Success ==>
      && Decode(m).Decoded? && question == Some(Decode(m).question)
      && InMessage(m, Decode(m).records) && TargetsReadable(m, Decode(m).records)
      && ai.nodes == old(ai.nodes) + NodesOf(m, Decode(m).question, Decode(m).records)
      && ai.cnames == old(ai.cnames) + CnamesOf(m, Decode(m).records)
    ensures status != Success ==> ai.nodes == old(ai.nodes) && ai.cnames == old(ai.cnames)
  {
    var ok, nodes, cnames, gotAddress, gotCname;
    ok, question, nodes, cnames, gotAddress, gotCname := ReadSections(m);
    if !ok { return BadResponse, question; }
    ai.nodes := ai.nodes + nodes;
    if gotCname {
      ai.cnames := ai.cnames + cnames;
      return Success, question;
    } else if !gotAddress {
      return NoData, question;
    }
    status := Success;
  }

  /** The question and the answers; nothing of the caller's is touched yet. */
  method ReadSections(m: seq<octet>)
    returns (ok: bool, question: Option<Text>, nodes: seq<Node>, cnames: seq<Cname>, gotAddress: bool, gotCname: bool)
    ensures ok <==> Decode(m).Decoded?
    ensures ok ==> question == Some(Decode(m).question)
    ensures ok ==> var rs := Decode(m).records;
      Collected(m, question.value, rs, HostAfter(m, question.value, rs), nodes, cnames, gotAddress, gotCname)
  {
    ok, question, nodes, cnames, gotAddress, gotCname := false, None, [], [], false, false;
    if |m| < HFIXEDSZ { return; }
    var qdcount, ancount := Read16(m, 4), Read16(m, 6);
    if qdcount != 1 { return; }
    var p, len := HFIXEDSZ, 0;
    question, len := ReadText(m, p);
    if question.None? { return; }
    if p + len + QFIXEDSZ > |m| { return; }
    p := p + len + QFIXEDSZ;
    DecodeAnswers(m, question.value, p);
    ok, nodes, cnames, gotAddress, gotCname := ReadAnswers(m, p, ancount, question.value);
  }

  /** Owner and fixed fields of one record, every bound checked. */
  method ReadRecord(m: seq<octet>, p: nat) returns (r: Option<Record>)
    ensures RecordAt(m, p) == if r.None? then None else Some((r.value, r.value.data + r.value.len))
    ensures r.Some? ==> p + 1 + RRFIXEDSZ + r.value.len <= r.value.data + r.value.len <= |m|
  {
    var name, len := ReadText(m, p);
    if name.None? { return None; }
    var f := p + len;
    if f + RRFIXEDSZ > |m| { return None; }
    var data, rrLen := f + RRFIXEDSZ, Read16(m, f + 8);
    if data + rrLen > |m| { return None; }
    return Some(Record(name.value, Read16(m, f), Read16(m, f + 2), AsInt32(Read32(m, f + 4)), data, rrLen));
  }

  /** Append the address of a matching A or AAAA record. */
  method TakeAddress(m: seq<octet>, r: Record, hostname: Text, nodes0: seq<Node>) returns (nodes: seq<Node>, hit: bool)
    requires r.data + r.len <= |m|
    ensures hit <==> (IsA(r) || IsAaaa(r)) && EqualIgnoringCase(r.owner, hostname)
    ensures nodes == nodes0 + if hit then [NodeOf(m, r)] else []
  {
    nodes, hit := nodes0, false;
    if IsA(r) && EqualIgnoringCase(r.owner, hostname) {
      hit, nodes := true, nodes + [Node(Inet, m[r.data..r.data + 4], r.ttl)];
    } else if IsAaaa(r) && EqualIgnoringCase(r.owner, hostname) {
      hit, nodes := true, nodes + [Node(Inet6, m[r.data..r.data + 16], r.ttl)];
    }
  }

  /** Follow an alias record: its target becomes the name looked for. */
  method TakeAlias(m: seq<octet>, r: Record, hostname0: Text, cnames0: seq<Cname>)
    returns (ok: bool, hostname: Text, cnames: seq<Cname>)
    ensures ok <==> IsCname(r) ==> TextAt(m, r.data).Some?
    ensures ok && IsCname(r) ==>
      hostname == TextAt(m, r.data).value && cnames == cnames0 + [CnameOf(m, r)]
    ensures !IsCname(r) ==> hostname == hostname0 && cnames == cnames0
  {
    ok, hostname, cnames := true, hostname0, cnames0;
    if IsCname(r) {
      var target, _ := ReadText(m, r.data);
      if target.None? { return false, hostname, cnames; }
      hostname := target.value;
      cnames := cnames + [Cname(r.ttl, r.owner, hostname)];
    }
  }

  lemma AllRead(m: seq<octet>, p: nat, got: seq<Record>, whole: Option<seq<Record>>)
    requires After(got, Records(m, p, 0)) == whole
    ensures whole == Some(got)
  {
    assert got + [] == got;
  }

  lemma NothingCollected(m: seq<octet>, question: Text)
    ensures Collected(m, question, [], question, [], [], false, false)
  {
  }

  /** The record loop. */
  method ReadAnswers(m: seq<octet>, p0: nat, ancount: nat, question: Text)
    returns (ok: bool, nodes: seq<Node>, cnames: seq<Cname>, gotAddress: bool, gotCname: bool)
    requires p0 <= |m|
    ensures ok <==> Records(m, p0, ancount).Some? && TargetsReadable(m, Records(m, p0, ancount).value)
    ensures ok ==> var rs := Records(m, p0, ancount).value;
      Collected(m, question, rs, HostAfter(m, question, rs), nodes, cnames, gotAddress, gotCname)
  {
    var p, hostname := p0, question;
    nodes, cnames, gotAddress, gotCname := [], [], false, false;
    ghost var got: seq<Record> := [];
    ghost var whole, left := Records(m, p0, ancount), ancount;
    AfterNothing(whole);
    NothingCollected(m, question);
    for i := 0 to ancount
      invariant left == ancount - i
      invariant 0 <= p <= |m|
      invariant After(got, Records(m, p, left)) == whole
      invariant Collected(m, question, got, hostname, nodes, cnames, gotAddress, gotCname)
    {
      var hit, alias;
      ok, p, hostname, nodes, cnames, hit, alias, got := ReadAnswer(m, p, hostname, nodes, cnames, gotAddress, gotCname,
                                                                    question, left, got, whole);
      left := left - 1;
      if !ok { return false, [], [], false, false; }
      gotAddress, gotCname := gotAddress || hit, gotCname || alias;
    }
    AllRead(m, p, got, whole);
    ok := true;
  }

  /** One round of the record loop. */
  method ReadAnswer(m: seq<octet>, p0: nat, hostname0: Text, nodes0: seq<Node>, cnames0: seq<Cname>,
                    ghost gotAddress: bool, ghost gotCname: bool,
                    ghost question: Text, ghost left: nat, ghost got0: seq<Record>, ghost whole: Option<seq<Record>>)
    returns (ok: bool, p: nat, hostname: Text, nodes: seq<Node>, cnames: seq<Cname>, hit: bool, alias: bool,
             ghost got: seq<Record>)
    requires left > 0 && After(got0, Records(m, p0, left)) == whole
    requires Collected(m, question, got0, hostname0, nodes0, cnames0, gotAddress, gotCname)
    ensures !ok ==> whole.None? || !TargetsReadable(m, whole.value)
    ensures ok ==> p <= |m| && After(got, Records(m, p, left - 1)) == whole
    ensures ok ==> Collected(m, question, got, hostname, nodes, cnames, gotAddress || hit, gotCname || alias)
  {
    ok, p, hostname, nodes, cnames, hit, alias, got := false, p0, hostname0, nodes0, cnames0, false, false, got0;
    var record := ReadRecord(m, p);
    if record.None? { return; }
    var r := record.value;
    p := r.data + r.len;
    AfterStep(m, got, p0, left, r, p, whole);
    NodesStep(m, question, got, r);
    nodes, hit := TakeAddress(m, r, hostname, nodes);
    alias := IsCname(r);
    ok, hostname, cnames := TakeAlias(m, r, hostname, cnames);
    if !ok {
      UnreadableStays(m, got, r, Records(m, p, left - 1), whole);
      return;
    }
    CnamesStep(m, got, r);
    assert (got + [r])[..|got|] == got;
    got := got + [r];
  }

  lemma AfterStep(m: seq<octet>, got: seq<Record>, p: nat, left: nat, r: Record, next: nat, whole: Option<seq<Record>>)
    requires left > 0 && RecordAt(m, p) == Some((r, next)) && After(got, Records(m, p, left)) == whole
    ensures After(got + [r], Records(m, next, left - 1)) == whole
  {
    var rest := Records(m, next, left - 1);
    if rest.Some? { assert got + [r] + rest.value == got + ([r] + rest.value); }
  }

  lemma UnreadableStays(m: seq<octet>, got: seq<Record>, r: Record, rest: Option<seq<Record>>,
                        whole: Option<seq<Record>>)
    requires IsCname(r) && TextAt(m, r.data).None? && After(got + [r], rest) == whole
    ensures whole.None? || !TargetsReadable(m, whole.value)
  {
    if whole.Some? { assert whole.value[|got|] == r; }
  }

  lemma NodesStep(m: seq<octet>, question: Text, got: seq<Record>, r: Record)
    requires InMessage(m, got) && r.data + r.len <= |m|
    ensures InMessage(m, got + [r])
    ensures var hit := (IsA(r) || IsAaaa(r)) && EqualIgnoringCase(r.owner, HostAfter(m, question, got));
      && Picked(m, question, got + [r]) == Picked(m, question, got) + (if hit then [|got|] else [])
      && NodesOf(m, question, got + [r]) == NodesOf(m, question, got) + if hit then [NodeOf(m, r)] else []
  {
    assert (got + [r])[..|got|] == got;
    PickedInRange(m, question, got);
  }

  lemma AliasIndicesStep(got: seq<Record>, r: Record)
    ensures AliasIndices(got + [r]) == AliasIndices(got) + if IsCname(r) then [|got|] else []
  {
    var all := got + [r];
    assert all[..|all| - 1] == got && all[|all| - 1] == r;
  }

  lemma TargetsStep(m: seq<octet>, got: seq<Record>, r: Record)
    requires TargetsReadable(m, got) && (IsCname(r) ==> TextAt(m, r.data).Some?)
    ensures TargetsReadable(m, got + [r])
  {
  }

  /** The aliases before r are what they were. */
  lemma CnamesKept(m: seq<octet>, got: seq<Record>, r: Record, j: nat)
    requires TargetsReadable(m, got) && TargetsReadable(m, got + [r]) && j < |AliasIndices(got)|
    ensures j < |CnamesOf(m, got + [r])| && CnamesOf(m, got + [r])[j] == CnamesOf(m, got)[j]
  {
    AliasIndicesStep(got, r);
    AliasesExact(got);
    var at := AliasIndices(got);
    assert (got + [r])[at[j]] == got[at[j]];
  }

  lemma CnamesStep(m: seq<octet>, got: seq<Record>, r: Record)
    requires TargetsReadable(m, got) && (IsCname(r) ==> TextAt(m, r.data).Some?)
    ensures TargetsReadable(m, got + [r])
    ensures AliasIndices(got + [r]) == AliasIndices(got) + if IsCname(r) then [|got|] else []
    ensures CnamesOf(m, got + [r]) == CnamesOf(m, got) + if IsCname(r) then [CnameOf(m, r)] else []
  {
    TargetsStep(m, got, r);
    AliasIndicesStep(got, r);
    var was, now := CnamesOf(m, got), CnamesOf(m, got + [r]);
    forall j: nat | j < |was| ensures now[j] == was[j] { CnamesKept(m, got, r, j); }
    if IsCname(r) {
      NewCname(m, got, r);
      Extended(was, now);
    } else {
      assert now == was + [];
    }
  }

  /** An alias read last is listed last. */
  lemma NewCname(m: seq<octet>, got: seq<Record>, r: Record)
    requires TargetsReadable(m, got + [r]) && TargetsReadable(m, got) && IsCname(r) && TextAt(m, r.data).Some?
    ensures |CnamesOf(m, got + [r])| == |CnamesOf(m, got)| + 1
    ensures CnamesOf(m, got + [r])[|CnamesOf(m, got)|] == CnameOf(m, r)
  {
    AliasIndicesStep(got, r);
    assert (got + [r])[|got|] == r;
  }

  lemma Extended<T>(was: seq<T>, now: seq<T>)
    requires |now| == |was| + 1 && forall j :: 0 <= j < |was| ==> now[j] == was[j]
    ensures now == was + [now[|was|]]
  {
  }
}
