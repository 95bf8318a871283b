/**
 Resource records as they are written (RFC 1035 sections 4.1.3 and 3.2.1), and that ParseAddrInfo reads them back:
 one record, a whole answer section, a whole response, and the EDNS record CreateQuery appends (RFC 6891).
 */
module Responses {
  import opened Octets
  import opened Slices
  import opened DomainNames
  import opened ParseAddrInfo
  import CreateQuery

  function Bytes32(v: int): (r: seq<octet>)
    ensures |r| == 4
  {
    Bytes16(v / 0x1_0000) + Bytes16(v)
  }

  /** The fixed fields of a record: type, class, time to live, length. */
  function Fields(rtype: nat, rclass: nat, ttl: int, len: nat): (r: seq<octet>)
    ensures |r| == RRFIXEDSZ
  {
    Bytes16(rtype) + Bytes16(rclass) + Bytes32(ttl) + Bytes16(len)
  }

  lemma {:induction false} FieldsReadBack(rtype: nat, rclass: nat, ttl: int, len: nat)
    requires rtype < 0x1_0000 && rclass < 0x1_0000 && -0x8000_0000 <= ttl < 0x8000_0000 && len < 0x1_0000
    ensures var f := Fields(rtype, rclass, ttl, len);
      Read16(f, 0) == rtype && Read16(f, 2) == rclass && AsInt32(Read32(f, 4)) == ttl && Read16(f, 8) == len
  {
    var f := Fields(rtype, rclass, ttl, len);
    StoredReadBack(f, 0, rtype);
    StoredReadBack(f, 2, rclass);
    StoredReadBack(f, 4, ttl / 0x1_0000);
    StoredReadBack(f, 6, ttl);
    StoredReadBack(f, 8, len);
    TtlReadBack(ttl);
  }

  /** Halves of a number that fits 32 bits with its sign. */
  lemma {:induction false} TtlReadBack(v: int)
    requires -0x8000_0000 <= v < 0x8000_0000
    ensures AsInt32((v / 0x1_0000) % 0x1_0000 * 0x1_0000 + v % 0x1_0000) == v
  {
  }

  lemma {:induction false} StoredReadBack(f: seq<octet>, k: nat, v: int)
    requires k + 2 <= |f| && f[k..k + 2] == Bytes16(v)
    ensures Read16(f, k) == v % 0x1_0000
  {
    assert f[k] == Bytes16(v)[0] && f[k + 1] == Bytes16(v)[1];
  }

  // ---- one record ----------------------------------------------------------------------------------

  /** A record to be written: owner, fixed fields, data. */
  datatype Rr = Rr(owner: seq<Label>, fields: seq<octet>, data: seq<octet>)

  ghost predicate Writable(rr: Rr) {
    WireLabels(rr.owner) && |rr.fields| == RRFIXEDSZ && Read16(rr.fields, 8) == |rr.data|
  }

  function Written(rr: Rr): seq<octet> { Wire(rr.owner) + (rr.fields + rr.data) }

  /** What reading the record at p gives. */
  function ReadAs(rr: Rr, p: nat): Record
    requires |rr.fields| == RRFIXEDSZ
  {
    var f := rr.fields;
    Record(Dotted(rr.owner), Read16(f, 0), Read16(f, 2), AsInt32(Read32(f, 4)),
           p + |Wire(rr.owner)| + RRFIXEDSZ, |rr.data|)
  }

  lemma {:induction false} NameReadsBack(m: seq<octet>, p: nat, labels: seq<Label>)
    requires WireLabels(labels) && HoldsAt(m, p, Wire(labels))
    ensures TextAt(m, p) == Some(Dotted(labels)) && p < |m| && Span(m, p) == |Wire(labels)|
  {
    WalkReadsWire(m, p, labels, Min(|m|, MAX_INDIRS));
  }

  lemma {:induction false} SameFields(m: seq<octet>, p: nat, f: seq<octet>)
    requires |f| == RRFIXEDSZ && HoldsAt(m, p, f)
    ensures Read16(m, p) == Read16(f, 0) && Read16(m, p + 2) == Read16(f, 2) && Read16(m, p + 8) == Read16(f, 8)
    ensures Read32(m, p + 4) == Read32(f, 4)
  {
    HoldsElement(m, p, f, 0);
    HoldsElement(m, p, f, 1);
    HoldsElement(m, p, f, 2);
    HoldsElement(m, p, f, 3);
    HoldsElement(m, p, f, 4);
    HoldsElement(m, p, f, 5);
    HoldsElement(m, p, f, 6);
    HoldsElement(m, p, f, 7);
    HoldsElement(m, p, f, 8);
    HoldsElement(m, p, f, 9);
  }

  /** A record written anywhere in a message is read back, owner, fields and data. */
  lemma {:induction false} RecordReadsBack(m: seq<octet>, p: nat, rr: Rr)
    requires Writable(rr) && HoldsAt(m, p, Written(rr))
    ensures ReadsBack(m, p, rr)
  {
    var f := p + |Wire(rr.owner)|;
    RecordParts(m, p, rr);
    NameReadsBack(m, p, rr.owner);
    SameFields(m, f, rr.fields);
    RecordShape(m, p, rr, f);
  }

  ghost predicate ReadsBack(m: seq<octet>, p: nat, rr: Rr)
    requires |rr.fields| == RRFIXEDSZ
  {
    RecordAt(m, p) == Some((ReadAs(rr, p), p + |Written(rr)|)) && HoldsAt(m, ReadAs(rr, p).data, rr.data)
  }

  lemma {:induction false} RecordParts(m: seq<octet>, p: nat, rr: Rr)
    requires Writable(rr) && HoldsAt(m, p, Written(rr))
    ensures var f := p + |Wire(rr.owner)|;
      && HoldsAt(m, p, Wire(rr.owner)) && HoldsAt(m, f, rr.fields) && HoldsAt(m, f + RRFIXEDSZ, rr.data)
      && p + |Written(rr)| == f + RRFIXEDSZ + |rr.data|
  {
    HoldsParts(m, p, Wire(rr.owner), rr.fields + rr.data);
    HoldsParts(m, p + |Wire(rr.owner)|, rr.fields, rr.data);
  }

  /** A record whose owner and fields have been read. */
  lemma {:induction false} RecordShape(m: seq<octet>, p: nat, rr: Rr, f: nat)
    requires Writable(rr) && f == p + |Wire(rr.owner)| && HoldsAt(m, f + RRFIXEDSZ, rr.data)
    requires p < |m| && TextAt(m, p) == Some(Dotted(rr.owner)) && p + Span(m, p) == f
    requires Read16(m, f) == Read16(rr.fields, 0) && Read16(m, f + 2) == Read16(rr.fields, 2)
    requires Read32(m, f + 4) == Read32(rr.fields, 4) && Read16(m, f + 8) == Read16(rr.fields, 8)
    ensures ReadsBack(m, p, rr)
  {
    RecordFields(m, p, Dotted(rr.owner), f, |rr.data|);
  }

  lemma {:induction false} RecordFields(m: seq<octet>, p: nat, owner: Text, f: nat, len: nat)
    requires p < |m| && TextAt(m, p) == Some(owner) && p + Span(m, p) == f
    requires f + RRFIXEDSZ + len <= |m| && Read16(m, f + 8) == len
    ensures RecordAt(m, p) == Some((Record(owner, Read16(m, f), Read16(m, f + 2), AsInt32(Read32(m, f + 4)),
                                           f + RRFIXEDSZ, len), f + RRFIXEDSZ + len))
  {
  }

  // ---- an answer section ---------------------------------------------------------------------------

  function WrittenAll(rrs: seq<Rr>): seq<octet> {
    if rrs == [] then [] else Written(rrs[0]) + WrittenAll(rrs[1..])
  }

  ghost predicate AllWritable(rrs: seq<Rr>) { forall i :: 0 <= i < |rrs| ==> Writable(rrs[i]) }

  /** The data of an alias is the wire form of its target. */
  ghost predicate Targets(rr: Rr, target: seq<Label>) { WireLabels(target) && rr.data == Wire(target) }

  /** What reading the records from p on gives. */
  ghost function ReadAll(rrs: seq<Rr>, p: nat): (r: seq<Record>)
    requires AllWritable(rrs)
    ensures |r| == |rrs|
  {
    if rrs == [] then [] else [ReadAs(rrs[0], p)] + ReadAll(rrs[1..], p + |Written(rrs[0])|)
  }

  /** A whole answer section is read back. */
  lemma {:induction false} RecordsReadBack(m: seq<octet>, p: nat, rrs: seq<Rr>)
    requires AllWritable(rrs) && HoldsAt(m, p, WrittenAll(rrs))
    ensures Records(m, p, |rrs|) == Some(ReadAll(rrs, p))
    decreases |rrs|
  {
    if rrs != [] {
      var more, next := rrs[1..], p + |Written(rrs[0])|;
      ReadAllCons(rrs, p, more, next);
      SectionParts(m, p, rrs);
      RecordReadsBack(m, p, rrs[0]);
      RecordsReadBack(m, next, more);
      RecordsCons(m, p, next, |more|, rrs[0], ReadAll(more, next));
    }
  }

  lemma {:induction false} ReadAllCons(rrs: seq<Rr>, p: nat, more: seq<Rr>, next: nat)
    requires AllWritable(rrs) && rrs != [] && more == rrs[1..] && next == p + |Written(rrs[0])|
    ensures AllWritable(more) && ReadAll(rrs, p) == [ReadAs(rrs[0], p)] + ReadAll(more, next)
  {
  }

  lemma {:induction false} SectionParts(m: seq<octet>, p: nat, rrs: seq<Rr>)
    requires rrs != [] && HoldsAt(m, p, WrittenAll(rrs))
    ensures HoldsAt(m, p, Written(rrs[0])) && HoldsAt(m, p + |Written(rrs[0])|, WrittenAll(rrs[1..]))
  {
    HoldsParts(m, p, Written(rrs[0]), WrittenAll(rrs[1..]));
  }

  lemma {:induction false} RecordsCons(m: seq<octet>, p: nat, next: nat, count: nat, rr: Rr, more: seq<Record>)
    requires Writable(rr) && ReadsBack(m, p, rr) && next == p + |Written(rr)| && Records(m, next, count) == Some(more)
    ensures Records(m, p, count + 1) == Some([ReadAs(rr, p)] + more)
  {
    RecordsStep(m, p, next, count, ReadAs(rr, p), more);
  }

  lemma {:induction false} RecordsStep(m: seq<octet>, p: nat, next: nat, count: nat, r: Record, more: seq<Record>)
    requires RecordAt(m, p) == Some((r, next)) && Records(m, next, count) == Some(more)
    ensures Records(m, p, count + 1) == Some([r] + more)
  {
  }

  /** The data of each record stands where the record read says. */
  lemma {:induction false} DataReadBack(m: seq<octet>, p: nat, rrs: seq<Rr>, i: nat)
    requires AllWritable(rrs) && HoldsAt(m, p, WrittenAll(rrs)) && i < |rrs|
    ensures HoldsAt(m, ReadAll(rrs, p)[i].data, rrs[i].data)
    decreases i
  {
    SectionParts(m, p, rrs);
    if i == 0 {
      RecordReadsBack(m, p, rrs[0]);
    } else {
      DataReadBack(m, p + |Written(rrs[0])|, rrs[1..], i - 1);
    }
  }

  /** So alias targets are read back as well. */
  lemma {:induction false} TargetsReadBack(m: seq<octet>, p: nat, rrs: seq<Rr>, i: nat, target: seq<Label>)
    requires AllWritable(rrs) && HoldsAt(m, p, WrittenAll(rrs)) && i < |rrs| && Targets(rrs[i], target)
    ensures TextAt(m, ReadAll(rrs, p)[i].data) == Some(Dotted(target))
  {
    DataReadBack(m, p, rrs, i);
    NameReadsBack(m, ReadAll(rrs, p)[i].data, target);
  }

  /** Owner, type and class of each record read are those written. */
  lemma {:induction false} ReadAllFields(rrs: seq<Rr>, p: nat, i: nat)
    requires AllWritable(rrs) && i < |rrs|
    ensures var r, f := ReadAll(rrs, p)[i], rrs[i].fields;
      && r.owner == Dotted(rrs[i].owner) && r.len == |rrs[i].data|
      && r.rtype == Read16(f, 0) && r.rclass == Read16(f, 2) && r.ttl == AsInt32(Read32(f, 4))
    decreases i
  {
    if i > 0 { ReadAllFields(rrs[1..], p + |Written(rrs[0])|, i - 1); }
  }

  // ---- a response ----------------------------------------------------------------------------------

  ghost predicate IsAlias(rr: Rr)
    requires |rr.fields| == RRFIXEDSZ
  {
    Read16(rr.fields, 0) == 5 && Read16(rr.fields, 2) == 1
  }

  /** Where the answers of a response to this question start. */
  function AnswersStart(question: seq<Label>): nat { HFIXEDSZ + |Wire(question)| + QFIXEDSZ }

  /** A message with this one question and these answers. */
  ghost predicate IsResponse(m: seq<octet>, question: seq<Label>, rrs: seq<Rr>) {
    && |m| >= HFIXEDSZ && Read16(m, 4) == 1 && Read16(m, 6) == |rrs|
    && WireLabels(question) && HoldsAt(m, HFIXEDSZ, Wire(question))
    && AllWritable(rrs) && HoldsAt(m, AnswersStart(question), WrittenAll(rrs))
  }

  /** Decoding undoes writing: such a message decodes into its question and its records, if its aliases hold names. */
  lemma {:induction false} ResponseDecodes(m: seq<octet>, question: seq<Label>, rrs: seq<Rr>)
    requires IsResponse(m, question, rrs)
    requires forall i {:trigger rrs[i]} ::
      0 <= i < |rrs| && IsAlias(rrs[i]) ==> exists target :: Targets(rrs[i], target)
    ensures Decode(m) == Decoded(Dotted(question), ReadAll(rrs, AnswersStart(question)))
  {
    var p := AnswersStart(question);
    NameReadsBack(m, HFIXEDSZ, question);
    RecordsReadBack(m, p, rrs);
    var rs := ReadAll(rrs, p);
    forall i | 0 <= i < |rs| && IsCname(rs[i]) ensures TextAt(m, rs[i].data).Some? {
      ReadAllFields(rrs, p, i);
      var target :| Targets(rrs[i], target);
      TargetsReadBack(m, p, rrs, i, target);
    }
    DecodeAnswers(m, Dotted(question), p);
  }

  /** What is copied of an address record: its family, the bytes written, and its time to live. */
  lemma {:induction false} NodeReadBack(m: seq<octet>, p: nat, rrs: seq<Rr>, i: nat)
    requires AllWritable(rrs) && HoldsAt(m, p, WrittenAll(rrs)) && i < |rrs| && HoldsAddress(ReadAll(rrs, p)[i])
    ensures var r := ReadAll(rrs, p)[i];
      && r.data + r.len <= |m|
      && NodeOf(m, r) ==
          Node(if |rrs[i].data| == 4 then Inet else Inet6, rrs[i].data, AsInt32(Read32(rrs[i].fields, 4)))
  {
    DataReadBack(m, p, rrs, i);
    ReadAllFields(rrs, p, i);
  }

  /** And of an alias: its time to live, the name it is of, and the name it leads to. */
  lemma {:induction false} CnameReadBack(m: seq<octet>, p: nat, rrs: seq<Rr>, i: nat, target: seq<Label>)
    requires AllWritable(rrs) && HoldsAt(m, p, WrittenAll(rrs)) && i < |rrs| && Targets(rrs[i], target)
    ensures var r := ReadAll(rrs, p)[i];
      && TextAt(m, r.data).Some?
      && CnameOf(m, r) == Cname(AsInt32(Read32(rrs[i].fields, 4)), Dotted(rrs[i].owner), Dotted(target))
  {
    TargetsReadBack(m, p, rrs, i, target);
    ReadAllFields(rrs, p, i);
  }

  /** Question a, a is an alias of b, b has an address: that address is taken. */
  lemma {:induction false} AliasFollowedExample(m: seq<octet>, a: seq<Label>, b: seq<Label>, addr: seq<octet>)
    requires WireLabels(b) && |addr| == 4 && |Wire(b)| < 0x1_0000
    requires IsResponse(m, a, AliasThenAddress(a, b, addr))
    ensures Decode(m).Decoded?
    ensures var at := Picked(m, Dotted(a), Decode(m).records); 0 !in at && 1 in at
  {
    var rrs, p := AliasThenAddress(a, b, addr), AnswersStart(a);
    FieldsReadBack(5, 1, 60, |Wire(b)|);
    FieldsReadBack(1, 1, 60, 4);
    assert Targets(rrs[0], b) && IsAlias(rrs[0]) && !IsAlias(rrs[1]);
    ResponseDecodes(m, a, rrs);
    TargetsReadBack(m, p, rrs, 0, b);
    ReadAllFields(rrs, p, 0);
    ReadAllFields(rrs, p, 1);
    var rs := ReadAll(rrs, p);
    AliasIsFollowed(m, Dotted(a), rs, 0, 1);
    QuestionIsAnswered(m, Dotted(a), rs, 0);
  }

  function AliasThenAddress(a: seq<Label>, b: seq<Label>, addr: seq<octet>): seq<Rr> {
    [Rr(a, Fields(5, 1, 60, |Wire(b)|), Wire(b)), Rr(b, Fields(1, 1, 60, |addr|), addr)]
  }

  // ---- the EDNS record -----------------------------------------------------------------------------

  /** The last 11 bytes of a query with a payload size are an OPT record: root owner, the size as its class. */
  lemma {:induction false} EdnsReadsBack(labels: seq<Label>, dnsclass: int, qtype: int, id: int, rd: bool, udp: int)
    requires udp != 0
    ensures var m := CreateQuery.Message(labels, dnsclass, qtype, id, rd, udp);
      |m| >= 11 && RecordAt(m, |m| - 11) == Some((Record([], 41, udp % 0x1_0000, 0, |m|, 0), |m|))
  {
    var m := CreateQuery.Message(labels, dnsclass, qtype, id, rd, udp);
    assert HoldsAt(m, |m| - 11, CreateQuery.Edns(udp));
    EdnsIsWritten(udp);
    OptReadsBack(m, |m| - 11, udp % 0x1_0000);
  }

  lemma {:induction false} OptReadsBack(m: seq<octet>, p: nat, size: nat)
    requires size < 0x1_0000 && HoldsAt(m, p, Written(Rr([], Fields(41, size, 0, 0), [])))
    ensures RecordAt(m, p) == Some((Record([], 41, size, 0, p + 11, 0), p + 11))
  {
    FieldsReadBack(41, size, 0, 0);
    RecordReadsBack(m, p, Rr([], Fields(41, size, 0, 0), []));
  }

  lemma {:induction false} EdnsIsWritten(udp: int)
    requires udp != 0
    ensures Written(Rr([], Fields(41, udp % 0x1_0000, 0, 0), [])) == CreateQuery.Edns(udp)
  {
    var size := udp % 0x1_0000;
    OptFields(size);
    assert Bytes16(udp) == Bytes16(size);
    assert Wire([]) == [0];
  }

  lemma {:induction false} OptFields(size: nat)
    ensures Fields(41, size, 0, 0) == Bytes16(41) + Bytes16(size) + [0, 0, 0, 0, 0, 0]
  {
    assert Bytes16(0) == [0, 0];
    assert Bytes32(0) == [0, 0] + [0, 0];
  }
}
