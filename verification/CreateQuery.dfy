/** ares_create_query.c: a query message for a name, and its inverse relation with ExpandName. */
module CreateQuery {
  import opened Octets
  import opened Slices
  import opened DomainNames

  const EDNSFIXEDSZ := 11
  const T_OPT := 41

  datatype Status = Success | BadName | NotFound

  // ---- specification ---------------------------------------------------------------

  const ONION: seq<octet> := [46, 111, 110, 105, 111, 110]

  /** ares_striendstr: `name` ends with `tail`, letter case aside. */
  predicate EndsWith(name: seq<octet>, tail: seq<octet>) {
    |tail| <= |name| && Lowered(name[|name| - |tail|..]) == Lowered(tail)
  }

  predicate IsOnion(name: seq<octet>) {
    EndsWith(name, ONION) || EndsWith(name, ONION + [DOT])
  }

  function Header(id: int, rd: bool, edns: bool): (r: seq<octet>)
    ensures |r| == HFIXEDSZ
  {
    Bytes16(id) + [if rd then 1 else 0, 0] + Bytes16(1) + [0, 0] + [0, 0] + Bytes16(if edns then 1 else 0)
  }

  /** The OPT pseudo-record: root owner, type 41, payload size in the class field, zeros. */
  function Edns(size: int): (r: seq<octet>)
    ensures |r| == if size != 0 then EDNSFIXEDSZ else 0
  {
    if size == 0 then [] else [0] + Bytes16(T_OPT) + Bytes16(size) + [0, 0, 0, 0, 0, 0]
  }

  function Message(labels: seq<Label>, dnsclass: int, qtype: int, id: int, rd: bool, udp: int): seq<octet> {
    Header(id, rd, udp != 0) + Wire(labels) + (Bytes16(qtype) + Bytes16(dnsclass)) + Edns(udp)
  }

  /** What the call reports for a name, whatever the other arguments are. */
  function Verdict(name: seq<octet>): Status {
    if IsOnion(name) then NotFound
    else match ReadName(name)
      case None => BadName
      case Some(labels) => if |Wire(labels)| > MAX_NAME then BadName else Success
  }

  // ---- implementation --------------------------------------------------------------

  /**
   The buffer is sized from the text; every write stays inside it, and on success its first
   `buflen` bytes are the message for the labels the text stands for.
   */
  method Create(name: seq<octet>, dnsclass: int, qtype: int, id: int, rd: bool, udp: int)
    returns (status: Status, buf: array?<octet>, buflen: nat)
    requires NulFree(name)
    ensures status == Verdict(name)
    ensures status != Success ==> buf == null && buflen == 0
    ensures status == Success ==>
      && buf != null && fresh(buf) && buflen <= buf.Length
      && buf[..buflen] == Message(ReadName(name).value, dnsclass, qtype, id, rd, udp)
  {
    if IsOnion(name) { return NotFound, null, 0; }
    var len := |name| + 2 + HFIXEDSZ + QFIXEDSZ + if udp != 0 then EDNSFIXEDSZ else 0;
    var b := new octet[len];
    var q := Put(b, 0, Header(id, rd, udp != 0));
    var text := if name == [DOT] then [] else name;
    var ok;
    ok, q := WriteLabels(b, q, text);
    if !ok { return BadName, null, 0; }
    ghost var labels := ReadLabels(text).value;
    WireFitsText(text);
    ghost var head := Header(id, rd, udp != 0);
    assert b[..q] == head + Counted(labels);
    q := Put(b, q, [0]);
    assert b[..q] == head + Wire(labels);
    q := Put(b, q, Bytes16(qtype) + Bytes16(dnsclass));
    q := Put(b, q, Edns(udp));
    if q > MAX_NAME + HFIXEDSZ + QFIXEDSZ + (if udp != 0 then EDNSFIXEDSZ else 0) {
      return BadName, null, 0;
    }
    status, buf, buflen := Success, b, q;
  }

  /** Store a run of bytes at q. */
  method Put(b: array<octet>, q0: nat, bytes: seq<octet>) returns (q: nat)
    requires q0 + |bytes| <= b.Length
    modifies b
    ensures q == q0 + |bytes| && b[..q] == old(b[..q0]) + bytes
  {
    q := q0;
    for i := 0 to |bytes|
      invariant q == q0 + i && b[..q] == old(b[..q0]) + bytes[..i]
    {
      b[q] := bytes[i];
      q := q + 1;
      assert b[..q] == b[..q - 1] + [bytes[i]];
      assert bytes[..i + 1] == bytes[..i] + [bytes[i]];
    }
    assert bytes[..|bytes|] == bytes;
  }

  /** The label loop: an empty or overlong label stops it. */
  method WriteLabels(b: array<octet>, q0: nat, text: seq<octet>) returns (ok: bool, q: nat)
    requires q0 + |text| + 2 <= b.Length
    modifies b
    ensures ok == ReadLabels(text).Some?
    ensures ok ==>
      && q == q0 + |Counted(ReadLabels(text).value)| && q < b.Length
      && b[..q] == old(b[..q0]) + Counted(ReadLabels(text).value)
  {
    q := q0;
    var name := text;
    ghost var got: seq<Label>, whole := [], ReadLabels(text);
    AfterNothing(whole);
    while name != []
      invariant After(got, ReadLabels(name)) == whole
      invariant q0 <= q && q + |name| + 2 <= b.Length
      invariant b[..q] == old(b[..q0]) + Counted(got)
      decreases |name|
    {
      if name[0] == DOT { return false, q; }
      ghost var l := ReadLabel(name).0;
      var fits, tail;
      fits, q, tail := WriteLabel(b, q, name);
      if !fits { return false, q; }
      AfterStep(got, name, whole);
      CountedStep(got, l);
      Assoc(old(b[..q0]), Counted(got), CountedOne(l));
      got := got + [l];
      if tail == [] { return true, q; }
      name := tail[1..];
    }
    assert got + [] == got;
    ok := true;
  }

  /** A label behind its length cast to one byte. */
  function CountedOne(l: Label): seq<octet> { [|l| % 256] + l }

  /** One label of the loop: count, store the length, copy; nothing is stored when it is overlong. */
  method WriteLabel(b: array<octet>, q0: nat, name: seq<octet>) returns (fits: bool, q: nat, tail: seq<octet>)
    requires q0 + |name| + 2 <= b.Length
    modifies b
    ensures fits <==> |ReadLabel(name).0| <= MAX_LABEL
    ensures fits ==>
      && q == q0 + |CountedOne(ReadLabel(name).0)| && tail == ReadLabel(name).1
      && b[..q] == old(b[..q0]) + CountedOne(ReadLabel(name).0)
  {
    q := q0;
    var len;
    len, tail := ScanLabel(name);
    if len > MAX_LABEL { return false, q, tail; }
    b[q] := len;
    q := q + 1;
    assert b[..q] == old(b[..q0]) + [len];
    q, tail := CopyLabel(b, q, name);
    fits := true;
  }

  lemma AfterStep(got: seq<Label>, name: seq<octet>, whole: Option<seq<Label>>)
    requires After(got, ReadLabels(name)) == whole
    requires name != [] && name[0] != DOT && |ReadLabel(name).0| <= MAX_LABEL
    ensures var (l, rest) := ReadLabel(name);
      if rest == [] then whole == Some(got + [l])
      else After(got + [l], ReadLabels(rest[1..])) == whole
  {
    var (l, rest) := ReadLabel(name);
    if rest != [] && ReadLabels(rest[1..]).Some? {
      assert got + [l] + ReadLabels(rest[1..]).value == got + ([l] + ReadLabels(rest[1..]).value);
    }
  }

  lemma CountedStep(got: seq<Label>, l: Label)
    ensures Counted(got + [l]) == Counted(got) + CountedOne(l)
  {
    CountedAppend(got, [l]);
    assert [l][1..] == [];
    assert Counted([l]) == CountedOne(l) + Counted([]) == CountedOne(l);
  }

  /** First pass over a label: how many bytes it stands for. */
  method ScanLabel(name: seq<octet>) returns (len: nat, rest: seq<octet>)
    ensures len == |ReadLabel(name).0| && rest == ReadLabel(name).1
  {
    var p := name;
    len := 0;
    while p != [] && p[0] != DOT
      invariant len + |ReadLabel(p).0| == |ReadLabel(name).0| && ReadLabel(p).1 == ReadLabel(name).1
      decreases |p|
    {
      if p[0] == BACKSLASH && |p| > 1 { p := p[1..]; }
      len := len + 1;
      p := p[1..];
    }
    rest := p;
  }

  /** Second pass over the same label: store its bytes. */
  method CopyLabel(b: array<octet>, q0: nat, name: seq<octet>) returns (q: nat, rest: seq<octet>)
    requires q0 + |ReadLabel(name).0| <= b.Length
    modifies b
    ensures q == q0 + |ReadLabel(name).0| && rest == ReadLabel(name).1
    ensures b[..q] == old(b[..q0]) + ReadLabel(name).0
  {
    var p := name;
    q := q0;
    ghost var got: Label := [];
    while p != [] && p[0] != DOT
      invariant got + ReadLabel(p).0 == ReadLabel(name).0 && ReadLabel(p).1 == ReadLabel(name).1
      invariant q == q0 + |got| && b[..q] == old(b[..q0]) + got
      decreases |p|
    {
      ghost var c := if p[0] == BACKSLASH && |p| > 1 then p[1] else p[0];
      ghost var after := if p[0] == BACKSLASH && |p| > 1 then p[2..] else p[1..];
      assert ReadLabel(p) == ([c] + ReadLabel(after).0, ReadLabel(after).1);
      Assoc(got, [c], ReadLabel(after).0);
      if p[0] == BACKSLASH && |p| > 1 { p := p[1..]; }
      b[q] := p[0];
      q := q + 1;
      assert b[..q] == b[..q - 1] + [c];
      got := got + [c];
      p := p[1..];
      assert p == after;
    }
    rest := p;
  }

  // ---- the two directions of the codec ----------------------------------------------

  /** What is refused as .onion: the ending alone, in any letter case, with or without a dot behind it. */
  lemma OnionExactly(front: seq<octet>, tail: seq<octet>)
    requires |tail| == 6
    ensures EndsWith(front + tail, ONION) <==>
      tail[0] == DOT && tail[1] in {79, 111} && tail[2] in {78, 110} && tail[3] in {73, 105} && tail[4] in {79, 111}
      && tail[5] in {78, 110}
    ensures EndsWith(front + tail, ONION) <==> EndsWith(front + tail + [DOT], ONION + [DOT])
  {
    var name, dotted := front + tail, front + tail + [DOT];
    assert name[|name| - 6..] == tail && dotted[|dotted| - 7..] == tail + [DOT];
    LoweredEqual(tail);
    assert Lowered(tail + [DOT]) == Lowered(tail) + [DOT] && Lowered(ONION + [DOT]) == Lowered(ONION) + [DOT];
    assert (Lowered(tail) + [DOT])[..6] == Lowered(tail) && (Lowered(ONION) + [DOT])[..6] == Lowered(ONION);
  }

  lemma LoweredEqual(tail: seq<octet>)
    requires |tail| == 6
    ensures Lowered(tail) == Lowered(ONION) <==> forall i :: 0 <= i < 6 ==> Lower(tail[i]) == Lower(ONION[i])
  {
    assert forall i :: 0 <= i < 6 ==> Lowered(tail)[i] == Lower(tail[i]) && Lowered(ONION)[i] == Lower(ONION[i]);
  }

  /** A message never outgrows the buffer its text was given. */
  lemma MessageFits(name: seq<octet>, dnsclass: int, qtype: int, id: int, rd: bool, udp: int)
    requires ReadName(name).Some?
    ensures |Message(ReadName(name).value, dnsclass, qtype, id, rd, udp)|
         <= |name| + 2 + HFIXEDSZ + QFIXEDSZ + if udp != 0 then EDNSFIXEDSZ else 0
  {
    WireFitsText(if name == [DOT] then [] else name);
  }

  /**
   Encode then decode: reading the message back at offset 12 gives the labels of the name, hence
   its canonical text, and the reported span is the encoded length; type and class follow it.
   */
  lemma EncodeDecode(name: seq<octet>, dnsclass: int, qtype: int, id: int, rd: bool, udp: int)
    requires ReadName(name).Some?
    ensures var labels := ReadName(name).value;
      var m := Message(labels, dnsclass, qtype, id, rd, udp);
      var after := HFIXEDSZ + |Wire(labels)|;
      && NameAt(m, HFIXEDSZ) == Some(labels)
      && Dotted(NameAt(m, HFIXEDSZ).value) == Canonical(name)
      && Span(m, HFIXEDSZ) == |Wire(labels)|
      && after + 4 <= |m| && Read16(m, after) == qtype % 65536 && Read16(m, after + 2) == dnsclass % 65536
      && Read16(m, 4) == 1 && Read16(m, 6) == 0
  {
    var labels := ReadName(name).value;
    var m := Message(labels, dnsclass, qtype, id, rd, udp);
    MessageParts(labels, dnsclass, qtype, id, rd, udp);
    HeaderCounts(m, id, rd, udp != 0);
    QuestionFields(m, HFIXEDSZ + |Wire(labels)|, qtype, dnsclass);
    ReadLabelsGood(if name == [DOT] then [] else name);
    WalkReadsWire(m, HFIXEDSZ, labels, Min(|m|, MAX_INDIRS));
  }

  /** The message taken apart. */
  lemma MessageParts(labels: seq<Label>, dnsclass: int, qtype: int, id: int, rd: bool, udp: int)
    ensures var m, w := Message(labels, dnsclass, qtype, id, rd, udp), Wire(labels);
      var after := HFIXEDSZ + |w|;
      && after + 4 <= |m| && m[0..HFIXEDSZ] == Header(id, rd, udp != 0) && m[HFIXEDSZ..after] == w
      && m[after..after + 4] == Bytes16(qtype) + Bytes16(dnsclass)
  {
    var m := Message(labels, dnsclass, qtype, id, rd, udp);
    var head, w := Header(id, rd, udp != 0), Wire(labels);
    var q, e := Bytes16(qtype) + Bytes16(dnsclass), Edns(udp);
    assert m[0..|m|] == m == head + (w + (q + e));
    SliceParts(m, 0, head, w + (q + e));
    SliceParts(m, HFIXEDSZ, w, q + e);
    SliceParts(m, HFIXEDSZ + |w|, q, e);
  }

  lemma HeaderCounts(m: seq<octet>, id: int, rd: bool, edns: bool)
    requires |m| >= HFIXEDSZ && m[0..HFIXEDSZ] == Header(id, rd, edns)
    ensures Read16(m, 0) == id % 65536 && Read16(m, 4) == 1 && Read16(m, 6) == 0
    ensures (m[2] % 2 == 1 <==> rd) && m[2] / 2 == 0 && m[3] == 0
    ensures Read16(m, 8) == 0 && Read16(m, 10) == if edns then 1 else 0
  {
    var h := Header(id, rd, edns);
    assert forall i :: 0 <= i < HFIXEDSZ ==> m[0..HFIXEDSZ][i] == m[i];
    assert h[0] == Bytes16(id)[0] && h[1] == Bytes16(id)[1];
    assert h[4] == Bytes16(1)[0] && h[5] == Bytes16(1)[1];
    assert h[2] == m[2] == (if rd then 1 else 0) && h[3] == m[3];
    assert h[8] == m[8] && h[9] == m[9] && h[10] == m[10] && h[11] == m[11];
  }

  lemma QuestionFields(m: seq<octet>, p: nat, qtype: int, dnsclass: int)
    requires p + 4 <= |m| && m[p..p + 4] == Bytes16(qtype) + Bytes16(dnsclass)
    ensures Read16(m, p) == qtype % 65536 && Read16(m, p + 2) == dnsclass % 65536
  {
    var f := m[p..p + 4];
    assert f[0] == m[p] && f[1] == m[p + 1] && f[2] == m[p + 2] && f[3] == m[p + 3];
    assert f[0] == Bytes16(qtype)[0] && f[1] == Bytes16(qtype)[1];
    assert f[2] == Bytes16(dnsclass)[0] && f[3] == Bytes16(dnsclass)[1];
  }

  /**
   Decode then encode: for the labels of any name in any message, handing the expansion (as C sees
   it) back to the encoder rebuilds those very labels exactly when no label holds a NUL byte.
   */
  lemma DecodeEncode(m: seq<octet>, off: nat)
    requires NameAt(m, off).Some?
    ensures var labels := NameAt(m, off).value;
      ReadName(CString(Dotted(labels))) == Some(labels) <==> forall l :: l in labels ==> NulFree(l)
  {
    var labels := NameAt(m, off).value;
    WalkLabels(m, off, Min(|m|, MAX_INDIRS));
    var text := CString(Dotted(labels));
    if forall l :: l in labels ==> NulFree(l) {
      DottedNulFree(labels);
      ReadNameDotted(labels);
    } else if ReadName(text) == Some(labels) {
      ReadLabelsNulFree(if text == [DOT] then [] else text);
    }
  }

  /** A label of one NUL byte: its expansion ends before it begins and reads back as the root. */
  lemma NulLabelExample()
    ensures NameAt([1, 0, 0], 0) == Some([[0]])
    ensures ReadName(CString(Dotted([[0]]))) == Some([]) && Some([]) != NameAt([1, 0, 0], 0)
  {
    var m: seq<octet> := [1, 0, 0];
    assert m[1..2] == [0] && [m[1..2]] + [] == [[0]];
    assert Walk(m, 2, 3) == Some([]);
    assert Walk(m, 0, 3) == Some([[0]]);
    var text := Dotted([[0]]);
    assert text == Escape([0]) == [0] + Escape([0][1..]);
    assert text[0] == 0 && CString(text) == [];
  }

  /** The remaining refusals of the encoder on such a text: .onion names and overlong ones. */
  lemma DecodeEncodeAccepted(m: seq<octet>, off: nat)
    requires NameAt(m, off).Some? && forall l :: l in NameAt(m, off).value ==> NulFree(l)
    ensures var text := Dotted(NameAt(m, off).value);
      NulFree(text) && (Verdict(text) == Success <==>
        !IsOnion(text) && |Counted(NameAt(m, off).value)| + 1 <= MAX_NAME)
  {
    var labels := NameAt(m, off).value;
    WalkLabels(m, off, Min(|m|, MAX_INDIRS));
    DottedNulFree(labels);
    ReadNameDotted(labels);
  }

  lemma {:induction false} EscapeNulFree(l: Label)
    requires NulFree(l)
    ensures NulFree(Escape(l))
  {
    if l != [] { EscapeNulFree(l[1..]); }
  }

  lemma {:induction false} DottedNulFree(labels: seq<Label>)
    requires forall l :: l in labels ==> NulFree(l)
    ensures NulFree(Dotted(labels))
  {
    if labels != [] {
      EscapeNulFree(labels[0]);
      DottedNulFree(labels[1..]);
    }
  }

  lemma {:induction false} ReadLabelNulFree(name: seq<octet>)
    requires NulFree(name)
    ensures NulFree(ReadLabel(name).0) && NulFree(ReadLabel(name).1)
  {
    if name == [] || name[0] == DOT {
    } else if name[0] == BACKSLASH && |name| > 1 {
      ReadLabelNulFree(name[2..]);
    } else {
      ReadLabelNulFree(name[1..]);
    }
  }

  lemma {:induction false} ReadLabelsNulFree(name: seq<octet>)
    requires NulFree(name) && ReadLabels(name).Some?
    ensures forall l :: l in ReadLabels(name).value ==> NulFree(l)
    decreases |name|
  {
    if name != [] {
      ReadLabelNulFree(name);
      var (l, rest) := ReadLabel(name);
      if rest != [] { ReadLabelsNulFree(rest[1..]); }
    }
  }
}
