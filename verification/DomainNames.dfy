/**
 Domain names in their three forms: a list of labels, the escaped text the library
 exchanges with its callers, and the wire form of RFC 1035 sections 3.1 and 4.1.4.
 */
module DomainNames {
  import opened Octets
  import opened Slices

  type Label = seq<octet>

  const MAX_LABEL := 63
  const MAX_NAME := 255
  const MAX_INDIRS := 50

  ghost predicate WireLabels(labels: seq<Label>) {
    forall i :: 0 <= i < |labels| ==> 1 <= |labels[i]| <= MAX_LABEL
  }

  // ---- text form -------------------------------------------------------------------

  predicate NeedsEscape(c: octet) { c == DOT || c == BACKSLASH }

  /** A byte of a label as it is written out. */
  function Escaped(c: octet): seq<octet> { if NeedsEscape(c) then [BACKSLASH, c] else [c] }

  function Escape(l: Label): seq<octet> {
    if l == [] then [] else Escaped(l[0]) + Escape(l[1..])
  }

  /** Labels joined by dots; the root is the empty text. */
  function Dotted(labels: seq<Label>): seq<octet> {
    if labels == [] then []
    else if |labels| == 1 then Escape(labels[0])
    else Escape(labels[0]) + [DOT] + Dotted(labels[1..])
  }

  /** The same with a dot after every label: what the expansion loop writes. */
  function DotEnded(labels: seq<Label>): seq<octet> {
    if labels == [] then [] else Escape(labels[0]) + [DOT] + DotEnded(labels[1..])
  }

  lemma {:induction false} DotEndedIsDotted(labels: seq<Label>)
    requires labels != []
    ensures DotEnded(labels) == Dotted(labels) + [DOT]
  {
    if |labels| == 1 {
      assert DotEnded(labels[1..]) == [];
    } else {
      DotEndedIsDotted(labels[1..]);
    }
  }

  lemma {:induction false} EscapeAppend(a: Label, b: Label)
    ensures Escape(a + b) == Escape(a) + Escape(b)
  {
    if a == [] {
      assert a + b == b;
    } else {
      assert (a + b)[1..] == a[1..] + b;
      EscapeAppend(a[1..], b);
    }
  }

  lemma {:induction false} DotEndedAppend(a: seq<Label>, b: seq<Label>)
    ensures DotEnded(a + b) == DotEnded(a) + DotEnded(b)
  {
    if a == [] {
      assert a + b == b;
    } else {
      assert (a + b)[1..] == a[1..] + b;
      DotEndedAppend(a[1..], b);
    }
  }

  lemma {:induction false} EscapeNonEmpty(l: Label)
    ensures |l| <= |Escape(l)| <= 2 * |l|
  {
    if l != [] { EscapeNonEmpty(l[1..]); }
  }

  // ---- reading the text form -------------------------------------------------------

  /** One label of the text, backslashes resolved, and the text from its dot (or end) on. */
  function ReadLabel(name: seq<octet>): (r: (Label, seq<octet>))
    ensures |r.0| + |r.1| <= |name|
    ensures r.1 != [] ==> r.1[0] == DOT
    ensures name != [] && name[0] != DOT ==> r.0 != []
  {
    if name == [] || name[0] == DOT then ([], name)
    else if name[0] == BACKSLASH && |name| > 1 then
      var (l, rest) := ReadLabel(name[2..]);
      ([name[1]] + l, rest)
    else
      var (l, rest) := ReadLabel(name[1..]);
      ([name[0]] + l, rest)
  }

  /** A backslash that ends the text escapes nothing and stands for itself. */
  lemma {:induction false} ReadLastBackslash(l: Label)
    requires forall i :: 0 <= i < |l| ==> !NeedsEscape(l[i])
    ensures ReadLabel(l + [BACKSLASH]) == (l + [BACKSLASH], [])
  {
    var name := l + [BACKSLASH];
    if l == [] {
      assert name == [BACKSLASH] && name[1..] == [];
      assert ReadLabel(name).0 == [BACKSLASH] + [] == name;
    } else {
      assert name[0] == l[0] && !NeedsEscape(l[0]);
      assert name[1..] == l[1..] + [BACKSLASH];
      ReadLastBackslash(l[1..]);
      assert ReadLabel(name).0 == [l[0]] + (l[1..] + [BACKSLASH]) == name;
    }
  }

  /** The labels a text stands for; None where an empty or overlong label makes it a bad name. */
  function ReadLabels(name: seq<octet>): Option<seq<Label>>
    decreases |name|
  {
    if name == [] then Some([])
    else if name[0] == DOT then None
    else
      var (l, rest) := ReadLabel(name);
      if |l| > MAX_LABEL then None
      else if rest == [] then Some([l])
      else match ReadLabels(rest[1..])
        case None => None
        case Some(more) => Some([l] + more)
  }

  lemma {:induction false} ReadLabelsGood(name: seq<octet>)
    requires ReadLabels(name).Some?
    ensures WireLabels(ReadLabels(name).value)
    decreases |name|
  {
    if name != [] && ReadLabel(name).1 != [] {
      ReadLabelsGood(ReadLabel(name).1[1..]);
    }
  }

  /** A lone dot is the root. */
  function ReadName(name: seq<octet>): Option<seq<Label>>
  {
    ReadLabels(if name == [DOT] then [] else name)
  }

  // ---- wire form -------------------------------------------------------------------

  /** The labels, each behind its length cast to one byte. */
  function Counted(labels: seq<Label>): seq<octet> {
    if labels == [] then [] else [|labels[0]| % 256] + labels[0] + Counted(labels[1..])
  }

  function Wire(labels: seq<Label>): seq<octet> {
    Counted(labels) + [0]
  }

  lemma {:induction false} CountedAppend(a: seq<Label>, b: seq<Label>)
    ensures Counted(a + b) == Counted(a) + Counted(b)
  {
    if a == [] {
      assert a + b == b;
    } else {
      assert (a + b)[1..] == a[1..] + b;
      CountedAppend(a[1..], b);
    }
  }

  /**
   The labels read from offset `off` of message `m`, following at most `budget` compression
   pointers. None: truncated, reserved length bits, pointer out of the message, or too many pointers.
   */
  function Walk(m: seq<octet>, off: nat, budget: nat): Option<seq<Label>>
    requires off < |m|
    decreases budget, |m| - off
  {
    if m[off] == 0 then Some([])
    else if m[off] >= 192 then
      if off + 1 >= |m| || PointerAt(m, off) >= |m| || budget == 0 then None
      else Walk(m, PointerAt(m, off), budget - 1)
    else if m[off] < 64 then
      if off + m[off] + 1 >= |m| then None
      else match Walk(m, off + 1 + m[off], budget)
        case None => None
        case Some(more) => Some([m[off + 1..off + 1 + m[off]]] + more)
    else None
  }

  function PointerAt(m: seq<octet>, off: nat): nat
    requires off + 1 < |m| && m[off] >= 192
  {
    (m[off] as int - 192) * 256 + m[off + 1]
  }

  /** The name at `off`: loops are cut off after min(message length, MAX_INDIRS) pointers. */
  function NameAt(m: seq<octet>, off: nat): Option<seq<Label>>
  {
    if off >= |m| then None else Walk(m, off, Min(|m|, MAX_INDIRS))
  }

  lemma {:induction false} WalkLabels(m: seq<octet>, off: nat, budget: nat)
    requires off < |m| && Walk(m, off, budget).Some?
    ensures WireLabels(Walk(m, off, budget).value)
    decreases budget, |m| - off
  {
    if m[off] >= 192 {
      WalkLabels(m, PointerAt(m, off), budget - 1);
    } else if m[off] != 0 {
      WalkLabels(m, off + 1 + m[off], budget);
    }
  }

  /** Bytes the name occupies at `off` itself: up to its first pointer or its zero byte. */
  function Span(m: seq<octet>, off: nat): nat
    requires off < |m|
    decreases |m| - off
  {
    if m[off] == 0 then 1
    else if m[off] >= 192 then 2
    else if off + 1 + m[off] < |m| then 1 + m[off] + Span(m, off + 1 + m[off])
    else 1
  }

  lemma {:induction false} SpanInMessage(m: seq<octet>, off: nat, budget: nat)
    requires off < |m| && Walk(m, off, budget).Some?
    ensures 1 <= Span(m, off) && off + Span(m, off) <= |m|
    decreases |m| - off
  {
    if m[off] != 0 && m[off] < 192 {
      SpanInMessage(m, off + 1 + m[off], budget);
    }
  }

  /**
   The expansion is at most twice the bytes walked, and each pointer restarts the walk once:
   for any message of DNS size the C `int` counter cannot overflow.
   */
  lemma {:induction false} ExpansionBound(m: seq<octet>, off: nat, budget: nat)
    requires off < |m| && Walk(m, off, budget).Some?
    ensures |DotEnded(Walk(m, off, budget).value)| <= 2 * (|m| - off) + budget * (2 * |m|)
    decreases budget, |m| - off
  {
    if m[off] == 0 {
      MulMono(0, budget, 2 * |m|);
    } else if m[off] >= 192 {
      ExpansionBound(m, PointerAt(m, off), budget - 1);
      MulStep(budget, 2 * |m|);
    } else {
      var next := off + 1 + m[off];
      ExpansionBound(m, next, budget);
      LabelExpansion(m[off + 1..next], Walk(m, next, budget).value);
    }
  }

  lemma LabelExpansion(l: Label, more: seq<Label>)
    ensures |DotEnded([l] + more)| <= 2 * |l| + 1 + |DotEnded(more)|
  {
    assert ([l] + more)[1..] == more;
    EscapeNonEmpty(l);
  }

  lemma MulStep(a: nat, c: nat)
    requires a > 0
    ensures a * c == (a - 1) * c + c
  {
  }

  lemma ExpansionFitsInt(m: seq<octet>, off: nat)
    requires |m| <= 65535 && NameAt(m, off).Some?
    ensures |DotEnded(NameAt(m, off).value)| < 0x8000_0000
  {
    var budget := Min(|m|, MAX_INDIRS);
    ExpansionBound(m, off, budget);
    MulMono(budget, MAX_INDIRS, 2 * |m|);
  }

  lemma MulMono(a: nat, b: nat, c: nat)
    requires a <= b
    ensures a * c <= b * c
  {
  }

  // ---- round trips -----------------------------------------------------------------

  /** A name written uncompressed anywhere in a message is read back, and spans exactly its bytes. */
  lemma {:induction false} WalkReadsWire(m: seq<octet>, off: nat, labels: seq<Label>, budget: nat)
    requires WireLabels(labels)
    requires off + |Wire(labels)| <= |m| && m[off..off + |Wire(labels)|] == Wire(labels)
    ensures Walk(m, off, budget) == Some(labels)
    ensures Span(m, off) == |Wire(labels)|
    decreases |labels|
  {
    if labels == [] {
      assert m[off] == m[off..off + 1][0] == 0;
    } else {
      var l, more := labels[0], labels[1..];
      WireOpens(m, off, labels);
      WalkReadsWire(m, off + 1 + |l|, more, budget);
      WalkNextLabel(m, off, l, budget);
      assert labels == [l] + more;
    }
  }

  /** The two bytes of a compression pointer to offset t (RFC 1035 section 4.1.4). */
  function Pointer(t: nat): seq<octet>
    requires t < 0x4000
  {
    [192 + t / 256, t % 256]
  }

  /**
   A name of some labels and a pointer reads as these labels followed by the name the pointer leads to, one
   pointer having been used; it spans its own bytes only.
   */
  lemma {:induction false} WalkReadsCompressed(m: seq<octet>, off: nat, front: seq<Label>, t: nat, budget: nat)
    requires WireLabels(front) && t < 0x4000 && t < |m| && budget > 0
    requires HoldsAt(m, off, Counted(front) + Pointer(t))
    ensures Walk(m, off, budget) == After(front, Walk(m, t, budget - 1))
    ensures Span(m, off) == |Counted(front)| + 2
    decreases |front|
  {
    if front == [] {
      assert Counted(front) + Pointer(t) == Pointer(t);
      WalkOnePointer(m, off, t, budget);
      AfterNothing(Walk(m, t, budget - 1));
    } else {
      var l, more, rest := front[0], front[1..], Walk(m, t, budget - 1);
      CompressedOpens(m, off, front, t);
      WalkReadsCompressed(m, off + 1 + |l|, more, t, budget);
      AfterOne(l, more, rest);
      WalkNextLabel(m, off, l, budget);
      assert front == [l] + more;
      assert |Counted(front)| == 1 + |l| + |Counted(more)|;
    }
  }

  /** Pointers left over change nothing: the budget only cuts walks off. */
  lemma {:induction false} BudgetOnlyCuts(m: seq<octet>, off: nat, budget: nat)
    requires off < |m| && Walk(m, off, budget).Some?
    ensures Walk(m, off, budget + 1) == Walk(m, off, budget)
    decreases budget, |m| - off
  {
    if m[off] >= 192 {
      BudgetOnlyCuts(m, PointerAt(m, off), budget - 1);
    } else if m[off] != 0 {
      BudgetOnlyCuts(m, off + 1 + m[off], budget);
    }
  }

  /** A name that comes back to its own pointer is no name. */
  lemma {:induction false} LoopRefused(m: seq<octet>, off: nat, front: seq<Label>, budget: nat)
    requires WireLabels(front) && off < 0x4000
    requires HoldsAt(m, off, Counted(front) + Pointer(off))
    ensures Walk(m, off, budget) == None
  {
    if budget > 0 {
      LoopRefused(m, off, front, budget - 1);
      WalkReadsCompressed(m, off, front, off, budget);
    } else {
      NoPointerLeft(m, off, front, off);
    }
  }

  /** Without a pointer left a compressed name cannot be read. */
  lemma {:induction false} NoPointerLeft(m: seq<octet>, off: nat, front: seq<Label>, t: nat)
    requires WireLabels(front) && t < 0x4000
    requires HoldsAt(m, off, Counted(front) + Pointer(t))
    ensures Walk(m, off, 0) == None
    decreases |front|
  {
    if front == [] {
      assert Counted(front) + Pointer(t) == Pointer(t);
      HoldsElement(m, off, Pointer(t), 0);
    } else {
      CompressedOpens(m, off, front, t);
      NoPointerLeft(m, off + 1 + |front[0]|, front[1..], t);
      WalkNextLabel(m, off, front[0], 0);
    }
  }

  lemma WalkOnePointer(m: seq<octet>, off: nat, t: nat, budget: nat)
    requires t < 0x4000 && t < |m| && budget > 0 && off + 2 <= |m| && m[off..off + 2] == Pointer(t)
    ensures Walk(m, off, budget) == Walk(m, t, budget - 1) && Span(m, off) == 2
  {
    assert m[off..off + 2][0] == m[off] && m[off..off + 2][1] == m[off + 1];
    assert PointerAt(m, off) == t;
  }

  lemma WalkNextLabel(m: seq<octet>, off: nat, l: Label, budget: nat)
    requires 1 <= |l| <= MAX_LABEL && off + 1 + |l| < |m|
    requires m[off] == |l| && m[off + 1..off + 1 + |l|] == l
    ensures Walk(m, off, budget) == After([l], Walk(m, off + 1 + |l|, budget))
    ensures Span(m, off) == 1 + |l| + Span(m, off + 1 + |l|)
  {
  }

  lemma AfterOne(l: Label, more: seq<Label>, rest: Option<seq<Label>>)
    ensures After([l], After(more, rest)) == After([l] + more, rest)
  {
    if rest.Some? { assert [l] + (more + rest.value) == [l] + more + rest.value; }
  }

  /** A compressed name starts with its first label, and the rest follows. */
  lemma CompressedOpens(m: seq<octet>, off: nat, front: seq<Label>, t: nat)
    requires front != [] && WireLabels(front) && t < 0x4000
    requires HoldsAt(m, off, Counted(front) + Pointer(t))
    ensures var l := front[0];
      var next := off + 1 + |l|;
      && |Counted(front)| == 1 + |l| + |Counted(front[1..])| && 1 <= |l| <= MAX_LABEL && next < |m|
      && m[off] == |l| && m[off + 1..next] == l && HoldsAt(m, next, Counted(front[1..]) + Pointer(t))
  {
    var l, c := front[0], Counted(front[1..]);
    CountedCons(front);
    Assoc([|l|] + l, c, Pointer(t));
    HoldsParts(m, off, [|l|] + l, c + Pointer(t));
    assert |[|l|] + l| == 1 + |l| && |c + Pointer(t)| >= 2;
    CountedOpens(m, off, l);
  }

  lemma CountedCons(labels: seq<Label>)
    requires labels != [] && WireLabels(labels)
    ensures Counted(labels) == [|labels[0]|] + labels[0] + Counted(labels[1..])
  {
  }

  /** A pointer past byte 255: its high six bits count. */
  lemma FarPointerExample(m: seq<octet>)
    requires |m| == 261 && m[256..261] == [1, 97, 0, 193, 0]
    ensures NameAt(m, 259) == Some([[97]])
  {
    assert m[259..261] == m[256..261][3..] == [] + Pointer(256);
    WalkReadsCompressed(m, 259, [], 256, 50);
    assert m[256..259] == m[256..261][..3] == [1, 97, 0];
    assert Counted([[97]]) == [1] + [97] + Counted([[97]][1..]) == [1, 97];
    WalkReadsWire(m, 256, [[97]], 49);
    AfterNothing(Walk(m, 256, 49));
  }

  /** A wire form inside a message starts with its first label, and the rest follows. */
  lemma WireOpens(m: seq<octet>, off: nat, labels: seq<Label>)
    requires labels != [] && WireLabels(labels)
    requires off + |Wire(labels)| <= |m| && m[off..off + |Wire(labels)|] == Wire(labels)
    ensures var l, w := labels[0], Wire(labels[1..]);
      var next := off + 1 + |l|;
      && |Wire(labels)| == 1 + |l| + |w| && 1 <= |l| <= MAX_LABEL && next + |w| <= |m| && next < |m|
      && m[off] == |l| && m[off + 1..next] == l && m[next..next + |w|] == w
  {
    var l, w := labels[0], Wire(labels[1..]);
    WireCons(labels);
    SliceParts(m, off, [|l|] + l, w);
    CountedOpens(m, off, l);
  }

  lemma CountedOpens(m: seq<octet>, off: nat, l: Label)
    requires |l| < 256 && off + 1 + |l| <= |m| && m[off..off + 1 + |l|] == [|l|] + l
    ensures m[off] == |l| && m[off + 1..off + 1 + |l|] == l
  {
    SliceParts(m, off, [|l|], l);
    assert m[off] == m[off..off + 1][0];
  }

  lemma WireCons(labels: seq<Label>)
    requires labels != [] && WireLabels(labels)
    ensures Wire(labels) == [|labels[0]|] + labels[0] + Wire(labels[1..])
  {
    var l := labels[0];
    Assoc([|l|] + l, Counted(labels[1..]), [0]);
  }

  /** Reading an escaped label followed by a dot or the end gives the label back. */
  lemma {:induction false} ReadLabelEscape(l: Label, rest: seq<octet>)
    requires rest == [] || rest[0] == DOT
    ensures ReadLabel(Escape(l) + rest) == (l, rest)
  {
    if l == [] {
      assert Escape(l) + rest == rest;
    } else {
      var tail := Escape(l[1..]) + rest;
      ReadLabelEscape(l[1..], rest);
      Assoc(Escaped(l[0]), Escape(l[1..]), rest);
      ReadOneEscaped(l[0], tail);
      assert [l[0]] + l[1..] == l;
    }
  }

  lemma ReadOneEscaped(c: octet, tail: seq<octet>)
    ensures ReadLabel(Escaped(c) + tail) == ([c] + ReadLabel(tail).0, ReadLabel(tail).1)
  {
    if NeedsEscape(c) {
      assert ([BACKSLASH, c] + tail)[2..] == tail;
    } else {
      assert ([c] + tail)[1..] == tail;
    }
  }

  lemma EscapeStartsClean(l: Label)
    requires l != []
    ensures Escape(l) != [] && Escape(l)[0] != DOT
  {
  }

  /** Decode then encode, on names: the dotted text of any labels reads back as those labels. */
  lemma {:induction false} ReadLabelsDotted(labels: seq<Label>)
    requires WireLabels(labels)
    ensures ReadLabels(Dotted(labels)) == Some(labels)
  {
    if labels != [] {
      var l, more := labels[0], labels[1..];
      EscapeStartsClean(l);
      assert labels == [l] + more;
      if more == [] {
        assert Escape(l) + [] == Escape(l) == Dotted(labels);
        ReadLabelEscape(l, []);
        assert [l] + more == [l];
      } else {
        ReadLabelsDotted(more);
        Assoc(Escape(l), [DOT], Dotted(more));
        ReadLabelEscape(l, [DOT] + Dotted(more));
        ReadLabelsCons(l, Dotted(more));
      }
    }
  }

  lemma ReadLabelsCons(l: Label, text: seq<octet>)
    requires 1 <= |l| <= MAX_LABEL && ReadLabels(text).Some?
    requires ReadLabel(Escape(l) + ([DOT] + text)) == (l, [DOT] + text)
    ensures ReadLabels(Escape(l) + ([DOT] + text)) == Some([l] + ReadLabels(text).value)
  {
    EscapeStartsClean(l);
    assert ([DOT] + text)[1..] == text;
    assert (Escape(l) + ([DOT] + text))[0] == Escape(l)[0];
  }

  lemma ReadNameDotted(labels: seq<Label>)
    requires WireLabels(labels)
    ensures ReadName(Dotted(labels)) == Some(labels)
  {
    ReadLabelsDotted(labels);
    if labels != [] { EscapeStartsClean(labels[0]); }
  }

  /** The canonical text of a name: no trailing dot, only '.' and '\' escaped. */
  function Canonical(name: seq<octet>): seq<octet>
    requires ReadName(name).Some?
  {
    Dotted(ReadName(name).value)
  }

  lemma CanonicalSameName(name: seq<octet>)
    requires ReadName(name).Some?
    ensures ReadName(Canonical(name)) == ReadName(name)
  {
    ReadLabelsGood(if name == [DOT] then [] else name);
    ReadNameDotted(ReadName(name).value);
  }

  lemma {:induction false} EscapeReadLabel(name: seq<octet>)
    requires BACKSLASH !in name
    ensures Escape(ReadLabel(name).0) + ReadLabel(name).1 == name
  {
    if name != [] && name[0] != DOT {
      assert name[0] in name;
      EscapeReadLabel(name[1..]);
      var (l, rest) := ReadLabel(name[1..]);
      assert ([name[0]] + l)[1..] == l;
      Assoc([name[0]], Escape(l), rest);
      assert [name[0]] + name[1..] == name;
    }
  }

  function StripDot(s: seq<octet>): seq<octet> {
    if s != [] && s[|s| - 1] == DOT then s[..|s| - 1] else s
  }

  lemma StripDotAfterDot(a: seq<octet>, tail: seq<octet>)
    ensures StripDot(a + [DOT] + tail) == if tail == [] then a else a + [DOT] + StripDot(tail)
  {
    var s := a + [DOT] + tail;
    if tail == [] {
      assert s[..|s| - 1] == a;
    } else {
      assert s[|s| - 1] == tail[|tail| - 1];
      assert s[..|s| - 1] == a + [DOT] + tail[..|tail| - 1];
    }
  }

  /** On text without backslashes the canonical form only drops a trailing dot. */
  lemma {:induction false} CanonicalPlain(name: seq<octet>)
    requires BACKSLASH !in name && ReadLabels(name).Some?
    ensures Dotted(ReadLabels(name).value) == StripDot(name)
    decreases |name|
  {
    if name != [] {
      var (l, rest) := ReadLabel(name);
      EscapeReadLabel(name);
      if rest == [] {
        PlainLabelHasNoDot(name);
        assert Escape(l) == name;
      } else {
        var tail := rest[1..];
        assert name == Escape(l) + [DOT] + tail;
        forall c | c in tail ensures c in name { assert c in rest; }
        CanonicalPlain(tail);
        StripDotAfterDot(Escape(l), tail);
        var more := ReadLabels(tail).value;
        assert ([l] + more)[1..] == more;
      }
    }
  }

  lemma {:induction false} PlainLabelHasNoDot(name: seq<octet>)
    requires BACKSLASH !in name && name != [] && ReadLabel(name).1 == []
    ensures name[|name| - 1] != DOT
  {
    if |name| > 1 {
      assert name[0] in name;
      PlainLabelHasNoDot(name[1..]);
    }
  }

  /** The wire form of a text is never more than two bytes longer than the text. */
  lemma {:induction false} WireFitsText(name: seq<octet>)
    requires ReadLabels(name).Some?
    ensures |Counted(ReadLabels(name).value)| <= |name| + 1
    ensures name == [] ==> |Counted(ReadLabels(name).value)| == 0
    decreases |name|
  {
    if name != [] {
      var (l, rest) := ReadLabel(name);
      if rest != [] {
        WireFitsText(rest[1..]);
        var more := ReadLabels(rest[1..]).value;
        assert ([l] + more)[1..] == more;
      }
    }
  }
}
