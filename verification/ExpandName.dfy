/** ares_expand_name.c: the checked length walk and the unchecked expansion walk. */
module ExpandName {
  import opened Octets
  import opened Slices
  import opened DomainNames

  datatype Status = Success | BadName

  /** One label of the walk. */
  lemma WalkLabel(m: seq<octet>, p: nat, b: nat, got: seq<Label>)
    requires p < |m| && 0 < m[p] < 64
    ensures p + 1 + m[p] >= |m| ==> Walk(m, p, b).None?
    ensures p + 1 + m[p] < |m| ==>
      && After(got, Walk(m, p, b)) == After(got + [m[p + 1..p + 1 + m[p]]], Walk(m, p + 1 + m[p], b))
      && Span(m, p) == 1 + m[p] + Span(m, p + 1 + m[p])
  {
    if p + 1 + m[p] < |m| {
      var rest := Walk(m, p + 1 + m[p], b);
      var piece := m[p + 1..p + 1 + m[p]];
      if rest.Some? {
        assert got + [piece] + rest.value == got + ([piece] + rest.value);
      }
    }
  }

  /** One compression pointer of the walk. */
  lemma WalkPointer(m: seq<octet>, p: nat, b: nat, got: seq<Label>)
    requires p < |m| && m[p] >= 192
    ensures Span(m, p) == 2
    ensures p + 1 >= |m| || PointerAt(m, p) >= |m| || b == 0 ==> Walk(m, p, b).None?
    ensures p + 1 < |m| && PointerAt(m, p) < |m| && b > 0 ==>
      After(got, Walk(m, p, b)) == After(got, Walk(m, PointerAt(m, p), b - 1))
  {
  }

  /** A pointer of a name that has been accepted: every check would pass. */
  lemma PointerAccepted(m: seq<octet>, p: nat, b: nat, got: seq<Label>, labels: seq<Label>)
    requires p < |m| && m[p] >= 192 && After(got, Walk(m, p, b)) == Some(labels)
    ensures p + 1 < |m| && PointerAt(m, p) < |m| && b > 0 && Span(m, p) == 2
    ensures After(got, Walk(m, PointerAt(m, p), b - 1)) == Some(labels)
  {
    WalkPointer(m, p, b, got);
  }

  lemma DotEndedStep(got: seq<Label>, l: Label)
    ensures DotEnded(got + [l]) == DotEnded(got) + Escape(l) + [DOT]
  {
    DotEndedAppend(got, [l]);
    assert [l][1..] == [];
  }

  /** The first byte of what is left of a label. */
  lemma EscapeNext(m: seq<octet>, p: nat, end: nat)
    requires p < end <= |m|
    ensures Escape(m[p..end]) == Escaped(m[p]) + Escape(m[p + 1..end])
  {
    assert m[p..end][1..] == m[p + 1..end];
  }

  /** Length of the expansion of the name at `off`, or -1; `off` may lie past the message. */
  method NameLength(m: seq<octet>, off: nat) returns (n: int)
    ensures NameAt(m, off).None? ==> n == -1
    ensures NameAt(m, off).Some? ==> n == |Dotted(NameAt(m, off).value)|
  {
    if off >= |m| { return -1; }
    n := 0;
    var indir, p := 0, off;
    ghost var budget := Min(|m|, MAX_INDIRS);
    ghost var got: seq<Label> := [];
    AfterNothing(Walk(m, off, budget));
    while m[p] != 0
      invariant 0 <= p < |m| && 0 <= indir <= budget
      invariant After(got, Walk(m, p, budget - indir)) == NameAt(m, off)
      invariant n == |DotEnded(got)|
      decreases budget - indir, |m| - p
    {
      if m[p] >= 192 {
        WalkPointer(m, p, budget - indir, got);
        if p + 1 >= |m| { return -1; }
        var offset := PointerAt(m, p);
        if offset >= |m| { return -1; }
        indir := indir + 1;
        if indir > |m| || indir > MAX_INDIRS { return -1; }
        p := offset;
      } else if m[p] < 64 {
        WalkLabel(m, p, budget - indir, got);
        if p + m[p] + 1 >= |m| { return -1; }
        ghost var piece := m[p + 1..p + 1 + m[p]];
        DotEndedStep(got, piece);
        var added;
        p, added := LabelLength(m, p);
        n := n + added + 1;
        got := got + [piece];
      } else {
        return -1;
      }
    }
    assert got + [] == got;
    if got != [] { DotEndedIsDotted(got); }
    n := if n != 0 then n - 1 else n;
  }

  /** The inner loop of name_length: escaped characters count twice. */
  method LabelLength(m: seq<octet>, p0: nat) returns (p: nat, n: nat)
    requires p0 < |m| && m[p0] < 64 && p0 + 1 + m[p0] < |m|
    ensures p == p0 + 1 + m[p0]
    ensures n == |Escape(m[p0 + 1..p0 + 1 + m[p0]])|
  {
    var offset: int := m[p0];
    ghost var end := p0 + 1 + m[p0];
    p, n := p0 + 1, 0;
    while offset > 0
      invariant 0 <= offset && p == end - offset && p0 + 1 <= p
      invariant n + |Escape(m[p..end])| == |Escape(m[p0 + 1..end])|
    {
      EscapeNext(m, p, end);
      n := n + if m[p] == DOT || m[p] == BACKSLASH then 2 else 1;
      p := p + 1;
      offset := offset - 1;
    }
  }

  /**
   ares_expand_name: `s` holds the dotted text and its NUL, exactly; `enclen` is what the caller
   must skip. Every read lies in the message and every write in the buffer NameLength sized.
   */
  method Expand(m: seq<octet>, off: nat) returns (status: Status, s: array?<octet>, enclen: nat)
    ensures status == BadName <==> NameAt(m, off).None?
    ensures status == Success ==>
      && s != null && fresh(s) && s[..] == Dotted(NameAt(m, off).value) + [0]
      && enclen == Span(m, off) && 1 <= enclen && off + enclen <= |m|
  {
    var nlen := NameLength(m, off);
    if nlen < 0 { return BadName, null, 0; }
    var buf := new octet[nlen + 1];
    ghost var budget := Min(|m|, MAX_INDIRS);
    ghost var labels := NameAt(m, off).value;
    SpanInMessage(m, off, budget);
    WalkLabels(m, off, budget);
    if nlen == 0 {
      if labels != [] { DottedNonEmpty(labels); }
      buf[0] := 0;
      assert buf[..] == [0];
      RootSpan(m, off, budget);
      return Success, buf, if m[off] >= 192 then 2 else 1;
    }
    DotEndedIsDotted(labels);
    var q;
    q, enclen := ExpandLabels(m, off, buf, labels);
    buf[q - 1] := 0;
    assert buf[..] == Dotted(labels) + [0];
    status, s := Success, buf;
  }

  /** The expansion loop, on a name NameLength has accepted: no check is repeated. */
  method ExpandLabels(m: seq<octet>, off: nat, buf: array<octet>, ghost labels: seq<Label>)
    returns (q: nat, enclen: nat)
    requires NameAt(m, off) == Some(labels) && buf.Length == |DotEnded(labels)|
    modifies buf
    ensures q == buf.Length && buf[..] == DotEnded(labels)
    ensures enclen == Span(m, off)
  {
    var p, indir := off, false;
    q, enclen := 0, 0;
    ghost var left := Min(|m|, MAX_INDIRS);
    ghost var got: seq<Label> := [];
    AfterNothing(NameAt(m, off));
    while m[p] != 0
      invariant 0 <= p < |m| && 0 <= left
      invariant After(got, Walk(m, p, left)) == Some(labels)
      invariant q == |DotEnded(got)| <= buf.Length
      invariant buf[..q] == DotEnded(got)
      invariant indir ==> enclen == Span(m, off)
      invariant !indir ==> p >= off && Span(m, off) == p - off + Span(m, p)
      decreases left, |m| - p
    {
      if m[p] >= 192 {
        PointerAccepted(m, p, left, got, labels);
        if !indir {
          enclen := p + 2 - off;
          indir := true;
        }
        p := PointerAt(m, p);
        left := left - 1;
      } else {
        p, q, got := ExpandNext(m, p, buf, q, left, got, labels);
      }
    }
    if !indir { enclen := p + 1 - off; }
    assert got + [] == got == labels;
    assert buf[..] == buf[..q];
  }

  /** A label of the name: NameLength has already vouched for its length byte and its room. */
  method ExpandNext(m: seq<octet>, p0: nat, buf: array<octet>, q0: nat, ghost b: nat,
                    ghost got0: seq<Label>, ghost labels: seq<Label>)
    returns (p: nat, q: nat, ghost got: seq<Label>)
    requires p0 < |m| && 0 < m[p0] < 192
    requires After(got0, Walk(m, p0, b)) == Some(labels)
    requires q0 == |DotEnded(got0)| && buf.Length == |DotEnded(labels)|
    requires q0 <= buf.Length && buf[..q0] == DotEnded(got0)
    modifies buf
    ensures p0 < p < |m| && Span(m, p0) == p - p0 + Span(m, p)
    ensures After(got, Walk(m, p, b)) == Some(labels)
    ensures q == |DotEnded(got)| <= buf.Length && buf[..q] == DotEnded(got)
  {
    assert m[p0] < 64;
    WalkLabel(m, p0, b, got0);
    ghost var piece := m[p0 + 1..p0 + 1 + m[p0]];
    RoomForLabel(got0, piece, Walk(m, p0 + 1 + m[p0], b).value, labels);
    DotEndedStep(got0, piece);
    p, q := ExpandLabel(m, p0, buf, q0);
    got := got0 + [piece];
  }

  /** One unchecked round of the expansion loop: a label, its escapes and its dot. */
  method ExpandLabel(m: seq<octet>, p0: nat, buf: array<octet>, q0: nat) returns (p: nat, q: nat)
    requires p0 < |m| && m[p0] < 64 && p0 + 1 + m[p0] < |m|
    requires q0 + |Escape(m[p0 + 1..p0 + 1 + m[p0]])| + 1 <= buf.Length
    modifies buf
    ensures p == p0 + 1 + m[p0]
    ensures q == q0 + |Escape(m[p0 + 1..p0 + 1 + m[p0]])| + 1
    ensures buf[..q] == old(buf[..q0]) + Escape(m[p0 + 1..p0 + 1 + m[p0]]) + [DOT]
  {
    var len: int := m[p0];
    p, q := p0 + 1, q0;
    ghost var end, before := p0 + 1 + m[p0], buf[..q0];
    ghost var written, todo := [], Escape(m[p..end]);
    ghost var whole := todo;
    while len > 0
      invariant 0 <= len && p == end - len && p0 + 1 <= p
      invariant todo == Escape(m[p..end]) && written + todo == whole
      invariant q == q0 + |written| && buf[..q] == before + written
    {
      EscapeNext(m, p, end);
      ghost var c, rest := Escaped(m[p]), Escape(m[p + 1..end]);
      Assoc(written, c, rest);
      Assoc(before, written, c);
      q := PutEscaped(buf, q, m[p]);
      written, todo := written + c, rest;
      p := p + 1;
      len := len - 1;
    }
    assert written == whole;
    q := PutOctet(buf, q, DOT);
  }

  /** Store one byte of a label, behind a backslash where it needs one. */
  method PutEscaped(buf: array<octet>, q0: nat, c: octet) returns (q: nat)
    requires q0 + |Escaped(c)| <= buf.Length
    modifies buf
    ensures q == q0 + |Escaped(c)| && buf[..q] == old(buf[..q0]) + Escaped(c)
  {
    q := q0;
    if c == DOT || c == BACKSLASH { q := PutOctet(buf, q, BACKSLASH); }
    q := PutOctet(buf, q, c);
  }

  method PutOctet(buf: array<octet>, q0: nat, c: octet) returns (q: nat)
    requires q0 < buf.Length
    modifies buf
    ensures q == q0 + 1 && buf[..q] == old(buf[..q0]) + [c]
  {
    buf[q0] := c;
    q := q0 + 1;
    assert buf[..q] == old(buf[..q0]) + [c];
  }

  lemma DottedNonEmpty(labels: seq<Label>)
    requires labels != [] && WireLabels(labels)
    ensures Dotted(labels) != []
  {
    EscapeStartsClean(labels[0]);
  }

  /** Once the names agree, what is left to write has room in a buffer for the whole name. */
  lemma RoomForLabel(got: seq<Label>, l: Label, rest: seq<Label>, labels: seq<Label>)
    requires labels == got + [l] + rest
    ensures |DotEnded(got)| + |Escape(l)| + 1 <= |DotEnded(labels)|
  {
    DotEndedAppend(got + [l], rest);
    DotEndedStep(got, l);
  }

  /** A name that expands to nothing is one zero byte, possibly behind a pointer. */
  lemma RootSpan(m: seq<octet>, off: nat, budget: nat)
    requires off < |m| && Walk(m, off, budget) == Some([])
    ensures Span(m, off) == if m[off] >= 192 then 2 else 1
  {
  }
}
