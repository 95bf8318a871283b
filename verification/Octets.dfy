/** Octets, C strings and the network-order accessors of ares_dns.h. */
module Octets {
  type octet = b: int | 0 <= b < 256

  const DOT: octet := 46
  const BACKSLASH: octet := 92

  /** Sizes of a message header and of the fixed fields of a question (RFC 1035 sections 4.1.1 and 4.1.2). */
  const HFIXEDSZ := 12
  const QFIXEDSZ := 4

  datatype Option<+T> = None | Some(value: T)

  /** `got` was read before the rest of a walk produced `rest`. */
  function After<T>(got: seq<T>, rest: Option<seq<T>>): Option<seq<T>> {
    if rest.None? then None else Some(got + rest.value)
  }

  lemma AfterNothing<T>(rest: Option<seq<T>>)
    ensures After([], rest) == rest
  {
    if rest.Some? { assert [] + rest.value == rest.value; }
  }

  /** The bytes of a C string before its terminator: no byte is NUL. */
  ghost predicate NulFree(s: seq<octet>) {
    forall i :: 0 <= i < |s| ==> s[i] != 0
  }

  /** What C sees of a buffer: everything before the first NUL. */
  function CString(s: seq<octet>): (r: seq<octet>)
    ensures NulFree(r) && r <= s
    ensures NulFree(s) ==> r == s
    ensures |r| < |s| ==> s[|r|] == 0
  {
    if s == [] || s[0] == 0 then [] else [s[0]] + CString(s[1..])
  }

  /** ISUPPER/tolower of the C locale. */
  function Lower(c: octet): octet {
    if 65 <= c <= 90 then c + 32 else c
  }

  /** Folding identifies the two cases of a letter and nothing else. */
  lemma LowerExactly(c: octet, d: octet)
    ensures Lower(c) == Lower(d) <==> c == d || (c == d + 32 && 65 <= d <= 90) || (d == c + 32 && 65 <= c <= 90)
  {
  }

  function Lowered(s: seq<octet>): (r: seq<octet>)
    ensures |r| == |s| && forall i :: 0 <= i < |s| ==> r[i] == Lower(s[i])
  {
    seq(|s|, i requires 0 <= i < |s| => Lower(s[i]))
  }

  /** strcasecmp(a, b) == 0 on two NUL-terminated buffers. */
  predicate EqualIgnoringCase(a: seq<octet>, b: seq<octet>) {
    Lowered(CString(a)) == Lowered(CString(b))
  }

  /** Two texts without NUL: equally long, and byte for byte the same up to the case of letters. */
  lemma EqualExactly(a: seq<octet>, b: seq<octet>)
    requires NulFree(a) && NulFree(b)
    ensures EqualIgnoringCase(a, b) <==> |a| == |b| && forall i :: 0 <= i < |a| ==>
      a[i] == b[i] || (65 <= b[i] <= 90 && a[i] == b[i] + 32) || (65 <= a[i] <= 90 && b[i] == a[i] + 32)
  {
    if |a| == |b| && forall i :: 0 <= i < |a| ==> Lower(a[i]) == Lower(b[i]) { assert Lowered(a) == Lowered(b); }
    if Lowered(a) == Lowered(b) {
      forall i | 0 <= i < |a| ensures Lower(a[i]) == Lower(b[i]) { assert Lowered(a)[i] == Lowered(b)[i]; }
    }
  }

  /** DNS__16BIT */
  function Read16(m: seq<octet>, p: nat): nat
    requires p + 2 <= |m|
  {
    m[p] as int * 256 + m[p + 1]
  }

  /** DNS__32BIT */
  function Read32(m: seq<octet>, p: nat): nat
    requires p + 4 <= |m|
  {
    Read16(m, p) * 65536 + Read16(m, p + 2)
  }

  /** The two bytes DNS__SET16BIT stores for v (a shift and a mask, so any int is accepted). */
  function Bytes16(v: int): (r: seq<octet>)
    ensures |r| == 2 && r[0] as int * 256 + r[1] == v % 65536
  {
    [(v / 256) % 256, v % 256]
  }

  function Min(a: int, b: int): int { if a < b then a else b }
}
