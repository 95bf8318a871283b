/** The policy table of RFC 6724 section 2.1 and the scopes of section 3, against what AddressSort computes. */
module PolicyTable {
  import opened AddressPrefix
  import opened AddressSort

  /** Prefix, its length in bits, precedence and label. */
  datatype Row = Row(prefix: In6, length: nat, precedence: int, tag: int)

  /** These bytes, then zeros. */
  function Head(b: Bytes): (a: In6)
    requires |b| <= 16
    ensures b <= a && forall i :: |b| <= i < 16 ==> a[i] == 0
  {
    b + seq(16 - |b|, _ => 0)
  }

  const Zero: In6 := Head([])

  const Table: seq<Row> := [
    Row(Zero[15 := 1], 128, 50, 0),
    Row(Zero, 0, 40, 1),
    Row(Zero[10 := 0xFF][11 := 0xFF], 96, 35, 4),
    Row(Head([0x20, 0x02]), 16, 30, 2),
    Row(Head([0x20, 0x01]), 32, 5, 5),
    Row(Head([0xFC]), 7, 3, 13),
    Row(Zero, 96, 1, 3),
    Row(Head([0xFE, 0xC0]), 10, 1, 11),
    Row(Head([0x3F, 0xFE]), 16, 1, 12)
  ]

  ghost predicate Matches(a: In6, k: nat)
    requires k < |Table|
  {
    Table[k].length <= 128 && Agree(Table[k].prefix, a, Table[k].length)
  }

  /** Row k is the matching row with the longest prefix. */
  ghost predicate Selects(a: In6, k: nat) {
    && k < |Table| && Matches(a, k)
    && forall j :: 0 <= j < |Table| && j != k && Matches(a, j) ==> Table[j].length < Table[k].length
  }

  // ---- prefixes, byte by byte --------------------------------------------------------

  ghost predicate SameBytes(p: In6, a: In6, k: nat)
    requires k <= 16
  {
    forall i :: 0 <= i < k ==> p[i] == a[i]
  }

  lemma SameSlices(p: In6, a: In6, k: nat)
    requires k <= 16
    ensures p[..k] == a[..k] <==> SameBytes(p, a, k)
  {
    if p[..k] == a[..k] {
      forall i | 0 <= i < k ensures p[i] == a[i] { assert p[..k][i] == a[..k][i]; }
    }
  }

  /** Agreement in whole bytes. */
  lemma AgreeWhole(p: In6, a: In6, k: nat)
    requires k <= 16
    ensures Agree(p, a, 8 * k) <==> SameBytes(p, a, k)
  {
    AgreeByBytes(p, a, 8 * k);
    LeadingBytes(p, a, 8 * k);
    SameSlices(p, a, k);
  }

  /** And in some bits of the next byte, under a mask. */
  lemma AgreePartial(p: In6, a: In6, k: nat, r: nat)
    requires k < 16 && 0 < r < 8
    ensures Agree(p, a, 8 * k + r) <==> SameBytes(p, a, k) && p[k] & Ones(r) == a[k] & Ones(r)
  {
    AgreeLead(p, a, k, r, 8 * k + r);
    SameSlices(p, a, k);
    MaskedEqual(p[k], a[k], r);
  }

  lemma AgreeLead(p: In6, a: In6, k: nat, r: nat, n: nat)
    requires k < 16 && 0 < r < 8 && n == 8 * k + r
    ensures Agree(p, a, n) <==> p[..k] == a[..k] && SameLead(p[k], a[k], r)
  {
    assert n / 8 == k && n % 8 == r;
    AgreeByBytes(p, a, n);
    LeadingBytes(p, a, n);
  }

  // ---- what each row matches ------------------------------------------------------------

  lemma LoopbackRow(a: In6)
    ensures Matches(a, 0) <==> IsLoopback(a)
  {
    AgreeWhole(Table[0].prefix, a, 16);
  }

  lemma MappedRow(a: In6)
    ensures Matches(a, 2) <==> IsV4Mapped(a)
  {
    AgreeWhole(Table[2].prefix, a, 12);
  }

  lemma CompatRow(a: In6)
    ensures Matches(a, 6) <==> ZeroUpTo(a, 12)
  {
    AgreeWhole(Zero, a, 12);
  }

  lemma ShortRows(a: In6)
    ensures Matches(a, 1)
    ensures Matches(a, 3) <==> Is6To4(a)
    ensures Matches(a, 4) <==> IsTeredo(a)
    ensures Matches(a, 8) <==> Is6Bone(a)
  {
    AgreeWhole(Table[3].prefix, a, 2);
    AgreeWhole(Table[4].prefix, a, 4);
    AgreeWhole(Table[8].prefix, a, 2);
  }

  lemma PartialRows(a: In6)
    ensures Matches(a, 5) <==> IsUla(a)
    ensures Matches(a, 7) <==> IsSiteLocal(a)
  {
    AgreePartial(Table[5].prefix, a, 0, 7);
    AgreePartial(Table[7].prefix, a, 1, 2);
    OnesBytes();
  }

  // ---- label, precedence and scope ------------------------------------------------------------

  ghost predicate KindOf(a: In6, k: nat)
    requires k < |Table|
  {
    if k == 0 then IsLoopback(a) else if k == 1 then true else if k == 2 then IsV4Mapped(a)
    else if k == 3 then Is6To4(a) else if k == 4 then IsTeredo(a) else if k == 5 then IsUla(a)
    else if k == 6 then ZeroUpTo(a, 12) else if k == 7 then IsSiteLocal(a) else Is6Bone(a)
  }

  lemma RowsAre(a: In6)
    ensures forall k: nat :: k < |Table| ==> (Matches(a, k) <==> KindOf(a, k))
  {
    LoopbackRow(a);
    MappedRow(a);
    CompatRow(a);
    ShortRows(a);
    PartialRows(a);
  }

  /** The row for an address, by the order of the tests. */
  function RowOf(a: In6): (k: nat)
    ensures k < |Table|
  {
    if IsLoopback(a) then 0 else if IsV4Mapped(a) then 2 else if Is6To4(a) then 3 else if IsTeredo(a) then 4
    else if IsUla(a) then 5 else if ZeroUpTo(a, 12) then 6 else if IsSiteLocal(a) then 7 else if Is6Bone(a) then 8
    else 1
  }

  lemma RowSelected(a: In6)
    ensures Selects(a, RowOf(a))
  {
    RowsAre(a);
  }

  /** Every address has its row, and label and precedence are those of the row exactly if it is not all zero. */
  lemma PolicyExact(s: SockAddr, k: nat)
    requires s.family == Inet6
    ensures Selects(s.v6, RowOf(s.v6))
    ensures Selects(s.v6, k) ==>
      (LabelOf(s) == Table[k].tag && Precedence(s) == Table[k].precedence <==> s.v6 != Zero)
  {
    RowSelected(s.v6);
    assert ZeroUpTo(s.v6, 12) && !IsV4Compat(s.v6) && !IsLoopback(s.v6) <==> s.v6 == Zero;
  }

  /** IPv6: multicast carries its scope, ::1 and fe80::/10 are link-local, fec0::/10 site-local, the rest global. */
  lemma Scope6Exact(s: SockAddr)
    requires s.family == Inet6
    ensures Scope(s) ==
      if Agree(Head([0xFF]), s.v6, 8) then (s.v6[1] & 0x0F) as int
      else if s.v6 == Zero[15 := 1] || Agree(Head([0xFE, 0x80]), s.v6, 10) then 2
      else if Agree(Head([0xFE, 0xC0]), s.v6, 10) then 5
      else 14
  {
    AgreeWhole(Head([0xFF]), s.v6, 1);
    AgreePartial(Head([0xFE, 0x80]), s.v6, 1, 2);
    AgreePartial(Head([0xFE, 0xC0]), s.v6, 1, 2);
    OnesBytes();
    if IsLoopback(s.v6) { assert s.v6 == Zero[15 := 1]; }
  }

  /** IPv4: 127.0.0.0/8 and 169.254.0.0/16 are link-local, the rest global. */
  lemma Scope4Exact(s: SockAddr)
    requires s.family == Inet
    ensures Scope(s) == if s.v4 >> 24 == 127 || s.v4 >> 16 == 0xA9FE then 2 else 14
  {
  }
}
