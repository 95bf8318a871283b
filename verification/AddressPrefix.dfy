/**
 Three ways the resolver compares leading address bits: the bit scan of ares__sortaddrinfo.c, the
 byte mask of ares_init.c and the bit count of bitncmp.c.
 */
module AddressPrefix {

  type In6 = a: seq<bv8> | |a| == 16 witness [0, 0, 0, 0, 0, 0, 0, 0, 0, 0, 0, 0, 0, 0, 0, 0]

  type Bytes = seq<bv8>

  // ---- specification: addresses as bit strings ------------------------------------------

  /** Bit j of a byte, most significant first. */
  predicate Bit8(b: bv8, j: nat)
    decreases j
  {
    if j == 0 then b & 0x80 != 0 else Bit8(b << 1, j - 1)
  }

  predicate Bit(a: Bytes, k: nat)
    requires k < 8 * |a|
  {
    Bit8(a[k / 8], k % 8)
  }

  lemma BitOf(a: Bytes, i: nat, j: nat)
    requires i < |a| && j < 8
    ensures Bit(a, 8 * i + j) == Bit8(a[i], j)
  {
    assert (8 * i + j) / 8 == i && (8 * i + j) % 8 == j;
  }

  /** The addresses have the same first n bits. */
  ghost predicate Agree(a: Bytes, b: Bytes, n: nat)
    requires |a| == |b| && n <= 8 * |a|
  {
    forall k :: 0 <= k < n ==> Bit(a, k) == Bit(b, k)
  }

  /** Length of the longest common prefix. */
  ghost function CommonPrefix(a: Bytes, b: Bytes): (n: nat)
    requires |a| == |b|
    ensures n <= 8 * |a|
    ensures forall m :: 0 <= m <= 8 * |a| ==> (Agree(a, b, m) <==> m <= n)
  {
    LongestFrom(a, b, 0)
  }

  ghost function LongestFrom(a: Bytes, b: Bytes, from: nat): (n: nat)
    requires |a| == |b| && from <= 8 * |a| && Agree(a, b, from)
    ensures from <= n <= 8 * |a| && Agree(a, b, n) && (n < 8 * |a| ==> Bit(a, n) != Bit(b, n))
    decreases 8 * |a| - from
  {
    if from == 8 * |a| || Bit(a, from) != Bit(b, from) then from else LongestFrom(a, b, from + 1)
  }

  lemma CommonPrefixSymmetric(a: Bytes, b: Bytes)
    requires |a| == |b|
    ensures CommonPrefix(a, b) == CommonPrefix(b, a)
  {
    var n, m := CommonPrefix(a, b), CommonPrefix(b, a);
    assert Agree(b, a, n) && Agree(a, b, m);
  }

  /** The prefix length is an ultrametric: two addresses close to a third are close to each other. */
  lemma CommonPrefixUltrametric(a: Bytes, b: Bytes, c: Bytes)
    requires |a| == |b| == |c|
    ensures CommonPrefix(a, c) >= CommonPrefix(a, b) || CommonPrefix(a, c) >= CommonPrefix(b, c)
  {
    var n := if CommonPrefix(a, b) < CommonPrefix(b, c) then CommonPrefix(a, b) else CommonPrefix(b, c);
    assert Agree(a, b, n) && Agree(b, c, n);
    assert Agree(a, c, n);
  }

  /** All bits agree only on equal addresses. */
  lemma CommonPrefixFull(a: Bytes, b: Bytes)
    requires |a| == |b|
    ensures CommonPrefix(a, b) == 8 * |a| <==> a == b
  {
    if CommonPrefix(a, b) == 8 * |a| {
      assert Agree(a, b, 8 * |a|);
      forall i | 0 <= i < |a| ensures a[i] == b[i] {
        forall j: nat | j < 8 ensures Bit8(a[i], j) == Bit8(b[i], j) {
          BitOf(a, i, j);
          BitOf(b, i, j);
        }
        SameBits(a[i], b[i]);
      }
    }
    if a == b { assert Agree(a, b, 8 * |a|); }
  }

  // ---- bytes -----------------------------------------------------------------------

  lemma ShiftXor(x: bv8, y: bv8)
    ensures (x ^ y) << 1 == (x << 1) ^ (y << 1)
  {
  }

  lemma TopOfXor(x: bv8, y: bv8)
    ensures (x ^ y) & 0x80 != 0 <==> (x & 0x80 != 0) != (y & 0x80 != 0)
  {
  }

  /** x shifted left j times. */
  function Shifted(x: bv8, j: nat): bv8
    decreases j
  {
    if j == 0 then x else Shifted(x << 1, j - 1)
  }

  lemma {:induction false} ShiftOnce(x: bv8, j: nat)
    ensures Shifted(x, j + 1) == Shifted(x, j) << 1
    decreases j
  {
    if j > 0 { ShiftOnce(x << 1, j - 1); }
  }

  /** Testing the top bit of the shifted difference compares one bit of the two bytes. */
  lemma {:induction false} TopBit(p: bv8, q: bv8, j: nat)
    ensures Shifted(p ^ q, j) & 0x80 != 0 <==> Bit8(p, j) != Bit8(q, j)
    decreases j
  {
    if j == 0 {
      TopOfXor(p, q);
    } else {
      ShiftXor(p, q);
      TopBit(p << 1, q << 1, j - 1);
    }
  }

  /** The byte whose first r bits are set. */
  function Ones(r: nat): bv8 {
    if r == 0 then 0 else (Ones(r - 1) >> 1) | 0x80
  }

  ghost predicate SameLead(x: bv8, y: bv8, r: nat) {
    forall j: nat :: j < r ==> Bit8(x, j) == Bit8(y, j)
  }

  lemma MaskStep(x: bv8, y: bv8, m: bv8)
    ensures x & ((m >> 1) | 0x80) == y & ((m >> 1) | 0x80)
       <==> ((x & 0x80 != 0) == (y & 0x80 != 0) && (x << 1) & m == (y << 1) & m)
  {
  }

  lemma SameLeadStep(x: bv8, y: bv8, r: nat)
    ensures SameLead(x, y, r + 1) <==> ((x & 0x80 != 0) == (y & 0x80 != 0) && SameLead(x << 1, y << 1, r))
  {
    var x', y' := x << 1, y << 1;
    assert Bit8(x, 0) == (x & 0x80 != 0) && Bit8(y, 0) == (y & 0x80 != 0);
    if SameLead(x, y, r + 1) {
      forall j: nat | j < r ensures Bit8(x', j) == Bit8(y', j) {
        assert Bit8(x, j + 1) == Bit8(y, j + 1);
      }
    }
    if Bit8(x, 0) == Bit8(y, 0) && SameLead(x', y', r) {
      forall j: nat | j < r + 1 ensures Bit8(x, j) == Bit8(y, j) {
        if j > 0 { assert Bit8(x', j - 1) == Bit8(y', j - 1); }
      }
    }
  }

  /** Bytes agree under a mask of r leading ones exactly when their first r bits agree. */
  lemma {:induction false} MaskedEqual(x: bv8, y: bv8, r: nat)
    ensures x & Ones(r) == y & Ones(r) <==> SameLead(x, y, r)
    decreases r
  {
    if r == 0 {
      assert x & 0 == 0 == y & 0;
    } else {
      MaskStep(x, y, Ones(r - 1));
      MaskedEqual(x << 1, y << 1, r - 1);
      SameLeadStep(x, y, r - 1);
    }
  }

  lemma OnesBytes()
    ensures Ones(1) == 0x80 && Ones(2) == 0xC0 && Ones(3) == 0xE0 && Ones(4) == 0xF0
    ensures Ones(5) == 0xF8 && Ones(6) == 0xFC && Ones(7) == 0xFE && Ones(8) == 0xFF
  {
    assert Ones(0) == 0;
    assert Ones(1) == 0x80;
    assert Ones(2) == 0xC0;
    assert Ones(3) == 0xE0;
    assert Ones(4) == 0xF0;
    assert Ones(5) == 0xF8;
    assert Ones(6) == 0xFC;
    assert Ones(7) == 0xFE;
  }

  lemma SameBits(x: bv8, y: bv8)
    requires SameLead(x, y, 8)
    ensures x == y
  {
    MaskedEqual(x, y, 8);
    OnesBytes();
    assert x & 0xFF == x && y & 0xFF == y;
  }

  // ---- common_prefix_len -------------------------------------------------------------

  method CommonPrefixLen(a: In6, b: In6) returns (n: nat)
    ensures n == CommonPrefix(a, b)
  {
    for i := 0 to 16
      invariant Agree(a, b, 8 * i)
    {
      if a[i] == b[i] {
        assert forall k :: 8 * i <= k < 8 * i + 8 ==> k / 8 == i;
        continue;
      }
      var x := a[i] ^ b[i];
      for j := 0 to 8
        invariant x == Shifted(a[i] ^ b[i], j)
        invariant Agree(a, b, 8 * i + j)
      {
        TopBit(a[i], b[i], j);
        BitOf(a, i, j);
        BitOf(b, i, j);
        if x & 0x80 != 0 {
          assert !Agree(a, b, 8 * i + j + 1);
          return 8 * i + j;
        }
        ShiftOnce(a[i] ^ b[i], j);
        x := x << 1;
      }
    }
    n := 128;
  }

  // ---- ares_ipv6_subnet_matches --------------------------------------------------------

  /** (unsigned char)(0xff << (8 - r)) */
  function LeadingOnes(r: nat): (m: bv8)
    requires 1 <= r < 8
    ensures m == Ones(r)
  {
    OnesBytes();
    if r == 1 then 0x80 else if r == 2 then 0xC0 else if r == 3 then 0xE0 else if r == 4 then 0xF0
    else if r == 5 then 0xF8 else if r == 6 then 0xFC else 0xFE
  }

  /** How many of the first n bits lie in byte i. */
  function BitsIn(n: nat, i: nat): nat {
    if i < n / 8 then 8 else if i == n / 8 then n % 8 else 0
  }

  lemma AgreeByBytes(a: Bytes, b: Bytes, n: nat)
    requires |a| == |b| && n <= 8 * |a|
    ensures Agree(a, b, n) <==> forall i :: 0 <= i < |a| ==> SameLead(a[i], b[i], BitsIn(n, i))
  {
    if Agree(a, b, n) {
      forall i: nat, j: nat | i < |a| && j < BitsIn(n, i) ensures Bit8(a[i], j) == Bit8(b[i], j) {
        BitOf(a, i, j);
        BitOf(b, i, j);
        assert 8 * i + j < n;
      }
    }
    if forall i :: 0 <= i < |a| ==> SameLead(a[i], b[i], BitsIn(n, i)) {
      forall k | 0 <= k < n ensures Bit(a, k) == Bit(b, k) {
        assert SameLead(a[k / 8], b[k / 8], BitsIn(n, k / 8));
      }
    }
  }

  /** The subnet test: misuse is false, otherwise the first `netmask` bits agree. */
  method SubnetMatches(netbase: In6, netmask: nat, ip: In6) returns (ok: bool)
    ensures ok <==> netmask <= 128 && CommonPrefix(netbase, ip) >= netmask
  {
    if netmask > 128 { return false; }
    var mask := BuildMask(netmask);
    ok := CompareMasked(netbase, ip, mask, netmask);
    AgreeByBytes(netbase, ip, netmask);
  }

  predicate SameUnder(x: bv8, y: bv8, m: bv8) { x & m == y & m }

  lemma SameUnderExact(x: bv8, y: bv8, m: bv8, r: nat)
    requires m == Ones(r)
    ensures SameUnder(x, y, m) <==> SameLead(x, y, r)
  {
    MaskedEqual(x, y, r);
  }

  method CompareMasked(a: In6, b: In6, mask: array<bv8>, ghost n: nat) returns (ok: bool)
    requires mask.Length == 16 && forall k :: 0 <= k < 16 ==> mask[k] == Ones(BitsIn(n, k))
    ensures ok <==> forall k :: 0 <= k < 16 ==> SameLead(a[k], b[k], BitsIn(n, k))
  {
    for i := 0 to 16
      invariant forall k :: 0 <= k < i ==> SameLead(a[k], b[k], BitsIn(n, k))
    {
      SameUnderExact(a[i], b[i], mask[i], BitsIn(n, i));
      if !SameUnder(a[i], b[i], mask[i]) { return false; }
    }
    ok := true;
  }

  /** Whole bytes first, then the remaining bits. */
  method BuildMask(netmask: nat) returns (mask: array<bv8>)
    requires netmask <= 128
    ensures fresh(mask) && mask.Length == 16
    ensures forall k :: 0 <= k < 16 ==> mask[k] == Ones(BitsIn(netmask, k))
  {
    OnesBytes();
    mask := new bv8[16](_ => 0);
    for i := 0 to netmask / 8
      invariant forall k :: 0 <= k < 16 ==> mask[k] == if k < i then 0xFF else 0
    {
      mask[i] := 0xFF;
    }
    if netmask % 8 != 0 { mask[netmask / 8] := LeadingOnes(netmask % 8); }
  }

  // ---- ares__bitncmp -------------------------------------------------------------------

  /** memcmp of the first n bytes: zero exactly when they are equal. */
  method MemCmp(l: Bytes, r: Bytes, n: nat) returns (x: int)
    requires n <= |l| && n <= |r|
    ensures x == 0 <==> l[..n] == r[..n]
  {
    for i := 0 to n
      invariant l[..i] == r[..i]
    {
      if l[i] != r[i] {
        assert l[..n][i] != r[..n][i];
        return if l[i] < r[i] then -1 else 1;
      }
    }
    x := 0;
  }

  /** Whole bytes first, then bit by bit: zero exactly when the first n bits agree. */
  method BitNCmp(l: Bytes, r: Bytes, n: nat) returns (x: int)
    requires |l| == |r| && n <= 8 * |l|
    ensures x == 0 <==> Agree(l, r, n)
  {
    AgreeByBytes(l, r, n);
    LeadingBytes(l, r, n);
    x := MemCmp(l, r, n / 8);
    if x != 0 || n % 8 == 0 { return; }
    x := TopBitsCmp(l[n / 8], r[n / 8], n % 8);
  }

  method TopBitsCmp(l: bv8, r: bv8, n: nat) returns (x: int)
    ensures x == 0 <==> SameLead(l, r, n)
  {
    var lb, rb := l, r;
    for b := 0 to n
      invariant lb == Shifted(l, b) && rb == Shifted(r, b) && SameLead(l, r, b)
    {
      TopShifted(l, b);
      TopShifted(r, b);
      ShiftOnce(l, b);
      ShiftOnce(r, b);
      if lb & 0x80 != rb & 0x80 {
        assert Bit8(l, b) != Bit8(r, b);
        return if lb & 0x80 != 0 then 1 else -1;
      }
      lb := lb << 1;
      rb := rb << 1;
    }
    x := 0;
  }

  lemma {:induction false} TopShifted(x: bv8, j: nat)
    ensures Shifted(x, j) & 0x80 == if Bit8(x, j) then 0x80 else 0
    decreases j
  {
    if j > 0 { TopShifted(x << 1, j - 1); }
  }

  /** The byte-wise view split into whole bytes and one partial byte. */
  lemma LeadingBytes(l: Bytes, r: Bytes, n: nat)
    requires |l| == |r| && n <= 8 * |l|
    ensures (forall i :: 0 <= i < |l| ==> SameLead(l[i], r[i], BitsIn(n, i)))
       <==> l[..n / 8] == r[..n / 8] && (n % 8 != 0 ==> SameLead(l[n / 8], r[n / 8], n % 8))
  {
    if forall i :: 0 <= i < |l| ==> SameLead(l[i], r[i], BitsIn(n, i)) {
      forall i | 0 <= i < n / 8 ensures l[i] == r[i] {
        assert SameLead(l[i], r[i], BitsIn(n, i));
        SameBits(l[i], r[i]);
      }
    }
    if l[..n / 8] == r[..n / 8] {
      forall i | 0 <= i < n / 8 ensures l[i] == r[i] { assert l[..n / 8][i] == r[..n / 8][i]; }
    }
  }
}
