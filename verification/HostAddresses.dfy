/** The sortlist order of ares_gethostbyname.c: first matching pattern, and the in-place insertion sort. */
module HostAddresses {
  import opened AddressPrefix

  datatype Family = Inet | Inet6

  /** struct in_addr or struct ares_in6_addr */
  datatype Address = Address(bytes: Bytes)

  /**
   struct apattern. Its mask is a union: `mask` and `bits` are what reading it as an address and as a number
   give. IPv4 patterns say which is meant; IPv6 ones are always read as a number of bits.
   */
  datatype Pattern = Pattern(family: Family, addr: Bytes, byMask: bool, mask: Bytes, bits: nat)

  function Length(f: Family): nat { if f == Inet then 4 else 16 }

  predicate ReadAsMask(p: Pattern) { p.family == Inet && p.byMask }

  /** Comparing with the pattern stays inside the two addresses. */
  ghost predicate Readable(p: Pattern) {
    && |p.addr| == Length(p.family)
    && if ReadAsMask(p) then |p.mask| == 4 else p.bits <= 8 * Length(p.family)
  }

  /** An IPv4 address under a mask. */
  predicate MaskedBy(addr: Bytes, mask: Bytes, want: Bytes)
    requires |addr| == |mask| == |want| == 4
  {
    forall i :: 0 <= i < 4 ==> MaskedByte(addr[i], mask[i], want[i])
  }

  predicate MaskedByte(x: bv8, m: bv8, y: bv8) { x & m == y }

  lemma MaskedByteExact(x: bv8, m: bv8, y: bv8, r: nat)
    requires m == Ones(r)
    ensures MaskedByte(x, m, y) <==> SameLead(x, y, r) && MaskedByte(y, m, y)
  {
    MaskedEqual(x, y, r);
    assert (x & m) & m == x & m;
  }

  /**
   A mask of n leading ones compares n bits, as the bit count does; but a pattern with bits outside its mask
   matches nothing, not even itself.
   */
  lemma MaskOfLeadingOnes(addr: Bytes, mask: Bytes, want: Bytes, n: nat)
    requires |addr| == |mask| == |want| == 4 && n <= 32
    requires forall i :: 0 <= i < 4 ==> mask[i] == Ones(BitsIn(n, i))
    ensures MaskedBy(addr, mask, want) <==> Agree(addr, want, n) && MaskedBy(want, mask, want)
  {
    AgreeByBytes(addr, want, n);
    forall i | 0 <= i < 4
      ensures MaskedByte(addr[i], mask[i], want[i]) <==>
        SameLead(addr[i], want[i], BitsIn(n, i)) && MaskedByte(want[i], mask[i], want[i])
    {
      MaskedByteExact(addr[i], mask[i], want[i], BitsIn(n, i));
    }
  }

  ghost predicate Matches(f: Family, addr: Bytes, p: Pattern)
    requires Readable(p) && |addr| == Length(f)
  {
    p.family == f && if ReadAsMask(p) then MaskedBy(addr, p.mask, p.addr) else Agree(addr, p.addr, p.bits)
  }

  ghost predicate Sortlist(patterns: seq<Pattern>) {
    forall i :: 0 <= i < |patterns| ==> Readable(patterns[i])
  }

  /** Index of the first pattern an address matches, or their number. */
  ghost function IndexFrom(f: Family, addr: Bytes, patterns: seq<Pattern>, i: nat): (r: nat)
    requires Sortlist(patterns) && |addr| == Length(f) && i <= |patterns|
    ensures i <= r <= |patterns|
    ensures r < |patterns| ==> Matches(f, addr, patterns[r])
    ensures forall j :: i <= j < r ==> !Matches(f, addr, patterns[j])
    decreases |patterns| - i
  {
    if i == |patterns| || Matches(f, addr, patterns[i]) then i else IndexFrom(f, addr, patterns, i + 1)
  }

  ghost function Index(f: Family, patterns: seq<Pattern>, addr: Address): nat
    requires Sortlist(patterns) && |addr.bytes| == Length(f)
  {
    IndexFrom(f, addr.bytes, patterns, 0)
  }

  /** get_address_index and get6_address_index */
  method AddressIndex(f: Family, addr: Address, patterns: seq<Pattern>) returns (i: nat)
    requires Sortlist(patterns) && |addr.bytes| == Length(f)
    ensures i == Index(f, patterns, addr)
  {
    i := 0;
    while i < |patterns|
      invariant i <= |patterns| && IndexFrom(f, addr.bytes, patterns, i) == Index(f, patterns, addr)
    {
      var p := patterns[i];
      if p.family == f {
        if f == Inet && p.byMask {
          if MaskedBy(addr.bytes, p.mask, p.addr) { break; }
        } else {
          var x := BitNCmp(addr.bytes, p.addr, p.bits);
          if x == 0 { break; }
        }
      }
      i := i + 1;
    }
  }

  // ---- sorting, as functions of a key ------------------------------------------------------

  ghost predicate Sorted(s: seq<Address>, key: Address -> nat) {
    forall i, j :: 0 <= i < j < |s| ==> key(s[i]) <= key(s[j])
  }

  /** The elements with a given key, in order. */
  ghost function WithKey(s: seq<Address>, key: Address -> nat, k: nat): seq<Address> {
    if s == [] then []
    else WithKey(s[..|s| - 1], key, k) + if key(s[|s| - 1]) == k then [s[|s| - 1]] else []
  }

  /** Put x behind the last element whose key is not larger. */
  ghost function Insert(s: seq<Address>, key: Address -> nat, x: Address): seq<Address> {
    if s == [] || key(s[|s| - 1]) <= key(x) then s + [x]
    else Insert(s[..|s| - 1], key, x) + [s[|s| - 1]]
  }

  ghost function InsertionSort(s: seq<Address>, key: Address -> nat): (r: seq<Address>)
    ensures |r| == |s|
  {
    if s == [] then [] else
    InsertLength(InsertionSort(s[..|s| - 1], key), key, s[|s| - 1]);
    Insert(InsertionSort(s[..|s| - 1], key), key, s[|s| - 1])
  }

  lemma {:induction false} InsertLength(s: seq<Address>, key: Address -> nat, x: Address)
    ensures |Insert(s, key, x)| == |s| + 1
  {
    if s != [] { InsertLength(s[..|s| - 1], key, x); }
  }

  lemma {:induction false} InsertSorted(s: seq<Address>, key: Address -> nat, x: Address)
    requires Sorted(s, key)
    ensures Sorted(Insert(s, key, x), key)
    ensures forall y :: y in Insert(s, key, x) ==> y in s || y == x
  {
    if s != [] && key(s[|s| - 1]) > key(x) {
      var init, last := s[..|s| - 1], s[|s| - 1];
      InsertSorted(init, key, x);
      forall i | 0 <= i < |Insert(init, key, x)| ensures key(Insert(init, key, x)[i]) <= key(last) {
        assert Insert(init, key, x)[i] in Insert(init, key, x);
      }
    }
  }

  /** Where an insertion lands: in front of the elements with larger keys at the end. */
  lemma {:induction false} InsertLandsAt(s: seq<Address>, key: Address -> nat, x: Address, j: nat)
    requires j <= |s| && (j == 0 || key(s[j - 1]) <= key(x))
    requires forall k :: j <= k < |s| ==> key(s[k]) > key(x)
    ensures Insert(s, key, x) == s[..j] + ([x] + s[j..])
    decreases |s|
  {
    if j == |s| {
      assert s[..j] == s && [x] + s[j..] == [x];
    } else {
      var init, last := s[..|s| - 1], s[|s| - 1];
      InsertLandsAt(init, key, x, j);
      assert init[..j] == s[..j] && init[j..] + [last] == s[j..];
      assert s[..j] + ([x] + init[j..]) + [last] == s[..j] + ([x] + s[j..]);
    }
  }

  lemma WithKeySnoc(s: seq<Address>, key: Address -> nat, k: nat, x: Address)
    ensures WithKey(s + [x], key, k) == WithKey(s, key, k) + if key(x) == k then [x] else []
  {
    assert (s + [x])[..|s|] == s;
  }

  /** Inserting adds x at the end of its own class and leaves every other class alone. */
  lemma {:induction false} InsertStable(s: seq<Address>, key: Address -> nat, x: Address, k: nat)
    ensures WithKey(Insert(s, key, x), key, k) == WithKey(s + [x], key, k)
  {
    WithKeySnoc(s, key, k, x);
    if s != [] && key(s[|s| - 1]) > key(x) {
      var init, last := s[..|s| - 1], s[|s| - 1];
      InsertStable(init, key, x, k);
      WithKeySnoc(init, key, k, x);
      WithKeySnoc(Insert(init, key, x), key, k, last);
    }
  }

  /** The result is sorted, and for every key the elements with that key keep their order. */
  lemma {:induction false} InsertionSortCorrect(s: seq<Address>, key: Address -> nat, k: nat)
    ensures Sorted(InsertionSort(s, key), key)
    ensures WithKey(InsertionSort(s, key), key, k) == WithKey(s, key, k)
  {
    if s != [] {
      var init, last := s[..|s| - 1], s[|s| - 1];
      InsertionSortCorrect(init, key, k);
      InsertSorted(InsertionSort(init, key), key, last);
      InsertStable(InsertionSort(init, key), key, last, k);
      WithKeySnoc(InsertionSort(init, key), key, k, last);
      InsertLength(InsertionSort(init, key), key, last);
    }
  }

  /** All of it together: sorted, every class in its old order, and a permutation. */
  lemma StableSort(s: seq<Address>, key: Address -> nat)
    ensures var r := InsertionSort(s, key);
      && Sorted(r, key)
      && (forall k: nat :: WithKey(r, key, k) == WithKey(s, key, k))
      && multiset(r) == multiset(s)
  {
    var r := InsertionSort(s, key);
    InsertionSortCorrect(s, key, 0);
    forall k: nat ensures WithKey(r, key, k) == WithKey(s, key, k) { InsertionSortCorrect(s, key, k); }
    forall x ensures multiset(r)[x] == multiset(s)[x] { SameClassesSameElements(r, s, key, x); }
  }

  /** Keeping every class in order is keeping every element: the result is a permutation. */
  lemma {:induction false} SameClassesSameElements(s: seq<Address>, t: seq<Address>, key: Address -> nat, x: Address)
    requires WithKey(s, key, key(x)) == WithKey(t, key, key(x))
    ensures multiset(s)[x] == multiset(t)[x]
  {
    CountInClass(s, key, x);
    CountInClass(t, key, x);
  }

  lemma {:induction false} CountInClass(s: seq<Address>, key: Address -> nat, x: Address)
    ensures multiset(s)[x] == multiset(WithKey(s, key, key(x)))[x]
  {
    if s != [] {
      CountInClass(s[..|s| - 1], key, x);
      assert s == s[..|s| - 1] + [s[|s| - 1]];
    }
  }

  // ---- the sort in place ---------------------------------------------------------------------

  ghost predicate AddressesOf(f: Family, s: seq<Address>) {
    forall i :: 0 <= i < |s| ==> |s[i].bytes| == Length(f)
  }

  ghost function KeyOf(f: Family, patterns: seq<Pattern>): Address -> nat
    requires Sortlist(patterns)
  {
    (addr: Address) => Key(f, patterns, addr)
  }

  ghost function Key(f: Family, patterns: seq<Pattern>, addr: Address): nat
    requires Sortlist(patterns)
  {
    if |addr.bytes| == Length(f) then Index(f, patterns, addr) else 0
  }

  /**
   sort_addresses and sort6_addresses: the address buffers end up holding the stable sort of what they
   held, by index of the first matching pattern.
   */
  method SortAddresses(f: Family, a: array<Address>, patterns: seq<Pattern>)
    requires Sortlist(patterns) && AddressesOf(f, a[..])
    modifies a
    ensures a[..] == InsertionSort(old(a[..]), KeyOf(f, patterns))
    ensures Sorted(a[..], KeyOf(f, patterns))
    ensures forall k: nat :: WithKey(a[..], KeyOf(f, patterns), k) == WithKey(old(a[..]), KeyOf(f, patterns), k)
    ensures multiset(a[..]) == multiset(old(a[..]))
  {
    ghost var was, key := a[..], KeyOf(f, patterns);
    for i1 := 0 to a.Length
      invariant AddressesOf(f, a[..])
      invariant a[..i1] == InsertionSort(was[..i1], key)
      invariant a[i1..] == was[i1..]
    {
      assert was[..i1 + 1][..i1] == was[..i1] && was[i1] == a[i1..][0];
      InsertLength(a[..i1], key, a[i1]);
      InsertAt(f, a, patterns, i1);
    }
    assert a[..a.Length] == a[..] && was[..a.Length] == was;
    StableSort(was, key);
  }

  /** The inner loop: the value at i1 moves back through the sorted prefix. */
  method InsertAt(f: Family, a: array<Address>, patterns: seq<Pattern>, i1: nat)
    requires Sortlist(patterns) && AddressesOf(f, a[..]) && i1 < a.Length
    modifies a
    ensures AddressesOf(f, a[..])
    ensures a[..i1 + 1] == Insert(old(a[..i1]), KeyOf(f, patterns), old(a[i1]))
    ensures a[i1 + 1..] == old(a[i1 + 1..])
  {
    ghost var was := a[..];
    var a1 := a[i1];
    var j := ShiftDown(f, a, patterns, i1);
    a[j] := a1;
    LandsByKeys(f, patterns, was, i1, j);
    Landed(was, i1, j);
  }

  ghost function Keys(f: Family, patterns: seq<Pattern>, s: seq<Address>): (r: seq<nat>)
    requires Sortlist(patterns)
    ensures |r| == |s| && forall k {:trigger r[k]} :: 0 <= k < |s| ==> r[k] == Key(f, patterns, s[k])
  {
    seq(|s|, k requires 0 <= k < |s| => Key(f, patterns, s[k]))
  }

  /** Insertion told by the keys of the whole list. */
  lemma LandsByKeys(f: Family, patterns: seq<Pattern>, s: seq<Address>, i1: nat, j: nat)
    requires Sortlist(patterns) && j <= i1 < |s|
    requires var keys := Keys(f, patterns, s);
      (j == 0 || keys[j - 1] <= keys[i1]) && forall k :: j <= k < i1 ==> keys[k] > keys[i1]
    ensures Insert(s[..i1], KeyOf(f, patterns), s[i1]) == s[..i1][..j] + ([s[i1]] + s[..i1][j..])
  {
    var keys := Keys(f, patterns, s);
    assert forall k :: 0 <= k < |s| ==> KeyOf(f, patterns)(s[k]) == keys[k];
    InsertLandsAt(s[..i1], KeyOf(f, patterns), s[i1], j);
  }

  /** The list with positions j to i1 - 1 copied up by one; position j still holds its old value. */
  ghost function Gapped(was: seq<Address>, j: nat, i1: nat): (r: seq<Address>)
    requires j <= i1 < |was|
    ensures |r| == |was| && r[..j] == was[..j]
  {
    was[..j + 1] + was[j..i1] + was[i1 + 1..]
  }

  lemma GapMoves(was: seq<Address>, j: nat, i1: nat)
    requires 0 < j <= i1 < |was|
    ensures Gapped(was, j, i1)[j - 1] == was[j - 1]
    ensures Gapped(was, j, i1)[j := was[j - 1]] == Gapped(was, j - 1, i1)
  {
  }

  /** Elements with larger keys move up by one; j is where the gap ends up. */
  method ShiftDown(f: Family, a: array<Address>, patterns: seq<Pattern>, i1: nat) returns (j: nat)
    requires Sortlist(patterns) && AddressesOf(f, a[..]) && i1 < a.Length
    modifies a
    ensures var keys := Keys(f, patterns, old(a[..]));
      j <= i1 && (j == 0 || keys[j - 1] <= keys[i1]) && forall k :: j <= k < i1 ==> keys[k] > keys[i1]
    ensures a[..] == Gapped(old(a[..]), j, i1)
  {
    ghost var was, keys := a[..], Keys(f, patterns, a[..]);
    var ind1 := KeyAt(f, a[i1], patterns, was, i1);
    var i2: int := i1 - 1;
    while i2 >= 0
      invariant -1 <= i2 < i1
      invariant a[..] == Gapped(was, i2 + 1, i1)
      invariant forall k :: i2 < k < i1 ==> keys[k] > ind1
    {
      GapMoves(was, i2 + 1, i1);
      assert a[i2] == a[..][i2] == was[i2];
      var ind2 := KeyAt(f, a[i2], patterns, was, i2);
      if ind2 <= ind1 { break; }
      a[i2 + 1] := a[i2];
      i2 := i2 - 1;
    }
    j := i2 + 1;
  }

  /** The key of the k-th address of a list. */
  method KeyAt(f: Family, addr: Address, patterns: seq<Pattern>, ghost s: seq<Address>, ghost k: nat) returns (i: nat)
    requires Sortlist(patterns) && AddressesOf(f, s) && k < |s| && addr == s[k]
    ensures i == Keys(f, patterns, s)[k]
  {
    i := AddressIndex(f, addr, patterns);
  }

  lemma Landed(was: seq<Address>, i1: nat, j: nat)
    requires j <= i1 < |was|
    ensures var now := Gapped(was, j, i1)[j := was[i1]];
      && now[..i1 + 1] == was[..i1][..j] + ([was[i1]] + was[..i1][j..])
      && now[i1 + 1..] == was[i1 + 1..]
      && forall k :: 0 <= k < |now| ==> now[k] in was
  {
  }
}
