/** StringReplaceAllT of base/util/string_util.cpp: replacement in two passes inside one buffer. */
module StringReplace {
  import opened Slices

  // ---- specification ---------------------------------------------------------------

  /** `find` occurs in s at position k. */
  predicate OccursAt<T(==)>(s: seq<T>, find: seq<T>, k: nat) {
    k + |find| <= |s| && s[k..k + |find|] == find
  }

  /** s from position k on, with `find` replaced: leftmost occurrences first, not overlapping. */
  function ReplacedFrom<T(==)>(s: seq<T>, k: nat, find: seq<T>, rep: seq<T>): seq<T>
    requires find != [] && k <= |s|
    decreases |s| - k
  {
    if k == |s| then []
    else if OccursAt(s, find, k) then rep + ReplacedFrom(s, k + |find|, find, rep)
    else [s[k]] + ReplacedFrom(s, k + 1, find, rep)
  }

  function Replaced<T(==)>(s: seq<T>, find: seq<T>, rep: seq<T>): seq<T>
    requires find != []
  {
    ReplacedFrom(s, 0, find, rep)
  }

  /** How many occurrences are replaced from position k on. */
  function CountFrom<T(==)>(s: seq<T>, k: nat, find: seq<T>): nat
    requires find != [] && k <= |s|
    decreases |s| - k
  {
    if k == |s| then 0
    else if OccursAt(s, find, k) then 1 + CountFrom(s, k + |find|, find)
    else CountFrom(s, k + 1, find)
  }

  ghost predicate AbsentBetween<T>(s: seq<T>, find: seq<T>, from: nat, to: nat) {
    forall j: nat :: from <= j < to ==> !OccursAt(s, find, j)
  }

  /** A stretch without occurrences is copied. */
  lemma {:induction false} CopiedUntil<T>(s: seq<T>, from: nat, to: nat, find: seq<T>, rep: seq<T>)
    requires find != [] && from <= to <= |s| && AbsentBetween(s, find, from, to)
    ensures ReplacedFrom(s, from, find, rep) == s[from..to] + ReplacedFrom(s, to, find, rep)
    ensures CountFrom(s, from, find) == CountFrom(s, to, find)
    decreases |s| - from
  {
    var rest := ReplacedFrom(s, to, find, rep);
    if from == to {
      assert s[from..to] + rest == rest;
    } else {
      assert !OccursAt(s, find, from);
      CopiedUntil(s, from + 1, to, find, rep);
      assert s[from..to] == [s[from]] + s[from + 1..to];
      Assoc([s[from]], s[from + 1..to], rest);
    }
  }

  /** The next occurrence: what precedes it is copied, it is replaced, and the scan goes on behind it. */
  lemma ScanFinds<T>(s: seq<T>, from: nat, pos: nat, find: seq<T>, rep: seq<T>)
    requires find != [] && from <= pos && OccursAt(s, find, pos) && AbsentBetween(s, find, from, pos)
    ensures ReplacedFrom(s, from, find, rep) == s[from..pos] + rep + ReplacedFrom(s, pos + |find|, find, rep)
    ensures CountFrom(s, from, find) == 1 + CountFrom(s, pos + |find|, find)
  {
    CopiedUntil(s, from, pos, find, rep);
    Assoc(s[from..pos], rep, ReplacedFrom(s, pos + |find|, find, rep));
  }

  /** No further occurrence: the rest is copied. */
  lemma ScanEnds<T>(s: seq<T>, from: nat, find: seq<T>, rep: seq<T>)
    requires find != [] && from <= |s| && AbsentBetween(s, find, from, |s|)
    ensures ReplacedFrom(s, from, find, rep) == s[from..]
    ensures CountFrom(s, from, find) == 0
  {
    CopiedUntil(s, from, |s|, find, rep);
    assert s[from..] + [] == s[from..|s|] == s[from..];
  }

  /** Length of the text behind the last occurrence that is replaced from position k on; all of it if there is none. */
  function TailFrom<T(==)>(s: seq<T>, k: nat, find: seq<T>): nat
    requires find != [] && k <= |s|
    decreases |s| - k
  {
    if CountFrom(s, k, find) == 0 then |s| - k
    else if OccursAt(s, find, k) then TailFrom(s, k + |find|, find)
    else TailFrom(s, k + 1, find)
  }

  lemma {:induction false} TailSkips<T>(s: seq<T>, from: nat, pos: nat, find: seq<T>)
    requires find != [] && from <= pos && OccursAt(s, find, pos) && AbsentBetween(s, find, from, pos)
    ensures TailFrom(s, from, find) == TailFrom(s, pos + |find|, find)
    decreases pos - from
  {
    ScanFinds(s, from, pos, find, []);
    if from < pos {
      assert !OccursAt(s, find, from);
      TailSkips(s, from + 1, pos, find);
    }
  }

  /**
   The copy that ends the work reads and writes overlapping cells: the text shrinks, and what lies behind the
   last occurrence is longer than all that has been freed.
   */
  predicate Overlaps<T(==)>(s: seq<T>, find: seq<T>, rep: seq<T>)
    requires find != []
  {
    && |rep| < |find| && CountFrom(s, 0, find) > 0
    && TailFrom(s, 0, find) > CountFrom(s, 0, find) * (|find| - |rep|)
  }

  /** n * d, by addition. */
  ghost function Times(n: nat, d: nat): nat {
    if n == 0 then 0 else d + Times(n - 1, d)
  }

  lemma {:induction false} TimesIsProduct(n: nat, d: nat)
    ensures Times(n, d) == n * d
  {
    if n > 0 {
      TimesIsProduct(n - 1, d);
      assert n * d == (n - 1) * d + d;
    }
  }

  /** Every replacement changes the length by the same amount. */
  lemma {:induction false} ReplacedLength<T>(s: seq<T>, k: nat, find: seq<T>, rep: seq<T>)
    requires find != [] && k <= |s|
    ensures |find| <= |rep| ==>
      |ReplacedFrom(s, k, find, rep)| == |s| - k + Times(CountFrom(s, k, find), |rep| - |find|)
    ensures |rep| <= |find| ==>
      |ReplacedFrom(s, k, find, rep)| + Times(CountFrom(s, k, find), |find| - |rep|) == |s| - k
    decreases |s| - k
  {
    if k == |s| {
    } else if OccursAt(s, find, k) {
      ReplacedLength(s, k + |find|, find, rep);
    } else {
      ReplacedLength(s, k + 1, find, rep);
    }
  }

  /** With nothing to replace, or nothing changed by it, the text stays as it is. */
  lemma {:induction false} ReplacedUnchanged<T>(s: seq<T>, k: nat, find: seq<T>, rep: seq<T>)
    requires find != [] && k <= |s| && (rep == find || CountFrom(s, k, find) == 0)
    ensures ReplacedFrom(s, k, find, rep) == s[k..]
    decreases |s| - k
  {
    if k == |s| {
    } else if OccursAt(s, find, k) {
      ReplacedUnchanged(s, k + |find|, find, rep);
      assert s[k..] == s[k..k + |find|] + s[k + |find|..];
    } else {
      ReplacedUnchanged(s, k + 1, find, rep);
    }
  }

  // ---- memory and search primitives ------------------------------------------------

  /** std::string::find: the first occurrence at or after `from`, or -1. */
  method FindFrom<T(==)>(a: array<T>, find: seq<T>, from: nat) returns (pos: int)
    requires find != [] && from <= a.Length
    ensures pos == -1 ==> AbsentBetween(a[..], find, from, a.Length)
    ensures pos != -1 ==> from <= pos && OccursAt(a[..], find, pos) && AbsentBetween(a[..], find, from, pos)
  {
    pos := from;
    while pos + |find| <= a.Length
      invariant from <= pos <= a.Length
      invariant AbsentBetween(a[..], find, from, pos)
    {
      assert a[..][pos..pos + |find|] == a[pos..pos + |find|];
      if a[pos..pos + |find|] == find { return; }
      pos := pos + 1;
    }
    pos := -1;
  }

  /** memmove(a + dst, a + src, n), direction chosen by the overlap; for dst <= src an ascending copy. */
  method Move<T>(a: array<T>, dst: nat, src: nat, n: nat)
    requires dst + n <= a.Length && src + n <= a.Length
    modifies a
    ensures a[..dst] == old(a[..dst])
    ensures a[dst..dst + n] == old(a[src..src + n])
    ensures a[dst + n..] == old(a[dst + n..])
  {
    ghost var was := a[..];
    if dst <= src {
      for i := 0 to n
        invariant forall k :: dst <= k < dst + i ==> a[k] == was[k - dst + src]
        invariant forall k :: 0 <= k < dst || dst + i <= k < a.Length ==> a[k] == was[k]
      {
        a[dst + i] := a[src + i];
      }
    } else {
      for i := n downto 0
        invariant forall k :: dst + i <= k < dst + n ==> a[k] == was[k - dst + src]
        invariant forall k :: 0 <= k < dst + i || dst + n <= k < a.Length ==> a[k] == was[k]
      {
        a[dst + i] := a[src + i];
      }
    }
    assert a[dst..dst + n] == was[src..src + n];
    assert a[dst + n..] == was[dst + n..];
  }

  /** Cell-by-cell copies, first cell first and last cell first. */
  function CopyUp<T>(s: seq<T>, dst: nat, src: nat, n: nat): (r: seq<T>)
    requires dst + n <= |s| && src + n <= |s|
    ensures |r| == |s|
  {
    if n == 0 then s else CopyUp(s, dst, src, n - 1)[dst + n - 1 := CopyUp(s, dst, src, n - 1)[src + n - 1]]
  }

  function CopyDown<T>(s: seq<T>, dst: nat, src: nat, n: nat): (r: seq<T>)
    requires dst + n <= |s| && src + n <= |s|
    ensures |r| == |s|
    decreases n
  {
    if n == 0 then s else CopyDown(s[dst + n - 1 := s[src + n - 1]], dst, src, n - 1)
  }

  predicate Disjoint(dst: nat, src: nat, n: nat) { dst + n <= src || src + n <= dst }

  /** The stretch at dst holds what the stretch at src held, and nothing else has changed. */
  ghost predicate Copied<T>(was: seq<T>, now: seq<T>, dst: nat, src: nat, n: nat)
    requires dst + n <= |was| == |now| && src + n <= |was|
  {
    forall k {:trigger now[k]} :: 0 <= k < |now| ==> now[k] == was[if dst <= k < dst + n then k - dst + src else k]
  }

  /** Copying upwards is right whenever the target does not lie inside the source. */
  lemma {:induction false} CopyUpIsCopy<T>(s: seq<T>, dst: nat, src: nat, n: nat)
    requires dst + n <= |s| && src + n <= |s| && (dst <= src || Disjoint(dst, src, n))
    ensures Copied(s, CopyUp(s, dst, src, n), dst, src, n)
  {
    if n > 0 { CopyUpIsCopy(s, dst, src, n - 1); }
  }

  /** Copying downwards is right on disjoint stretches. */
  lemma {:induction false} CopyDownIsCopy<T>(s: seq<T>, dst: nat, src: nat, n: nat)
    requires dst + n <= |s| && src + n <= |s| && Disjoint(dst, src, n)
    ensures Copied(s, CopyDown(s, dst, src, n), dst, src, n)
    decreases n
  {
    if n > 0 {
      var t := s[dst + n - 1 := s[src + n - 1]];
      CopyDownIsCopy(t, dst, src, n - 1);
      var r := CopyDown(s, dst, src, n);
      forall k {:trigger r[k]} | 0 <= k < |r| ensures r[k] == s[if dst <= k < dst + n then k - dst + src else k] {
        assert r[k] == t[if dst <= k < dst + n - 1 then k - dst + src else k];
      }
    }
  }

  /** memcpy inside one buffer. C promises a copy of disjoint stretches only; the direction is the library's choice. */
  method MemCpy<T>(a: array<T>, dst: nat, src: nat, n: nat, ascending: bool)
    requires dst + n <= a.Length && src + n <= a.Length
    modifies a
    ensures a[..] == if ascending then CopyUp(old(a[..]), dst, src, n) else CopyDown(old(a[..]), dst, src, n)
  {
    ghost var was := a[..];
    if ascending {
      for i := 0 to n
        invariant a[..] == CopyUp(was, dst, src, i)
      {
        a[dst + i] := a[src + i];
      }
    } else {
      for i := n downto 0
        invariant CopyDown(a[..], dst, src, i) == CopyDown(was, dst, src, n)
      {
        a[dst + i] := a[src + i];
      }
    }
  }

  /** memcpy of `bytes` to a + dst. */
  method Store<T>(a: array<T>, dst: nat, bytes: seq<T>)
    requires dst + |bytes| <= a.Length
    modifies a
    ensures a[..dst] == old(a[..dst])
    ensures a[dst..dst + |bytes|] == bytes
    ensures a[dst + |bytes|..] == old(a[dst + |bytes|..])
  {
    for i := 0 to |bytes|
      invariant forall k :: dst <= k < dst + i ==> a[k] == bytes[k - dst]
      invariant forall k :: 0 <= k < dst || dst + i <= k < a.Length ==> a[k] == old(a[k])
    {
      a[dst + i] := bytes[i];
    }
  }

  /** Move the text between two occurrences down and put the replacement behind it. */
  method ReplaceOne<T>(a: array<T>, target: nat, offset: nat, pos: nat, findLen: nat, rep: seq<T>) returns (next: nat)
    requires target <= offset <= pos && pos + findLen <= a.Length
    requires target + (pos - offset) + |rep| <= pos + findLen
    modifies a
    ensures next == target + (pos - offset) + |rep|
    ensures a[..next] == old(a[..target]) + old(a[offset..pos]) + rep
    ensures a[pos + findLen..] == old(a[pos + findLen..])
  {
    var n := pos - offset;
    ghost var was, end := a[..], pos + findLen;
    if target != pos { Move(a, target, offset, n); }
    ghost var mid := a[..];
    assert mid[target..target + n] == was[offset..pos];
    assert mid[target + n..] == was[target + n..];
    SuffixAgrees(mid, was, target + n, end);
    SplitAt(mid, target, target + n);
    Store(a, target + n, rep);
    next := target + n + |rep|;
    SplitAt(a[..], target + n, next);
    SuffixAgrees(a[..], mid, next, end);
  }

  /** Bring the text behind the last occurrence down to the write position. */
  method MoveTail<T>(a: array<T>, target: nat, offset: nat, ascending: bool)
    requires target <= offset <= a.Length
    modifies a
    ensures ascending || target == offset || Disjoint(target, offset, a.Length - offset) ==>
      a[..target + (a.Length - offset)] == old(a[..target]) + old(a[offset..])
  {
    var n := a.Length - offset;
    ghost var was := a[..];
    if target != offset { MemCpy(a, target, offset, n, ascending); }
    if ascending || target == offset || Disjoint(target, offset, n) {
      TailCopied(was, a[..], target, offset, ascending);
    }
  }

  lemma TailCopied<T>(was: seq<T>, now: seq<T>, target: nat, offset: nat, ascending: bool)
    requires target <= offset <= |was|
    requires var n := |was| - offset;
      && (ascending || target == offset || Disjoint(target, offset, n))
      && now == if target == offset then was
                else if ascending then CopyUp(was, target, offset, n) else CopyDown(was, target, offset, n)
    ensures now[..target + (|was| - offset)] == was[..target] + was[offset..]
  {
    var n := |was| - offset;
    if target != offset {
      if ascending { CopyUpIsCopy(was, target, offset, n); } else { CopyDownIsCopy(was, target, offset, n); }
      assert Copied(was, now, target, offset, n);
    }
  }

  // ---- the algorithm ---------------------------------------------------------------

  class Text<T(==)> {
    var data: array<T>

    constructor (s: seq<T>)
      ensures fresh(data) && data[..] == s
    {
      data := new T[|s|](i requires 0 <= i < |s| => s[i]);
    }

    /** std::string::resize; new cells hold the fill value. */
    method Resize(n: nat, fill: T)
      modifies this
      ensures fresh(data) && data.Length == n
      ensures n <= old(data).Length ==> data[..] == old(data[..n])
      ensures n > old(data).Length ==> data[..old(data).Length] == old(data[..])
    {
      var d := data;
      data := new T[n](i requires 0 <= i < n reads d => if i < d.Length then d[i] else fill);
    }

    /**
     StringReplaceAllT: the buffer ends up holding the replacement of its old text, if memcpy copies upwards
     or is never asked for an overlapping copy. The returned count is the number of replacements, twice
     that when the text grows.
     */
    method ReplaceAll(find: seq<T>, rep: seq<T>, fill: T, ascending: bool) returns (replaced: nat)
      modifies this, data
      ensures find == [] ==> data[..] == old(data[..]) && replaced == 0
      ensures find != [] ==> data.Length == |Replaced(old(data[..]), find, rep)|
      ensures find != [] && (ascending || !Overlaps(old(data[..]), find, rep)) ==>
        data[..] == Replaced(old(data[..]), find, rep)
      ensures find != [] ==>
        replaced == CountFrom(old(data[..]), 0, find) * if |find| < |rep| then 2 else 1
    {
      if find == [] || data.Length == 0 { return 0; }
      ghost var text := data[..];
      var offset := 0;
      replaced := 0;
      if |find| < |rep| {
        replaced := CountAll(find);
        if replaced == 0 {
          ReplacedUnchanged(text, 0, find, rep);
          return 0;
        }
        TimesIsProduct(replaced, |rep| - |find|);
        offset := replaced * (|rep| - |find|);
        OpenGap(offset, fill);
      }
      assert data[offset..] == text;
      var more := SecondPass(find, rep, offset, ascending, text);
      replaced := replaced + more;
      ReplacedLength(text, 0, find, rep);
      if |rep| < |find| {
        TimesIsProduct(replaced, |find| - |rep|);
        Resize(data.Length - replaced * (|find| - |rep|), fill);
      } else {
        assert data[..] == data[..data.Length];
      }
    }

    /** Make room in front of the text: enlarge the buffer and slide the text to its end. */
    method OpenGap(gap: nat, fill: T)
      modifies this
      ensures fresh(data) && data.Length == old(data).Length + gap
      ensures data[gap..] == old(data[..])
    {
      var size := data.Length;
      ghost var text := data[..];
      Resize(size + gap, fill);
      Move(data, gap, 0, size);
      assert data[gap..] == data[gap..gap + size] == text;
    }

    /** First pass: count the occurrences that will be replaced. */
    method CountAll(find: seq<T>) returns (n: nat)
      requires find != []
      ensures n == CountFrom(data[..], 0, find)
    {
      ghost var text := data[..];
      var offset := 0;
      n := 0;
      while true
        invariant offset <= data.Length && data[..] == text
        invariant n + CountFrom(text, offset, find) == CountFrom(text, 0, find)
        decreases data.Length - offset
      {
        var pos := FindFrom(data, find, offset);
        if pos == -1 {
          ScanEnds(text, offset, find, []);
          return;
        }
        ScanFinds(text, offset, pos, find, []);
        n := n + 1;
        offset := pos + |find|;
      }
    }

    /**
     Second pass. The text to scan lies at data[offset..]; output grows at data[..target]. The gap
     between them is what the replacements still to come will add (growing) or what those done have
     freed (shrinking), so no store reaches a cell that is still to be scanned.
     */
    method SecondPass(find: seq<T>, rep: seq<T>, offset0: nat, ascending: bool, ghost text: seq<T>)
      returns (replaced: nat)
      requires find != [] && offset0 <= data.Length && data[offset0..] == text
      requires Gap(find, rep, offset0, CountFrom(text, 0, find), 0)
      modifies data
      ensures Finished(text, find, rep, ascending, data, replaced)
    {
      var offset: nat, target: nat := offset0, 0;
      replaced := 0;
      ghost var done: seq<T>, p: nat, gap: nat := [], 0, offset0;
      ScanStarts(text, find, rep, gap);
      var found := true;
      while found && offset < data.Length
        invariant found ==> Laid(data[..], text, offset0, offset, target, done, p, gap)
        invariant found ==> Scanned(text, find, rep, done, p, gap, replaced)
        invariant !found ==> Finished(text, find, rep, ascending, data, replaced)
        decreases found, |text| - p
      {
        found, offset, target, replaced, done, p, gap :=
          Round(find, rep, offset, target, replaced, ascending, text, offset0, done, p, gap);
      }
      if found { assert done + [] == done; }
    }

    /** One round: replace the next occurrence, or move what is left down and stop. */
    method Round(find: seq<T>, rep: seq<T>, offset0: nat, target0: nat, replaced0: nat, ascending: bool,
                 ghost text: seq<T>, ghost base: nat, ghost done0: seq<T>, ghost p0: nat, ghost gap0: nat)
      returns (found: bool, offset: nat, target: nat, replaced: nat, ghost done: seq<T>, ghost p: nat, ghost gap: nat)
      requires find != [] && p0 < |text|
      requires Laid(data[..], text, base, offset0, target0, done0, p0, gap0)
      requires Scanned(text, find, rep, done0, p0, gap0, replaced0)
      modifies data
      ensures p0 < p <= |text|
      ensures found ==> Laid(data[..], text, base, offset, target, done, p, gap)
      ensures found ==> Scanned(text, find, rep, done, p, gap, replaced)
      ensures !found ==> Finished(text, find, rep, ascending, data, replaced)
    {
      var pos;
      ghost var k;
      pos, k := FindNext(find, offset0, text, base, p0);
      found, offset, target, replaced, done, p, gap := pos != -1, offset0, target0, replaced0, done0, |text|, gap0;
      if found {
        p, done := k + |find|, done0 + text[p0..k] + rep;
        ScannedStep(text, find, rep, done0, p0, gap0, replaced0, k, done, p, gap0 + |find| - |rep|);
        gap := gap0 + |find| - |rep|;
        offset, replaced := pos + |find|, replaced0 + 1;
        target := ReplaceNext(rep, offset0, target0, pos, |find|, text, base, done0, p0, gap0, k);
      } else {
        Finish(find, rep, offset0, target0, replaced0, ascending, text, base, done0, p0, gap0);
      }
    }

    /** The replacement of the occurrence found, told in terms of the text. */
    method ReplaceNext(rep: seq<T>, offset: nat, target0: nat, pos: nat, findLen: nat,
                       ghost text: seq<T>, ghost base: nat, ghost done: seq<T>,
                       ghost p: nat, ghost gap: nat, ghost k: nat)
      returns (target: nat)
      requires Laid(data[..], text, base, offset, target0, done, p, gap)
      requires p <= k && k + findLen <= |text| && pos == base + k && gap + findLen >= |rep|
      modifies data
      ensures Laid(data[..], text, base, pos + findLen, target,
                   done + text[p..k] + rep, k + findLen, gap + findLen - |rep|)
    {
      ghost var was := data[..];
      target := ReplaceOne(data, target0, offset, pos, findLen, rep);
      PartReplaced(was, data[..], text, rep, done, base, p, k, k + findLen, offset, target0, pos, target);
    }

    /** No further occurrence: what is left moves down. */
    method Finish(ghost find: seq<T>, ghost rep: seq<T>, offset: nat, target: nat, ghost replaced: nat, ascending: bool,
                  ghost text: seq<T>, ghost base: nat, ghost done: seq<T>, ghost p: nat, ghost gap: nat)
      requires find != [] && Laid(data[..], text, base, offset, target, done, p, gap)
      requires Scanned(text, find, rep, done, p, gap, replaced)
      requires AbsentBetween(text, find, p, |text|)
      modifies data
      ensures Finished(text, find, rep, ascending, data, replaced)
      ensures !Disjoint(target, offset, data.Length - offset) && target != offset <==> Overlaps(text, find, rep)
    {
      ScannedAll(text, find, rep, done, p, gap, replaced);
      LastCopyOverlaps(text, find, rep, done, p, gap, replaced);
      MoveTail(data, target, offset, ascending);
    }

    /**
     The search, told in terms of the text: what is still to be scanned has not been overwritten. The
     occurrence found in the buffer is the one at position k of the text.
     */
    method FindNext(find: seq<T>, offset: nat, ghost text: seq<T>, ghost base: nat, ghost p: nat)
      returns (pos: int, ghost k: nat)
      requires find != [] && p <= |text| && offset == base + p && data.Length == base + |text|
      requires data[offset..] == text[p..]
      ensures pos == -1 ==> AbsentBetween(text, find, p, |text|)
      ensures pos != -1 ==> p <= k && pos == base + k && OccursAt(text, find, k) && AbsentBetween(text, find, p, k)
    {
      pos := FindFrom(data, find, offset);
      ghost var at := if pos == -1 then data.Length else pos;
      SameTail(data[..], text, find, base, offset, at);
      k := at - base;
    }
  }

  /** Where things lie in the buffer: `done` at its front, the text from p on at `offset`, `gap` cells between. */
  ghost predicate Laid<T>(d: seq<T>, text: seq<T>, base: nat, offset: nat, target: nat,
                          done: seq<T>, p: nat, gap: nat)
  {
    && |d| == base + |text| && p <= |text| && offset == base + p && target + gap == offset
    && d[offset..] == text[p..] && d[..target] == done
  }

  /** What one replacement does to the buffer. */
  lemma PartReplaced<T>(was: seq<T>, now: seq<T>, text: seq<T>, rep: seq<T>, done: seq<T>, base: nat,
                        p: nat, k: nat, end: nat, offset: nat, target: nat, pos: nat, next: nat)
    requires |was| == |now| == base + |text| && p <= k <= end <= |text|
    requires offset == base + p && pos == base + k && target <= offset && next <= base + end
    requires was[offset..] == text[p..] && was[..target] == done
    requires now[..next] == was[..target] + was[offset..pos] + rep && now[base + end..] == was[base + end..]
    ensures now[..next] == done + text[p..k] + rep && now[base + end..] == text[end..]
  {
    TailSlices(was, offset, pos, base + end);
    TailSlices(text, p, k, end);
  }

  /** The buffer starts with the finished text, unless an overlapping copy went wrong. */
  ghost predicate Finished<T>(text: seq<T>, find: seq<T>, rep: seq<T>, ascending: bool, data: array<T>, replaced: nat)
    requires find != []
    reads data
  {
    && replaced == CountFrom(text, 0, find)
    && |Replaced(text, find, rep)| <= data.Length
    && (ascending || !Overlaps(text, find, rep) ==>
          data[..|Replaced(text, find, rep)|] == Replaced(text, find, rep))
  }

  /** Occurrences in the part still to be scanned are those of the text. */
  lemma SameTail<T>(d: seq<T>, text: seq<T>, find: seq<T>, base: nat, offset: nat, pos: nat)
    requires base <= offset <= pos <= |d| == base + |text|
    requires d[offset..] == text[offset - base..] && AbsentBetween(d, find, offset, pos)
    ensures AbsentBetween(text, find, offset - base, pos - base)
    ensures OccursAt(d, find, pos) <==> OccursAt(text, find, pos - base)
  {
    forall j: nat | offset - base <= j < pos - base ensures !OccursAt(text, find, j) {
      SameAt(d, text, find, base, offset, j + base);
    }
    SameAt(d, text, find, base, offset, pos);
  }

  lemma SameAt<T>(d: seq<T>, text: seq<T>, find: seq<T>, base: nat, offset: nat, j: nat)
    requires base <= offset <= j <= |d| == base + |text|
    requires d[offset..] == text[offset - base..]
    ensures OccursAt(d, find, j) <==> OccursAt(text, find, j - base)
  {
    if j + |find| <= |d| {
      MidSlice(d, offset, j, j + |find|);
      MidSlice(text, offset - base, j - base, j - base + |find|);
    }
  }

  /**
   Between two rounds of the second pass: `done` is written, text[p..] still to be scanned, and the
   two positions lie `gap` apart.
   */
  ghost predicate Scanned<T>(text: seq<T>, find: seq<T>, rep: seq<T>, done: seq<T>, p: nat, gap: int, replaced: nat)
    requires find != []
  {
    && p <= |text|
    && Gap(find, rep, gap, CountFrom(text, p, find), replaced)
    && done + ReplacedFrom(text, p, find, rep) == Replaced(text, find, rep)
    && replaced + CountFrom(text, p, find) == CountFrom(text, 0, find)
    && TailFrom(text, p, find) == TailFrom(text, 0, find)
  }

  /** One replacement: the store ends at or before the first cell still to be scanned. */
  lemma ScannedStep<T>(text: seq<T>, find: seq<T>, rep: seq<T>, done: seq<T>, p: nat, gap: int, replaced: nat,
                       pos: nat, done': seq<T>, p': nat, gap': int)
    requires find != [] && Scanned(text, find, rep, done, p, gap, replaced)
    requires p <= pos && OccursAt(text, find, pos) && AbsentBetween(text, find, p, pos)
    requires done' == done + text[p..pos] + rep && p' == pos + |find| && gap' == gap + |find| - |rep|
    ensures gap' >= 0
    ensures Scanned(text, find, rep, done', p', gap', replaced + 1)
  {
    ScanFinds(text, p, pos, find, rep);
    TailSkips(text, p, pos, find);
    var rest := ReplacedFrom(text, pos + |find|, find, rep);
    GapAllows(find, rep, gap, CountFrom(text, pos + |find|, find), replaced);
    Assoc(done, text[p..pos] + rep, rest);
    Assoc(done, text[p..pos], rep);
  }

  lemma ScanStarts<T>(text: seq<T>, find: seq<T>, rep: seq<T>, gap: nat)
    requires find != [] && Gap(find, rep, gap, CountFrom(text, 0, find), 0)
    ensures text[0..] == text && Scanned(text, find, rep, [], 0, gap, 0)
  {
    assert [] + Replaced(text, find, rep) == Replaced(text, find, rep);
  }

  lemma ScannedAll<T>(text: seq<T>, find: seq<T>, rep: seq<T>, done: seq<T>, p: nat, gap: int, replaced: nat)
    requires find != [] && Scanned(text, find, rep, done, p, gap, replaced) && AbsentBetween(text, find, p, |text|)
    ensures done + text[p..] == Replaced(text, find, rep) && replaced == CountFrom(text, 0, find)
  {
    ScanEnds(text, p, find, rep);
  }

  /** Whether the last copy overlaps can be told from the text alone. */
  lemma LastCopyOverlaps<T>(text: seq<T>, find: seq<T>, rep: seq<T>, done: seq<T>, p: nat, gap: int, replaced: nat)
    requires find != [] && Scanned(text, find, rep, done, p, gap, replaced) && AbsentBetween(text, find, p, |text|)
    ensures 0 < gap < |text| - p <==> Overlaps(text, find, rep)
  {
    ScanEnds(text, p, find, rep);
    var d := if |find| < |rep| then 0 else |find| - |rep|;
    TimesIsProduct(replaced, d);
    if replaced > 0 && d > 0 { assert Times(replaced, d) >= d; }
  }

  /** The smallest kind of case: three cells are copied two cells down, and last cell first that goes wrong. */
  lemma OverlapExample()
    ensures Overlaps("abxyz", "ab", "") && Replaced("abxyz", "ab", "") == "xyz"
    ensures CopyDown("abxyz", 0, 2, 3)[..3] == "zyz"
  {
    var s, find := "abxyz", "ab";
    assert s[0..2] == find && OccursAt(s, find, 0);
    assert s[2] != 'a' && s[3] != 'a';
    assert !OccursAt(s, find, 2) by { assert s[2..4][0] == 'x'; }
    assert !OccursAt(s, find, 3) by { assert s[3..5][0] == 'y'; }
    assert !OccursAt(s, find, 4);
    assert AbsentBetween(s, find, 2, 5);
    ScanEnds(s, 2, find, "");
    assert s[2..] == "xyz" && "" + s[2..] == "xyz";
    assert CountFrom(s, 0, find) == 1 && TailFrom(s, 0, find) == 3;
    var s1 := s[2 := s[4]];
    var s2 := s1[1 := s1[3]];
    assert CopyDown(s2, 0, 2, 1) == s2[0 := s2[2]];
    assert CopyDown(s1, 0, 2, 2) == CopyDown(s2, 0, 2, 1);
    assert CopyDown(s, 0, 2, 3) == CopyDown(s1, 0, 2, 2);
  }

  /** One replacement that makes the text grow is reported as two. */
  method CountedTwiceExample() returns (t: Text<char>, replaced: nat)
    ensures fresh(t) && t.data[..] == "bb" && replaced == 2
  {
    t := new Text("a");
    ghost var s := t.data[..];
    assert s[0..1] == "a" && OccursAt(s, "a", 0);
    assert CountFrom(s, 1, "a") == 0 && ReplacedFrom(s, 1, "a", "bb") == "";
    assert Replaced(s, "a", "bb") == "bb" + "" == "bb";
    replaced := t.ReplaceAll("a", "bb", ' ', true);
  }

  /** Distance from the write position to the read position. */
  ghost predicate Gap<T>(find: seq<T>, rep: seq<T>, gap: int, left: nat, done: nat) {
    gap == if |find| < |rep| then Times(left, |rep| - |find|) else Times(done, |find| - |rep|)
  }

  /** A replacement fits before the text still to be scanned, and keeps the distance right. */
  lemma GapAllows<T>(find: seq<T>, rep: seq<T>, gap: int, left: nat, done: nat)
    requires Gap(find, rep, gap, left + 1, done)
    ensures gap + |find| >= |rep|
    ensures Gap(find, rep, gap + |find| - |rep|, left, done + 1)
  {
  }
}
