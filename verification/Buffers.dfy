/** BlockBuffer and ForwardBuffer of base/memory/blockbuffer.h. */
module Buffers {

  type byte = b: int | 0 <= b < 256

  /** The static counters one instantiation of the template shares: blocks now, and at most so far. */
  class Totals {
    var current: int
    var peak: int

    constructor ()
      ensures current == 0 && peak == 0
    {
      current, peak := 0, 0;
    }
  }

  /** ceil(n / d) */
  function Ceil(n: nat, d: nat): (q: nat)
    requires d > 0
    ensures forall k: nat :: k * d >= n <==> k >= q
  {
    CeilLeast(n, d);
    n / d + if n % d > 0 then 1 else 0
  }

  lemma CeilLeast(n: nat, d: nat)
    requires d > 0
    ensures forall k: nat :: k * d >= n <==> k >= n / d + if n % d > 0 then 1 else 0
  {
    forall k: nat ensures k * d >= n <==> k >= n / d + if n % d > 0 then 1 else 0 {
      var q := n / d;
      assert n == q * d + n % d;
      if k <= q { assert k * d <= q * d by { MulMono(k, q, d); } }
      if k > q { assert k * d >= (q + 1) * d by { MulMono(q + 1, k, d); } assert (q + 1) * d == q * d + d; }
    }
  }

  lemma {:induction false} MulMono(a: nat, b: nat, d: nat)
    requires a <= b
    ensures a * d <= b * d
  {
    if a < b {
      MulMono(a, b - 1, d);
      assert b * d == (b - 1) * d + d;
    }
  }

  /** The text without the n bytes (or what there is of them) from `at` on. */
  function Cut(s: seq<byte>, at: nat, n: nat): seq<byte>
    requires at <= |s|
  {
    s[..at] + if at + n < |s| then s[at + n..] else []
  }

  /** Byte by byte: what stood before the stretch stays, what stood behind it moves down, if there is any. */
  lemma CutExactly(s: seq<byte>, at: nat, n: nat, r: seq<byte>)
    requires at <= |s|
    ensures r == Cut(s, at, n) <==>
      && |r| == (if at + n < |s| then |s| - n else at)
      && (forall i :: 0 <= i < at && i < |r| ==> r[i] == s[i])
      && (forall i :: at <= i < |r| ==> r[i] == s[i + n])
  {
  }

  class BlockBuffer {
    const blockSize: nat
    const maxBlocks: nat
    const totals: Totals
    var data: array<byte>
    var size: nat
    var block: nat

    ghost predicate Valid()
      reads this, data
    {
      && blockSize > 0 && block <= maxBlocks
      && data.Length == block * blockSize && size <= data.Length
    }

    /** The bytes in the buffer. */
    ghost function Contents(): seq<byte>
      requires Valid()
      reads this, data
    {
      data[..size]
    }

    function Capacity(): nat
      reads this
    {
      block * blockSize
    }

    function MaxSize(): nat { maxBlocks * blockSize }

    constructor (blockSize: nat, maxBlocks: nat, totals: Totals)
      requires blockSize > 0
      ensures Valid() && fresh(data) && Contents() == [] && block == 0
      ensures this.blockSize == blockSize && this.maxBlocks == maxBlocks && this.totals == totals
    {
      this.blockSize, this.maxBlocks, this.totals := blockSize, maxBlocks, totals;
      data, size, block := new byte[0], 0, 0;
    }

    /** The shared counters move by this buffer's change of blocks; growth may raise the peak. */
    twostate predicate Accounted()
      reads this, totals
    {
      && totals.current == old(totals.current) + block - old(block)
      && totals.peak == if block > old(block) then Larger(old(totals.peak), totals.current) else old(totals.peak)
    }

    /** Give the blocks back; only called on an empty buffer. */
    method Free()
      requires Valid() && size == 0
      modifies this`data, this`block, totals
      ensures Valid() && Contents() == [] && block == 0 && (data == old(data) || fresh(data))
      ensures Accounted()
    {
      if block > 0 {
        totals.current := totals.current - block;
        data := new byte[0];
        block := 0;
      }
    }

    /** The destructor. */
    method Destroy()
      requires Valid()
      modifies totals
      ensures totals.current == old(totals.current) - block && totals.peak == old(totals.peak)
    {
      if block > 0 { totals.current := totals.current - block; }
    }

    /**
     Room for `n` more bytes. The new block count is the least that gives it; with memory available it
     fails exactly when size and request exceed the maximum size, and a failure changes nothing.
     */
    method IncreaseCapacity(n: nat, memory: bool) returns (ok: bool)
      requires Valid()
      modifies this`data, this`block, totals
      ensures Valid() && Contents() == old(Contents()) && (data == old(data) || fresh(data))
      ensures ok ==> size + n <= Capacity()
      ensures ok ==> block == if size + n <= old(Capacity()) then old(block) else Ceil(size + n, blockSize)
      ensures ok <==> size + n <= old(Capacity()) || (memory && size + n <= MaxSize())
      ensures !ok ==> data == old(data) && block == old(block)
      ensures block >= old(block) && Accounted()
    {
      CapacityBounded();
      if n == 0 { return true; }
      var free := Capacity() - size;
      if free >= n { return true; }
      var missing := n - free;
      var newBlock := block + missing / blockSize;
      if missing % blockSize > 0 { newBlock := newBlock + 1; }
      GrowthIsLeast(size + n);
      if newBlock > maxBlocks { return false; }
      if !memory { return false; }
      var newData := new byte[newBlock * blockSize];
      CopyIn(newData, 0, data[..size]);
      totals.current := totals.current + newBlock - block;
      if totals.current > totals.peak { totals.peak := totals.current; }
      data, block := newData, newBlock;
      ok := true;
    }

    lemma CapacityBounded()
      requires Valid()
      ensures Capacity() <= MaxSize()
    {
      MulMono(block, maxBlocks, blockSize);
    }

    /** Adding whole blocks for the missing bytes reaches the least sufficient count. */
    lemma GrowthIsLeast(want: nat)
      requires Valid() && want > Capacity()
      ensures var missing := want - Capacity();
        && block + missing / blockSize + (if missing % blockSize > 0 then 1 else 0) == Ceil(want, blockSize)
        && (Ceil(want, blockSize) <= maxBlocks <==> want <= MaxSize())
        && Ceil(want, blockSize) * blockSize >= want && Ceil(want, blockSize) > block
    {
      var missing := want - block * blockSize;
      var q := Ceil(missing, blockSize);
      assert q * blockSize >= missing;
      assert (block + q) * blockSize == block * blockSize + q * blockSize;
      if q > 0 { assert (q - 1) * blockSize < missing; }
      assert (block + q - 1) * blockSize == block * blockSize + (q - 1) * blockSize;
      assert maxBlocks * blockSize >= want <==> maxBlocks >= Ceil(want, blockSize);
    }

    method Append(app: seq<byte>, memory: bool) returns (ok: bool)
      requires Valid()
      modifies this, data, totals
      ensures Valid() && (data == old(data) || fresh(data)) && Accounted()
      ensures Contents() == if ok then old(Contents()) + app else old(Contents())
      ensures ok <==> old(size) + |app| <= old(Capacity()) || (memory && old(size) + |app| <= MaxSize())
      ensures ok ==>
        block == if old(size) + |app| <= old(Capacity()) then old(block) else Ceil(old(size) + |app|, blockSize)
      ensures !ok ==> data == old(data) && block == old(block) && size == old(size)
    {
      CapacityBounded();
      if |app| == 0 { return true; }
      ok := IncreaseCapacity(|app|, memory);
      if ok {
        ghost var was := Contents();
        CopyIn(data, size, app);
        size := size + |app|;
        assert Contents() == was + app;
      }
    }

    method Resize(n: nat, c: byte, memory: bool) returns (ok: bool)
      requires Valid()
      modifies this, data, totals
      ensures Valid() && (data == old(data) || fresh(data)) && Accounted()
      ensures ok && n > old(size) ==> Contents() == old(Contents()) + seq(n - old(size), _ => c)
      ensures ok && n <= old(size) ==> Contents() == old(Contents())[..n]
      ensures ok <==> n <= old(Capacity()) || (memory && n <= MaxSize())
      ensures !ok ==> Contents() == old(Contents()) && data == old(data) && block == old(block)
    {
      CapacityBounded();
      if n > size {
        ok := IncreaseCapacity(n - size, memory);
        if !ok { return; }
        ghost var was := Contents();
        CopyIn(data, size, seq(n - size, _ => c));
        size := n;
        assert Contents() == was + seq(n - |was|, _ => c);
        return;
      }
      size := n;
      ok := true;
    }

    /** A position past the end appends; otherwise bytes are overwritten, and what reaches past the end is appended. */
    method Replace(pos: nat, rep: seq<byte>, memory: bool) returns (ok: bool)
      requires Valid()
      modifies this, data, totals
      ensures Valid() && (data == old(data) || fresh(data)) && Accounted()
      ensures ok && pos >= old(size) ==> Contents() == old(Contents()) + rep
      ensures ok && pos < old(size) <= pos + |rep| ==> Contents() == old(Contents())[..pos] + rep
      ensures pos + |rep| < old(size) ==> ok
      ensures pos + |rep| < old(size) ==> Contents() == old(Contents())[..pos] + rep + old(Contents())[pos + |rep|..]
      ensures !ok ==> Contents() == if pos >= old(size) then old(Contents()) else old(Contents())[..pos]
      ensures var want := (if pos < old(size) then pos else old(size)) + |rep|;
        ok <==> want <= old(Capacity()) || (memory && want <= MaxSize())
    {
      CapacityBounded();
      if pos >= size {
        ok := Append(rep, memory);
        return;
      }
      if pos + |rep| >= size {
        size := pos;
        ok := Append(rep, memory);
        return;
      }
      ghost var was := data[..];
      CopyIn(data, pos, rep);
      Spliced(data[..], was, size, pos, rep);
      ok := true;
    }

    /** Erase up to n bytes from pos; an emptied buffer gives its blocks back unless told to hold them. */
    method Erase(pos: nat, n: nat, hold: bool)
      requires Valid() && pos <= size
      modifies this, data, totals
      ensures Valid() && (data == old(data) || fresh(data)) && Accounted()
      ensures Contents() == Cut(old(Contents()), pos, n)
      ensures block == if size == 0 && !hold then 0 else old(block)
    {
      ghost var was := data[..];
      var m := size - pos;
      if n >= m {
        size := pos;
      } else {
        size := size - n;
        MoveDown(data, pos, pos + n, m - n);
        CutOut(was, data[..], size + n, pos, n);
      }
      if size == 0 && !hold { Free(); }
    }

    /**
     reserve: afterwards the free space is the request less the old capacity, which need not be the
     capacity asked for.
     */
    method Reserve(n: nat, memory: bool) returns (ok: bool)
      requires Valid()
      modifies this, totals
      ensures Valid() && (data == old(data) || fresh(data)) && Accounted()
      ensures Contents() == old(Contents())
      ensures n <= old(Capacity()) ==> ok && block == old(block)
      ensures n > old(Capacity()) ==> var want := size + (n - old(Capacity()));
        ok <==> want <= old(Capacity()) || (memory && want <= MaxSize())
      ensures !ok ==> data == old(data) && block == old(block)
      ensures ok && n > old(Capacity()) ==> var want := size + (n - old(Capacity()));
        block == if want <= old(Capacity()) then old(block) else Ceil(want, blockSize)
      ensures ok && n > old(Capacity()) ==> Capacity() - size >= n - old(Capacity())
      ensures ok && n > old(Capacity()) ==> (Capacity() >= n <==>
        var want := size + (n - old(Capacity()));
        old(Capacity()) < want && Ceil(want, blockSize) * blockSize >= n)
    {
      if n <= Capacity() { return true; }
      ok := IncreaseCapacity(n - Capacity(), memory);
    }
  }

  /** Bytes 1, 2 in a buffer of one block of two: replacing the second by two bytes fails, and it is gone. */
  method ReplaceLosesTailExample() returns (b: BlockBuffer, before: seq<byte>, ok: bool)
    ensures fresh(b) && b.Valid() && before == [1, 2] && !ok && b.Contents() == [1]
  {
    var totals := new Totals();
    b := new BlockBuffer(2, 1, totals);
    var _ := b.Append([1, 2], true);
    before := b.data[..b.size];
    ok := b.Replace(1, [3, 4], true);
  }

  /** One byte in a block of two: room for three is reserved, with success, and there is still one block. */
  method ReserveFallsShortExample() returns (b: BlockBuffer, ok: bool)
    ensures fresh(b) && b.Valid() && ok && b.Capacity() == 2
  {
    var totals := new Totals();
    b := new BlockBuffer(2, 4, totals);
    var _ := b.Append([7], true);
    assert Ceil(1, 2) == 1;
    ok := b.Reserve(3, true);
    assert Ceil(2, 2) == 1;
  }

  function Larger(a: int, b: int): int { if a < b then b else a }

  /** Moving down what follows a stretch of n bytes cuts the stretch out of the first `size` bytes. */
  lemma CutOut(was: seq<byte>, now: seq<byte>, size: nat, pos: nat, n: nat)
    requires pos + n <= size <= |was| == |now|
    requires now[..pos] == was[..pos] && now[pos..size - n] == was[pos + n..size]
    ensures now[..size - n] == Cut(was[..size], pos, n)
  {
    assert was[..size][..pos] == was[..pos] && was[..size][pos + n..] == was[pos + n..size];
    assert now[..size - n] == now[..pos] + now[pos..size - n];
  }

  /** Overwriting inside the first `size` bytes. */
  lemma Spliced(now: seq<byte>, was: seq<byte>, size: nat, pos: nat, rep: seq<byte>)
    requires pos + |rep| < size <= |was| == |now|
    requires now[..pos] == was[..pos] && now[pos..pos + |rep|] == rep && now[pos + |rep|..] == was[pos + |rep|..]
    ensures now[..size] == was[..size][..pos] + rep + was[..size][pos + |rep|..]
  {
    var end := pos + |rep|;
    assert now[end..size] == now[end..][..size - end] == was[end..size];
    assert now[..size] == now[..pos] + now[pos..end] + now[end..size];
  }

  method CopyIn(a: array<byte>, pos: nat, bytes: seq<byte>)
    requires pos + |bytes| <= a.Length
    modifies a
    ensures a[..pos] == old(a[..pos]) && a[pos..pos + |bytes|] == bytes && a[pos + |bytes|..] == old(a[pos + |bytes|..])
  {
    for i := 0 to |bytes|
      invariant forall k :: pos <= k < pos + i ==> a[k] == bytes[k - pos]
      invariant forall k :: 0 <= k < pos || pos + i <= k < a.Length ==> a[k] == old(a[k])
    {
      a[pos + i] := bytes[i];
    }
  }

  /** memmove towards the front. */
  method MoveDown(a: array<byte>, dst: nat, src: nat, n: nat)
    requires dst <= src && src + n <= a.Length
    modifies a
    ensures a[..dst] == old(a[..dst]) && a[dst..dst + n] == old(a[src..src + n])
  {
    ghost var was := a[..];
    for i := 0 to n
      invariant forall k :: dst <= k < dst + i ==> a[k] == was[k - dst + src]
      invariant forall k :: 0 <= k < dst || dst + i <= k < a.Length ==> a[k] == was[k]
    {
      a[dst + i] := a[src + i];
    }
    ghost var moved, now := was[src..src + n], a[dst..dst + n];
    forall k | 0 <= k < n ensures now[k] == moved[k] {
      assert a[dst + k] == was[src + k];
    }
    assert now == moved;
  }

  // ---- many buffers, one pair of counters -------------------------------------------------------

  /** Blocks held by each live buffer, and the counters. */
  datatype Ledger = Ledger(blocks: map<nat, nat>, current: int, peak: int)

  /** One buffer's block count becomes n: creation (0), growth, release or destruction followed by removal. */
  datatype Event = Create(id: nat) | Hold(id: nat, n: nat) | Destroy(id: nat)

  ghost predicate Enabled(l: Ledger, e: Event) {
    match e
    case Create(id) => id !in l.blocks
    case Hold(id, _) => id in l.blocks
    case Destroy(id) => id in l.blocks
  }

  /** The counters move as the methods above move them. */
  ghost function Apply(l: Ledger, e: Event): Ledger
    requires Enabled(l, e)
  {
    match e
    case Create(id) => l.(blocks := l.blocks[id := 0])
    case Hold(id, n) =>
      var c := l.current + n - l.blocks[id];
      Ledger(l.blocks[id := n], c, if n > l.blocks[id] then Larger(l.peak, c) else l.peak)
    case Destroy(id) => Ledger(l.blocks - {id}, l.current - l.blocks[id], l.peak)
  }

  ghost function Sum(m: map<nat, nat>): nat {
    if m == map[] then 0 else
    var id :| id in m;
    m[id] + Sum(m - {id})
  }

  lemma {:induction false} SumWithout(m: map<nat, nat>, id: nat)
    requires id in m
    ensures Sum(m) == m[id] + Sum(m - {id})
    decreases |m|
  {
    var k :| k in m && Sum(m) == m[k] + Sum(m - {k});
    if k != id {
      SumWithout(m - {k}, id);
      SumWithout(m - {id}, k);
      assert m - {k} - {id} == m - {id} - {k};
    }
  }

  lemma SumUpdate(m: map<nat, nat>, id: nat, n: nat)
    ensures Sum(m[id := n]) == n + Sum(m - {id})
  {
    SumWithout(m[id := n], id);
    assert m[id := n] - {id} == m - {id};
  }

  /** The current count is the sum over live buffers, and never above the peak. */
  ghost predicate Balanced(l: Ledger) { l.current == Sum(l.blocks) && l.current <= l.peak }

  lemma ApplyKeepsBalance(l: Ledger, e: Event)
    requires Balanced(l) && Enabled(l, e)
    ensures Balanced(Apply(l, e)) && Apply(l, e).peak >= l.peak
  {
    match e
    case Create(id) =>
      SumUpdate(l.blocks, id, 0);
      assert l.blocks - {id} == l.blocks;
    case Hold(id, n) =>
      SumUpdate(l.blocks, id, n);
      SumWithout(l.blocks, id);
    case Destroy(id) =>
      SumWithout(l.blocks, id);
  }

  ghost predicate IsHistory(l: Ledger, events: seq<Event>, l': Ledger)
    decreases |events|
  {
    if events == [] then l' == l else Enabled(l, events[0]) && IsHistory(Apply(l, events[0]), events[1..], l')
  }

  /** Over any interleaving of operations on any buffers. */
  lemma {:induction false} TotalsBalanced(l: Ledger, events: seq<Event>, l': Ledger)
    requires Balanced(l) && IsHistory(l, events, l')
    ensures Balanced(l') && l'.peak >= l.peak
    decreases |events|
  {
    if events != [] {
      ApplyKeepsBalance(l, events[0]);
      TotalsBalanced(Apply(l, events[0]), events[1..], l');
    }
  }

  /** One operation on one buffer; `memory` says whether an allocation would succeed. */
  datatype Op =
    | Append(app: seq<byte>, memory: bool)
    | Resize(n: nat, c: byte, memory: bool)
    | Replace(pos: nat, rep: seq<byte>, memory: bool)
    | Erase(from: nat, len: nat, hold: bool)
    | Reserve(want: nat, memory: bool)

  method Perform(b: BlockBuffer, op: Op)
    requires b.Valid() && (op.Erase? ==> op.from <= b.size)
    modifies b, b.data, b.totals
    ensures b.Valid() && (b.data == old(b.data) || fresh(b.data)) && b.Accounted()
  {
    match op {
      case Append(app, memory) => var _ := b.Append(app, memory);
      case Resize(n, c, memory) => var _ := b.Resize(n, c, memory);
      case Replace(pos, rep, memory) => var _ := b.Replace(pos, rep, memory);
      case Erase(from, len, hold) => b.Erase(from, len, hold);
      case Reserve(want, memory) => var _ := b.Reserve(want, memory);
    }
  }

  /** All live buffers of one instantiation, with their shared counters. */
  class Pool {
    const totals: Totals
    var buffers: map<nat, BlockBuffer>

    ghost function Arrays(): set<array<byte>>
      reads this, buffers.Values
    {
      set id | id in buffers :: buffers[id].data
    }

    ghost function Books(): Ledger
      reads this, totals, buffers.Values
    {
      Ledger(map id | id in buffers :: buffers[id].block, totals.current, totals.peak)
    }

    /** No two buffers share storage. */
    ghost predicate Separate()
      reads this, buffers.Values, Arrays()
    {
      && (forall id :: id in buffers ==> buffers[id].Valid() && buffers[id].totals == totals)
      && (forall i, j :: i in buffers && j in buffers && i != j ==>
            buffers[i] != buffers[j] && buffers[i].data != buffers[j].data)
    }

    ghost predicate Valid()
      reads this, totals, buffers.Values, Arrays()
    {
      Separate() && Balanced(Books())
    }

    constructor ()
      ensures Valid() && buffers == map[] && fresh(totals)
    {
      totals := new Totals();
      buffers := map[];
    }

    method Create(id: nat, blockSize: nat, maxBlocks: nat)
      requires Valid() && id !in buffers && blockSize > 0
      modifies this`buffers
      ensures Valid() && buffers.Keys == old(buffers).Keys + {id} && fresh(buffers[id])
      ensures forall k :: k in old(buffers) ==> buffers[k] == old(buffers)[k]
      ensures Books() == Apply(old(Books()), Event.Create(id))
    {
      var b := new BlockBuffer(blockSize, maxBlocks, totals);
      buffers := buffers[id := b];
      ApplyKeepsBalance(old(Books()), Event.Create(id));
      assert Books().blocks == old(Books()).blocks[id := 0];
    }

    method Destroy(id: nat)
      requires Valid() && id in buffers
      modifies this`buffers, totals
      ensures Valid() && buffers == old(buffers) - {id}
      ensures Books() == Apply(old(Books()), Event.Destroy(id))
    {
      ghost var before := Books();
      Remove(id);
      ApplyKeepsBalance(before, Event.Destroy(id));
    }

    method Remove(id: nat)
      requires Separate() && id in buffers
      modifies this`buffers, totals
      ensures Separate() && buffers == old(buffers) - {id}
      ensures Books() == Apply(old(Books()), Event.Destroy(id))
    {
      buffers[id].Destroy();
      buffers := buffers - {id};
      assert Books().blocks == old(Books()).blocks - {id};
    }

    /** An operation on one buffer leaves the bytes of all others alone and the counters balanced. */
    method Do(id: nat, op: Op)
      requires Valid() && id in buffers
      requires op.Erase? ==> op.from <= buffers[id].size
      modifies buffers[id], buffers[id].data, totals
      ensures Valid()
      ensures forall k :: k in buffers && k != id ==> buffers[k].Contents() == old(buffers[k].Contents())
      ensures Books() == Apply(old(Books()), Hold(id, buffers[id].block))
    {
      ghost var before := Books();
      Act(id, op);
      Booked(id);
      ApplyKeepsBalance(before, Hold(id, buffers[id].block));
    }

    method Act(id: nat, op: Op)
      requires Separate() && id in buffers
      requires op.Erase? ==> op.from <= buffers[id].size
      modifies buffers[id], buffers[id].data, totals
      ensures Separate() && buffers[id].Accounted()
      ensures forall k :: k in buffers && k != id ==>
        buffers[k].Contents() == old(buffers[k].Contents()) && buffers[k].block == old(buffers[k].block)
    {
      Perform(buffers[id], op);
    }

    /** A buffer that accounts for itself moves the books by one event. */
    twostate lemma Booked(id: nat)
      requires id in buffers && buffers == old(buffers)
      requires buffers[id].totals == totals && buffers[id].Accounted()
      requires forall k :: k in buffers && k != id ==> buffers[k].block == old(buffers[k].block)
      ensures Books() == Apply(old(Books()), Hold(id, buffers[id].block))
    {
      assert Books().blocks == old(Books()).blocks[id := buffers[id].block];
    }
  }

  // ---- ForwardBuffer ------------------------------------------------------------------------------

  /** A cut behind a position, seen from that position. */
  lemma CutBehind(s: seq<byte>, position: nat, at: nat, n: nat)
    requires position + at <= |s|
    ensures Cut(s, position + at, n)[position..] == Cut(s[position..], at, n)
  {
    var rest := s[position..];
    assert s[..position + at][position..] == rest[..at];
    if position + at + n < |s| { assert s[position + at + n..] == rest[at + n..]; }
  }

  /** Reads from the front without moving bytes: erasures at the front are only noted until Close. */
  class ForwardBuffer {
    const buffer: BlockBuffer
    var position: nat

    ghost predicate Valid()
      reads this, buffer, buffer.data
    {
      buffer.Valid() && position <= buffer.size
    }

    /** What the reader still sees. */
    ghost function Rest(): seq<byte>
      requires Valid()
      reads this, buffer, buffer.data
    {
      buffer.Contents()[position..]
    }

    constructor (buffer: BlockBuffer)
      requires buffer.Valid()
      ensures this.buffer == buffer && Valid() && Rest() == buffer.Contents()
    {
      this.buffer := buffer;
      position := 0;
    }

    method Erase(pos: nat, n: nat)
      requires Valid() && pos <= |Rest()| && (pos == 0 ==> n <= |Rest()|)
      modifies this, buffer, buffer.data, buffer.totals
      ensures Valid() && (buffer.data == old(buffer.data) || fresh(buffer.data))
      ensures Rest() == Cut(old(Rest()), pos, n)
    {
      ghost var all := buffer.Contents();
      if pos == 0 {
        position := position + n;
      } else {
        buffer.Erase(position + pos, n, false);
        CutBehind(all, position, pos, n);
      }
    }

    /** The destructor: the noted erasure happens, and the buffer holds exactly what was still to be read. */
    method Close()
      requires Valid()
      modifies buffer, buffer.data, buffer.totals
      ensures buffer.Valid() && buffer.Contents() == old(Rest())
    {
      buffer.Erase(0, position, false);
    }
  }
}
