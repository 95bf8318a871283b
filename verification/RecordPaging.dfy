/**
 The record list of a device: SendRecordInfo (SipClient/Device.cpp) splits it into pages, and
 RecordQueryHandler (SipService/EventHandler.cpp) collects pages until the announced number is there.
 */
module RecordPaging {

  const BATCH_SIZE := 6

  /** One response: the announced total and this page's items. */
  datatype Page<T> = Page(sumNum: nat, items: seq<T>)

  // ---- specification ---------------------------------------------------------------------------

  function Items<T>(pages: seq<Page<T>>): seq<T> {
    if pages == [] then [] else Items(pages[..|pages| - 1]) + pages[|pages| - 1].items
  }

  /**
   Pages of a list: all filled but possibly the last, all announcing the whole length. No page is empty,
   but that an empty list is announced by one page of nothing.
   */
  ghost predicate PagesOf<T>(pages: seq<Page<T>>, files: seq<T>) {
    && Items(pages) == files
    && (forall i :: 0 <= i < |pages| ==> pages[i].sumNum == |files| && |pages[i].items| <= BATCH_SIZE)
    && (forall i :: 0 <= i < |pages| - 1 ==> |pages[i].items| == BATCH_SIZE)
    && if files == [] then |pages| == 1 else forall i :: 0 <= i < |pages| ==> |pages[i].items| >= 1
  }

  // ---- sender --------------------------------------------------------------------------------------

  /** An empty list is announced by one page of nothing; otherwise the list goes out in pages. */
  method SendRecordInfo<T>(files: seq<T>) returns (pages: seq<Page<T>>)
    ensures PagesOf(pages, files)
    ensures |pages| == if files == [] then 1 else (|files| + BATCH_SIZE - 1) / BATCH_SIZE
  {
    if files == [] {
      pages := [Page(0, [])];
      assert pages[..0] == [];
      return;
    }
    var size := |files|;
    var times := (size + BATCH_SIZE - 1) / BATCH_SIZE;
    pages := [];
    assert files[..0] == [];
    for i := 0 to times
      invariant |pages| == i && Items(pages) == files[..if i < times then BATCH_SIZE * i else size]
      invariant forall k :: 0 <= k < i ==> pages[k].sumNum == size && 1 <= |pages[k].items| <= BATCH_SIZE
      invariant forall k :: 0 <= k < i && k < times - 1 ==> |pages[k].items| == BATCH_SIZE
    {
      var num := if i < times - 1 then BATCH_SIZE else size - BATCH_SIZE * (times - 1);
      var list := RecordList(files, i, num);
      var page := Page(size, list);
      assert (pages + [page])[..i] == pages;
      pages := pages + [page];
      assert files[..BATCH_SIZE * i + num] == files[..BATCH_SIZE * i] + list;
    }
    assert files[..size] == files;
  }

  /** The items of page i. */
  method RecordList<T>(files: seq<T>, i: nat, num: nat) returns (list: seq<T>)
    requires BATCH_SIZE * i + num <= |files|
    ensures list == files[BATCH_SIZE * i..BATCH_SIZE * i + num]
  {
    list := [];
    for j := 0 to num
      invariant list == files[BATCH_SIZE * i..BATCH_SIZE * i + j]
    {
      var index := i * BATCH_SIZE + j;
      list := list + [files[index]];
    }
  }

  // ---- receiver ------------------------------------------------------------------------------------

  /** The pending query: what has arrived, and how often it has been declared finished. */
  class RecordRequest<T> {
    var records: seq<T>
    var finished: nat

    constructor ()
      ensures records == [] && finished == 0
    {
      records, finished := [], 0;
    }

    method Handle(page: Page<T>)
      modifies this
      ensures records == old(records) + page.items
      ensures finished == old(finished) + if |records| == page.sumNum then 1 else 0
    {
      for i := 0 to |page.items|
        invariant records == old(records) + page.items[..i] && finished == old(finished)
      {
        records := records + [page.items[i]];
        assert page.items[..i + 1] == page.items[..i] + [page.items[i]];
      }
      assert page.items[..|page.items|] == page.items;
      if |records| == page.sumNum { finished := finished + 1; }
    }
  }

  // ---- any order of arrival ----------------------------------------------------------------------------

  lemma {:induction false} ItemsSplit<T>(a: seq<Page<T>>, b: seq<Page<T>>)
    ensures Items(a + b) == Items(a) + Items(b)
  {
    if b == [] {
      assert a + b == a;
    } else {
      var init, last := b[..|b| - 1], b[|b| - 1];
      ItemsSplit(a, init);
      var ab := a + b;
      assert ab[..|ab| - 1] == a + init && ab[|ab| - 1] == last;
      assert Items(a) + Items(init) + last.items == Items(a) + (Items(init) + last.items);
    }
  }

  lemma ItemsAround<T>(a: seq<Page<T>>, p: Page<T>, b: seq<Page<T>>)
    ensures multiset(Items(a + [p] + b)) == multiset(Items(a + b)) + multiset(p.items)
  {
    ItemsSplit(a + [p], b);
    ItemsSplit(a, [p]);
    ItemsSplit(a, b);
    assert [p][..0] == [];
    assert Items([p]) == p.items;
  }

  /** The items collected do not depend, as a multiset, on the order of the pages. */
  lemma {:induction false} ItemsPermuted<T>(a: seq<Page<T>>, b: seq<Page<T>>)
    requires multiset(a) == multiset(b)
    ensures multiset(Items(a)) == multiset(Items(b))
    decreases |a|
  {
    if a == [] {
      assert |multiset(b)| == 0;
    } else {
      var p, init := a[|a| - 1], a[..|a| - 1];
      assert a == init + [p];
      assert p in multiset(b);
      var i :| 0 <= i < |b| && b[i] == p;
      assert b == b[..i] + [p] + b[i + 1..];
      var rest := b[..i] + b[i + 1..];
      assert multiset(rest) == multiset(b) - multiset{p} == multiset(init);
      ItemsPermuted(init, rest);
      ItemsAround(b[..i], p, b[i + 1..]);
      ItemsAround(init, p, []);
      assert init + [p] + [] == a && init + [] == init;
    }
  }

  /**
   Pages of a list, arriving in any order with none lost or repeated: looked at after each arrival, the
   count matches the announced total when the last page has arrived and not before, and the records are
   then a permutation of the list.
   */
  lemma CompleteExactlyAtEnd<T>(files: seq<T>, pages: seq<Page<T>>, arrived: seq<Page<T>>, k: nat)
    requires PagesOf(pages, files) && multiset(arrived) == multiset(pages) && 0 < k <= |arrived|
    ensures |Items(arrived[..k])| == |files| <==> k == |arrived|
    ensures multiset(Items(arrived)) == multiset(files)
  {
    ItemsPermuted(arrived, pages);
    SameSize(Items(arrived), files);
    assert arrived[..|arrived|] == arrived;
    assert |multiset(arrived)| == |multiset(pages)|;
    if files != [] {
      forall i | 0 <= i < |arrived| ensures |arrived[i].items| >= 1 {
        assert arrived[i] in multiset(pages);
      }
      ItemsGrow(arrived, k);
    }
  }

  lemma SameSize<T>(a: seq<T>, b: seq<T>)
    requires multiset(a) == multiset(b)
    ensures |a| == |b|
  {
    assert |multiset(a)| == |multiset(b)|;
  }

  lemma {:induction false} ItemsGrow<T>(pages: seq<Page<T>>, k: nat)
    requires k <= |pages| && forall i :: 0 <= i < |pages| ==> |pages[i].items| >= 1
    ensures |Items(pages[..k])| + (|pages| - k) <= |Items(pages)|
    decreases |pages|
  {
    if k == |pages| {
      assert pages[..k] == pages;
    } else {
      var init := pages[..|pages| - 1];
      ItemsGrow(init, k);
      assert init[..k] == pages[..k];
    }
  }

  /** So whatever the order, the request is declared finished once, by the last page. */
  method Collect<T>(files: seq<T>, arrived: seq<Page<T>>, ghost pages: seq<Page<T>>) returns (request: RecordRequest<T>)
    requires PagesOf(pages, files) && multiset(arrived) == multiset(pages)
    ensures fresh(request) && request.finished == 1 && multiset(request.records) == multiset(files)
  {
    request := new RecordRequest<T>();
    assert |arrived| > 0 by { assert |multiset(arrived)| == |multiset(pages)|; }
    for k := 0 to |arrived|
      invariant fresh(request) && request.records == Items(arrived[..k])
      invariant request.finished == if k == |arrived| then 1 else 0
    {
      assert arrived[k] in multiset(pages);
      CompleteExactlyAtEnd(files, pages, arrived, k + 1);
      assert arrived[..k + 1][..k] == arrived[..k];
      request.Handle(arrived[k]);
    }
    CompleteExactlyAtEnd(files, pages, arrived, |arrived|);
    assert arrived[..|arrived|] == arrived;
  }
}
