/**
 * The heap scenarios of test/test_basic.c, stated for every list of
 * integers rather than for the pseudo-random ones the tests draw, with
 * the integer comparator the tests use.
 */
module HeapScenarios {
  import opened Wrappers
  import opened HeapOrder
  import opened Container
  import opened AgHeap

  /** aghp_test_cmp: 1, -1 or 0 as a is bigger than, smaller than or equal
      to b. */
  function IntCmp(a: int, b: int): (r: int)
    ensures r < 0 <==> a < b
    ensures r == 0 <==> a == b
    ensures r > 0 <==> a > b
  {
    if a > b then 1 else if b > a then -1 else 0
  }

  /** The integer comparator meets the heap's comparator contract and tells
      distinct integers apart. */
  lemma IntCmpIsComparator()
    ensures IsComparator(IntCmp) && Discerning(IntCmp)
  {
    forall a: int, b: int
      ensures Antisymmetric(IntCmp, a, b)
    {
    }
    forall a: int, b: int, c: int
      ensures Transitive(IntCmp, a, b, c)
    {
    }
  }

  ghost predicate Ascending(s: seq<int>) {
    forall i, j :: 0 <= i < j < |s| ==> s[i] <= s[j]
  }

  ghost predicate Descending(s: seq<int>) {
    forall i, j :: 0 <= i < j < |s| ==> s[i] >= s[j]
  }

  /** Under the integer comparator, polarity 1 orders ascending and
      polarity -1 descending. */
  lemma SortedByIntCmp(s: seq<int>)
    ensures SortedBy(s, 1, IntCmp) <==> Ascending(s)
    ensures SortedBy(s, -1, IntCmp) <==> Descending(s)
  {
    if SortedBy(s, 1, IntCmp) {
      forall i, j | 0 <= i < j < |s| ensures s[i] <= s[j] {
        assert Compare(1, IntCmp, s[i], s[j]) <= 0;
      }
    }
    if SortedBy(s, -1, IntCmp) {
      forall i, j | 0 <= i < j < |s| ensures s[i] >= s[j] {
        assert Compare(-1, IntCmp, s[i], s[j]) <= 0;
      }
    }
  }

  /** test_basic: heapsort a Gromer of items ascending with
      aghp_ify_for_sort and aghp_sort under polarity 1, then re-sort the
      same Gromer descending with aghp_sort_gromer under -1. Both results
      are orderings of the items. */
  method BasicSorts(items: seq<int>) returns (ascending: seq<int>, descending: seq<int>)
    ensures multiset(ascending) == multiset(items) && Ascending(ascending)
    ensures multiset(descending) == multiset(items) && Descending(descending)
  {
    IntCmpIsComparator();
    var gr := new Gromer(items);
    var h := new Heap.Init(gr, IntCmp, 1);
    h.IfyForSort();
    ghost var heaped := gr.data;
    assert heaped[..|heaped|] == heaped;
    h.Sort();
    ascending := gr.data;
    assert ascending[..|heaped|] == ascending;
    SortedByIntCmp(ascending);
    SortGromer(gr, IntCmp, -1);
    descending := gr.data;
    SortedByIntCmp(descending);
  }

  /** test_limits: a heap made with polarity -1 reports it, is switched to
      1, takes every item twice (the first round reuses the Gromer's used
      slots, the second grows it), gives all of them back smallest first,
      is then empty, and a get on the empty heap returns NULL and leaves it
      empty. */
  method Limits(items: seq<int>) returns (before: int, after: int, drained: seq<int>,
                                          empty: bool, extra: Option<int>, stillEmpty: bool)
    ensures before == -1 && after == 1
    ensures multiset(drained) == multiset(items) + multiset(items)
    ensures Ascending(drained)
    ensures empty && extra == None && stillEmpty
  {
    IntCmpIsComparator();
    var gr := new Gromer(items);
    var h := new Heap.Init(gr, IntCmp, -1);
    before := h.GetPolar();
    h.SetPolar(1);
    after := h.GetPolar();
    HeapOrderedPrefix(gr.data, gr.data, 0, 1, IntCmp);
    PutAll(h, items, []);
    PutAll(h, items, items);
    drained := DrainAll(h, 2 * |items|, items + items);
    empty := h.IsEmpty();
    extra := h.Get();
    stillEmpty := h.IsEmpty();
  }

  /** The put loops of test_limits: put every item of `items` into a heap
      that holds `held`. */
  method PutAll(h: Heap<int>, items: seq<int>, ghost held: seq<int>)
    requires h.Ordered() && h.polar == 1 && h.cmp == IntCmp
    requires h.cnt == |held| && multiset(h.gr.data[..h.cnt]) == multiset(held)
    modifies h`cnt, h.gr
    ensures h.Ordered() && h.polar == 1
    ensures h.cnt == |held| + |items| && multiset(h.gr.data[..h.cnt]) == multiset(held + items)
  {
    for i := 0 to |items|
      invariant h.Ordered() && h.polar == 1
      invariant h.cnt == |held| + i && multiset(h.gr.data[..h.cnt]) == multiset(held + items[..i])
    {
      h.Put(items[i]);
      assert held + items[..i + 1] == held + items[..i] + [items[i]];
    }
    assert items[..|items|] == items;
  }

  /** The get loop of test_limits: get `count` items from a heap holding
      that many. What comes out is the heap's items, smallest first. */
  method DrainAll(h: Heap<int>, count: nat, ghost held: seq<int>) returns (out: seq<int>)
    requires h.Ordered() && h.polar == 1 && h.cmp == IntCmp
    requires h.cnt == count == |held| && multiset(h.gr.data[..h.cnt]) == multiset(held)
    modifies h`cnt, h.gr
    ensures h.Ordered() && h.polar == 1 && h.cnt == 0
    ensures multiset(out) == multiset(held) && Ascending(out)
  {
    out := [];
    for k := 0 to count
      invariant h.Ordered() && h.polar == 1 && h.cnt == |held| - k
      invariant multiset(out) + multiset(h.gr.data[..h.cnt]) == multiset(held)
      invariant Ascending(out)
      invariant forall j, y :: 0 <= j < |out| && y in multiset(h.gr.data[..h.cnt]) ==> out[j] <= y
    {
      ghost var d, n := h.gr.data, h.cnt;
      var x := h.Get();
      RootIsLeast(d, n, x.value);
      DrainStep(out, multiset(d[..n]), multiset(h.gr.data[..h.cnt]), x.value);
      out := out + [x.value];
    }
  }

  /** One get of the drain loop keeps `out` ascending and below every item
      still in the heap. */
  lemma DrainStep(out: seq<int>, before: multiset<int>, after: multiset<int>, r: int)
    requires after + multiset{r} == before
    requires Ascending(out)
    requires forall j, y :: 0 <= j < |out| && y in before ==> out[j] <= y
    requires forall y :: y in before ==> r <= y
    ensures Ascending(out + [r])
    ensures forall j, y :: 0 <= j < |out + [r]| && y in after ==> (out + [r])[j] <= y
  {
    assert r in before;
    forall j, y | 0 <= j < |out + [r]| && y in after
      ensures (out + [r])[j] <= y
    {
      assert y in before;
    }
  }

  /** The root that aghp_get returned under polarity 1 is no bigger than any
      item the heap held. */
  lemma RootIsLeast(s: seq<int>, n: nat, r: int)
    requires n <= |s|
    requires forall k :: 1 <= k <= n ==> Compare(1, IntCmp, r, Nth(s, k)) <= 0
    ensures forall y :: y in multiset(s[..n]) ==> r <= y
  {
    forall y | y in multiset(s[..n])
      ensures r <= y
    {
      var k :| 0 <= k < n && s[..n][k] == y;
      assert Compare(1, IntCmp, r, Nth(s, k + 1)) <= 0;
    }
  }
}
