/**
 * The binary heap of src/ag_heap.c: a priority queue kept in place in the
 * used slots of a Gromer, with a comparator and a polarity (1: smallest
 * item at the root, -1: biggest), and the heapsort built on it.
 *
 * Slots are counted from 1 as in the source: slot i is gr.data[i - 1]
 * (HeapOrder.Nth), its parent is slot i / 2 and its children are slots 2i
 * and 2i + 1.
 */
module AgHeap {
  import opened Wrappers
  import opened HeapOrder
  import opened Container

  /** aghp_s: the heap control block. */
  class Heap<T(!new)> {
    /** The Gromer holding the items; the heap never owns it. */
    const gr: Gromer<T>
    /** The caller's comparator. */
    const cmp: (T, T) -> int
    /** Number of items in the heap: slots 1..cnt. */
    var cnt: nat
    /** Polarity, multiplied into every comparison. */
    var polar: int

    ghost predicate Valid()
      reads this, gr
    {
      cnt <= |gr.data| && IsPolarity(polar) && IsComparator(cmp)
    }

    /** Valid, and slots 1..cnt in heap order for the current polarity. */
    ghost predicate Ordered()
      reads this, gr
    {
      Valid() && HeapOrdered(gr.data, cnt, polar, cmp)
    }

    /** aghp_init (and aghp_new, which allocates the block first): bind the
        heap to a Gromer and a comparator; the heap starts empty and the
        Gromer's slots are not touched. */
    constructor Init(g: Gromer<T>, c: (T, T) -> int, dir: int)
      requires IsComparator(c) && IsPolarity(dir)
      ensures gr == g && cmp == c && cnt == 0 && polar == dir
      ensures Ordered() && IsEmpty()
    {
      gr := g;
      cmp := c;
      cnt := 0;
      polar := dir;
    }

    /** aghp_is_empty. */
    function IsEmpty(): (r: bool)
      reads this
      ensures r <==> cnt == 0
    {
      if cnt > 0 then false else true
    }

    /** aghp_get_polar. */
    function GetPolar(): (r: int)
      reads this, gr
      requires Valid()
      ensures IsPolarity(r)
    {
      polar
    }

    /** aghp_set_polar. The heap order is not restored for the new polarity. */
    method SetPolar(p: int)
      requires Valid() && IsPolarity(p)
      modifies this`polar
      ensures Valid() && polar == p
    {
      polar := p;
    }

    /** aghp_inv_polar. The heap order is not restored for the new polarity;
        HeapOrder.InvertedPolarity states that the order is reversed. */
    method InvPolar()
      requires Valid()
      modifies this`polar
      ensures Valid() && polar == -old(polar)
    {
      polar := polar * -1;
    }

    /** aghp_put: grow the Gromer by one slot only when every slot is in use,
        then sift the item up from the new last slot. */
    method Put(item: T)
      requires Ordered()
      modifies this`cnt, gr
      ensures Ordered() && polar == old(polar)
      ensures cnt == old(cnt) + 1
      ensures |gr.data| == if old(cnt) >= old(|gr.data|) then old(|gr.data|) + 1 else old(|gr.data|)
      ensures multiset(gr.data[..cnt]) == multiset(old(gr.data)[..old(cnt)]) + multiset{item}
      ensures old(cnt) < old(|gr.data|) ==> gr.data[cnt..] == old(gr.data)[cnt..]
    {
      if cnt >= |gr.data| {
        gr.Push(item);  // the new slot is overwritten below
      }
      assert gr.data[..cnt] == old(gr.data)[..cnt];
      HeapOrderedPrefix(old(gr.data), gr.data, cnt, polar, cmp);
      cnt := cnt + 1;
      SiftUpStart(gr.data, cnt, item, polar, cmp);
      SiftUp(item, multiset(gr.data[..cnt - 1]) + multiset{item});
    }

    /** The loop of aghp_put and the write after it: with the new item
        waiting for the hole at slot cnt, move each parent that comes after
        the item down into the hole, until the hole is the root or its parent
        is not after the item; then put the item in the hole. The slots above
        cnt are left as they were. */
    method SiftUp(item: T, ghost items: multiset<T>)
      requires Valid() && SiftUpState(gr.data, cnt, cnt, item, polar, cmp, items)
      modifies gr
      ensures HeapOrdered(gr.data, cnt, polar, cmp) && multiset(gr.data[..cnt]) == items
      ensures |gr.data| == old(|gr.data|) && gr.data[cnt..] == old(gr.data)[cnt..]
    {
      var i: nat := cnt;
      while i > 1 && Compare(polar, cmp, Nth(gr.data, i / 2), item) > 0
        invariant SiftUpState(gr.data, cnt, i, item, polar, cmp, items)
        invariant |gr.data| == old(|gr.data|)
        invariant gr.data[cnt..] == old(gr.data)[cnt..]
        decreases i
      {
        SiftUpStep(gr.data, cnt, i, item, polar, cmp, items);
        gr.data := gr.data[i - 1 := Nth(gr.data, i / 2)];
        i := i / 2;
      }
      SiftUpDone(gr.data, cnt, i, item, polar, cmp, items);
      gr.data := gr.data[i - 1 := item];
    }

    /** aghp_get: on an empty heap, NULL and no change; otherwise take the
        root, move the last item into its place and sift it down. The root is
        the first item under polar * cmp. */
    method Get() returns (r: Option<T>)
      requires Ordered()
      modifies this`cnt, gr
      ensures Ordered() && polar == old(polar) && |gr.data| == old(|gr.data|)
      ensures r.None? <==> old(cnt) == 0
      ensures old(cnt) == 0 ==> cnt == 0 && gr.data == old(gr.data)
      ensures old(cnt) > 0 ==>
        && r == Some(Nth(old(gr.data), 1))
        && cnt == old(cnt) - 1
        && (forall k :: 1 <= k <= old(cnt) ==> Compare(polar, cmp, r.value, Nth(old(gr.data), k)) <= 0)
        && multiset(gr.data[..cnt]) + multiset{r.value} == multiset(old(gr.data)[..old(cnt)])
        && gr.data[cnt..] == old(gr.data)[cnt..]
    {
      if IsEmpty() {
        return None;
      }
      var ret := Nth(gr.data, 1);
      var last := Nth(gr.data, cnt);
      SiftDownStart(gr.data, cnt, last, polar, cmp);
      cnt := cnt - 1;
      SiftDown(last, multiset(gr.data[0 := last][..cnt]));
      r := Some(ret);
      forall k | 1 <= k <= old(cnt)
        ensures Compare(polar, cmp, ret, Nth(old(gr.data), k)) <= 0
      {
        RootFirst(old(gr.data), old(cnt), polar, cmp, k);
      }
    }

    /** The loop of aghp_get and the write after it: with the root taken out
        and the former last item waiting in slot cnt + 1, move the hole down
        from the root, each time lifting the first of the hole's children,
        until `last` is not after that child; then put `last` in the hole.
        The slots above cnt are left as they were. */
    method SiftDown(last: T, ghost items: multiset<T>)
      requires Valid() && cnt < |gr.data| && Nth(gr.data, cnt + 1) == last
      requires SiftDownState(gr.data, cnt, 1, last, polar, cmp, items)
      modifies gr
      ensures HeapOrdered(gr.data, cnt, polar, cmp) && multiset(gr.data[..cnt]) == items
      ensures |gr.data| == old(|gr.data|) && gr.data[cnt..] == old(gr.data)[cnt..]
    {
      var i: nat := 1;
      while i * 2 <= cnt
        invariant SiftDownState(gr.data, cnt, i, last, polar, cmp, items)
        invariant |gr.data| == old(|gr.data|)
        invariant gr.data[cnt..] == old(gr.data)[cnt..]
        decreases cnt - i
      {
        var child := FirstChild(i);
        if Compare(polar, cmp, last, Nth(gr.data, child)) > 0 {
          SiftDownStep(gr.data, cnt, i, last, child, polar, cmp, items);
          gr.data := gr.data[i - 1 := Nth(gr.data, child)];
        } else {
          SiftDownDone(gr.data, cnt, i, last, child, polar, cmp, items);
          break;
        }
        i := child;
      }
      if i * 2 > cnt {
        SiftDownDone(gr.data, cnt, i, last, i, polar, cmp, items);
      }
      gr.data := gr.data[i - 1 := last];
    }

    /** The step of aghp_get's loop that finds which child of slot i to
        lift: the left child 2i, unless the right child exists and is
        strictly before it under polar * cmp. */
    method FirstChild(i: nat) returns (child: nat)
      requires Valid() && 1 <= i && 2 * i <= cnt
      ensures child == 2 * i || child == 2 * i + 1
      ensures LeastChild(gr.data, cnt, i, child, polar, cmp)
    {
      child := i * 2;
      if child != cnt && Compare(polar, cmp, Nth(gr.data, child + 1), Nth(gr.data, child)) < 0 {
        RightChildIsLeast(gr.data, cnt, i, child, polar, cmp);
        child := child + 1;
      } else {
        LeftChildIsLeast(gr.data, cnt, i, child, polar, cmp);
      }
    }

    /** aghp_ify: arrange all used slots of the Gromer into a heap by putting
        the item of each slot 1, 2, ..., used in turn; each put claims exactly
        the slot its item is read from. */
    method Ify()
      requires Valid() && cnt == 0
      modifies this`cnt, gr
      ensures Ordered() && polar == old(polar)
      ensures cnt == |gr.data| == old(|gr.data|)
      ensures multiset(gr.data) == multiset(old(gr.data))
    {
      var i := 1;
      while i <= |gr.data|
        invariant 1 <= i <= |gr.data| + 1 && cnt == i - 1
        invariant Ordered() && polar == old(polar)
        invariant |gr.data| == old(|gr.data|)
        invariant multiset(gr.data) == multiset(old(gr.data))
      {
        ghost var d := gr.data;
        Put(Nth(gr.data, i));
        assert gr.data == gr.data[..i] + gr.data[i..];
        assert gr.data[i..] == d[i..];
        assert d == d[..i - 1] + [d[i - 1]] + d[i..];
        i := i + 1;
      }
    }

    /** aghp_ify_for_sort: heapify under the inverted polarity, then restore
        the polarity. */
    method IfyForSort()
      requires Valid() && cnt == 0
      modifies this`cnt, this`polar, gr
      ensures Valid() && polar == old(polar)
      ensures HeapOrdered(gr.data, cnt, -polar, cmp)
      ensures cnt == |gr.data| == old(|gr.data|)
      ensures multiset(gr.data) == multiset(old(gr.data))
    {
      InvPolar();
      Ify();
      InvPolar();
    }

    /** aghp_sort: under the inverted polarity, take the root cnt times and
        write each into the slot the heap has just given up (slot cnt + 1
        after the get); then restore the polarity. The first slots end up in
        order under polar * cmp: ascending for 1, descending for -1. */
    method Sort()
      requires Valid() && HeapOrdered(gr.data, cnt, -polar, cmp)
      modifies this`cnt, this`polar, gr
      ensures Valid() && polar == old(polar) && cnt == 0 && |gr.data| == old(|gr.data|)
      ensures SortedBy(gr.data[..old(cnt)], polar, cmp)
      ensures multiset(gr.data[..old(cnt)]) == multiset(old(gr.data)[..old(cnt)])
      ensures gr.data[old(cnt)..] == old(gr.data)[old(cnt)..]
    {
      var lim := cnt;
      InvPolar();
      ghost var items, rest := multiset(gr.data[..lim]), gr.data[lim..];
      for i := 0 to lim
        invariant Valid() && polar == -old(polar) && cnt == lim - i
        invariant SortState(gr.data, cnt, lim, old(polar), cmp, items, rest)
        invariant |gr.data| == old(|gr.data|)
      {
        ghost var s, n := gr.data, cnt;
        var x := Get();
        ghost var t := gr.data;
        gr.data := gr.data[cnt := x.value];  // slot cnt + 1
        SortStep(s, t, n, lim, x.value, old(polar), cmp, items, rest);
      }
      InvPolar();
      assert gr.data[..lim] == gr.data[0..lim];
    }
  }

  /** aghp_sort_gromer: sort the used slots of a Gromer in place, ascending
      for dir 1 and descending for dir -1, through a heap on the stack. The
      result is a permutation of the input; with a comparator that tells
      distinct items apart, sorting sorted data leaves it as it is. */
  method SortGromer<T(!new)>(gr: Gromer<T>, cmp: (T, T) -> int, dir: int)
    requires IsComparator(cmp) && IsPolarity(dir)
    modifies gr
    ensures |gr.data| == old(|gr.data|)
    ensures multiset(gr.data) == multiset(old(gr.data))
    ensures SortedBy(gr.data, dir, cmp)
    ensures Discerning(cmp) && SortedBy(old(gr.data), dir, cmp) ==> gr.data == old(gr.data)
  {
    var h := new Heap.Init(gr, cmp, dir);
    h.IfyForSort();
    ghost var heaped := gr.data;
    h.Sort();
    assert gr.data[..|gr.data|] == gr.data && heaped[..|heaped|] == heaped;
    if Discerning(cmp) && SortedBy(old(gr.data), dir, cmp) {
      SortedUnique(gr.data, old(gr.data), dir, cmp);
    }
  }
}
