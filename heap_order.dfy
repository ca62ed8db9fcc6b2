/**
 * The ordering vocabulary of the binary heap in src/ag_heap.c: the
 * polarity-adjusted comparison (aghp_compare), 1-based access to the
 * backing data (aghp_nth), the heap-order invariant, sortedness, and the
 * states the sift-up (aghp_put) and sift-down (aghp_get) loops pass through.
 */
module HeapOrder {

  /** The comparator contract the heap relies on: the sign of cmp(a, b) says
      whether a comes before (< 0), together with (0) or after (> 0) b, the two
      orders of a pair agree, and "not after" is transitive. */
  ghost predicate IsComparator<T(!new)>(cmp: (T, T) -> int) {
    && (forall a, b :: Antisymmetric(cmp, a, b))
    && (forall a, b, c :: Transitive(cmp, a, b, c))
  }

  /** a before b exactly when b after a. (A predicate of its own, so that
      the contract is only used where a proof names the pair.) */
  ghost predicate Antisymmetric<T>(cmp: (T, T) -> int, a: T, b: T) {
    cmp(a, b) < 0 <==> cmp(b, a) > 0
  }

  /** a not after b and b not after c give a not after c. */
  ghost predicate Transitive<T>(cmp: (T, T) -> int, a: T, b: T, c: T) {
    cmp(a, b) <= 0 && cmp(b, c) <= 0 ==> cmp(a, c) <= 0
  }

  /** Heap polarity: 1 puts the smallest item at the root, -1 the biggest. */
  predicate IsPolarity(polar: int) {
    polar == 1 || polar == -1
  }

  /** aghp_compare: the comparator result multiplied by the polarity. */
  function Compare<T>(polar: int, cmp: (T, T) -> int, a: T, b: T): (r: int)
    ensures polar == 1 ==> r == cmp(a, b)
    ensures polar == -1 ==> r == -cmp(a, b)
  {
    polar * cmp(a, b)
  }

  /** aghp_nth: heap slot i (counted from 1) is element i - 1 of the data. */
  function Nth<T>(s: seq<T>, i: nat): T
    requires 1 <= i <= |s|
  {
    s[i - 1]
  }

  /** The item in the parent slot of slot i (slot i / 2). A function of its
      own, so that the facts about all parent/child pairs do not generate
      further parents of their own. */
  function ParentOf<T>(s: seq<T>, i: nat): T
    requires 2 <= i <= |s|
  {
    s[i / 2 - 1]
  }

  /** The heap-order invariant over the first n slots: every parent (slot
      i / 2) is ordered before or with its child (slot i). */
  ghost predicate HeapOrdered<T>(s: seq<T>, n: nat, polar: int, cmp: (T, T) -> int) {
    && n <= |s|
    && forall i :: 2 <= i <= n ==> Compare(polar, cmp, ParentOf(s, i), Nth(s, i)) <= 0
  }

  /** s is ordered non-decreasingly under polar * cmp. */
  ghost predicate SortedBy<T>(s: seq<T>, polar: int, cmp: (T, T) -> int) {
    forall i, j :: 0 <= i < j < |s| ==> Compare(polar, cmp, s[i], s[j]) <= 0
  }

  /** Every element of xs is ordered before or with every element of ys. */
  ghost predicate AllBefore<T>(xs: seq<T>, ys: seq<T>, polar: int, cmp: (T, T) -> int) {
    forall i, j :: 0 <= i < |xs| && 0 <= j < |ys| ==> Compare(polar, cmp, xs[i], ys[j]) <= 0
  }

  // ---------------------------------------------------------------------
  // The adjusted comparison is itself a comparator.

  lemma CompareFlip<T(!new)>(polar: int, cmp: (T, T) -> int, a: T, b: T)
    requires IsComparator(cmp) && IsPolarity(polar)
    ensures Compare(polar, cmp, a, b) < 0 <==> Compare(polar, cmp, b, a) > 0
    ensures Compare(polar, cmp, a, b) == 0 <==> Compare(polar, cmp, b, a) == 0
  {
    assert Antisymmetric(cmp, a, b) && Antisymmetric(cmp, b, a);
  }

  lemma CompareRefl<T(!new)>(polar: int, cmp: (T, T) -> int, a: T)
    requires IsComparator(cmp) && IsPolarity(polar)
    ensures Compare(polar, cmp, a, a) == 0
  {
    CompareFlip(polar, cmp, a, a);
  }

  lemma CompareTrans<T(!new)>(polar: int, cmp: (T, T) -> int, a: T, b: T, c: T)
    requires IsComparator(cmp) && IsPolarity(polar)
    requires Compare(polar, cmp, a, b) <= 0 && Compare(polar, cmp, b, c) <= 0
    ensures Compare(polar, cmp, a, c) <= 0
  {
    if polar == 1 {
      assert Transitive(cmp, a, b, c);
    } else {
      CompareFlip(1, cmp, a, b);
      CompareFlip(1, cmp, b, c);
      CompareFlip(1, cmp, a, c);
      assert cmp(c, b) <= 0 && cmp(b, a) <= 0;
      assert Transitive(cmp, c, b, a);
    }
  }

  /** Inverting the polarity reverses the order: a is before b under -polar
      exactly when b is before a under polar. */
  lemma InvertedPolarity<T(!new)>(polar: int, cmp: (T, T) -> int, a: T, b: T)
    requires IsComparator(cmp) && IsPolarity(polar)
    ensures Compare(-polar, cmp, a, b) <= 0 <==> Compare(polar, cmp, b, a) <= 0
  {
    CompareFlip(1, cmp, a, b);
  }

  /** The heap order of the first n slots does not depend on the slots
      above them. */
  lemma HeapOrderedPrefix<T>(s: seq<T>, t: seq<T>, n: nat, polar: int, cmp: (T, T) -> int)
    requires HeapOrdered(s, n, polar, cmp) && n <= |t| && s[..n] == t[..n]
    ensures HeapOrdered(t, n, polar, cmp)
  {
    forall i | 2 <= i <= n
      ensures Compare(polar, cmp, ParentOf(t, i), Nth(t, i)) <= 0
    {
      assert ParentOf(t, i) == s[..n][i / 2 - 1] == ParentOf(s, i);
      assert Nth(t, i) == s[..n][i - 1] == Nth(s, i);
    }
  }

  /** Every parent/child pair (i / 2, i) among the first n slots of b is
      ordered, except perhaps the one whose child is slot c. */
  ghost predicate OrderedExceptChild<T>(b: seq<T>, n: nat, c: nat, polar: int, cmp: (T, T) -> int) {
    n <= |b| && forall i :: 2 <= i <= n && i != c ==> Compare(polar, cmp, ParentOf(b, i), Nth(b, i)) <= 0
  }

  /** Every parent/child pair (i / 2, i) among the first n slots of b is
      ordered, except perhaps those whose parent is slot p. */
  ghost predicate OrderedExceptParent<T>(b: seq<T>, n: nat, p: nat, polar: int, cmp: (T, T) -> int) {
    n <= |b| && forall i :: 2 <= i <= n && i / 2 != p ==> Compare(polar, cmp, ParentOf(b, i), Nth(b, i)) <= 0
  }

  /** The parent of slot `hole`, if it has one, is ordered before or with
      every child of `hole` among the first n slots: when the hole moves up
      to that parent, the parent's item can move down into it. */
  ghost predicate ParentBeforeChildren<T>(s: seq<T>, n: nat, hole: nat, polar: int, cmp: (T, T) -> int) {
    && n <= |s| && hole <= |s|
    && (hole >= 2 ==> forall i :: 2 <= i <= n && i / 2 == hole ==>
          Compare(polar, cmp, Nth(s, hole / 2), Nth(s, i)) <= 0)
  }

  // ---------------------------------------------------------------------
  // Sift-up (the loop of aghp_put).

  /** The state inside aghp_put's loop over the first n slots: slot `hole`
      is where the new item x would go; with x there, every parent/child pair
      is ordered except perhaps hole and its parent, and the parent of the
      hole is ordered before the hole's children, so it may move down. */
  ghost predicate SiftUpInv<T>(s: seq<T>, n: nat, hole: nat, x: T, polar: int, cmp: (T, T) -> int) {
    && 1 <= hole <= n <= |s|
    && OrderedExceptChild(s[hole - 1 := x], n, hole, polar, cmp)
    && ParentBeforeChildren(s, n, hole, polar, cmp)
  }

  /** A new last slot n next to a heap of n - 1 slots starts the sift-up;
      with x in it, the first n slots hold the heap's items and x. */
  lemma SiftUpStart<T>(s: seq<T>, n: nat, x: T, polar: int, cmp: (T, T) -> int)
    requires 1 <= n <= |s| && HeapOrdered(s, n - 1, polar, cmp)
    ensures SiftUpState(s, n, n, x, polar, cmp, multiset(s[..n - 1]) + multiset{x})
  {
    assert s[n - 1 := x][..n] == s[..n - 1] + [x];
    var b := s[n - 1 := x];
    forall i | 2 <= i <= n && i != n
      ensures Compare(polar, cmp, ParentOf(b, i), Nth(b, i)) <= 0
    {
      assert ParentOf(b, i) == ParentOf(s, i) && Nth(b, i) == Nth(s, i);
    }
  }

  /** SiftUpInv, and the first n slots with x in the hole hold `items`. */
  ghost predicate SiftUpState<T>(s: seq<T>, n: nat, hole: nat, x: T, polar: int, cmp: (T, T) -> int, items: multiset<T>) {
    SiftUpInv(s, n, hole, x, polar, cmp) && multiset(s[hole - 1 := x][..n]) == items
  }

  /** One iteration of aghp_put's loop: the parent moves down into the hole
      and the hole moves up to the parent's slot. */
  lemma SiftUpStep<T(!new)>(s: seq<T>, n: nat, hole: nat, x: T, polar: int, cmp: (T, T) -> int, items: multiset<T>)
    requires IsComparator(cmp) && IsPolarity(polar)
    requires SiftUpState(s, n, hole, x, polar, cmp, items)
    requires hole >= 2 && Compare(polar, cmp, Nth(s, hole / 2), x) > 0
    ensures SiftUpState(s[hole - 1 := Nth(s, hole / 2)], n, hole / 2, x, polar, cmp, items)
  {
    SiftUpStepEdges(s, n, hole, x, polar, cmp);
    SiftUpStepParent(s, n, hole, x, polar, cmp);
    MoveMultiset(s, n, hole, hole / 2, x);
  }

  lemma SiftUpStepEdges<T(!new)>(s: seq<T>, n: nat, hole: nat, x: T, polar: int, cmp: (T, T) -> int)
    requires IsComparator(cmp) && IsPolarity(polar)
    requires SiftUpInv(s, n, hole, x, polar, cmp)
    requires hole >= 2 && Compare(polar, cmp, Nth(s, hole / 2), x) > 0
    ensures OrderedExceptChild(s[hole - 1 := Nth(s, hole / 2)][hole / 2 - 1 := x], n, hole / 2, polar, cmp)
  {
    var b' := s[hole - 1 := Nth(s, hole / 2)][hole / 2 - 1 := x];
    forall i | 2 <= i <= n && i != hole / 2
      ensures Compare(polar, cmp, ParentOf(b', i), Nth(b', i)) <= 0
    {
      SiftUpStepEdge(s, n, hole, x, polar, cmp, i);
    }
  }

  /** The pair (i / 2, i) after one iteration of aghp_put's loop. */
  lemma SiftUpStepEdge<T(!new)>(s: seq<T>, n: nat, hole: nat, x: T, polar: int, cmp: (T, T) -> int, i: nat)
    requires IsComparator(cmp) && IsPolarity(polar)
    requires SiftUpInv(s, n, hole, x, polar, cmp)
    requires hole >= 2 && Compare(polar, cmp, Nth(s, hole / 2), x) > 0
    requires 2 <= i <= n && i != hole / 2
    ensures var b' := s[hole - 1 := Nth(s, hole / 2)][hole / 2 - 1 := x];
      Compare(polar, cmp, ParentOf(b', i), Nth(b', i)) <= 0
  {
    var p := hole / 2;
    var b := s[hole - 1 := x];
    var b' := s[hole - 1 := Nth(s, p)][p - 1 := x];
    if i == hole {
      CompareFlip(polar, cmp, Nth(s, p), x);
      assert ParentOf(b', i) == x && Nth(b', i) == Nth(s, p);
    } else if i / 2 == hole {
      assert ParentOf(b', i) == Nth(s, p) && Nth(b', i) == Nth(s, i);
    } else if i / 2 == p {
      CompareFlip(polar, cmp, Nth(s, p), x);
      assert ParentOf(b, i) == Nth(s, p) && Nth(b, i) == Nth(s, i);
      CompareTrans(polar, cmp, x, Nth(s, p), Nth(s, i));
      assert ParentOf(b', i) == x && Nth(b', i) == Nth(s, i);
    } else {
      assert ParentOf(b', i) == ParentOf(b, i) && Nth(b', i) == Nth(b, i);
    }
  }

  lemma SiftUpStepParent<T(!new)>(s: seq<T>, n: nat, hole: nat, x: T, polar: int, cmp: (T, T) -> int)
    requires IsComparator(cmp) && IsPolarity(polar)
    requires SiftUpInv(s, n, hole, x, polar, cmp)
    requires hole >= 2
    ensures ParentBeforeChildren(s[hole - 1 := Nth(s, hole / 2)], n, hole / 2, polar, cmp)
  {
    var p := hole / 2;
    var b := s[hole - 1 := x];
    var s' := s[hole - 1 := Nth(s, p)];
    if p >= 2 {
      var g := p / 2;
      assert Compare(polar, cmp, ParentOf(b, p), Nth(b, p)) <= 0;
      assert ParentOf(b, p) == Nth(s, g) && Nth(b, p) == Nth(s, p);
      forall i | 2 <= i <= n && i / 2 == p
        ensures Compare(polar, cmp, Nth(s', g), Nth(s', i)) <= 0
      {
        if i == hole {
          assert Nth(s', i) == Nth(s, p);
        } else {
          assert Compare(polar, cmp, ParentOf(b, i), Nth(b, i)) <= 0;
          assert Nth(b, i) == Nth(s, i) && Nth(s', i) == Nth(s, i);
          CompareTrans(polar, cmp, Nth(s, g), Nth(s, p), Nth(s, i));
        }
      }
    }
  }

  /** aghp_put's loop has stopped: placing x in the hole completes the heap. */
  lemma SiftUpDone<T>(s: seq<T>, n: nat, hole: nat, x: T, polar: int, cmp: (T, T) -> int, items: multiset<T>)
    requires SiftUpState(s, n, hole, x, polar, cmp, items)
    requires hole == 1 || Compare(polar, cmp, Nth(s, hole / 2), x) <= 0
    ensures HeapOrdered(s[hole - 1 := x], n, polar, cmp)
    ensures multiset(s[hole - 1 := x][..n]) == items
  {
    var b := s[hole - 1 := x];
    forall i | 2 <= i <= n
      ensures Compare(polar, cmp, ParentOf(b, i), Nth(b, i)) <= 0
    {
      if i == hole {
        assert ParentOf(b, i) == Nth(s, hole / 2) && Nth(b, i) == x;
      }
    }
  }

  /** Moving the element of slot `from` into the hole at slot `to`, and
      the waiting item x into slot `from`, keeps the multiset of the first
      n slots. */
  lemma MoveMultiset<T>(s: seq<T>, n: nat, to: nat, from: nat, x: T)
    requires 1 <= to <= n && 1 <= from <= n && n <= |s|
    ensures multiset(s[to - 1 := Nth(s, from)][from - 1 := x][..n]) == multiset(s[to - 1 := x][..n])
  {
    var b := s[to - 1 := x];
    var t := s[to - 1 := s[from - 1]][from - 1 := x];
    if to != from {
      assert t[..n] == b[..n][to - 1 := b[from - 1]][from - 1 := b[to - 1]];
      assert multiset(t[..n]) == multiset(b[..n]);
    } else {
      assert t == b;
    }
  }

  // ---------------------------------------------------------------------
  // Sift-down (the loop of aghp_get).

  /** The state inside aghp_get's loop over the first n slots: slot `hole`
      is where the former last item x would go; with x there, every pair
      whose parent is not the hole is ordered, and the parent of the hole is
      ordered before the hole's children. */
  ghost predicate SiftDownInv<T>(s: seq<T>, n: nat, hole: nat, x: T, polar: int, cmp: (T, T) -> int) {
    && 1 <= hole <= |s| && n <= |s| && (hole <= n || hole == 1)
    && OrderedExceptParent(s[hole - 1 := x], n, hole, polar, cmp)
    && ParentBeforeChildren(s, n, hole, polar, cmp)
  }

  /** SiftDownInv, and the first n slots with x in the hole hold `items`. */
  ghost predicate SiftDownState<T>(s: seq<T>, n: nat, hole: nat, x: T, polar: int, cmp: (T, T) -> int, items: multiset<T>) {
    SiftDownInv(s, n, hole, x, polar, cmp) && multiset(s[hole - 1 := x][..n]) == items
  }

  /** Slot c is a child of `hole` that is ordered before or with every child
      of `hole` among the first n slots. */
  ghost predicate LeastChild<T>(s: seq<T>, n: nat, hole: nat, c: nat, polar: int, cmp: (T, T) -> int) {
    && 2 <= c <= n <= |s| && c / 2 == hole
    && forall j :: 2 <= j <= n && j / 2 == hole ==> Compare(polar, cmp, Nth(s, c), Nth(s, j)) <= 0
  }

  /** aghp_get keeps the left child c = 2 * hole unless the right one
      exists and is strictly before it. */
  lemma LeftChildIsLeast<T(!new)>(s: seq<T>, n: nat, hole: nat, c: nat, polar: int, cmp: (T, T) -> int)
    requires IsComparator(cmp) && IsPolarity(polar)
    requires 1 <= hole && c == 2 * hole && c <= n <= |s|
    requires c == n || Compare(polar, cmp, Nth(s, c + 1), Nth(s, c)) >= 0
    ensures LeastChild(s, n, hole, c, polar, cmp)
  {
    CompareRefl(polar, cmp, Nth(s, c));
    if c < n {
      CompareFlip(polar, cmp, Nth(s, c), Nth(s, c + 1));
    }
  }

  /** aghp_get takes the right child c + 1 when it exists and is strictly
      before the left child c = 2 * hole. */
  lemma RightChildIsLeast<T(!new)>(s: seq<T>, n: nat, hole: nat, c: nat, polar: int, cmp: (T, T) -> int)
    requires IsComparator(cmp) && IsPolarity(polar)
    requires 1 <= hole && c == 2 * hole && c != n && c <= n <= |s|
    requires Compare(polar, cmp, Nth(s, c + 1), Nth(s, c)) < 0
    ensures LeastChild(s, n, hole, c + 1, polar, cmp)
  {
    CompareRefl(polar, cmp, Nth(s, c + 1));
  }

  /** Removing the root of a heap of m slots starts the sift-down over the
      first m - 1 slots with the hole at the root and the last item x
      waiting; the items are those of the heap but the root. */
  lemma SiftDownStart<T>(s: seq<T>, m: nat, x: T, polar: int, cmp: (T, T) -> int)
    requires 1 <= m && HeapOrdered(s, m, polar, cmp) && x == Nth(s, m)
    ensures SiftDownState(s, m - 1, 1, x, polar, cmp, multiset(s[0 := x][..m - 1]))
    ensures multiset(s[0 := x][..m - 1]) + multiset{Nth(s, 1)} == multiset(s[..m])
  {
    var n := m - 1;
    RootRemovalMultiset(s, m);
    var b := s[0 := x];
    forall i | 2 <= i <= n && i / 2 != 1
      ensures Compare(polar, cmp, ParentOf(b, i), Nth(b, i)) <= 0
    {
      assert ParentOf(b, i) == ParentOf(s, i) && Nth(b, i) == Nth(s, i);
    }
  }

  /** Taking the root out of n slots and putting the last item in its
      place loses exactly the root from the multiset. */
  lemma RootRemovalMultiset<T>(s: seq<T>, n: nat)
    requires 1 <= n <= |s|
    ensures multiset(s[0 := s[n - 1]][..n - 1]) + multiset{s[0]} == multiset(s[..n])
  {
    if n > 1 {
      assert s[0 := s[n - 1]][..n - 1] == [s[n - 1]] + s[1..n - 1];
      assert s[..n] == [s[0]] + s[1..n - 1] + [s[n - 1]];
    }
  }

  /** One iteration of aghp_get's loop: the least child c moves up into the
      hole and the hole moves down to c. */
  lemma SiftDownStep<T(!new)>(s: seq<T>, n: nat, hole: nat, x: T, c: nat, polar: int, cmp: (T, T) -> int, items: multiset<T>)
    requires IsComparator(cmp) && IsPolarity(polar)
    requires SiftDownState(s, n, hole, x, polar, cmp, items) && LeastChild(s, n, hole, c, polar, cmp)
    requires Compare(polar, cmp, x, Nth(s, c)) > 0
    ensures SiftDownState(s[hole - 1 := Nth(s, c)], n, c, x, polar, cmp, items)
  {
    var b' := s[hole - 1 := Nth(s, c)][c - 1 := x];
    forall i | 2 <= i <= n && i / 2 != c
      ensures Compare(polar, cmp, ParentOf(b', i), Nth(b', i)) <= 0
    {
      SiftDownStepEdge(s, n, hole, x, c, polar, cmp, i);
    }
    var s' := s[hole - 1 := Nth(s, c)];
    var b := s[hole - 1 := x];
    forall i | 2 <= i <= n && i / 2 == c
      ensures Compare(polar, cmp, Nth(s', c / 2), Nth(s', i)) <= 0
    {
      assert Compare(polar, cmp, ParentOf(b, i), Nth(b, i)) <= 0;
      assert ParentOf(b, i) == Nth(s, c) && Nth(b, i) == Nth(s, i);
    }
    MoveMultiset(s, n, hole, c, x);
  }

  /** The pair (i / 2, i) after one iteration of aghp_get's loop. */
  lemma SiftDownStepEdge<T(!new)>(s: seq<T>, n: nat, hole: nat, x: T, c: nat, polar: int, cmp: (T, T) -> int, i: nat)
    requires IsComparator(cmp) && IsPolarity(polar)
    requires SiftDownInv(s, n, hole, x, polar, cmp) && LeastChild(s, n, hole, c, polar, cmp)
    requires Compare(polar, cmp, x, Nth(s, c)) > 0
    requires 2 <= i <= n && i / 2 != c
    ensures var b' := s[hole - 1 := Nth(s, c)][c - 1 := x];
      Compare(polar, cmp, ParentOf(b', i), Nth(b', i)) <= 0
  {
    var b := s[hole - 1 := x];
    var b' := s[hole - 1 := Nth(s, c)][c - 1 := x];
    if i == c {
      CompareFlip(polar, cmp, x, Nth(s, c));
      assert ParentOf(b', i) == Nth(s, c) && Nth(b', i) == x;
    } else if i / 2 == hole {
      assert ParentOf(b', i) == Nth(s, c) && Nth(b', i) == Nth(s, i);
    } else if i == hole {
      assert ParentOf(b', i) == Nth(s, hole / 2) && Nth(b', i) == Nth(s, c);
    } else {
      assert ParentOf(b', i) == ParentOf(b, i) && Nth(b', i) == Nth(b, i);
    }
  }

  /** aghp_get's loop has stopped, because the hole has no child or x is
      ordered before or with the least child: placing x completes the heap. */
  lemma SiftDownDone<T(!new)>(s: seq<T>, n: nat, hole: nat, x: T, c: nat, polar: int, cmp: (T, T) -> int, items: multiset<T>)
    requires IsComparator(cmp) && IsPolarity(polar)
    requires SiftDownState(s, n, hole, x, polar, cmp, items)
    requires 2 * hole > n || (LeastChild(s, n, hole, c, polar, cmp) && Compare(polar, cmp, x, Nth(s, c)) <= 0)
    ensures HeapOrdered(s[hole - 1 := x], n, polar, cmp)
    ensures multiset(s[hole - 1 := x][..n]) == items
  {
    var b := s[hole - 1 := x];
    forall i | 2 <= i <= n
      ensures Compare(polar, cmp, ParentOf(b, i), Nth(b, i)) <= 0
    {
      if i / 2 == hole {
        assert ParentOf(b, i) == x && Nth(b, i) == Nth(s, i);
        CompareTrans(polar, cmp, x, Nth(s, c), Nth(s, i));
      }
    }
  }

  // ---------------------------------------------------------------------
  // What the heap order gives.

  /** The root of a heap is ordered before or with every item in it: this is
      why aghp_get returns the smallest item for polarity 1 and the biggest
      for polarity -1. */
  lemma {:induction false} RootFirst<T(!new)>(s: seq<T>, n: nat, polar: int, cmp: (T, T) -> int, i: nat)
    requires IsComparator(cmp) && IsPolarity(polar)
    requires HeapOrdered(s, n, polar, cmp) && 1 <= i <= n
    ensures Compare(polar, cmp, Nth(s, 1), Nth(s, i)) <= 0
    decreases i
  {
    if i == 1 {
      CompareRefl(polar, cmp, Nth(s, 1));
    } else {
      RootFirst(s, n, polar, cmp, i / 2);
      CompareTrans(polar, cmp, Nth(s, 1), ParentOf(s, i), Nth(s, i));
    }
  }

  // ---------------------------------------------------------------------
  // Heapsort (the loop of aghp_sort).

  /** The state inside aghp_sort's loop, which runs under the inverted
      polarity -polar: slots 1..n are a heap under -polar, slots n+1..lim hold
      the items extracted so far, in order under polar, and no heap item is
      ordered after any of them. */
  ghost predicate SortInv<T>(s: seq<T>, n: nat, lim: nat, polar: int, cmp: (T, T) -> int) {
    && n <= lim <= |s|
    && HeapOrdered(s, n, -polar, cmp)
    && SortedBy(s[n..lim], polar, cmp)
    && AllBefore(s[..n], s[n..lim], polar, cmp)
  }

  /** SortInv, and the first lim slots hold `items` while the slots above
      them hold `rest`. */
  ghost predicate SortState<T>(s: seq<T>, n: nat, lim: nat, polar: int, cmp: (T, T) -> int, items: multiset<T>, rest: seq<T>) {
    SortInv(s, n, lim, polar, cmp) && multiset(s[..lim]) == items && s[lim..] == rest
  }

  /** One iteration of aghp_sort's loop: aghp_get turned s into t and
      returned the root r, which is then written into slot n, the slot the
      heap has just given up. */
  lemma SortStep<T(!new)>(s: seq<T>, t: seq<T>, n: nat, lim: nat, r: T, polar: int, cmp: (T, T) -> int,
                           items: multiset<T>, rest: seq<T>)
    requires IsComparator(cmp) && IsPolarity(polar)
    requires SortState(s, n, lim, polar, cmp, items, rest) && n >= 1 && r == Nth(s, 1)
    requires |t| == |s| && HeapOrdered(t, n - 1, -polar, cmp)
    requires multiset(t[..n - 1]) + multiset{r} == multiset(s[..n])
    requires t[n - 1..] == s[n - 1..]
    ensures SortState(t[n - 1 := r], n - 1, lim, polar, cmp, items, rest)
  {
    var u := t[n - 1 := r];
    assert u[..n - 1] == t[..n - 1];
    assert u[n - 1..lim] == [r] + s[n..lim];
    SortStepHeap(t, n - 1, r, polar, cmp);
    SortStepSorted(s, n, lim, polar, cmp);
    SortStepBefore(s, t, n, lim, polar, cmp);
    SortStepMultiset(s, t, n, lim, r);
  }

  lemma SortStepMultiset<T>(s: seq<T>, t: seq<T>, n: nat, lim: nat, r: T)
    requires 1 <= n <= lim <= |s| == |t|
    requires multiset(t[..n - 1]) + multiset{r} == multiset(s[..n])
    requires t[n - 1..] == s[n - 1..]
    ensures multiset(t[n - 1 := r][..lim]) == multiset(s[..lim])
    ensures t[n - 1 := r][lim..] == s[lim..]
  {
    var u := t[n - 1 := r];
    assert u[..lim] == t[..n - 1] + [r] + s[n..lim];
    assert s[..lim] == s[..n] + s[n..lim];
    assert u[lim..] == t[lim..];
  }

  lemma SortStepHeap<T>(t: seq<T>, m: nat, r: T, polar: int, cmp: (T, T) -> int)
    requires m < |t| && HeapOrdered(t, m, -polar, cmp)
    ensures HeapOrdered(t[m := r], m, -polar, cmp)
  {
    var u := t[m := r];
    forall i | 2 <= i <= m
      ensures Compare(-polar, cmp, ParentOf(u, i), Nth(u, i)) <= 0
    {
      assert ParentOf(u, i) == ParentOf(t, i) && Nth(u, i) == Nth(t, i);
    }
  }

  /** The root joins the front of the ordered tail. */
  lemma SortStepSorted<T>(s: seq<T>, n: nat, lim: nat, polar: int, cmp: (T, T) -> int)
    requires SortInv(s, n, lim, polar, cmp) && n >= 1
    ensures SortedBy([Nth(s, 1)] + s[n..lim], polar, cmp)
  {
    var w := [Nth(s, 1)] + s[n..lim];
    forall i, j | 0 <= i < j < |w|
      ensures Compare(polar, cmp, w[i], w[j]) <= 0
    {
      if i == 0 {
        assert w[i] == s[..n][0] && w[j] == s[n..lim][j - 1];
      } else {
        assert w[i] == s[n..lim][i - 1] && w[j] == s[n..lim][j - 1];
      }
    }
  }

  /** What stays in the heap is ordered before or with the root (it was a
      heap under -polar) and with the tail (it came from the old heap). */
  lemma SortStepBefore<T(!new)>(s: seq<T>, t: seq<T>, n: nat, lim: nat, polar: int, cmp: (T, T) -> int)
    requires IsComparator(cmp) && IsPolarity(polar)
    requires SortInv(s, n, lim, polar, cmp) && n >= 1
    requires |t| == |s| && multiset(t[..n - 1]) + multiset{Nth(s, 1)} == multiset(s[..n])
    ensures AllBefore(t[..n - 1], [Nth(s, 1)] + s[n..lim], polar, cmp)
  {
    var w := [Nth(s, 1)] + s[n..lim];
    forall i, j | 0 <= i < n - 1 && 0 <= j < |w|
      ensures Compare(polar, cmp, t[i], w[j]) <= 0
    {
      var y := t[i];
      assert y == t[..n - 1][i];
      assert y in multiset(t[..n - 1]);
      assert y in multiset(s[..n]);
      var k :| 0 <= k < n && s[..n][k] == y;
      if j == 0 {
        RootFirst(s, n, -polar, cmp, k + 1);
        InvertedPolarity(polar, cmp, Nth(s, 1), y);
      } else {
        assert w[j] == s[n..lim][j - 1];
      }
    }
  }

  /** The comparator tells distinct items apart (true of the integer
      comparator in test/test_basic.c). */
  ghost predicate Discerning<T(!new)>(cmp: (T, T) -> int) {
    forall a, b :: cmp(a, b) == 0 ==> a == b
  }

  /** Two arrangements of the same items that are both ordered under a
      discerning comparator are the same arrangement. */
  lemma {:induction false} SortedUnique<T(!new)>(s: seq<T>, t: seq<T>, polar: int, cmp: (T, T) -> int)
    requires IsComparator(cmp) && IsPolarity(polar) && Discerning(cmp)
    requires SortedBy(s, polar, cmp) && SortedBy(t, polar, cmp) && multiset(s) == multiset(t)
    ensures s == t
    decreases |s|
  {
    assert |s| == |multiset(s)| == |multiset(t)| == |t|;
    if |s| > 0 {
      SortedHeads(s, t, polar, cmp);
      assert s == [s[0]] + s[1..] && t == [t[0]] + t[1..];
      assert multiset(s) == multiset{s[0]} + multiset(s[1..]);
      assert multiset(t) == multiset{t[0]} + multiset(t[1..]);
      assert multiset(s[1..]) == multiset(s) - multiset{s[0]};
      assert multiset(t[1..]) == multiset(t) - multiset{t[0]};
      SortedTail(s, polar, cmp);
      SortedTail(t, polar, cmp);
      SortedUnique(s[1..], t[1..], polar, cmp);
    }
  }

  /** Both ordered arrangements start with the same item. */
  lemma SortedHeads<T(!new)>(s: seq<T>, t: seq<T>, polar: int, cmp: (T, T) -> int)
    requires IsComparator(cmp) && IsPolarity(polar) && Discerning(cmp)
    requires SortedBy(s, polar, cmp) && SortedBy(t, polar, cmp) && multiset(s) == multiset(t)
    requires |s| > 0 && |t| > 0
    ensures s[0] == t[0]
  {
    assert s[0] in multiset(t);
    var j :| 0 <= j < |t| && t[j] == s[0];
    assert t[0] in multiset(s);
    var i :| 0 <= i < |s| && s[i] == t[0];
    CompareRefl(polar, cmp, s[0]);
    CompareRefl(polar, cmp, t[0]);
    assert Compare(polar, cmp, s[0], t[0]) <= 0;
    assert Compare(polar, cmp, t[0], s[0]) <= 0;
    CompareFlip(polar, cmp, s[0], t[0]);
    assert cmp(s[0], t[0]) == 0;
  }

  lemma SortedTail<T>(s: seq<T>, polar: int, cmp: (T, T) -> int)
    requires SortedBy(s, polar, cmp) && |s| > 0
    ensures SortedBy(s[1..], polar, cmp)
  {
    forall i, j | 0 <= i < j < |s| - 1
      ensures Compare(polar, cmp, s[1..][i], s[1..][j]) <= 0
    {
      assert s[1..][i] == s[i + 1] && s[1..][j] == s[j + 1];
    }
  }
}
