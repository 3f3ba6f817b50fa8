/** A binary min-heap priority queue kept in an array that grows on demand
    (MyPriorityQueue). Slot `queue[n]` has its children at `2n+1` and
    `2n+2`; every occupied slot holds an element that the comparator ranks
    no higher than any of its descendants, so the least element sits in
    slot 0. Slots at `size` and beyond hold `None` (Java's null). */
module PriorityQueues {
  import opened Optional

  /** Capacity used when none is given. */
  const DefaultInitialCapacity: nat := 11

  // ---------------------------------------------------------------------
  // The ordering

  /** The contract a comparator must meet: `compare(a, b)` is negative
      exactly when `compare(b, a)` is positive, and "not greater" is
      transitive. Together these make "not greater" a total preorder. */
  ghost predicate TotalPreorder<E(!new)>(compare: (E, E) -> int) {
    && (forall a, b :: compare(a, b) < 0 <==> compare(b, a) > 0)
    && (forall a, b, c {:trigger compare(a, b), compare(b, c), compare(a, c)} ::
          compare(a, b) <= 0 && compare(b, c) <= 0 ==> compare(a, c) <= 0)
  }

  /** Both slots hold elements and the first is not greater than the second. */
  ghost predicate Precedes<E>(compare: (E, E) -> int, a: Option<E>, b: Option<E>) {
    a.Some? && b.Some? && compare(a.value, b.value) <= 0
  }

  // ---------------------------------------------------------------------
  // Heap shape

  /** Index of the parent of slot j: `(j - 1) >>> 1` in the source. */
  function Parent(j: nat): (p: nat)
    requires 0 < j
    ensures p < j && (j == 2 * p + 1 || j == 2 * p + 2)
  {
    (j - 1) / 2
  }

  /** The first n slots hold elements and all the others are empty. */
  ghost predicate Occupied<E>(s: seq<Option<E>>, n: nat) {
    && n <= |s|
    && (forall i :: 0 <= i < n ==> s[i].Some?)
    && (forall i :: n <= i < |s| ==> s[i] == None)
  }

  /** Among the first n slots, every slot j other than `skip` whose parent
      is at index lo or beyond is preceded by that parent. */
  ghost predicate HeapExcept<E>(compare: (E, E) -> int, s: seq<Option<E>>, n: nat, lo: nat, skip: int)
    requires n <= |s|
  {
    forall j {:trigger Parent(j)} :: 0 < j < n && lo <= Parent(j) && j != skip ==> Precedes(compare, s[Parent(j)], s[j])
  }

  /** The heap invariant of the source: the first n slots are occupied and
      every parent precedes its children. */
  ghost predicate IsHeap<E>(compare: (E, E) -> int, s: seq<Option<E>>, n: nat) {
    Occupied(s, n) && HeapExcept(compare, s, n, 0, -1)
  }

  /** v precedes each child of slot k that lies among the first n slots. */
  ghost predicate ChildrenFollow<E>(compare: (E, E) -> int, s: seq<Option<E>>, n: nat, k: nat, v: Option<E>)
    requires n <= |s|
  {
    && (2 * k + 1 < n ==> Precedes(compare, v, s[2 * k + 1]))
    && (2 * k + 2 < n ==> Precedes(compare, v, s[2 * k + 2]))
  }

  /** Like Occupied, except that slot `hole` may be empty. */
  ghost predicate OccupiedExcept<E>(s: seq<Option<E>>, n: nat, hole: nat) {
    && n <= |s|
    && (forall i :: 0 <= i < n && i != hole ==> s[i].Some?)
    && (forall i :: n <= i < |s| ==> s[i] == None)
  }

  /** The heap order while slot k is a hole: every pair of parent (at lo or
      beyond) and child that does not involve k is ordered. */
  ghost predicate HoleHeap<E>(compare: (E, E) -> int, s: seq<Option<E>>, n: nat, lo: nat, k: nat)
    requires n <= |s|
  {
    forall j {:trigger Parent(j)} :: 0 < j < n && lo <= Parent(j) && Parent(j) != k && j != k ==> Precedes(compare, s[Parent(j)], s[j])
  }

  /** Across the hole k, its parent (when at lo or beyond) precedes its children. */
  ghost predicate Bridged<E>(compare: (E, E) -> int, s: seq<Option<E>>, n: nat, lo: nat, k: nat)
    requires n <= |s|
  {
    0 < k < |s| && lo <= Parent(k) ==> ChildrenFollow(compare, s, n, k, s[Parent(k)])
  }

  /** Slot a lies on the path from slot k up to the root (k included). */
  ghost predicate Ancestor(a: nat, k: nat)
    decreases k
  {
    a == k || (0 < k && a < k && Ancestor(a, Parent(k)))
  }

  /** The root lies on the path from every slot. */
  lemma {:induction false} RootIsAncestor(j: nat)
    ensures Ancestor(0, j)
  {
    if 0 < j {
      RootIsAncestor(Parent(j));
    }
  }

  /** The invariant stated in the source: in a heap, each slot precedes all
      of its descendants. */
  lemma {:induction false} AncestorPrecedes<E(!new)>(compare: (E, E) -> int, s: seq<Option<E>>, n: nat, a: nat, j: nat)
    requires TotalPreorder(compare) && IsHeap(compare, s, n)
    requires j < n && Ancestor(a, j)
    ensures Precedes(compare, s[a], s[j])
    decreases j
  {
    if a != j {
      AncestorPrecedes(compare, s, n, a, Parent(j));
    }
  }

  /** The least element of a heap is at slot 0. */
  lemma RootIsMinimum<E(!new)>(compare: (E, E) -> int, s: seq<Option<E>>, n: nat, v: Option<E>)
    requires TotalPreorder(compare) && IsHeap(compare, s, n)
    requires v in multiset(s[..n])
    ensures Precedes(compare, s[0], v)
  {
    var j :| 0 <= j < n && s[j] == v;
    RootIsAncestor(j);
    AncestorPrecedes(compare, s, n, 0, j);
  }

  /** One step of sift-down: the lesser child of the hole k moves up into
      it, since x is greater than that child; the hole moves to the child. */
  lemma SiftDownStep<E(!new)>(compare: (E, E) -> int, s: seq<Option<E>>, n: nat, lo: nat, k: nat, child: nat, x: E)
    requires TotalPreorder(compare) && Occupied(s, n)
    requires lo <= k && 0 < child < n && Parent(child) == k
    requires HoleHeap(compare, s, n, lo, k) && Bridged(compare, s, n, lo, k)
    requires ChildrenFollow(compare, s, n, k, s[child])
    requires compare(x, s[child].value) > 0
    ensures HoleHeap(compare, s[k := s[child]], n, lo, child)
    ensures Bridged(compare, s[k := s[child]], n, lo, child)
    ensures Precedes(compare, s[child], Some(x))
  {
    var t := s[k := s[child]];
    forall j | 0 < j < n && lo <= Parent(j) && Parent(j) != child && j != child
      ensures Precedes(compare, t[Parent(j)], t[j])
    {
      if j == k {
        assert ChildrenFollow(compare, s, n, k, s[Parent(k)]);
      } else if Parent(j) == k {
        assert ChildrenFollow(compare, s, n, k, s[child]);
      }
    }
    forall g | g == 2 * child + 1 || g == 2 * child + 2
      ensures g < n ==> Precedes(compare, t[child], t[g])
    {
      if g < n {
        assert Parent(g) == child;
      }
    }
  }

  /** One step of sift-up: the parent of the hole k moves down into it,
      since x is less than that parent; the hole moves to the parent. */
  lemma SiftUpStep<E(!new)>(compare: (E, E) -> int, s: seq<Option<E>>, n: nat, k: nat, x: E)
    requires TotalPreorder(compare) && OccupiedExcept(s, n, k) && 0 < k < n
    requires HoleHeap(compare, s, n, 0, k) && Bridged(compare, s, n, 0, k)
    requires ChildrenFollow(compare, s, n, k, Some(x))
    requires compare(x, s[Parent(k)].value) < 0
    ensures HoleHeap(compare, s[k := s[Parent(k)]], n, 0, Parent(k))
    ensures Bridged(compare, s[k := s[Parent(k)]], n, 0, Parent(k))
    ensures ChildrenFollow(compare, s[k := s[Parent(k)]], n, Parent(k), Some(x))
  {
    var p := Parent(k);
    var t := s[k := s[p]];
    assert ChildrenFollow(compare, s, n, k, s[p]);
    forall j | 0 < j < n && Parent(j) != p && j != p
      ensures Precedes(compare, t[Parent(j)], t[j])
    {
      if Parent(j) == k {
        assert ChildrenFollow(compare, s, n, k, s[p]);
      }
    }
    var sibling := if k == 2 * p + 1 then 2 * p + 2 else 2 * p + 1;
    if sibling < n {
      assert Parent(sibling) == p;
      assert Precedes(compare, s[p], s[sibling]);
    }
    if 0 < p {
      assert Parent(p) != k;
      assert Precedes(compare, s[Parent(p)], s[p]);
    }
  }

  /** Writing x into the hole k, when x precedes the children of k, leaves
      only the pair of k and its parent possibly out of order. */
  lemma FillHole<E(!new)>(compare: (E, E) -> int, s: seq<Option<E>>, n: nat, lo: nat, k: nat, x: E)
    requires TotalPreorder(compare) && k < n <= |s|
    requires HoleHeap(compare, s, n, lo, k) && ChildrenFollow(compare, s, n, k, Some(x))
    ensures HeapExcept(compare, s[k := Some(x)], n, lo, k)
    ensures (0 < k && lo <= Parent(k) ==> Precedes(compare, s[Parent(k)], Some(x))) ==> HeapExcept(compare, s[k := Some(x)], n, lo, -1)
  {
    var t := s[k := Some(x)];
    forall j | 0 < j < n && lo <= Parent(j) && Parent(j) == k
      ensures Precedes(compare, t[Parent(j)], t[j])
    {
      assert j == 2 * k + 1 || j == 2 * k + 2;
    }
  }

  // ---------------------------------------------------------------------
  // Multiset bookkeeping for moving elements between slots

  /** Moving the element of slot c into hole k and opening the hole at c
      keeps the multiset of "array with x in the hole". */
  lemma MoveIntoHole<T>(s: seq<T>, k: nat, c: nat, x: T)
    requires k < |s| && c < |s| && k != c
    ensures multiset(s[k := s[c]][c := x]) == multiset(s[k := x])
  {
    var t := s[k := x];
    assert s[k := s[c]][c := x] == t[k := t[c]][c := t[k]];
  }

  /** Overwriting slot i with the last of n + 1 elements removes slot i's
      element from the multiset. */
  lemma FillFromLast<T>(s: seq<T>, i: nat, n: nat)
    requires i < n < |s|
    ensures multiset(s[..n][i := s[n]]) == multiset(s[..n + 1]) - multiset{s[i]}
  {
    assert s[..n + 1] == s[..n] + [s[n]];
  }

  // ---------------------------------------------------------------------
  // Sifting, stated on the slots

  /** The slots once sift-up has placed x, starting from the hole k: while
      x is less than the parent of the hole, that parent moves down into
      the hole. Slots after k do not change. */
  function SiftUpSeq<E>(compare: (E, E) -> int, s: seq<Option<E>>, k: nat, x: E): (r: seq<Option<E>>)
    requires k < |s| && forall i :: 0 <= i < k ==> s[i].Some?
    ensures |r| == |s| && forall j :: k < j < |s| ==> r[j] == s[j]
    decreases k
  {
    if k == 0 then s[0 := Some(x)]
    else
      var p := Parent(k);
      if compare(x, s[p].value) >= 0 then s[k := Some(x)]
      else SiftUpSeq(compare, s[k := s[p]], p, x)
  }

  /** The slots once sift-down has placed x among the first n, starting
      from the hole k: while x is greater than the lesser child of the
      hole, that child moves up into the hole. Slots before k do not
      change. */
  function SiftDownSeq<E>(compare: (E, E) -> int, s: seq<Option<E>>, n: nat, k: nat, x: E): (r: seq<Option<E>>)
    requires k < n <= |s| && forall i :: k < i < n ==> s[i].Some?
    ensures |r| == |s| && forall j :: 0 <= j < k ==> r[j] == s[j]
    decreases n - k
  {
    if k >= n / 2 then s[k := Some(x)]
    else
      var child := if 2 * k + 2 < n && compare(s[2 * k + 2].value, s[2 * k + 1].value) < 0 then 2 * k + 2 else 2 * k + 1;
      if compare(x, s[child].value) <= 0 then s[k := Some(x)]
      else SiftDownSeq(compare, s[k := s[child]], n, child, x)
  }

  /** One step of SiftDownSeq: x stops at k, or the lesser child moves up
      and x goes on from the child's slot. */
  lemma SiftDownSeqUnfold<E>(compare: (E, E) -> int, s: seq<Option<E>>, n: nat, k: nat, child: nat, x: E)
    requires k < n / 2 && n <= |s| && forall i :: k < i < n ==> s[i].Some?
    requires child == if 2 * k + 2 < n && compare(s[2 * k + 2].value, s[2 * k + 1].value) < 0 then 2 * k + 2 else 2 * k + 1
    ensures compare(x, s[child].value) <= 0 ==> SiftDownSeq(compare, s, n, k, x) == s[k := Some(x)]
    ensures compare(x, s[child].value) > 0 ==> SiftDownSeq(compare, s, n, k, x) == SiftDownSeq(compare, s[k := s[child]], n, child, x)
  {
  }

  /** Sift-up into a hole whose surroundings are in heap order yields a
      heap holding the old elements and x. */
  lemma {:induction false} SiftUpSeqHeap<E(!new)>(compare: (E, E) -> int, s: seq<Option<E>>, n: nat, k: nat, x: E)
    requires TotalPreorder(compare) && k < n && OccupiedExcept(s, n, k)
    requires HoleHeap(compare, s, n, 0, k) && Bridged(compare, s, n, 0, k)
    requires ChildrenFollow(compare, s, n, k, Some(x))
    ensures IsHeap(compare, SiftUpSeq(compare, s, k, x), n)
    ensures multiset(SiftUpSeq(compare, s, k, x)[..n]) == multiset(s[..n][k := Some(x)])
    decreases k
  {
    if k == 0 {
      assert SiftUpSeq(compare, s, k, x) == s[0 := Some(x)];
      FillHole(compare, s, n, 0, 0, x);
    } else {
      var p := Parent(k);
      if compare(x, s[p].value) >= 0 {
        assert SiftUpSeq(compare, s, k, x) == s[k := Some(x)];
        FillHole(compare, s, n, 0, k, x);
      } else {
        var t := s[k := s[p]];
        assert SiftUpSeq(compare, s, k, x) == SiftUpSeq(compare, t, p, x);
        SiftUpStep(compare, s, n, k, x);
        assert OccupiedExcept(t, n, p);
        SiftUpSeqHeap(compare, t, n, p, x);
        MoveIntoHole(s[..n], k, p, Some(x));
        assert t[..n] == s[..n][k := s[p]];
      }
    }
  }

  /** Whether sift-up moved x off slot k: if x is still at k, nothing else
      changed; otherwise x landed in a slot before k. */
  lemma {:induction false} SiftUpSeqMoves<E(!new)>(compare: (E, E) -> int, s: seq<Option<E>>, k: nat, x: E)
    requires TotalPreorder(compare) && k < |s| && forall i :: 0 <= i < k ==> s[i].Some?
    ensures SiftUpSeq(compare, s, k, x)[k] == Some(x) ==> SiftUpSeq(compare, s, k, x) == s[k := Some(x)]
    ensures SiftUpSeq(compare, s, k, x)[k] != Some(x) ==> exists j :: 0 <= j < k && SiftUpSeq(compare, s, k, x)[j] == Some(x)
    decreases k
  {
    if 0 < k {
      var p := Parent(k);
      if compare(x, s[p].value) < 0 {
        var t := s[k := s[p]];
        SiftUpSeqMoves(compare, t, p, x);
        var r := SiftUpSeq(compare, t, p, x);
        assert r[k] == s[p];
        assert compare(x, x) >= 0;
        if r[p] == Some(x) {
          assert r[k] != Some(x);
        }
      }
    }
  }

  /** Sift-up only writes the slots on the path from k up to the root:
      every other slot keeps its element. */
  lemma {:induction false} SiftUpSeqOffPath<E>(compare: (E, E) -> int, s: seq<Option<E>>, k: nat, x: E, j: nat)
    requires k < |s| && (forall i :: 0 <= i < k ==> s[i].Some?)
    requires j < |s| && !Ancestor(j, k)
    ensures SiftUpSeq(compare, s, k, x)[j] == s[j]
    decreases k
  {
    if 0 < k {
      var p := Parent(k);
      if compare(x, s[p].value) < 0 {
        assert !Ancestor(j, p);
        SiftUpSeqOffPath(compare, s[k := s[p]], p, x, j);
      }
    }
  }

  /** The child that sift-down picks (the right one only when strictly
      less) precedes both children. */
  lemma LesserChildLeads<E(!new)>(compare: (E, E) -> int, s: seq<Option<E>>, n: nat, k: nat, child: nat)
    requires TotalPreorder(compare) && Occupied(s, n) && 2 * k + 1 < n
    requires child == if 2 * k + 2 < n && compare(s[2 * k + 2].value, s[2 * k + 1].value) < 0 then 2 * k + 2 else 2 * k + 1
    ensures ChildrenFollow(compare, s, n, k, s[child])
  {
    var c := s[child].value;
    assert compare(c, c) <= 0;
  }

  /** An element not greater than the lesser child precedes both children. */
  lemma FollowsLesserChild<E(!new)>(compare: (E, E) -> int, s: seq<Option<E>>, n: nat, k: nat, child: nat, x: E)
    requires TotalPreorder(compare) && Occupied(s, n) && child < n
    requires ChildrenFollow(compare, s, n, k, s[child]) && compare(x, s[child].value) <= 0
    ensures ChildrenFollow(compare, s, n, k, Some(x))
  {
    if 2 * k + 1 < n {
      assert compare(x, s[2 * k + 1].value) <= 0;
    }
    if 2 * k + 2 < n {
      assert compare(x, s[2 * k + 2].value) <= 0;
    }
  }

  /** Sift-down keeps the first n slots occupied and holds the old
      elements with x in place of the hole. */
  lemma {:induction false} SiftDownSeqPermutes<E>(compare: (E, E) -> int, s: seq<Option<E>>, n: nat, k: nat, x: E)
    requires Occupied(s, n) && k < n
    ensures Occupied(SiftDownSeq(compare, s, n, k, x), n)
    ensures multiset(SiftDownSeq(compare, s, n, k, x)[..n]) == multiset(s[..n][k := Some(x)])
    decreases n - k
  {
    if k < n / 2 {
      var child := if 2 * k + 2 < n && compare(s[2 * k + 2].value, s[2 * k + 1].value) < 0 then 2 * k + 2 else 2 * k + 1;
      if compare(x, s[child].value) > 0 {
        var t := s[k := s[child]];
        SiftDownSeqPermutes(compare, t, n, child, x);
        MoveIntoHole(s[..n], k, child, Some(x));
        assert t[..n] == s[..n][k := s[child]];
      }
    }
  }

  /** If x stays at the slot where sift-down started, nothing else changed. */
  lemma {:induction false} SiftDownSeqStays<E(!new)>(compare: (E, E) -> int, s: seq<Option<E>>, n: nat, k: nat, x: E)
    requires TotalPreorder(compare) && Occupied(s, n) && k < n
    ensures SiftDownSeq(compare, s, n, k, x)[k] == Some(x) ==> SiftDownSeq(compare, s, n, k, x) == s[k := Some(x)]
  {
    if k < n / 2 {
      var child := if 2 * k + 2 < n && compare(s[2 * k + 2].value, s[2 * k + 1].value) < 0 then 2 * k + 2 else 2 * k + 1;
      if compare(x, s[child].value) > 0 {
        assert SiftDownSeq(compare, s, n, k, x)[k] == s[child];
        assert compare(x, x) >= 0;
      }
    }
  }

  /** Sift-down into a hole whose surroundings (from parent slot lo on)
      are in heap order yields slots in heap order from lo on, except
      possibly between k and its parent; that pair is ordered too when x
      moved or when the parent of k already precedes x. */
  lemma {:induction false} SiftDownSeqHeap<E(!new)>(compare: (E, E) -> int, s: seq<Option<E>>, n: nat, lo: nat, k: nat, x: E)
    requires TotalPreorder(compare) && Occupied(s, n) && lo <= k < n
    requires HoleHeap(compare, s, n, lo, k) && Bridged(compare, s, n, lo, k)
    ensures HeapExcept(compare, SiftDownSeq(compare, s, n, k, x), n, lo, k)
    ensures 0 < k && lo <= Parent(k) && Precedes(compare, s[Parent(k)], Some(x)) ==> HeapExcept(compare, SiftDownSeq(compare, s, n, k, x), n, lo, -1)
    ensures SiftDownSeq(compare, s, n, k, x)[k] != Some(x) ==> HeapExcept(compare, SiftDownSeq(compare, s, n, k, x), n, lo, -1)
    decreases n - k
  {
    var r := SiftDownSeq(compare, s, n, k, x);
    if k >= n / 2 {
      assert r == s[k := Some(x)];
      FillHole(compare, s, n, lo, k, x);
    } else {
      var child := if 2 * k + 2 < n && compare(s[2 * k + 2].value, s[2 * k + 1].value) < 0 then 2 * k + 2 else 2 * k + 1;
      LesserChildLeads(compare, s, n, k, child);
      if compare(x, s[child].value) <= 0 {
        assert r == s[k := Some(x)];
        FollowsLesserChild(compare, s, n, k, child, x);
        FillHole(compare, s, n, lo, k, x);
      } else {
        SiftDownStep(compare, s, n, lo, k, child, x);
        assert r == SiftDownSeq(compare, s[k := s[child]], n, child, x);
        SiftDownSeqHeap(compare, s[k := s[child]], n, lo, child, x);
      }
    }
  }

  /** After removing slot i of a heap of n + 1 elements, if the former last
      element x stayed at slot i when sifted down, slot i may be treated as
      a hole for sift-up: the order around it holds except above it. */
  lemma ReadyToSiftUp<E(!new)>(compare: (E, E) -> int, s0: seq<Option<E>>, n: nat, i: nat, x: E)
    requires TotalPreorder(compare) && IsHeap(compare, s0, n + 1) && i < n
    requires HeapExcept(compare, s0[n := None][i := Some(x)], n, 0, i)
    ensures OccupiedExcept(s0[n := None][i := Some(x)], n, i)
    ensures HoleHeap(compare, s0[n := None][i := Some(x)], n, 0, i)
    ensures Bridged(compare, s0[n := None][i := Some(x)], n, 0, i)
    ensures ChildrenFollow(compare, s0[n := None][i := Some(x)], n, i, Some(x))
  {
    var t := s0[n := None][i := Some(x)];
    if 2 * i + 1 < n {
      assert Parent(2 * i + 1) == i;
    }
    if 2 * i + 2 < n {
      assert Parent(2 * i + 2) == i;
    }
    if 0 < i {
      assert Precedes(compare, s0[Parent(i)], s0[i]);
      if 2 * i + 1 < n {
        assert Precedes(compare, s0[i], s0[2 * i + 1]);
      }
      if 2 * i + 2 < n {
        assert Precedes(compare, s0[i], s0[2 * i + 2]);
      }
    }
  }

  /** Appending x to a heap of n elements and sifting it up yields a heap
      of n + 1 elements holding the old ones and x. */
  lemma SiftUpAppended<E(!new)>(compare: (E, E) -> int, s: seq<Option<E>>, n: nat, x: E)
    requires TotalPreorder(compare) && IsHeap(compare, s, n) && n < |s|
    ensures IsHeap(compare, SiftUpSeq(compare, s, n, x), n + 1)
    ensures multiset(SiftUpSeq(compare, s, n, x)[..n + 1]) == multiset(s[..n]) + multiset{Some(x)}
  {
    assert OccupiedExcept(s, n + 1, n);
    SiftUpSeqHeap(compare, s, n + 1, n, x);
    assert s[..n + 1][n := Some(x)] == s[..n] + [Some(x)];
  }

  /** The slots after poll takes the root of a heap of n + 1 elements: the
      last element is sifted down from the root, if any remain. */
  function PollSeq<E>(compare: (E, E) -> int, s: seq<Option<E>>, n: nat): (r: seq<Option<E>>)
    requires n < |s| && forall j :: 0 <= j <= n ==> s[j].Some?
    ensures |r| == |s|
  {
    if n == 0 then s[0 := None]
    else SiftDownSeq(compare, s[n := None], n, 0, s[n].value)
  }

  /** Poll leaves a heap of the other n elements. */
  lemma PollSeqSpec<E(!new)>(compare: (E, E) -> int, s: seq<Option<E>>, n: nat)
    requires TotalPreorder(compare) && IsHeap(compare, s, n + 1)
    ensures IsHeap(compare, PollSeq(compare, s, n), n)
    ensures multiset(PollSeq(compare, s, n)[..n]) == multiset(s[..n + 1]) - multiset{s[0]}
  {
    if n == 0 {
      assert s[..1] == [s[0]];
    } else {
      var s1 := s[n := None];
      SiftDownSeqPermutes(compare, s1, n, 0, s[n].value);
      SiftDownSeqHeap(compare, s1, n, 0, 0, s[n].value);
      assert s1[..n] == s[..n];
      FillFromLast(s, 0, n);
    }
  }

  /** The root poll removes precedes every element left. */
  lemma PollTakesMinimum<E(!new)>(compare: (E, E) -> int, s: seq<Option<E>>, n: nat)
    requires TotalPreorder(compare) && IsHeap(compare, s, n + 1)
    ensures forall v :: v in multiset(PollSeq(compare, s, n)[..n]) ==> Precedes(compare, s[0], v)
  {
    PollSeqSpec(compare, s, n);
    forall v | v in multiset(PollSeq(compare, s, n)[..n])
      ensures Precedes(compare, s[0], v)
    {
      RootIsMinimum(compare, s, n + 1, v);
    }
  }

  /** Once the last slot of a heap is cleared, any slot i before it can
      serve as the hole of sift-down: the order around it holds. */
  lemma HoleAtRemoved<E(!new)>(compare: (E, E) -> int, s0: seq<Option<E>>, s1: seq<Option<E>>, n: nat, i: nat)
    requires TotalPreorder(compare) && IsHeap(compare, s0, n + 1) && i < n
    requires s1 == s0[n := None]
    ensures Occupied(s1, n) && HoleHeap(compare, s1, n, 0, i) && Bridged(compare, s1, n, 0, i)
  {
    if 0 < i {
      assert Precedes(compare, s0[Parent(i)], s0[i]);
      if 2 * i + 1 < n {
        assert Parent(2 * i + 1) == i;
        assert Precedes(compare, s0[i], s0[2 * i + 1]);
      }
      if 2 * i + 2 < n {
        assert Parent(2 * i + 2) == i;
        assert Precedes(compare, s0[i], s0[2 * i + 2]);
      }
    }
  }

  /** Removing slot i of a heap of n + 1 elements by sifting the last
      element x down from slot i (s1 is the heap with its last slot
      cleared): the other elements remain, in heap order except possibly
      above slot i when x stayed there. */
  lemma SiftDownReplacing<E(!new)>(compare: (E, E) -> int, s0: seq<Option<E>>, s1: seq<Option<E>>, n: nat, i: nat, x: E)
    requires TotalPreorder(compare) && IsHeap(compare, s0, n + 1) && i < n
    requires s1 == s0[n := None] && s0[n] == Some(x)
    ensures Occupied(SiftDownSeq(compare, s1, n, i, x), n)
    ensures multiset(SiftDownSeq(compare, s1, n, i, x)[..n]) == multiset(s0[..n + 1]) - multiset{s0[i]}
    ensures HeapExcept(compare, SiftDownSeq(compare, s1, n, i, x), n, 0, i)
    ensures SiftDownSeq(compare, s1, n, i, x)[i] != Some(x) ==> IsHeap(compare, SiftDownSeq(compare, s1, n, i, x), n)
    ensures SiftDownSeq(compare, s1, n, i, x)[i] == Some(x) ==> SiftDownSeq(compare, s1, n, i, x) == s1[i := Some(x)]
  {
    assert s1[..n] == s0[..n];
    HoleAtRemoved(compare, s0, s1, n, i);
    SiftDownSeqPermutes(compare, s1, n, i, x);
    SiftDownSeqHeap(compare, s1, n, 0, i, x);
    SiftDownSeqStays(compare, s1, n, i, x);
    FillFromLast(s0, i, n);
  }

  /** Sifting up the former last element x that stayed at slot i (t is
      the slots at that point) completes the heap without changing the
      elements; if x moves, it lands before slot i, and if it stays,
      nothing changes. */
  lemma SiftUpReplacing<E(!new)>(compare: (E, E) -> int, s0: seq<Option<E>>, t: seq<Option<E>>, n: nat, i: nat, x: E)
    requires TotalPreorder(compare) && IsHeap(compare, s0, n + 1) && i < n
    requires t == s0[n := None][i := Some(x)] && HeapExcept(compare, t, n, 0, i)
    ensures IsHeap(compare, SiftUpSeq(compare, t, i, x), n)
    ensures multiset(SiftUpSeq(compare, t, i, x)[..n]) == multiset(t[..n])
    ensures SiftUpSeq(compare, t, i, x)[i] == Some(x) ==> SiftUpSeq(compare, t, i, x) == t
    ensures SiftUpSeq(compare, t, i, x)[i] != Some(x) ==> Some(x) in SiftUpSeq(compare, t, i, x)[..i]
  {
    ReadyToSiftUp(compare, s0, n, i, x);
    SiftUpSeqHeap(compare, t, n, i, x);
    SiftUpSeqMoves(compare, t, i, x);
    var r := SiftUpSeq(compare, t, i, x);
    if r[i] != Some(x) {
      var w :| 0 <= w < i && r[w] == Some(x);
      assert r[..i][w] == Some(x);
    }
    assert t[..n][i := Some(x)] == t[..n];
    assert t[i := Some(x)] == t;
  }

  /** The slots, and the element reported as moved, once slot i of a
      heap of n + 1 elements is removed: the last element x fills slot i,
      is sifted down and, if it stayed at i, sifted up. x is reported only
      when sift-up moved it to a slot before i. */
  function RemoveAtSeq<E(==)>(compare: (E, E) -> int, s: seq<Option<E>>, n: nat, i: nat): (r: (seq<Option<E>>, Option<E>))
    requires i <= n < |s| && forall j :: 0 <= j <= n ==> s[j].Some?
    ensures |r.0| == |s|
  {
    if n == i then (s[i := None], None)
    else
      var x := s[n].value;
      var d := SiftDownSeq(compare, s[n := None], n, i, x);
      if d[i] != Some(x) then (d, None)
      else
        var u := SiftUpSeq(compare, d, i, x);
        if u[i] != Some(x) then (u, Some(x)) else (u, None)
  }

  /** Removing slot i of a heap of n + 1 elements leaves a heap of n
      elements that holds all the others. The element reported as moved is
      the former last one, now before slot i; when none is reported, no
      slot before i changed. */
  lemma RemoveAtSeqSpec<E(!new)>(compare: (E, E) -> int, s: seq<Option<E>>, n: nat, i: nat)
    requires TotalPreorder(compare) && IsHeap(compare, s, n + 1) && i <= n
    ensures IsHeap(compare, RemoveAtSeq(compare, s, n, i).0, n)
    ensures multiset(RemoveAtSeq(compare, s, n, i).0[..n]) == multiset(s[..n + 1]) - multiset{s[i]}
    ensures RemoveAtSeq(compare, s, n, i).1.Some? ==> RemoveAtSeq(compare, s, n, i).1 == s[n] && s[n] in RemoveAtSeq(compare, s, n, i).0[..i]
    ensures RemoveAtSeq(compare, s, n, i).1 == None ==> RemoveAtSeq(compare, s, n, i).0[..i] == s[..i]
  {
    if n == i {
      RemoveAtSeqLast(compare, s, n);
    } else {
      RemoveAtSeqInner(compare, s, n, i);
    }
  }

  /** Removing the last element only clears its slot. */
  lemma RemoveAtSeqLast<E(!new)>(compare: (E, E) -> int, s: seq<Option<E>>, n: nat)
    requires TotalPreorder(compare) && IsHeap(compare, s, n + 1)
    ensures RemoveAtSeq(compare, s, n, n) == (s[n := None], None)
    ensures IsHeap(compare, s[n := None], n)
    ensures multiset(s[n := None][..n]) == multiset(s[..n + 1]) - multiset{s[n]}
  {
    var t := s[n := None];
    assert t[..n] == s[..n];
    assert s[..n + 1] == s[..n] + [s[n]];
    forall j {:trigger Parent(j)} | 0 < j < n
      ensures Precedes(compare, t[Parent(j)], t[j])
    {
      assert Precedes(compare, s[Parent(j)], s[j]);
    }
  }

  /** RemoveAtSeqSpec when a slot before the last is removed: the last
      element is sifted down from slot i and, if it stays there, up. */
  lemma RemoveAtSeqInner<E(!new)>(compare: (E, E) -> int, s: seq<Option<E>>, n: nat, i: nat)
    requires TotalPreorder(compare) && IsHeap(compare, s, n + 1) && i < n
    ensures IsHeap(compare, RemoveAtSeq(compare, s, n, i).0, n)
    ensures multiset(RemoveAtSeq(compare, s, n, i).0[..n]) == multiset(s[..n + 1]) - multiset{s[i]}
    ensures RemoveAtSeq(compare, s, n, i).1.Some? ==> RemoveAtSeq(compare, s, n, i).1 == s[n] && s[n] in RemoveAtSeq(compare, s, n, i).0[..i]
    ensures RemoveAtSeq(compare, s, n, i).1 == None ==> RemoveAtSeq(compare, s, n, i).0[..i] == s[..i]
  {
    var x := s[n].value;
    var s1 := s[n := None];
    SiftDownReplacing(compare, s, s1, n, i, x);
    var d := SiftDownSeq(compare, s1, n, i, x);
    assert d[..i] == s[..i];
    if d[i] == Some(x) {
      SiftUpReplacing(compare, s, d, n, i, x);
      var u := SiftUpSeq(compare, d, i, x);
      if u[i] == Some(x) {
        assert u == d;
      }
    }
  }

  // ---------------------------------------------------------------------
  // Growth policy

  /** The length `grow` picks, as written: double a short array, add half
      to a long one. The requested minimum is ignored. */
  function GrowLength(oldLength: nat): (r: nat)
    ensures oldLength <= r && (oldLength < r <==> 0 < oldLength)
  {
    oldLength + (if oldLength < 64 then oldLength else oldLength / 2)
  }

  /** As written, growing an empty array leaves it empty, so the write that
      follows at index 0 fails. */
  lemma GrowLengthStuckAtZero()
    ensures GrowLength(0) == 0
  {
  }

  /** The growth policy with the requested minimum honoured. */
  function NewCapacity(oldLength: nat, minCapacity: nat): (r: nat)
    ensures r >= minCapacity && r >= oldLength
    ensures 1 <= oldLength && minCapacity <= oldLength + 1 ==> r == GrowLength(oldLength)
  {
    var grown := GrowLength(oldLength);
    if grown < minCapacity then minCapacity else grown
  }

  /** The slots of a collection copied into a fresh array. */
  function Slots<E>(c: seq<E>): (r: seq<Option<E>>)
    ensures |r| == |c| && forall i :: 0 <= i < |c| ==> r[i] == Some(c[i])
  {
    seq(|c|, i requires 0 <= i < |c| => Some(c[i]))
  }

  // ---------------------------------------------------------------------
  // The queue

  class PriorityQueue<E(==, !new)> {
    var queue: array<Option<E>>
    var size: nat
    const compare: (E, E) -> int

    ghost predicate Valid()
      reads this, queue
    {
      TotalPreorder(compare) && IsHeap(compare, queue[..], size)
    }

    /** The elements held, one `Some` per occupied slot. */
    ghost function Contents(): multiset<Option<E>>
      reads this, queue
      requires size <= queue.Length
    {
      multiset(queue[..size])
    }

    constructor (initialCapacity: nat, compare: (E, E) -> int)
      requires TotalPreorder(compare)
      ensures Valid() && fresh(queue)
      ensures queue.Length == initialCapacity && size == 0 && this.compare == compare
    {
      queue := new Option<E>[initialCapacity](_ => None);
      size := 0;
      this.compare := compare;
    }

    constructor Default(compare: (E, E) -> int)
      requires TotalPreorder(compare)
      ensures Valid() && fresh(queue)
      ensures queue.Length == DefaultInitialCapacity && size == 0 && this.compare == compare
    {
      queue := new Option<E>[DefaultInitialCapacity](_ => None);
      size := 0;
      this.compare := compare;
    }

    /** Builds a queue holding the elements of c, then orders them. */
    constructor FromCollection(c: seq<E>, compare: (E, E) -> int)
      requires TotalPreorder(compare)
      ensures Valid() && fresh(queue)
      ensures size == |c| && queue.Length == |c| && Contents() == multiset(Slots(c))
    {
      this.compare := compare;
      queue := new Option<E>[|c|](i => if 0 <= i < |c| then Some(c[i]) else None);
      size := |c|;
      new;
      assert queue[..] == Slots(c) == queue[..size];
      Heapify();
    }

    function Size(): (r: nat)
      reads this, queue
      requires size <= queue.Length
      ensures r == |Contents()|
    {
      size
    }

    function IsEmpty(): (r: bool)
      reads this, queue
      requires size <= queue.Length
      ensures r <==> Contents() == multiset{}
    {
      size == 0
    }

    /** Establishes the heap invariant whatever the order of the elements. */
    method Heapify()
      requires TotalPreorder(compare) && Occupied(queue[..], size)
      modifies queue
      ensures Valid() && Contents() == old(Contents())
    {
      var i: int := size / 2 - 1;
      while i >= 0
        invariant -1 <= i < size
        invariant Occupied(queue[..], size)
        invariant HeapExcept(compare, queue[..], size, i + 1, -1)
        invariant multiset(queue[..size]) == old(multiset(queue[..size]))
      {
        ghost var s := queue[..];
        var x := queue[i].value;
        SiftDown(i, x);
        SiftDownSeqPermutes(compare, s, size, i, x);
        SiftDownSeqHeap(compare, s, size, i, i, x);
        assert s[..size][i := Some(x)] == s[..size];
        i := i - 1;
      }
    }

    /** Doubles a short array, adds half to a long one, keeps every slot. */
    method Grow(minCapacity: nat)
      requires Valid()
      modifies this
      ensures fresh(queue) && queue.Length == NewCapacity(old(queue.Length), minCapacity)
      ensures queue[..old(queue.Length)] == old(queue[..])
      ensures forall i :: old(queue.Length) <= i < queue.Length ==> queue[i] == None
      ensures size == old(size) && Valid() && Contents() == old(Contents())
    {
      var oldLength := queue.Length;
      var copy := new Option<E>[NewCapacity(oldLength, minCapacity)](_ => None);
      forall i | 0 <= i < oldLength {
        copy[i] := queue[i];
      }
      ghost var before := queue[..];
      queue := copy;
      assert queue[..oldLength] == before;
      assert queue[..size] == before[..size];
      assert IsHeap(compare, before, size);
    }

    /** Inserts e: a slot is added at the end and e is sifted up from it. */
    method Offer(e: E) returns (r: bool)
      requires Valid()
      modifies this, queue
      ensures Valid() && r
      ensures queue == old(queue) || fresh(queue)
      ensures size == old(size) + 1
      ensures Contents() == old(Contents()) + multiset{Some(e)}
    {
      ghost var held := Contents();
      if size >= queue.Length {
        Grow(size + 1);
      }
      var i := size;
      ghost var before := queue[..];
      assert multiset(before[..i]) == held;
      size := i + 1;
      if i == 0 {
        queue[i] := Some(e);
      } else {
        SiftUp(i, e);
      }
      assert queue[..] == SiftUpSeq(compare, before, i, e);
      SiftUpAppended(compare, before, i, e);
      r := true;
    }

    /** Places x by moving it from hole k0 towards the root. */
    method SiftUp(k0: nat, x: E)
      requires k0 < queue.Length && forall i :: 0 <= i < k0 ==> queue[i].Some?
      modifies queue
      ensures queue[..] == SiftUpSeq(compare, old(queue[..]), k0, x)
    {
      var k: nat := k0;
      while 0 < k
        invariant k <= k0 && forall i :: 0 <= i < k ==> queue[i].Some?
        invariant SiftUpSeq(compare, queue[..], k, x) == SiftUpSeq(compare, old(queue[..]), k0, x)
      {
        var parent: nat := (k - 1) / 2;
        var e := queue[parent];
        if compare(x, e.value) >= 0 {
          break;
        }
        queue[k] := e;
        k := parent;
      }
      queue[k] := Some(x);
    }

    /** Places x by moving it from hole k0 towards the leaves. */
    method SiftDown(k0: nat, x: E)
      requires k0 < size <= queue.Length && forall i :: k0 < i < size ==> queue[i].Some?
      modifies queue
      ensures queue[..] == SiftDownSeq(compare, old(queue[..]), size, k0, x)
    {
      var a, n := queue, size;
      var k := k0;
      var half := n / 2;
      while k < half
        invariant k0 <= k < n && forall i :: k < i < n ==> a[i].Some?
        invariant SiftDownSeq(compare, a[..], n, k, x) == SiftDownSeq(compare, old(a[..]), n, k0, x)
      {
        var child := 2 * k + 1;
        var right := child + 1;
        if right < n && compare(a[right].value, a[child].value) < 0 {
          child := right;
        }
        var c := a[child];
        ghost var q := a[..];
        SiftDownSeqUnfold(compare, q, n, k, child, x);
        if compare(x, c.value) <= 0 {
          break;
        }
        a[k] := c;
        assert a[..] == q[k := c];
        k := child;
      }
      a[k] := Some(x);
    }

    /** Removes and returns the least element: the last element is moved
        into the root and sifted down. */
    method Poll() returns (r: E)
      requires Valid() && 0 < size
      modifies `size, queue
      ensures Valid() && queue == old(queue)
      ensures Some(r) == old(queue[0])
      ensures size == old(size) - 1
      ensures Contents() == old(Contents()) - multiset{Some(r)}
      ensures forall v :: v in Contents() ==> Precedes(compare, Some(r), v)
    {
      ghost var s0 := queue[..];
      var end := size - 1;
      size := end;
      var res := queue[0];
      var x := queue[end];
      queue[end] := None;
      if end != 0 {
        SiftDown(0, x.value);
      }
      assert queue[..] == PollSeq(compare, s0, end);
      PollSeqSpec(compare, s0, end);
      PollTakesMinimum(compare, s0, end);
      r := res.value;
    }

    /** Removes the element at slot i. The result is the former last
        element when it had to move to a slot before i, and None otherwise;
        in that case no slot before i changed. */
    method RemoveAt(i: nat) returns (moved: Option<E>)
      requires Valid() && i < size
      modifies `size, queue
      ensures size == old(size) - 1
      ensures (queue[..], moved) == RemoveAtSeq(compare, old(queue[..]), size, i)
    {
      ghost var s0 := queue[..];
      var s := size - 1;
      size := s;
      moved := None;
      if s == i {
        queue[i] := None;
      } else {
        var last := queue[s];
        queue[s] := None;
        SiftDown(i, last.value);
        if queue[i] == last {
          SiftUp(i, last.value);
          if queue[i] != last {
            moved := last;
          }
        }
      }
    }

    /** The first slot holding an element equal to o, or -1. */
    method IndexOf(o: Option<E>) returns (r: int)
      requires Valid()
      ensures -1 <= r < size
      ensures 0 <= r ==> queue[r] == o && forall j :: 0 <= j < r ==> queue[j] != o
      ensures r == -1 <==> o !in Contents()
    {
      if o.Some? {
        for i := 0 to size
          invariant forall j :: 0 <= j < i ==> queue[j] != o
        {
          if o == queue[i] {
            return i;
          }
        }
      }
      return -1;
    }

    method Contains(o: Option<E>) returns (r: bool)
      requires Valid()
      ensures r <==> o in Contents()
    {
      var i := IndexOf(o);
      r := i != -1;
    }

    /** Removes one element equal to o, if there is one. */
    method Remove(o: Option<E>) returns (r: bool)
      requires Valid()
      modifies this, queue
      ensures Valid() && queue == old(queue)
      ensures r <==> o in old(Contents())
      ensures Contents() == old(Contents()) - multiset{o}
      ensures !r ==> size == old(size) && queue[..] == old(queue[..])
    {
      var i := IndexOf(o);
      if i == -1 {
        return false;
      }
      ghost var s0 := queue[..];
      RemoveAtSeqSpec(compare, s0, size - 1, i);
      var _ := RemoveAt(i);
      return true;
    }
  }
}
