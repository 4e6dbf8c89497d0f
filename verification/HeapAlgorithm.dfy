/** The heap algorithm that the list heap and the time queue share: sink the hole to a
    leaf without looking at the item, then float the item back up as far as the position
    the hole started from.

    The comparison is whatever the caller supplies.  What the algorithm conserves it
    conserves for any comparison; what it orders it orders when the comparison is a
    strict weak order on the items at hand. */
module HeapAlgorithm {

  function Parent(j: nat): (p: nat)
    requires j > 0
    ensures p < j
  {
    (j - 1) / 2
  }

  /** Strict weak order on the members of `m`: asymmetric, and incomparability composes. */
  ghost predicate OrderedOn<T(!new)>(less: (T, T) -> bool, m: multiset<T>) {
    && (forall a, b :: a in m && b in m && less(a, b) ==> !less(b, a))
    && (forall a, b, c :: a in m && b in m && c in m && less(a, c) ==> less(a, b) || less(b, c))
  }

  /** Item `j` is not before its parent. */
  predicate InOrder<T>(less: (T, T) -> bool, s: seq<T>, j: nat)
    requires 0 < j < |s|
  {
    !less(s[j], s[Parent(j)])
  }

  /** The heap order holds below `start` and to the right of it. */
  ghost predicate HeapFrom<T>(less: (T, T) -> bool, s: seq<T>, start: nat) {
    forall j :: 0 < j < |s| && start <= Parent(j) ==> InOrder(less, s, j)
  }

  ghost predicate Heap<T>(less: (T, T) -> bool, s: seq<T>) {
    HeapFrom(less, s, 0)
  }

  /** `pos` is `start` or one of its descendants. */
  predicate Under(pos: nat, start: nat) {
    pos == start || (pos > start && Under(Parent(pos), start))
  }

  /** Ordered except around `pos`; the children of `pos` are in order with its parent. */
  ghost predicate HeapAround<T>(less: (T, T) -> bool, s: seq<T>, start: nat, pos: nat) {
    && pos < |s|
    && (forall j :: 0 < j < |s| && start <= Parent(j) && j != pos && Parent(j) != pos ==> InOrder(less, s, j))
    && (pos > start ==> forall j :: 0 < j < |s| && Parent(j) == pos ==> !less(s[j], s[Parent(pos)]))
  }

  /** Ordered except that the item at `pos` may be before its ancestors. */
  ghost predicate HeapBut<T>(less: (T, T) -> bool, s: seq<T>, start: nat, pos: nat) {
    && HeapAround(less, s, start, pos)
    && forall j :: 0 < j < |s| && Parent(j) == pos ==> InOrder(less, s, j)
  }

  function Swap<T>(s: seq<T>, i: nat, j: nat): (r: seq<T>)
    requires i < |s| && j < |s|
    ensures |r| == |s|
  {
    s[i := s[j]][j := s[i]]
  }

  /** The same items, each as often. */
  ghost predicate Permutation<T>(s: seq<T>, t: seq<T>) {
    multiset(s) == multiset(t)
  }

  lemma SwapPermutes<T>(s: seq<T>, i: nat, j: nat, t: seq<T>)
    requires i < |s| && j < |s| && Permutation(s, t)
    ensures Permutation(Swap(s, i, j), t)
    ensures var r := Swap(s, i, j);
            r[i] == s[j] && r[j] == s[i] && forall k :: 0 <= k < |s| && k != i && k != j ==> r[k] == s[k]
  {
  }

  lemma AtMost<T(!new)>(less: (T, T) -> bool, m: multiset<T>, a: T, b: T, c: T)
    requires OrderedOn(less, m) && a in m && b in m && c in m
    requires !less(a, b) && !less(b, c)
    ensures !less(a, c)
  {
  }

  lemma {:induction false} UnderAbove(pos: nat, start: nat)
    requires Under(pos, start)
    ensures start <= pos
  {
  }

  /** Floating up one level. */
  lemma FloatStep<T(!new)>(less: (T, T) -> bool, s: seq<T>, start: nat, pos: nat, t: seq<T>)
    requires OrderedOn(less, multiset(t)) && Permutation(s, t) && HeapBut(less, s, start, pos) && pos > start
             && Under(pos, start)
    requires less(s[pos], s[Parent(pos)])
    ensures HeapBut(less, Swap(s, pos, Parent(pos)), start, Parent(pos))
  {
    var p := Parent(pos);
    var r := Swap(s, pos, p);
    assert start <= p;
    assert s[pos] in multiset(s) && s[p] in multiset(s);
    forall j | 0 < j < |r| && Parent(j) == p ensures InOrder(less, r, j) {
      if j != pos {
        assert s[j] in multiset(s) && InOrder(less, s, j);
      }
    }
    UnderAbove(p, start);
    if p > start {
      UnderAbove(Parent(p), start);
      forall j | 0 < j < |r| && Parent(j) == p ensures !less(r[j], r[Parent(p)]) {
        assert InOrder(less, s, p);
        assert s[Parent(p)] in multiset(s) && s[j] in multiset(s);
        if j != pos {
          assert InOrder(less, s, j);
          AtMost(less, multiset(s), s[j], s[p], s[Parent(p)]);
        }
      }
    }
    forall j | 0 < j < |r| && start <= Parent(j) && j != p && Parent(j) != p ensures InOrder(less, r, j) {
      if Parent(j) != pos {
        assert InOrder(less, s, j);
      }
    }
  }

  /** Floating stops where the item is in order with its parent, or at the start. */
  lemma FloatDone<T>(less: (T, T) -> bool, s: seq<T>, start: nat, pos: nat)
    requires HeapBut(less, s, start, pos)
    requires pos > start ==> !less(s[pos], s[Parent(pos)])
    requires Under(pos, start)
    ensures HeapFrom(less, s, start)
  {
    forall j | 0 < j < |s| && start <= Parent(j) ensures InOrder(less, s, j) {
    }
  }

  /** `c` is a child of `pos` that its sibling, if there is one, is not before. */
  predicate SmallerChild<T>(less: (T, T) -> bool, s: seq<T>, pos: nat, c: nat) {
    && (c == 2 * pos + 1 || c == 2 * pos + 2) && c < |s|
    && (c == 2 * pos + 1 ==> 2 * pos + 2 < |s| ==> less(s[c], s[2 * pos + 2]))
    && (c == 2 * pos + 2 ==> !less(s[2 * pos + 1], s[c]))
  }

  /** Sinking the hole one level. */
  lemma SinkStep<T(!new)>(less: (T, T) -> bool, s: seq<T>, start: nat, pos: nat, c: nat, t: seq<T>)
    requires OrderedOn(less, multiset(t)) && Permutation(s, t) && HeapAround(less, s, start, pos) && Under(pos, start)
    requires SmallerChild(less, s, pos, c)
    ensures HeapAround(less, Swap(s, pos, c), start, c) && Under(c, start)
  {
    var r := Swap(s, pos, c);
    UnderAbove(pos, start);
    assert Parent(c) == pos;
    assert s[c] in multiset(s);
    forall j | 0 < j < |r| && start <= Parent(j) && j != c && Parent(j) != c ensures InOrder(less, r, j) {
      if Parent(j) == pos {
        assert s[j] in multiset(s);
        assert j == 2 * pos + 1 || j == 2 * pos + 2;
      } else if j != pos {
        assert InOrder(less, s, j);
      }
    }
    forall j | 0 < j < |r| && Parent(j) == c ensures !less(r[j], r[pos]) {
      assert InOrder(less, s, j);
    }
  }

  /** A heap's first item is not after any other. */
  lemma {:induction false} RootFirst<T(!new)>(less: (T, T) -> bool, s: seq<T>, j: nat)
    requires OrderedOn(less, multiset(s)) && Heap(less, s) && j < |s|
    ensures !less(s[j], s[0])
    decreases j
  {
    assert s[0] in multiset(s) && s[j] in multiset(s);
    if j > 0 {
      RootFirst(less, s, Parent(j));
      assert InOrder(less, s, j);
      assert s[Parent(j)] in multiset(s);
      AtMost(less, multiset(s), s[j], s[Parent(j)], s[0]);
    }
  }

  /** Before the hole sinks, everything below it is in order ... */
  lemma SinkStart<T(!new)>(less: (T, T) -> bool, s: seq<T>, pos: nat) returns (orderly: bool)
    requires pos < |s|
    ensures orderly == (OrderedOn(less, multiset(s)) && HeapFrom(less, s, pos + 1))
    ensures orderly ==> HeapAround(less, s, pos, pos)
    ensures Under(pos, pos) && Permutation(s, s)
  {
    orderly := OrderedOn(less, multiset(s)) && HeapFrom(less, s, pos + 1);
  }

  /** ... and at a leaf it has no children to be out of order with. */
  lemma SinkDone<T(!new)>(orderly: bool, less: (T, T) -> bool, s: seq<T>, start: nat, pos: nat, t: seq<T>)
    requires |s| <= 2 * pos + 1 && Permutation(s, t)
    requires orderly ==> OrderedOn(less, multiset(t)) && HeapAround(less, s, start, pos)
    ensures orderly ==> OrderedOn(less, multiset(s)) && HeapBut(less, s, start, pos)
    ensures forall r: seq<T> :: Permutation(r, s) ==> Permutation(r, t)
  {
  }

  lemma Float<T(!new)>(orderly: bool, less: (T, T) -> bool, s: seq<T>, start: nat, pos: nat, t: seq<T>)
    requires start < pos < |s| && Under(pos, start) && Permutation(s, t) && less(s[pos], s[Parent(pos)])
    requires orderly ==> OrderedOn(less, multiset(t)) && HeapBut(less, s, start, pos)
    ensures var r := Swap(s, pos, Parent(pos));
            && r[pos] == s[Parent(pos)] && r[Parent(pos)] == s[pos]
            && (forall k :: 0 <= k < |s| && k != pos && k != Parent(pos) ==> r[k] == s[k])
            && Permutation(r, t) && (orderly ==> HeapBut(less, r, start, Parent(pos)))
            && Under(Parent(pos), start) && start <= Parent(pos)
  {
    UnderAbove(Parent(pos), start);
    SwapPermutes(s, pos, Parent(pos), t);
    if orderly {
      FloatStep(less, s, start, pos, t);
    }
  }

  lemma Settle<T(!new)>(orderly: bool, less: (T, T) -> bool, s: seq<T>, start: nat, pos: nat)
    requires orderly ==> HeapBut(less, s, start, pos)
    requires start <= pos < |s| && Under(pos, start) && (pos > start ==> !less(s[pos], s[Parent(pos)]))
    ensures orderly ==> HeapFrom(less, s, start)
  {
    if orderly {
      FloatDone(less, s, start, pos);
    }
  }

  lemma Sink<T(!new)>(orderly: bool, less: (T, T) -> bool, s: seq<T>, start: nat, pos: nat, c: nat, t: seq<T>)
    requires start <= pos < |s| && Under(pos, start) && Permutation(s, t) && SmallerChild(less, s, pos, c)
    requires orderly ==> OrderedOn(less, multiset(t)) && HeapAround(less, s, start, pos)
    ensures var r := Swap(s, pos, c);
            && r[pos] == s[c] && r[c] == s[pos]
            && (forall k :: 0 <= k < |s| && k != pos && k != c ==> r[k] == s[k])
            && Permutation(r, t) && (orderly ==> HeapAround(less, r, start, c))
            && Under(c, start)
  {
    assert Parent(c) == pos;
    SwapPermutes(s, pos, c, t);
    if orderly {
      SinkStep(less, s, start, pos, c, t);
    }
  }

  // ----- what push and pop do before sifting -----

  lemma OrderOnFewer<T(!new)>(less: (T, T) -> bool, all: multiset<T>, m: multiset<T>)
    requires forall x :: x in m ==> x in all
    ensures OrderedOn(less, all) ==> OrderedOn(less, m)
  {
  }

  /** No member of `m` is before `x`. */
  ghost predicate First<T(!new)>(less: (T, T) -> bool, m: multiset<T>, x: T) {
    forall y :: y in m ==> !less(y, x)
  }

  /** Among ordered items some are first. */
  lemma {:induction false} SomeFirst<T(!new)>(less: (T, T) -> bool, m: multiset<T>) returns (x: T)
    requires m != multiset{} && OrderedOn(less, m)
    ensures x in m && First(less, m, x)
    decreases |m|
  {
    x :| x in m;
    var rest := m - multiset{x};
    if rest != multiset{} {
      OrderOnFewer(less, m, rest);
      var y := SomeFirst(less, rest);
      assert m == rest + multiset{x};
      if !less(x, y) {
        x := y;
      }
    } else {
      assert m == multiset{x};
    }
  }

  /** An item added behind a heap is the only one that may be out of order. */
  lemma PushedAtEnd<T(!new)>(less: (T, T) -> bool, s: seq<T>, item: T)
    ensures Under(|s|, 0)
    ensures Heap(less, s) ==> HeapBut(less, s + [item], 0, |s|)
  {
    UnderZero(|s|);
    var r := s + [item];
    if Heap(less, s) {
      forall j | 0 < j < |r| && j != |s| ensures InOrder(less, r, j) {
        assert InOrder(less, s, j);
      }
    }
  }

  lemma {:induction false} UnderZero(pos: nat)
    ensures Under(pos, 0)
  {
    if pos > 0 {
      UnderZero(Parent(pos));
    }
  }

  /** The list with its root taken away and its last item in the root's place. */
  function Refilled<T>(s: seq<T>): seq<T>
    requires |s| > 1
  {
    s[..|s| - 1][0 := s[|s| - 1]]
  }

  /** Refilling the root loses the old root only and disturbs nothing below the root. */
  lemma RefilledConserves<T(!new)>(less: (T, T) -> bool, s: seq<T>)
    requires |s| > 1
    ensures multiset(s) == multiset(Refilled(s)) + multiset{s[0]}
    ensures OrderedOn(less, multiset(s)) ==> OrderedOn(less, multiset(Refilled(s)))
    ensures Heap(less, s) ==> HeapFrom(less, Refilled(s), 1)
  {
    RefilledItems(s);
    RefilledBelow(less, s);
    hide Refilled, HeapFrom, OrderedOn;
    OrderOnFewer(less, multiset(s), multiset(Refilled(s)));
  }

  lemma RefilledItems<T>(s: seq<T>)
    requires |s| > 1
    ensures multiset(s) == multiset(Refilled(s)) + multiset{s[0]}
  {
    var last := |s| - 1;
    assert s == [s[0]] + s[1..last] + [s[last]];
    assert Refilled(s) == [s[last]] + s[1..last];
  }

  lemma RefilledBelow<T(!new)>(less: (T, T) -> bool, s: seq<T>)
    requires |s| > 1
    ensures Heap(less, s) ==> HeapFrom(less, Refilled(s), 1)
  {
    var r := Refilled(s);
    if Heap(less, s) {
      forall j | 0 < j < |r| && 1 <= Parent(j) ensures InOrder(less, r, j) {
        assert InOrder(less, s, j);
      }
    }
  }

  // ----- the two loops, in place -----

  /** The array holds `s`, except that the place `hole` is up for overwriting. */
  ghost predicate HoldsAround<T>(a: seq<T>, s: seq<T>, hole: nat) {
    |a| == |s| && hole < |s| && forall k :: 0 <= k < |s| && k != hole ==> a[k] == s[k]
  }

  lemma HoleMoves<T>(a: seq<T>, s: seq<T>, p: nat, q: nat, r: seq<T>)
    requires HoldsAround(a, s, p) && q < |s| && p != q
    requires |r| == |s| && r[p] == s[q] && forall k :: 0 <= k < |s| && k != p && k != q ==> r[k] == s[k]
    ensures HoldsAround(a[p := a[q]], r, q)
  {
  }

  lemma HoleFilled<T>(a: seq<T>, s: seq<T>, hole: nat)
    requires HoldsAround(a, s, hole)
    ensures a[hole := s[hole]] == s
  {
  }

  /** Copies `items[from]` over `items[to]`, the hole of `s`. */
  method MoveIntoHole<T>(items: array<T>, to: nat, from: nat, ghost end: nat, ghost s: seq<T>, ghost r: seq<T>)
    requires to < end <= items.Length && from < end && to != from
    requires HoldsAround(items[..end], s, to)
    requires |r| == |s| && r[to] == s[from] && forall k :: 0 <= k < |s| && k != to && k != from ==> r[k] == s[k]
    modifies items
    ensures HoldsAround(items[..end], r, from)
    ensures forall k :: end <= k < items.Length ==> items[k] == old(items[k])
  {
    HoleMoves(items[..end], s, to, from, r);
    items[to] := items[from];
    assert items[..end] == old(items[..end])[to := old(items[..end])[from]];
  }

  method FillHole<T>(items: array<T>, hole: nat, item: T, ghost end: nat, ghost s: seq<T>)
    requires hole < end <= items.Length
    requires HoldsAround(items[..end], s, hole) && s[hole] == item
    modifies items
    ensures items[..end] == s
    ensures forall k :: end <= k < items.Length ==> items[k] == old(items[k])
  {
    HoleFilled(items[..end], s, hole);
    items[hole] := item;
    assert items[..end] == old(items[..end])[hole := item];
  }

  /** Moves the item at `pos` towards `start` past everything it is before. */
  method SiftDown<T(!new)>(items: array<T>, less: (T, T) -> bool, start: nat, pos: nat, ghost end: nat)
    requires start <= pos < end <= items.Length && Under(pos, start)
    modifies items
    ensures forall k :: end <= k < items.Length ==> items[k] == old(items[k])
    ensures Permutation(items[..end], old(items[..end]))
    ensures OrderedOn(less, multiset(old(items[..end]))) && HeapBut(less, old(items[..end]), start, pos)
            ==> HeapFrom(less, items[..end], start)
  {
    var item := items[pos];
    var p := pos;
    ghost var orderly := OrderedOn(less, multiset(items[..end])) && HeapBut(less, items[..end], start, pos);
    ghost var before := items[..end];
    ghost var s := before;
    assert Permutation(s, before) && HoldsAround(items[..end], s, p);
    hide OrderedOn, HeapFrom, HeapBut, Permutation, Swap, Under, HoldsAround;
    while p > start
      invariant start <= p < end && Under(p, start)
      invariant |s| == end && s[p] == item && HoldsAround(items[..end], s, p)
      invariant forall k :: end <= k < items.Length ==> items[k] == old(items[k])
      invariant Permutation(s, before)
      invariant orderly ==> HeapBut(less, s, start, p)
    {
      var parentPos := (p - 1) / 2;
      HoleElsewhere(items[..end], s, p, parentPos);
      if less(item, items[parentPos]) {
        Float(orderly, less, s, start, p, before);
        MoveIntoHole(items, p, parentPos, end, s, Swap(s, p, parentPos));
        s := Swap(s, p, parentPos);
        p := parentPos;
      } else {
        break;
      }
    }
    FillHole(items, p, item, end, s);
    Settle(orderly, less, s, start, p);
  }

  lemma HoleElsewhere<T>(a: seq<T>, s: seq<T>, hole: nat, k: nat)
    requires HoldsAround(a, s, hole) && k < |s| && k != hole
    ensures a[k] == s[k]
  {
  }

  /** Sinks the hole from `pos` to a leaf, each time moving up the child that its sibling
      is not before. */
  method SinkHole<T(!new)>(items: array<T>, less: (T, T) -> bool, pos: nat, end: nat, ghost orderly: bool)
    returns (p: nat, ghost s: seq<T>)
    requires pos < end <= items.Length
    requires orderly ==> OrderedOn(less, multiset(items[..end])) && HeapAround(less, items[..end], pos, pos)
    modifies items
    ensures forall k :: end <= k < items.Length ==> items[k] == old(items[k])
    ensures pos <= p < end <= 2 * p + 1 && Under(p, pos)
    ensures |s| == end && s[p] == old(items[pos]) && HoldsAround(items[..end], s, p)
    ensures Permutation(s, old(items[..end]))
    ensures orderly ==> HeapAround(less, s, pos, p)
  {
    p := pos;
    ghost var before := items[..end];
    s := before;
    assert Permutation(s, before) && HoldsAround(items[..end], s, p) && Under(p, pos);
    hide OrderedOn, HeapFrom, HeapAround, HeapBut, Permutation, Swap, Under, HoldsAround;
    while 2 * p + 1 < end
      invariant pos <= p < end && Under(p, pos)
      invariant |s| == end && s[p] == before[pos] && HoldsAround(items[..end], s, p)
      invariant forall k :: end <= k < items.Length ==> items[k] == old(items[k])
      invariant Permutation(s, before)
      invariant orderly ==> HeapAround(less, s, pos, p)
      decreases end - p
    {
      var child := ChooseChild(items, less, p, end, s);
      Sink(orderly, less, s, pos, p, child, before);
      MoveIntoHole(items, p, child, end, s, Swap(s, p, child));
      s := Swap(s, p, child);
      p := child;
    }
  }

  /** The right child if the left is not before it, the left child otherwise. */
  method ChooseChild<T>(items: array<T>, less: (T, T) -> bool, p: nat, end: nat, ghost s: seq<T>) returns (child: nat)
    requires 2 * p + 1 < end <= items.Length && |s| == end && HoldsAround(items[..end], s, p)
    ensures SmallerChild(less, s, p, child)
  {
    child := 2 * p + 1;
    assert items[..end][child] == s[child];
    if child + 1 < end {
      assert items[..end][child + 1] == s[child + 1];
      var lessthan := less(items[child], items[child + 1]);
      if !lessthan {
        child := child + 1;
      }
    }
  }

  /** Restores the heap order below `pos`, whose descendants are in order already. */
  method SiftUp<T(!new)>(items: array<T>, less: (T, T) -> bool, pos: nat, end: nat)
    requires pos < end <= items.Length
    modifies items
    ensures forall k :: end <= k < items.Length ==> items[k] == old(items[k])
    ensures Permutation(items[..end], old(items[..end]))
    ensures OrderedOn(less, multiset(old(items[..end]))) && HeapFrom(less, old(items[..end]), pos + 1)
            ==> HeapFrom(less, items[..end], pos)
  {
    var item := items[pos];
    ghost var before := items[..end];
    ghost var orderly := SinkStart(less, before, pos);
    hide OrderedOn, HeapFrom, HeapAround, HeapBut, Permutation, Under, HoldsAround;
    var p, s := SinkHole(items, less, pos, end, orderly);
    SinkDone(orderly, less, s, pos, p, before);
    FillHole(items, p, item, end, s);
    SiftDown(items, less, pos, p, end);
  }
}
