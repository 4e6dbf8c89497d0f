/** The list heap: push, pop and heapify on an object list. */
module HeapQ {
  import opened HeapAlgorithm

  datatype Result<+T> = Ok(value: T) | IndexError

  /** An object list: a buffer whose first `len` places are in use.  `nil` is the null
      object that fills places no longer in use. */
  class ObjList<T(!new)> {
    var items: array<T>
    var len: nat
    const nil: T

    ghost predicate Valid()
      reads this
    {
      len <= items.Length && items.Length > 0
    }

    ghost function Contents(): seq<T>
      requires Valid()
      reads this, items
    {
      items[..len]
    }

    constructor (nil: T, contents: seq<T>)
      ensures Valid() && fresh(items) && Contents() == contents && this.nil == nil
    {
      this.nil := nil;
      var n := if |contents| < 4 then 4 else |contents|;
      items := new T[n](k requires 0 <= k < n => if k < |contents| then contents[k] else nil);
      len := |contents|;
    }

    method Append(x: T)
      requires Valid()
      modifies this`items, this`len, items
      ensures Valid() && Contents() == old(Contents()) + [x]
      ensures items == old(items) || fresh(items)
    {
      if len >= items.Length {
        var alloc := 2 * items.Length;
        var old_items, n := items, items.Length;
        items := new T[alloc](k requires 0 <= k < alloc reads old_items => if k < n then old_items[k] else nil);
        assert items[..len] == old_items[..len];
      }
      items[len] := x;
      len := len + 1;
    }

    method HeapPush(less: (T, T) -> bool, item: T)
      requires Valid()
      modifies this`items, this`len, items
      ensures Valid() && (items == old(items) || fresh(items))
      ensures multiset(Contents()) == multiset(old(Contents())) + multiset{item}
      ensures OrderedOn(less, multiset(Contents())) && Heap(less, old(Contents())) ==> Heap(less, Contents())
    {
      ghost var before := Contents();
      Append(item);
      PushedAtEnd(less, before, item);
      ghost var appended := Contents();
      SiftDown(items, less, 0, len - 1, len);
      assert items[..len] == Contents();
    }

    /** The first item and the rest reordered, or an error on an empty list. */
    method HeapPop(less: (T, T) -> bool) returns (r: Result<T>)
      requires Valid()
      modifies this`len, items
      ensures Valid()
      ensures old(len) == 0 <==> r.IndexError?
      ensures r.IndexError? ==> Contents() == old(Contents())
      ensures r.Ok? ==>
                r.value == old(Contents())[0] && multiset(old(Contents())) == multiset(Contents()) + multiset{r.value}
      ensures r.Ok? && OrderedOn(less, multiset(old(Contents()))) && Heap(less, old(Contents())) ==>
                Heap(less, Contents()) && First(less, multiset(old(Contents())), r.value)
    {
      if len == 0 {
        return IndexError;
      }
      hide OrderedOn, HeapFrom, First, Refilled;
      ghost var before := Contents();
      RootIsFirst(less, before);
      var item := TakeRoot();
      if len > 0 {
        RefilledConserves(less, before);
        SiftUp(items, less, 0, len);
        assert Permutation(Contents(), Refilled(before));
      } else {
        HeapOfNone(less, Contents());
      }
      r := Ok(item);
    }

    /** Removes the root and puts the last item in its place. */
    method TakeRoot() returns (item: T)
      requires Valid() && len > 0
      modifies this`len, items
      ensures Valid() && len == old(len) - 1 && item == old(Contents())[0]
      ensures if len > 0 then Contents() == Refilled(old(Contents())) else Contents() == [] && old(Contents()) == [item]
    {
      ghost var before := Contents();
      item := items[0];
      len := len - 1;
      items[0] := items[len];
      items[len] := nil;
      assert len > 0 ==> items[..len] == Refilled(before);
    }

    /** Sifts the inner nodes from the last to the first. */
    method Heapify(less: (T, T) -> bool)
      requires Valid()
      modifies items
      ensures Permutation(Contents(), old(Contents()))
      ensures OrderedOn(less, multiset(old(Contents()))) ==> Heap(less, Contents())
    {
      ghost var before := Contents();
      LeavesInOrder(less, before);
      assert Permutation(before, before);
      var i: nat := len / 2;
      while i > 0
        invariant i <= len / 2
        invariant Permutation(Contents(), before)
        invariant OrderedOn(less, multiset(before)) ==> HeapFrom(less, Contents(), i)
      {
        i := i - 1;
        SiftUp(items, less, i, len);
      }
    }

    /** Heapify and pop until empty: the items in order. */
    method Drain(less: (T, T) -> bool) returns (out: seq<T>)
      requires Valid()
      modifies this`len, items
      ensures Valid() && Contents() == []
      ensures multiset(out) == multiset(old(Contents()))
      ensures OrderedOn(less, multiset(old(Contents()))) ==> Sorted(less, out)
    {
      hide OrderedOn, HeapFrom, Heap, First, Sorted, NoneAfter;
      ghost var all := multiset(Contents());
      NothingSorted(less, all);
      Heapify(less);
      out := [];
      while len > 0
        invariant Valid()
        invariant multiset(out) + multiset(Contents()) == all
        invariant OrderedOn(less, all) ==> Heap(less, Contents())
        invariant OrderedOn(less, all) ==> Sorted(less, out) && NoneAfter(less, out, multiset(Contents()))
      {
        ghost var before := multiset(Contents());
        OrderOnFewer(less, all, before);
        var r := HeapPop(less);
        if OrderedOn(less, all) {
          SortedGrows(less, out, r.value, before, multiset(Contents()));
        }
        out := out + [r.value];
      }
    }
  }

  ghost predicate Sorted<T>(less: (T, T) -> bool, s: seq<T>) {
    forall i, j :: 0 <= i < j < |s| ==> !less(s[j], s[i])
  }

  /** Nothing in `out` is after a member of `m`. */
  ghost predicate NoneAfter<T(!new)>(less: (T, T) -> bool, out: seq<T>, m: multiset<T>) {
    forall i :: 0 <= i < |out| ==> First(less, m, out[i])
  }

  lemma NothingSorted<T(!new)>(less: (T, T) -> bool, m: multiset<T>)
    ensures Sorted(less, []) && NoneAfter(less, [], m)
  {
  }

  lemma HeapOfNone<T(!new)>(less: (T, T) -> bool, s: seq<T>)
    requires s == []
    ensures Heap(less, s)
  {
  }

  lemma SortedGrows<T(!new)>(less: (T, T) -> bool, out: seq<T>, x: T, before: multiset<T>, after: multiset<T>)
    requires before == after + multiset{x}
    requires Sorted(less, out) && NoneAfter(less, out, before) && First(less, before, x)
    ensures Sorted(less, out + [x]) && NoneAfter(less, out + [x], after)
  {
    forall i | 0 <= i < |out| ensures !less(x, out[i]) {
      assert First(less, before, out[i]) && x in before;
    }
    forall i | 0 <= i <= |out| ensures First(less, after, (out + [x])[i]) {
      assert First(less, before, (out + [x])[i]);
      assert forall y :: y in after ==> y in before;
    }
  }

  lemma RootIsFirst<T(!new)>(less: (T, T) -> bool, s: seq<T>)
    requires |s| > 0
    ensures OrderedOn(less, multiset(s)) && Heap(less, s) ==> First(less, multiset(s), s[0])
  {
    if OrderedOn(less, multiset(s)) && Heap(less, s) {
      forall x | x in multiset(s) ensures !less(x, s[0]) {
        var j: nat :| j < |s| && s[j] == x;
        RootFirst(less, s, j);
      }
    }
  }

  /** The second half of any list has no children to be out of order. */
  lemma LeavesInOrder<T>(less: (T, T) -> bool, s: seq<T>)
    ensures HeapFrom(less, s, |s| / 2)
  {
    assert forall j :: 0 < j < |s| ==> Parent(j) < |s| / 2;
  }
}
