/** The time queue: a heap over circular time that behaves as a stable priority queue
    as long as everything in it lies within half a period. */
module TimeQ {
  import opened HeapAlgorithm

  const WORD: nat := 0x1_0000_0000_0000_0000
  /** One more than the largest small integer of a 64-bit word. */
  const MODULO: nat := 0x4000_0000_0000_0000

  type Word = x: nat | x < WORD

  datatype Entry<+V> = Entry(time: Word, id: Word, callback: V, args: V)
  datatype Result<+T> = Ok(value: T) | IndexError

  /** The comparison as written, on wrapping unsigned words. */
  predicate TimeLess<V>(item: Entry<V>, parent: Entry<V>) {
    var res := (parent.time - item.time) % WORD;
    if res == 0 then item.id < parent.id
    else
      var res := if res >= WORD / 2 then (res + MODULO) % WORD else res;
      res != 0 && res < MODULO / 2
  }

  /** What it means for times inside one period: strictly ahead by less than half a period. */
  lemma TimeLessMeans<V>(a: Entry<V>, b: Entry<V>)
    requires a.time < MODULO && b.time < MODULO
    ensures a.time != b.time ==> (TimeLess(a, b) <==> 0 < (b.time - a.time) % MODULO < MODULO / 2)
    ensures a.time == b.time ==> (TimeLess(a, b) <==> a.id < b.id)
  {
    var d := b.time - a.time;
    if d >= 0 {
      assert d % WORD == d && d % MODULO == d;
    } else {
      assert d % WORD == d + WORD && d % MODULO == d + MODULO;
      assert (d + WORD + MODULO) % WORD == d + MODULO;
    }
  }

  /** How long after `base` an entry is due, going forwards. */
  function Delay<V>(base: nat, e: Entry<V>): (d: nat)
    requires base < MODULO
    ensures d < MODULO
  {
    (e.time - base) % MODULO
  }

  /** The entry is due within the half period that starts at `base`. */
  predicate InWindow<V>(base: nat, e: Entry<V>) {
    base < MODULO && e.time < MODULO && Delay(base, e) < MODULO / 2
  }

  /** Inside one window the comparison is by delay, then by push order. */
  lemma WindowOrder<V>(base: nat, a: Entry<V>, b: Entry<V>)
    requires InWindow(base, a) && InWindow(base, b)
    ensures TimeLess(a, b) <==> Delay(base, a) < Delay(base, b) || (Delay(base, a) == Delay(base, b) && a.id < b.id)
  {
    TimeLessMeans(a, b);
    var u: int, v: int := Delay(base, a), Delay(base, b);
    assert u == a.time - base || u == a.time - base + MODULO;
    assert v == b.time - base || v == b.time - base + MODULO;
    var d := b.time - a.time;
    assert v - u == d || v - u == d + MODULO || v - u == d - MODULO;
    assert d % MODULO == (if d >= 0 then d else d + MODULO);
    assert v - u == (if v >= u then d % MODULO else d % MODULO - MODULO);
  }

  /** Inside one window the comparison is a strict weak order, so the heap works. */
  lemma WindowOrdered<V(!new)>(base: nat, m: multiset<Entry<V>>)
    requires forall e :: e in m ==> InWindow(base, e)
    ensures OrderedOn(TimeLess, m)
  {
    forall a, b | a in m && b in m && TimeLess(a, b) ensures !TimeLess(b, a) {
      WindowOrder(base, a, b);
      WindowOrder(base, b, a);
    }
    forall a, b, c | a in m && b in m && c in m && TimeLess(a, c) ensures TimeLess(a, b) || TimeLess(b, c) {
      WindowOrder(base, a, c);
      WindowOrder(base, a, b);
      WindowOrder(base, b, c);
    }
  }

  ghost predicate AllInWindow<V(!new)>(base: nat, m: multiset<Entry<V>>) {
    forall e :: e in m ==> InWindow(base, e)
  }

  /** The times are exactly half a period apart, so neither is before the other. */
  predicate Opposite<V>(a: Entry<V>, b: Entry<V>) {
    b.time == a.time + MODULO / 2 || a.time == b.time + MODULO / 2
  }

  predicate SameKey<V>(a: Entry<V>, b: Entry<V>) { a.time == b.time && a.id == b.id }

  /** Nothing but copies of two opposite entries. */
  ghost predicate OnlyTwo<V(!new)>(m: multiset<Entry<V>>, a: Entry<V>, b: Entry<V>) {
    a in m && b in m && Opposite(a, b) && forall e :: e in m ==> SameKey(e, a) || SameKey(e, b)
  }

  /** The comparison and the window without remainders. */
  lemma AheadBy<V>(a: Entry<V>, b: Entry<V>)
    requires a.time < MODULO && b.time < MODULO
    ensures var d := b.time - a.time;
            && (TimeLess(a, b) <==> 0 < d < MODULO / 2 || d < -(MODULO / 2) || (d == 0 && a.id < b.id))
            && (InWindow(a.time, b) <==> 0 <= d < MODULO / 2 || d < -(MODULO / 2))
  {
    TimeLessMeans(a, b);
    hide TimeLess;
    var d := b.time - a.time;
    assert d % MODULO == if d >= 0 then d else d + MODULO;
  }

  /** Next to two opposite entries there is no place for a third. */
  lemma OppositeExclude<V(!new)>(m: multiset<Entry<V>>, a: Entry<V>, b: Entry<V>, e: Entry<V>)
    requires OrderedOn(TimeLess, m) && a in m && b in m && e in m && Opposite(a, b)
    requires a.time < MODULO && b.time < MODULO && e.time < MODULO
    ensures SameKey(e, a) || SameKey(e, b)
  {
    AheadBy(a, e);
    AheadBy(e, a);
    AheadBy(b, e);
    AheadBy(e, b);
    AheadBy(a, b);
    AheadBy(b, a);
    OrderedFacts(m, a, b, e);
    hide TimeLess, OrderedOn, InWindow;
  }

  lemma OrderedFacts<V(!new)>(m: multiset<Entry<V>>, a: Entry<V>, b: Entry<V>, e: Entry<V>)
    requires OrderedOn(TimeLess, m) && a in m && b in m && e in m
    ensures TimeLess(a, e) ==> TimeLess(a, b) || TimeLess(b, e)
    ensures TimeLess(e, a) ==> TimeLess(e, b) || TimeLess(b, a)
    ensures TimeLess(b, e) ==> TimeLess(b, a) || TimeLess(a, e)
    ensures TimeLess(e, b) ==> TimeLess(e, a) || TimeLess(a, b)
  {
    hide TimeLess;
  }

  /** Entries that are in order have a window, unless two of them are opposite. */
  lemma FirstOpensWindow<V(!new)>(m: multiset<Entry<V>>, first: Entry<V>)
    requires first in m && First(TimeLess, m, first) && forall e :: e in m ==> e.time < MODULO
    ensures AllInWindow(first.time, m) || exists e :: e in m && Opposite(first, e)
  {
    hide TimeLess, InWindow;
    if !AllInWindow(first.time, m) {
      var e :| e in m && !InWindow(first.time, e);
      AheadBy(e, first);
      AheadBy(first, e);
    }
  }

  lemma OnlyTwoOrdered<V(!new)>(m: multiset<Entry<V>>, a: Entry<V>, b: Entry<V>)
    requires OnlyTwo(m, a, b) && a.time < MODULO && b.time < MODULO
    ensures OrderedOn(TimeLess, m)
  {
    hide TimeLess, InWindow;
    forall x, y | x in m && y in m ensures !TimeLess(x, y) {
      assert SameKey(x, a) || SameKey(x, b);
      assert SameKey(y, a) || SameKey(y, b);
      AheadBy(x, y);
    }
  }

  /** Exactly when the comparison orders the entries: they share a window, or there are only
      copies of two opposite ones. */
  lemma OrderedIff<V(!new)>(m: multiset<Entry<V>>)
    requires m != multiset{} && forall e :: e in m ==> e.time < MODULO
    ensures OrderedOn(TimeLess, m) <==> (exists base :: AllInWindow(base, m)) || (exists a, b :: OnlyTwo(m, a, b))
  {
    hide OrderedOn, TimeLess, InWindow, First;
    if OrderedOn(TimeLess, m) {
      var first := SomeFirst(TimeLess, m);
      FirstOpensWindow(m, first);
      if !AllInWindow(first.time, m) {
        var e :| e in m && Opposite(first, e);
        forall x | x in m ensures SameKey(x, first) || SameKey(x, e) {
          OppositeExclude(m, first, e, x);
        }
        assert OnlyTwo(m, first, e);
      }
    }
    forall base | AllInWindow(base, m) ensures OrderedOn(TimeLess, m) {
      WindowOrdered(base, m);
    }
    forall a, b | OnlyTwo(m, a, b) ensures OrderedOn(TimeLess, m) {
      OnlyTwoOrdered(m, a, b);
    }
  }

  /** For instance three times a third of a period apart go round in a circle. */
  lemma NoOrderAroundTheCircle<V>(v: V)
    ensures var a := Entry(0, 0, v, v);
            var b := Entry(0x1555_5555_5555_5555, 1, v, v);
            var c := Entry(0x2aaa_aaaa_aaaa_aaaa, 2, v, v);
            TimeLess(a, b) && TimeLess(b, c) && TimeLess(c, a)
  {
  }

  // ----- the stable priority queue it refines -----

  /** `s` holds entries in push order: ids increase and stay below `next`. */
  ghost predicate PushOrder<V>(s: seq<Entry<V>>, next: nat) {
    && (forall i :: 0 <= i < |s| ==> s[i].id < next)
    && forall i, j :: 0 <= i < j < |s| ==> s[i].id < s[j].id
  }

  /** The position of the entry due first, of several due together the one pushed first. */
  function Earliest<V>(base: nat, s: seq<Entry<V>>): (k: nat)
    requires |s| > 0 && base < MODULO
    ensures k < |s|
    ensures forall i :: 0 <= i < k ==> Delay(base, s[k]) < Delay(base, s[i])
    ensures forall i :: k <= i < |s| ==> Delay(base, s[k]) <= Delay(base, s[i])
  {
    if |s| == 1 then 0
    else
      var k := Earliest(base, s[..|s| - 1]);
      if Delay(base, s[|s| - 1]) < Delay(base, s[k]) then |s| - 1 else k
  }

  function Without<T>(s: seq<T>, k: nat): seq<T>
    requires k < |s|
  {
    s[..k] + s[k + 1..]
  }

  ghost predicate Windowed<V>(base: nat, s: seq<Entry<V>>) {
    base < MODULO && forall i :: 0 <= i < |s| ==> InWindow(base, s[i])
  }

  /** The root of a heap that holds the pending entries is the one due first. */
  lemma RootIsEarliest<V(!new)>(base: nat, heap: seq<Entry<V>>, pending: seq<Entry<V>>, next: nat)
    requires |heap| > 0 && multiset(heap) == multiset(pending)
    requires Heap(TimeLess, heap) && PushOrder(pending, next) && Windowed(base, pending)
    ensures |pending| > 0 && heap[0] == pending[Earliest(base, pending)]
  {
    assert heap[0] in multiset(pending);
    WindowedMembers(base, pending);
    WindowOrdered(base, multiset(heap));
    var k := Earliest(base, pending);
    assert pending[k] in multiset(heap);
    var j: nat :| j < |heap| && heap[j] == pending[k];
    RootFirst(TimeLess, heap, j);
    var q: nat :| q < |pending| && pending[q] == heap[0];
    WindowOrder(base, pending[k], pending[q]);
  }

  lemma WindowedMembers<V(!new)>(base: nat, s: seq<Entry<V>>)
    requires Windowed(base, s)
    ensures forall e :: e in multiset(s) ==> InWindow(base, e)
  {
    forall e | e in multiset(s) ensures InWindow(base, e) {
      var i: nat :| i < |s| && s[i] == e;
    }
  }

  lemma WithoutConserves<T>(s: seq<T>, k: nat)
    requires k < |s|
    ensures multiset(s) == multiset(Without(s, k)) + multiset{s[k]}
  {
    assert s == s[..k] + [s[k]] + s[k + 1..];
  }

  lemma WithoutKeepsOrder<V>(s: seq<Entry<V>>, k: nat, next: nat)
    requires k < |s| && PushOrder(s, next)
    ensures PushOrder(Without(s, k), next)
  {
  }

  /** Two pops in a row: the second entry is due later, or together with the first and
      pushed after it. */
  lemma PopsAscend<V>(base: nat, s: seq<Entry<V>>, next: nat)
    requires |s| > 1 && base < MODULO && PushOrder(s, next)
    ensures var k := Earliest(base, s);
            var rest := Without(s, k);
            var a, b := s[k], rest[Earliest(base, rest)];
            Delay(base, a) < Delay(base, b) || (Delay(base, a) == Delay(base, b) && a.id < b.id)
  {
    var k := Earliest(base, s);
    var rest := Without(s, k);
    var m := Earliest(base, rest);
    assert rest[m] == s[if m < k then m else m + 1];
  }

  /** The counter every queue draws its entry ids from. */
  class IdSource {
    var next: Word

    constructor ()
      ensures next == 0
    {
      next := 0;
    }
  }

  class TimeQueue<V(!new)> {
    const alloc: nat
    const items: array<Entry<V>>
    var len: nat
    const ids: IdSource
    const nil: V
    /** The entries in the queue, in the order in which they were pushed. */
    ghost var pending: seq<Entry<V>>

    ghost predicate Valid()
      reads this, items, ids
    {
      && items.Length == alloc && len <= alloc
      && multiset(items[..len]) == multiset(pending)
      && Heap(TimeLess, items[..len])
      && PushOrder(pending, ids.next)
    }

    constructor (alloc: nat, ids: IdSource, nil: V)
      ensures Valid() && pending == [] && this.alloc == alloc && this.ids == ids && fresh(items)
    {
      this.alloc := alloc;
      this.ids := ids;
      this.nil := nil;
      items := new Entry<V>[alloc](_ => Entry(0, 0, nil, nil));
      len := 0;
      pending := [];
    }

    /** Ids are drawn without wrapping, and a window covers the queue and the new time. */
    method HeapPush(time: Word, callback: V, args: V, ghost base: nat) returns (r: Result<()>)
      requires Valid() && ids.next < WORD - 1
      requires Windowed(base, pending) && InWindow(base, Entry(time, ids.next, callback, args))
      modifies this`len, this`pending, items, ids
      ensures Valid()
      ensures r.IndexError? <==> old(len) == alloc
      ensures r.IndexError? ==> pending == old(pending) && ids.next == old(ids.next)
      ensures r.Ok? ==>
                pending == old(pending) + [Entry(time, old(ids.next), callback, args)] && ids.next == old(ids.next) + 1
    {
      if len == alloc {
        return IndexError;
      }
      Insert(time, callback, args, base);
      r := Ok(());
    }

    method Insert(time: Word, callback: V, args: V, ghost base: nat)
      requires Valid() && len < alloc && ids.next < WORD - 1
      requires Windowed(base, pending) && InWindow(base, Entry(time, ids.next, callback, args))
      modifies this`len, this`pending, items, ids
      ensures Valid()
      ensures pending == old(pending) + [Entry(time, old(ids.next), callback, args)] && ids.next == old(ids.next) + 1
    {
      hide OrderedOn, HeapFrom, HeapBut, Windowed, PushOrder, Under, InWindow, TimeLess, Permutation;
      ghost var e := PlaceAtEnd(time, callback, args, base);
      ghost var placed := items[..len + 1];
      ghost var now := pending + [e];
      SiftDown(items, TimeLess, 0, len, len + 1);
      len := len + 1;
      pending := now;
      SamePending(items[..len], placed, pending);
    }

    /** Puts the new entry behind the heap, where it alone may be out of order. */
    method PlaceAtEnd(time: Word, callback: V, args: V, ghost base: nat) returns (ghost e: Entry<V>)
      requires Valid() && len < alloc && ids.next < WORD - 1
      requires Windowed(base, pending) && InWindow(base, Entry(time, ids.next, callback, args))
      modifies items, ids
      ensures e == Entry(time, old(ids.next), callback, args) && ids.next == old(ids.next) + 1
      ensures Under(len, 0) && HeapBut(TimeLess, items[..len + 1], 0, len)
      ensures OrderedOn(TimeLess, multiset(items[..len + 1]))
      ensures multiset(items[..len + 1]) == multiset(pending + [e]) && PushOrder(pending + [e], ids.next)
    {
      hide OrderedOn, HeapFrom, HeapBut, Windowed, PushOrder, Under, InWindow, TimeLess;
      ghost var before := items[..len];
      e := Entry(time, ids.next, callback, args);
      PushedIsPending(base, before, pending, e);
      items[len] := Entry(time, ids.next, callback, args);
      ids.next := (ids.next + 1) % WORD;
      assert items[..len + 1] == before + [e];
    }

    /** Takes out the entry due first; of several due together, the one pushed first. */
    method HeapPop(ghost base: nat) returns (r: Result<(Word, V, V)>)
      requires Valid() && Windowed(base, pending)
      modifies this`len, this`pending, items
      ensures Valid()
      ensures r.IndexError? <==> old(pending) == []
      ensures r.IndexError? ==> pending == []
      ensures r.Ok? ==>
                var k := Earliest(base, old(pending));
                var e := old(pending)[k];
                r.value == (e.time, e.callback, e.args) && pending == Without(old(pending), k)
    {
      SameLength(items[..len], pending);
      if len == 0 {
        return IndexError;
      }
      hide OrderedOn, HeapFrom, Windowed, PushOrder, Earliest, Without, Refilled;
      ghost var before := items[..len];
      RootIsEarliest(base, before, pending, ids.next);
      ghost var k := Earliest(base, pending);
      PoppedIsPending(base, before, pending, k, ids.next);
      var item := TakeRoot();
      pending := Without(pending, k);
      if len > 0 {
        SiftUp(items, TimeLess, 0, len);
      } else {
        HeapOfNone(items[..len]);
      }
      r := Ok((item.time, item.callback, item.args));
    }

    /** Removes the root and puts the last entry in its place. */
    method TakeRoot() returns (item: Entry<V>)
      requires items.Length == alloc && 0 < len <= alloc
      modifies this`len, items
      ensures len == old(len) - 1 && item == old(items[..len])[0]
      ensures len > 0 ==> items[..len] == Refilled(old(items[..len]))
    {
      item := items[0];
      len := len - 1;
      items[0] := items[len];
      items[len] := items[len].(callback := nil, args := nil);
    }

    method PeekTime(ghost base: nat) returns (r: Result<Word>)
      requires Valid() && Windowed(base, pending)
      ensures r.IndexError? <==> pending == []
      ensures r.Ok? ==> r.value == pending[Earliest(base, pending)].time
    {
      SameLength(items[..len], pending);
      if len == 0 {
        return IndexError;
      }
      RootIsEarliest(base, items[..len], pending, ids.next);
      r := Ok(items[0].time);
    }
  }

  lemma SameLength<T>(s: seq<T>, t: seq<T>)
    requires multiset(s) == multiset(t)
    ensures |s| == |t|
  {
    assert |multiset(s)| == |s| && |multiset(t)| == |t|;
  }

  lemma HeapOfNone<V>(s: seq<Entry<V>>)
    requires s == []
    ensures Heap(TimeLess, s)
  {
  }

  lemma PushedIsPending<V(!new)>(base: nat, heap: seq<Entry<V>>, pending: seq<Entry<V>>, e: Entry<V>)
    requires multiset(heap) == multiset(pending) && Heap(TimeLess, heap)
    requires Windowed(base, pending) && InWindow(base, e) && PushOrder(pending, e.id)
    ensures Under(|heap|, 0) && HeapBut(TimeLess, heap + [e], 0, |heap|)
    ensures OrderedOn(TimeLess, multiset(heap + [e]))
    ensures multiset(heap + [e]) == multiset(pending + [e])
    ensures PushOrder(pending + [e], e.id + 1)
  {
    PushedInWindow(base, pending, e);
    PushedLast(pending, e);
    hide InWindow, TimeLess, OrderedOn, HeapFrom, HeapBut, Under, PushOrder, Windowed;
    PushedAtEnd(TimeLess, heap, e);
    WindowedMembers(base, pending + [e]);
    WindowOrdered(base, multiset(heap + [e]));
  }

  lemma PushedInWindow<V(!new)>(base: nat, pending: seq<Entry<V>>, e: Entry<V>)
    requires Windowed(base, pending) && InWindow(base, e)
    ensures Windowed(base, pending + [e])
  {
    hide InWindow;
  }

  lemma PushedLast<V(!new)>(pending: seq<Entry<V>>, e: Entry<V>)
    requires PushOrder(pending, e.id)
    ensures PushOrder(pending + [e], e.id + 1)
  {
  }

  lemma SamePending<T>(s: seq<T>, t: seq<T>, u: seq<T>)
    requires Permutation(s, t) && multiset(t) == multiset(u)
    ensures multiset(s) == multiset(u)
  {
  }

  lemma Cancel<T>(m: multiset<T>, n: multiset<T>, x: T)
    requires m + multiset{x} == n + multiset{x}
    ensures m == n
  {
    assert m == (m + multiset{x}) - multiset{x};
    assert n == (n + multiset{x}) - multiset{x};
  }

  /** Removing the root removes one pending entry and leaves the rest fit for sifting. */
  lemma PoppedIsPending<V(!new)>(base: nat, heap: seq<Entry<V>>, pending: seq<Entry<V>>, k: nat, next: nat)
    requires |heap| > 0 && multiset(heap) == multiset(pending) && Heap(TimeLess, heap)
    requires Windowed(base, pending) && PushOrder(pending, next) && k < |pending| && heap[0] == pending[k]
    ensures PushOrder(Without(pending, k), next)
    ensures |heap| == 1 ==> Without(pending, k) == []
    ensures |heap| > 1 ==>
              && multiset(Refilled(heap)) == multiset(Without(pending, k))
              && OrderedOn(TimeLess, multiset(Refilled(heap))) && HeapFrom(TimeLess, Refilled(heap), 1)
  {
    SameLength(heap, pending);
    WithoutConserves(pending, k);
    WithoutKeepsOrder(pending, k, next);
    WindowedMembers(base, pending);
    WindowOrdered(base, multiset(heap));
    hide OrderedOn, HeapFrom, PushOrder, Windowed, Without, Refilled;
    if |heap| > 1 {
      RefilledConserves(TimeLess, heap);
      Cancel(multiset(Refilled(heap)), multiset(Without(pending, k)), heap[0]);
    }
  }
}
