/** Random numbers from ranges.  The generator is any source of 32-bit words. */
module RandomRange {
  import opened Basics

  /** `Starved` says that the words given ran out before one was low enough. */
  datatype Result = Value(v: int) | ValueError | Starved

  // ---- below a bound ----

  /** The bits of the smallest mask, at least one, that covers `n`. */
  function MaskBits(n: nat, k: nat): (bits: nat)
    requires k >= 1 && (k > 1 ==> Power2(k - 1) <= n)
    ensures bits >= 1 && n < Power2(bits) && (bits > 1 ==> Power2(bits - 1) <= n)
    decreases n - Power2(k)
  {
    if n < Power2(k) then k else MaskBits(n, k + 1)
  }

  /** The first word that is below `n` when masked. */
  function FirstBelow(words: seq<nat>, mask: nat, n: nat): Option<nat> {
    if words == [] then None
    else if And(words[0], mask) < n then Some(And(words[0], mask))
    else FirstBelow(words[1..], mask, n)
  }

  function MaskOf(n: nat): nat { Power2(MaskBits(n, 1)) - 1 }

  function BelowOf(words: seq<nat>, n: nat): Option<nat> { FirstBelow(words, MaskOf(n), n) }

  /** The mask keeps every number up to the bound. */
  lemma MaskKeeps(n: nat, v: nat)
    requires v <= n
    ensures And(v, MaskOf(n)) == v
  {
    AndSmall(v, MaskBits(n, 1));
  }

  lemma AndSmall(v: nat, k: nat)
    requires v < Power2(k)
    ensures And(v, Power2(k) - 1) == v
  {
    AndLowBits(v, k);
    hide And, Power2;
    SmallRemainder(v, Power2(k));
  }

  lemma SmallRemainder(v: nat, p: nat)
    requires v < p
    ensures v % p == v
  {
  }

  /** Some words make this number come out. */
  ghost predicate CanCome(n: nat, v: nat) {
    exists words :: BelowOf(words, n) == Some(v)
  }

  /** Exactly the numbers below the bound can come out. */
  lemma BelowExact(n: nat, v: nat)
    ensures v < n <==> CanCome(n, v)
  {
    hide And;
    if v < n {
      BelowReached(n, v, []);
      assert [v] + [] == [v];
    }
    forall words | BelowOf(words, n) == Some(v) ensures v < n {
      FoundIsBelow(words, MaskOf(n), n);
    }
  }

  lemma BelowReached(n: nat, v: nat, more: seq<nat>)
    requires v < n
    ensures BelowOf([v] + more, n) == Some(v)
  {
    MaskKeeps(n, v);
    hide And, MaskOf;
    assert ([v] + more)[0] == v;
  }

  lemma {:induction false} FoundIsBelow(words: seq<nat>, mask: nat, n: nat)
    ensures FirstBelow(words, mask, n).Some? ==> FirstBelow(words, mask, n).value < n
  {
    hide And;
    if words != [] {
      FoundIsBelow(words[1..], mask, n);
    }
  }

  /** What comes out: of the words, cut to the fewest bits that hold the bound, the first that
      is below it. */
  lemma BelowMeans(words: seq<nat>, n: nat, bits: nat, v: nat)
    requires bits >= 1 && n < Power2(bits) && (bits > 1 ==> Power2(bits - 1) <= n)
    ensures BelowOf(words, n) == Some(v) <==> v < n && FirstCut(words, n, bits, v)
  {
    FewestBits(n, bits, MaskBits(n, 1));
    hide And, Power2, MaskBits;
    CutMeans(words, n, bits, v);
  }

  ghost predicate FirstCut(words: seq<nat>, n: nat, bits: nat, v: nat) {
    exists i :: 0 <= i < |words| && words[i] % Power2(bits) == v
                && forall j :: 0 <= j < i ==> words[j] % Power2(bits) >= n
  }

  lemma FewestBits(n: nat, a: nat, b: nat)
    requires a >= 1 && n < Power2(a) && (a > 1 ==> Power2(a - 1) <= n)
    requires b >= 1 && n < Power2(b) && (b > 1 ==> Power2(b - 1) <= n)
    ensures a == b
  {
    if a < b {
      PowersGrow(a, b - 1);
    } else if b < a {
      PowersGrow(b, a - 1);
    }
  }

  lemma {:induction false} CutMeans(words: seq<nat>, n: nat, bits: nat, v: nat)
    ensures FirstBelow(words, Power2(bits) - 1, n) == Some(v) <==> v < n && FirstCut(words, n, bits, v)
  {
    if words != [] {
      var more := words[1..];
      AndLowBits(words[0], bits);
      CutMeans(more, n, bits, v);
      hide And, Power2;
      if FirstCut(more, n, bits, v) && words[0] % Power2(bits) >= n {
        var i :| 0 <= i < |more| && more[i] % Power2(bits) == v
                 && forall j :: 0 <= j < i ==> more[j] % Power2(bits) >= n;
        assert words[i + 1] == more[i];
        forall j | 0 <= j < i + 1 ensures words[j] % Power2(bits) >= n {
          assert j > 0 ==> words[j] == more[j - 1];
        }
      }
      if FirstCut(words, n, bits, v) && v < n {
        var i :| 0 <= i < |words| && words[i] % Power2(bits) == v
                 && forall j :: 0 <= j < i ==> words[j] % Power2(bits) >= n;
        if i > 0 {
          assert more[i - 1] == words[i];
          assert forall j :: 0 <= j < i - 1 ==> more[j] == words[j + 1];
        }
      }
    }
  }

  /** Widens the mask until it covers the bound, and then rejects words that are not below it. */
  method RandBelow(n: nat, words: seq<nat>) returns (r: Option<nat>)
    ensures r == BelowOf(words, n)
  {
    hide And;
    var mask: nat := 1;
    ghost var k := 1;
    assert Power2(1) == 2;
    Covered(n, 1);
    while And(n, mask) < n
      invariant k >= 1 && mask + 1 == Power2(k) && (k > 1 ==> Power2(k - 1) <= n)
      invariant MaskBits(n, k) == MaskBits(n, 1) && (And(n, mask) < n <==> Power2(k) <= n)
      decreases n - mask
    {
      mask := 2 * mask + 1;
      k := k + 1;
      Covered(n, k);
    }
    for i := 0 to |words|
      invariant FirstBelow(words[i..], mask, n) == BelowOf(words, n)
    {
      assert words[i..][1..] == words[i + 1..];
      var w := And(words[i], mask);
      if w < n {
        return Some(w);
      }
    }
    r := None;
  }

  lemma Covered(n: nat, k: nat)
    ensures And(n, Power2(k) - 1) < n <==> Power2(k) <= n
  {
    if n < Power2(k) {
      AndSmall(n, k);
    }
  }

  // ---- ranges ----

  /** Division that drops the fraction, as C does. */
  function TruncDiv(a: int, b: int): int
    requires b != 0
  {
    if a >= 0 then if b > 0 then a / b else -(a / -b)
    else if b > 0 then -(-a / b) else -a / -b
  }

  predicate InRange(start: int, stop: int, step: int, v: int) {
    if step > 0 then start <= v < stop else stop < v <= start
  }

  function Count(start: int, stop: int, step: int): int
    requires step != 0
  {
    if step > 0 then TruncDiv(stop - start + step - 1, step) else TruncDiv(stop - start + step + 1, step)
  }

  /** The count is exactly the number of steps that stay in the range. */
  lemma CountExact(start: int, stop: int, step: int, k: nat)
    requires step != 0
    ensures k < Count(start, stop, step) <==> InRange(start, stop, step, start + step * k)
  {
    var size, s := if step > 0 then stop - start else start - stop, if step > 0 then step else -step;
    StepsUp(size, s, k);
    if step < 0 {
      assert step * k == -(s * k) by { Negated(s, k); }
    }
  }

  lemma Negated(s: int, k: int)
    ensures -s * k == -(s * k)
  {
  }

  lemma StepsUp(size: int, s: int, k: nat)
    requires s > 0
    ensures k < TruncDiv(size + s - 1, s) <==> s * k < size
    ensures s * k >= 0
  {
    var a := size + s - 1;
    Product(s, k);
    if a >= 0 {
      QuotientAtLeast(a, s, k + 1);
      Next(s, k);
    }
  }

  lemma Product(s: int, k: int)
    requires s > 0 && k >= 0
    ensures s * k >= 0 && (k >= 1 ==> s * k >= s)
  {
  }

  lemma Next(s: int, k: int)
    ensures s * (k + 1) == s * k + s
  {
  }

  lemma QuotientAtLeast(a: nat, s: nat, m: nat)
    requires s > 0
    ensures m <= a / s <==> s * m <= a
  {
    var q, r := a / s, a % s;
    assert a == s * q + r;
    if m <= q {
      Product(s, q - m);
      Difference(s, q, m);
    } else {
      Product(s, m - q);
      Difference(s, m, q);
    }
  }

  lemma Difference(s: int, a: int, b: int)
    ensures s * (a - b) == s * a - s * b
  {
  }

  const WORD: nat := 0x1_0000_0000

  /** The generator takes its bound as a 32-bit number. */
  function Cut(n: nat): nat { n % WORD }

  /** With a bound of nothing no word is ever low enough. */
  lemma NothingBelowNothing(words: seq<nat>)
    ensures BelowOf(words, 0) == None
  {
    FoundIsBelow(words, MaskOf(0), 0);
    hide And;
  }

  /** Exactly when every member of a range can come out: it has fewer than 2^32 members. */
  lemma AllReachedIff(n: nat)
    ensures (forall v: nat :: v < n ==> CanCome(Cut(n), v)) <==> n < WORD
  {
    hide CanCome;
    if n < WORD {
      forall v: nat | v < n ensures CanCome(Cut(n), v) {
        BelowExact(Cut(n), v);
      }
    } else {
      BelowExact(Cut(n), Cut(n));
      assert Cut(n) < n;
    }
  }

  /** The range with a step. */
  method RandRange(start: int, stop: int, step: int, words: seq<nat>) returns (r: Result)
    ensures r == ValueError <==> step == 0 || !InRange(start, stop, step, start)
    ensures r.Value? ==> step != 0 && InRange(start, stop, step, r.v)
    ensures r != ValueError ==>
              var below := BelowOf(words, Cut(Count(start, stop, step)));
              r == if below.None? then Starved else Value(start + step * below.value)
  {
    if step == 0 {
      return ValueError;
    }
    var n := if step > 0 then TruncDiv(stop - start + step - 1, step) else TruncDiv(stop - start + step + 1, step);
    CountExact(start, stop, step, 0);
    Times0(step);
    if n <= 0 {
      return ValueError;
    }
    var below := RandBelow(Cut(n), words);
    if below.None? {
      return Starved;
    }
    assert CanCome(Cut(n), below.value);
    BelowExact(Cut(n), below.value);
    CountExact(start, stop, step, below.value);
    hide BelowOf;
    r := Value(start + step * below.value);
  }

  lemma Times0(step: int)
    ensures step * 0 == 0
  {
  }

  /** From nought, and without a step. */
  method RandRangeTo(stop: int, words: seq<nat>) returns (r: Result)
    ensures r == ValueError <==> stop <= 0
    ensures r.Value? ==> 0 <= r.v < stop
    ensures stop > 0 ==>
              var below := BelowOf(words, Cut(stop));
              r == if below.None? then Starved else Value(below.value)
  {
    if stop <= 0 {
      return ValueError;
    }
    var below := RandBelow(Cut(stop), words);
    if below.None? {
      return Starved;
    }
    assert CanCome(Cut(stop), below.value);
    BelowExact(Cut(stop), below.value);
    hide BelowOf;
    r := Value(below.value);
  }

  /** Without a step. */
  method RandRangeFrom(start: int, stop: int, words: seq<nat>) returns (r: Result)
    ensures r == ValueError <==> stop <= start
    ensures r.Value? ==> start <= r.v < stop
    ensures start < stop ==>
              var below := BelowOf(words, Cut(stop - start));
              r == if below.None? then Starved else Value(start + below.value)
  {
    if start >= stop {
      return ValueError;
    }
    var below := RandBelow(Cut(stop - start), words);
    if below.None? {
      return Starved;
    }
    assert CanCome(Cut(stop - start), below.value);
    BelowExact(Cut(stop - start), below.value);
    hide BelowOf;
    r := Value(start + below.value);
  }

  /** Both ends included. */
  method RandInt(a: int, b: int, words: seq<nat>) returns (r: Result)
    ensures r == ValueError <==> b < a
    ensures r.Value? ==> a <= r.v <= b
    ensures a <= b ==>
              var below := BelowOf(words, Cut(b - a + 1));
              r == if below.None? then Starved else Value(a + below.value)
  {
    if a > b {
      return ValueError;
    }
    var below := RandBelow(Cut(b - a + 1), words);
    if below.None? {
      return Starved;
    }
    assert CanCome(Cut(b - a + 1), below.value);
    BelowExact(Cut(b - a + 1), below.value);
    hide BelowOf;
    r := Value(a + below.value);
  }
}
