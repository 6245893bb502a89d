/**
 * The batching the XML viewer (visualize_xml.py) does by hand: imported
 * shapes of one type split into batches of 50 (`num_batches = (n + 49)
 * // 50`, batch k from 50k to `min(50k + 50, n)`), ids highlighted in
 * slices of 100 (`range(0, n, 100)` and `ids[i:i + 100]`), and display
 * batches flushed every 50 shapes and at the last one.
 */
module Batches {
  import opened Basics

  /** `(n + size - 1) // size`: the number of batches of at most `size` that hold n elements. */
  function BatchCount(n: nat, size: nat): nat
    requires size > 0
  {
    (n + size - 1) / size
  }

  /** `min(k * size + size, n)`: where batch k ends. */
  function BatchEnd(n: nat, size: nat, k: nat): nat
  {
    if k * size + size <= n then k * size + size else n
  }

  /** The quotient times the divisor is at most x, and less than a divisor below it. */
  lemma DivBounds(x: nat, d: nat)
    requires d > 0
    ensures (x / d) * d <= x < (x / d) * d + d
  {
    assert x == (x / d) * d + x % d;
  }

  /** Multiplying by the same number keeps the order. */
  lemma MulLe(a: nat, b: nat, d: nat)
    requires a <= b
    ensures a * d <= b * d
  {
    assert b * d == a * d + (b - a) * d;
  }

  /** A smaller factor gives a product at least one multiple below. */
  lemma MulLt(a: nat, b: nat, d: nat)
    requires a < b
    ensures a * d + d <= b * d
  {
    MulLe(a + 1, b, d);
    assert (a + 1) * d == a * d + d;
  }

  /** A non-empty sequence has at least one batch. */
  lemma BatchCountPositive(n: nat, size: nat)
    requires size > 0 && n > 0
    ensures BatchCount(n, size) >= 1
  {
    DivUnique(n + size - 1, size, (n + size - 1) / size);
    DivBounds(n + size - 1, size);
  }

  /** The quotient is the only q with x between q * d and q * d + d. */
  lemma DivUnique(x: nat, d: nat, q: nat)
    requires d > 0 && q * d <= x < q * d + d
    ensures x / d == q
  {
    DivBounds(x, d);
    var p := x / d;
    if p > q {
      MulLt(q, p, d);
    }
    if p < q {
      MulLt(p, q, d);
    }
  }

  /** Batch k is not empty and holds at most `size` elements; the last one ends at n, the others where the next starts. */
  lemma BatchBounds(n: nat, size: nat, k: nat)
    requires size > 0 && k < BatchCount(n, size)
    ensures k * size < BatchEnd(n, size, k) <= k * size + size
    ensures k + 1 < BatchCount(n, size) ==> BatchEnd(n, size, k) == (k + 1) * size
    ensures k + 1 == BatchCount(n, size) ==> BatchEnd(n, size, k) == n
  {
    var c := BatchCount(n, size);
    DivBounds(n + size - 1, size);
    MulLe(k + 1, c, size);
    assert (k + 1) * size == k * size + size;
    if k + 1 < c {
      MulLe(k + 2, c, size);
      assert (k + 2) * size == (k + 1) * size + size;
    }
  }

  /** `range(0, n, size)` goes on exactly while there is a batch left: batch b starts below n iff it exists. */
  lemma BatchStarts(n: nat, size: nat, b: nat)
    requires size > 0 && b <= BatchCount(n, size)
    ensures b * size < n <==> b < BatchCount(n, size)
  {
    if b < BatchCount(n, size) {
      BatchBounds(n, size, b);
    } else {
      DivBounds(n + size - 1, size);
    }
  }

  /** Element i lies in batch i / size, and only there. */
  lemma BatchOf(n: nat, size: nat, i: nat, k: nat)
    requires size > 0 && i < n && k < BatchCount(n, size)
    ensures i / size < BatchCount(n, size)
    ensures (k * size <= i < BatchEnd(n, size, k)) <==> k == i / size
  {
    var q := i / size;
    var c := BatchCount(n, size);
    DivBounds(i, size);
    DivBounds(n + size - 1, size);
    assert (q + 1) * size == q * size + size;
    if c <= q {
      MulLe(c, q, size);
    }
    if k * size <= i < BatchEnd(n, size, k) {
      DivUnique(i, size, k);
    }
  }

  /** Batch k of s: `s[k * size:min(k * size + size, len(s))]`. */
  function Batch<T>(s: seq<T>, size: nat, k: nat): (b: seq<T>)
    requires size > 0 && k < BatchCount(|s|, size)
    ensures 0 < |b| <= size && k * size + |b| == BatchEnd(|s|, size, k)
    ensures forall j :: 0 <= j < |b| ==> b[j] == s[k * size + j]
  {
    BatchBounds(|s|, size, k);
    s[k * size..BatchEnd(|s|, size, k)]
  }

  /** The first m batches of s. */
  function Batches<T>(s: seq<T>, size: nat, m: nat): (r: seq<seq<T>>)
    requires size > 0 && m <= BatchCount(|s|, size)
    ensures |r| == m && forall k :: 0 <= k < m ==> r[k] == Batch(s, size, k)
  {
    if m == 0 then [] else Batches(s, size, m - 1) + [Batch(s, size, m - 1)]
  }

  /** `min(m * size, n)`: how many elements the first m batches hold. */
  function Covered(n: nat, size: nat, m: nat): nat
  {
    if m * size <= n then m * size else n
  }

  /**
   * The first m batches, one after the other, are the first `Covered`
   * elements, in order.
   */
  lemma {:induction false} BatchesConcat<T>(s: seq<T>, size: nat, m: nat)
    requires size > 0 && m <= BatchCount(|s|, size)
    ensures Covered(|s|, size, m) <= |s| && Concat(Batches(s, size, m)) == s[..Covered(|s|, size, m)]
  {
    if m > 0 {
      BatchesConcat(s, size, m - 1);
      CoveredStep(|s|, size, m);
      var lo, hi := Covered(|s|, size, m - 1), Covered(|s|, size, m);
      assert Batches(s, size, m) == Batches(s, size, m - 1) + [s[lo..hi]];
      ConcatSnoc(Batches(s, size, m - 1), s[lo..hi]);
      SliceJoin(s, lo, hi);
    }
  }

  lemma SliceJoin<T>(s: seq<T>, lo: nat, hi: nat)
    requires lo <= hi <= |s|
    ensures s[..lo] + s[lo..hi] == s[..hi]
  {
  }

  /** Batch m - 1 runs from where the first m - 1 batches end to where the first m end. */
  lemma CoveredStep(n: nat, size: nat, m: nat)
    requires size > 0 && 0 < m <= BatchCount(n, size)
    ensures Covered(n, size, m - 1) == (m - 1) * size
    ensures Covered(n, size, m) == BatchEnd(n, size, m - 1)
  {
    BatchBounds(n, size, m - 1);
    assert m * size == (m - 1) * size + size;
  }

  /** All the batches, one after the other, are s itself. */
  lemma BatchesAll<T>(s: seq<T>, size: nat)
    requires size > 0
    ensures Concat(Batches(s, size, BatchCount(|s|, size))) == s
  {
    var m := BatchCount(|s|, size);
    BatchesConcat(s, size, m);
    if |s| > 0 {
      BatchCountPositive(|s|, size);
      BatchBounds(|s|, size, m - 1);
      assert Covered(|s|, size, m) == |s|;
    }
    assert s[..Covered(|s|, size, m)] == s;
  }

  /**
   * How many of the first c shapes a display loop of n passes has flushed,
   * when each pass adds its shape to the pending batch and flushes the
   * batch once it holds `size` shapes or the pass is the last.
   */
  function Flushed(c: nat, n: nat, size: nat): (f: nat)
    requires size > 0
    ensures f <= c
  {
    if c == 0 then 0
    else
      var f := Flushed(c - 1, n, size);
      if c - f >= size || c == n then c else f
  }

  /** Before the last pass, the flushed shapes are the whole batches: `c // size * size`. */
  lemma {:induction false} FlushedClosed(c: nat, n: nat, size: nat)
    requires size > 0 && c < n
    ensures Flushed(c, n, size) == c / size * size
  {
    if c > 0 {
      FlushedClosed(c - 1, n, size);
      var q := (c - 1) / size;
      DivBounds(c - 1, size);
      assert (q + 1) * size == q * size + size;
      if c == (q + 1) * size {
        DivUnique(c, size, q + 1);
      } else {
        DivUnique(c, size, q);
      }
    } else {
      assert 0 / size == 0;
    }
  }

  /** A loop that was not cut short has flushed every shape. */
  lemma FlushedAll(n: nat, size: nat)
    requires size > 0
    ensures Flushed(n, n, size) == n
  {
  }

  /** A loop cut short after c passes has flushed the whole batches among them and lost fewer than `size`. */
  lemma FlushedCut(c: nat, n: nat, size: nat)
    requires size > 0 && c < n
    ensures Flushed(c, n, size) <= c < Flushed(c, n, size) + size
    ensures Flushed(c, n, size) % size == 0
  {
    FlushedClosed(c, n, size);
    DivBounds(c, size);
    DivUnique(c / size * size, size, c / size);
    assert c / size * size == c / size * size + 0;
  }
}
