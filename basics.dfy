/** Small value types shared by every module of the model. */
module Basics {

  /** An optional value: a Python `None`, a Qt null value or a Java `null`. */
  datatype Option<+T> = None | Some(value: T)

  /** The outcome of an operation that can raise: a value or the error it raised. */
  datatype Result<+T, +E> = Ok(value: T) | Err(error: E)

  function Min(a: int, b: int): int { if a <= b then a else b }

  /** No element occurs twice. */
  predicate Distinct<T(==)>(s: seq<T>)
  {
    forall i, j :: 0 <= i < j < |s| ==> s[i] != s[j]
  }

  /** In a sequence without repeats, no element occurs before its own position. */
  lemma DistinctNotBefore<T>(s: seq<T>, i: nat)
    requires Distinct(s) && i < |s|
    ensures s[i] !in s[..i]
  {
    forall j | 0 <= j < i
      ensures s[..i][j] != s[i]
    {
      assert s[..i][j] == s[j];
    }
  }

  /** A prefix one longer is the prefix and the next element. */
  lemma PrefixSnoc<T>(s: seq<T>, n: nat)
    requires n < |s|
    ensures s[..n + 1] == s[..n] + [s[n]]
  {
  }

  /** A slice one longer is the slice and the next element. */
  lemma SliceSnoc<T>(s: seq<T>, lo: nat, hi: nat)
    requires lo <= hi < |s|
    ensures s[lo..hi + 1] == s[lo..hi] + [s[hi]]
  {
  }

  /** The integers lo, lo+1, ..., hi-1 in increasing order. */
  function Range(lo: int, hi: int): (r: seq<int>)
    decreases hi - lo
    ensures |r| == if lo <= hi then hi - lo else 0
    ensures forall i :: 0 <= i < |r| ==> r[i] == lo + i
  {
    if hi <= lo then [] else [lo] + Range(lo + 1, hi)
  }

  /** Concatenation of a sequence of sequences. */
  function Concat<T>(xss: seq<seq<T>>): seq<T>
  {
    if |xss| == 0 then [] else Concat(xss[..|xss| - 1]) + xss[|xss| - 1]
  }

  lemma ConcatSnoc<T>(xss: seq<seq<T>>, xs: seq<T>)
    ensures Concat(xss + [xs]) == Concat(xss) + xs
  {
    assert (xss + [xs])[..|xss|] == xss;
  }

  /** An element of the concatenation is an element of one of the parts, and conversely. */
  lemma {:induction false} ConcatMember<T>(xss: seq<seq<T>>, x: T)
    ensures x in Concat(xss) <==> exists i :: 0 <= i < |xss| && x in xss[i]
  {
    if |xss| > 0 {
      var init := xss[..|xss| - 1];
      ConcatMember(init, x);
      assert Concat(xss) == Concat(init) + xss[|xss| - 1];
      if x in Concat(init) {
        var i :| 0 <= i < |init| && x in init[i];
        assert x in xss[i];
      }
      if exists i :: 0 <= i < |xss| && x in xss[i] {
        var i :| 0 <= i < |xss| && x in xss[i];
        if i < |xss| - 1 {
          assert x in init[i];
        }
      }
    }
  }

  /** Adjacent ranges concatenate into one range. */
  lemma RangeSplit(lo: int, mid: int, hi: int)
    requires lo <= mid <= hi
    ensures Range(lo, mid) + Range(mid, hi) == Range(lo, hi)
  {
  }

  /**
   * A progress dialog whose cancel button was pressed before its poll
   * number `cancelAt` (`None`: never) answers `wasCanceled()` from that
   * poll on. A loop that polls once before each of `limit` passes makes
   * this many passes.
   */
  function Passes(limit: nat, cancelAt: Option<nat>): nat
  {
    if cancelAt.Some? && cancelAt.value < limit then cancelAt.value else limit
  }

  /** `wasCanceled()` at poll t. */
  predicate Cancelled(cancelAt: Option<nat>, t: nat)
  {
    cancelAt.Some? && cancelAt.value <= t
  }

  /**
   * A loop that polls before each pass, and stops at the first poll that
   * reports cancelled, leaves after `Passes` passes.
   */
  lemma PassesExit(limit: nat, cancelAt: Option<nat>, i: nat)
    requires i <= limit && (cancelAt.Some? ==> i <= cancelAt.value)
    requires !(i < limit && !Cancelled(cancelAt, i))
    ensures i == Passes(limit, cancelAt)
  {
  }

  /** The same dialog seen from poll t on: poll t becomes poll 0. */
  function After(cancelAt: Option<nat>, t: nat): Option<nat>
  {
    match cancelAt
    case None => None
    case Some(v) => Some(if v >= t then v - t else 0)
  }
}
