// The end of `proxy()` without validation (proxy.py:179-193): the count is
// clamped to the pool, an empty pool gives `[]`, otherwise `random.sample`
// draws the count of distinct positions and a count of one is unwrapped.
// The positions `random.sample` would draw are a parameter.

module Sampling {
  import opened Wrappers
  import opened Selection

  /** Lines 179-180: the count never exceeds the pool. */
  function Clamp(number: nat, size: nat): (n: nat)
    ensures n <= size && n <= number
    ensures n == number || n == size
  {
    if number > size then size else number
  }

  /** `picks` are `k` distinct positions of a pool of `n`, as `random.sample` draws them. */
  predicate IsSample(picks: seq<nat>, k: nat, n: nat) {
    && |picks| == k
    && (forall i | 0 <= i < |picks| :: picks[i] < n)
    && (forall i, j | 0 <= i < j < |picks| :: picks[i] != picks[j])
  }

  /** The pool elements at the picked positions, in the order picked. */
  function Sample<T>(pool: seq<T>, picks: seq<nat>): (r: seq<T>)
    requires forall i | 0 <= i < |picks| :: picks[i] < |pool|
    ensures |r| == |picks|
    ensures forall i | 0 <= i < |r| :: r[i] == pool[picks[i]]
  {
    seq(|picks|, i requires 0 <= i < |picks| => pool[picks[i]])
  }

  /** `s` without its element at `j`. */
  function Without<T>(s: seq<T>, j: nat): (r: seq<T>)
    requires j < |s|
    ensures multiset(r) == multiset(s) - multiset{s[j]}
    ensures |r| == |s| - 1
  {
    assert s == s[..j] + [s[j]] + s[j + 1..];
    s[..j] + s[j + 1..]
  }

  /** The positions of `picks` in the pool once the element at `j` is gone. */
  function Shift(picks: seq<nat>, j: nat): (r: seq<nat>)
    ensures |r| == |picks|
  {
    seq(|picks|, i requires 0 <= i < |picks| => if picks[i] > j then picks[i] - 1 else picks[i])
  }

  lemma ShiftSample<T>(pool: seq<T>, picks: seq<nat>, j: nat)
    requires j < |pool|
    requires forall i | 0 <= i < |picks| :: picks[i] < |pool| && picks[i] != j
    ensures forall i | 0 <= i < |picks| :: Shift(picks, j)[i] < |pool| - 1
    ensures Sample(pool, picks) == Sample(Without(pool, j), Shift(picks, j))
  {
    var w := Without(pool, j);
    forall i | 0 <= i < |picks| ensures w[Shift(picks, j)[i]] == pool[picks[i]] {
      if picks[i] > j {
        assert w[picks[i] - 1] == pool[j + 1..][picks[i] - 1 - j];
      }
    }
  }

  /** Shifting positions that avoid `j` keeps them distinct and in the smaller range. */
  lemma ShiftIsSample(picks: seq<nat>, j: nat, n: nat)
    requires j < n && IsSample(picks, |picks|, n)
    requires forall i | 0 <= i < |picks| :: picks[i] != j
    ensures IsSample(Shift(picks, j), |picks|, n - 1)
  {
  }

  /** The positions after the first one avoid it and stay a sample. */
  lemma RestOfSample(picks: seq<nat>, n: nat)
    requires picks != [] && IsSample(picks, |picks|, n)
    ensures IsSample(picks[1..], |picks| - 1, n)
    ensures forall i | 0 <= i < |picks| - 1 :: picks[1..][i] != picks[0]
  {
    assert forall i | 0 <= i < |picks| - 1 :: picks[1..][i] == picks[i + 1];
  }

  /** A sample takes each pool element at most as often as the pool holds it. */
  lemma {:induction false} SampleWithin<T>(pool: seq<T>, picks: seq<nat>)
    requires IsSample(picks, |picks|, |pool|)
    ensures multiset(Sample(pool, picks)) <= multiset(pool)
    decreases |picks|
  {
    if picks != [] {
      var j := picks[0];
      var rest := picks[1..];
      RestOfSample(picks, |pool|);
      ShiftSample(pool, rest, j);
      ShiftIsSample(rest, j, |pool|);
      SampleWithin(Without(pool, j), Shift(rest, j));
      SampleCons(pool, picks);
      PutBack(pool[j], multiset(Sample(pool, rest)), multiset(pool));
    }
  }

  lemma SampleCons<T>(pool: seq<T>, picks: seq<nat>)
    requires picks != [] && forall i | 0 <= i < |picks| :: picks[i] < |pool|
    ensures multiset(Sample(pool, picks)) == multiset{pool[picks[0]]} + multiset(Sample(pool, picks[1..]))
  {
    assert Sample(pool, picks) == [pool[picks[0]]] + Sample(pool, picks[1..]);
  }

  /** Taking one copy of `x` out of `b` and putting it back. */
  lemma PutBack<T>(x: T, a: multiset<T>, b: multiset<T>)
    requires x in b && a <= b - multiset{x}
    ensures multiset{x} + a <= b
  {
  }

  /** A sample as large as the pool is a reordering of the whole pool. */
  lemma SampleAll<T>(pool: seq<T>, picks: seq<nat>)
    requires IsSample(picks, |pool|, |pool|)
    ensures multiset(Sample(pool, picks)) == multiset(pool)
  {
    var s := multiset(Sample(pool, picks));
    SampleWithin(pool, picks);
    var d := multiset(pool) - s;
    assert multiset(pool) == s + d;
    assert |multiset(pool)| == |s| + |d|;
    assert d == multiset{};
  }

  /** What `proxy()` returns: a list, or a single element when one is asked for. */
  datatype Outcome = Listed(items: seq<Item>) | Single(item: Item)

  /**
   * Lines 179-193 without validation: `[]` for an empty pool; otherwise
   * the clamped count of distinct pool elements, as a list when more than
   * one and bare when one; a count of 0 fails at `proxies[0]`.
   */
  function Shape(pool: seq<Item>, number: nat, picks: seq<nat>): (r: Result<Outcome>)
    requires pool != [] ==> IsSample(picks, Clamp(number, |pool|), |pool|)
    ensures pool == [] ==> r == Ok(Listed([]))
    ensures pool != [] ==> (r.Err? <==> number == 0)
    ensures r.Ok? && r.value.Listed? && pool != [] ==>
      |r.value.items| == Clamp(number, |pool|) >= 2 && multiset(r.value.items) <= multiset(pool)
    ensures r.Ok? && r.value.Single? ==> Clamp(number, |pool|) == 1 && r.value.item in pool
  {
    if pool == [] then Ok(Listed([]))
    else
      var chosen := Sample(pool, picks);
      SampleWithin(pool, picks);
      if Clamp(number, |pool|) > 1 then Ok(Listed(chosen))
      else if chosen == [] then Err(IndexError)
      else Ok(Single(chosen[0]))
  }

  /** When the count covers the pool, the list is the whole pool reordered. */
  lemma ShapeWholePool(pool: seq<Item>, number: nat, picks: seq<nat>)
    requires |pool| >= 2 && number >= |pool|
    requires IsSample(picks, Clamp(number, |pool|), |pool|)
    ensures Shape(pool, number, picks).Ok? && Shape(pool, number, picks).value.Listed?
    ensures multiset(Shape(pool, number, picks).value.items) == multiset(pool)
  {
    SampleAll(pool, picks);
  }
}
