/** fibonnaci.py: the Fibonacci numbers computed four ways — naive
    recursion, recursion through a memo dictionary, a two-variable loop and
    a generator — each compared with the naive definition. */
module Fibonacci {
  import opened Wrappers

  /** `fib1`: below 2 the argument itself, otherwise the sum of the two
      previous numbers. This is the reference the other variants are
      compared with. */
  function Fib1(n: int): int
    decreases n
  {
    if n < 2 then n else Fib1(n - 2) + Fib1(n - 1)
  }

  /** Every entry of the memo dictionary holds the Fibonacci number of its
      key, and the two seeds are present. */
  ghost predicate CacheValid(cache: map<int, int>) {
    0 in cache && 1 in cache && forall k :: k in cache ==> cache[k] == Fib1(k)
  }

  /** The memo dictionary `fib2` starts from. */
  const Seeds: map<int, int> := map[0 := 0, 1 := 1]

  lemma {:induction false} SeedsValid()
    ensures CacheValid(Seeds)
  {
    assert Fib1(0) == 0 && Fib1(1) == 1;
  }

  /** `fib2` with the module-level `cache` passed in and handed back. A
      missing entry is filled from `fib2(num - 1)` first and `fib2(num - 2)`
      second, the second call seeing the entries the first one added. The
      answer is `fib1(num)`; the memo stays valid, keeps every entry it
      had, gains `num`, and gains nothing above `num`. */
  function Fib2(n: nat, cache: map<int, int>): (r: (int, map<int, int>))
    requires CacheValid(cache)
    ensures r.0 == Fib1(n)
    ensures CacheValid(r.1)
    ensures cache.Keys <= r.1.Keys && n in r.1
    ensures forall k :: k in r.1 && k !in cache ==> 0 <= k <= n
    decreases n
  {
    if n in cache then (cache[n], cache)
    else
      assert n >= 2;
      var (a, c1) := Fib2(n - 1, cache);
      var (b, c2) := Fib2(n - 2, c1);
      (a + b, c2[n := a + b])
  }

  /** `fib3` as written: below 2 the argument itself, otherwise the entry
      of `fib2`'s memo dictionary, a `KeyError` when `fib2` has not filled
      it. `lru_cache` only replays earlier answers, so it changes nothing
      here. Whatever it answers is the Fibonacci number. */
  function Fib3(n: int, cache: map<int, int>): (r: Result<int>)
    requires CacheValid(cache)
    ensures n < 2 ==> r == Success(n)
    ensures n >= 2 ==> (r.Success? <==> n in cache)
    ensures r.Failure? ==> r.error == KeyError
    ensures r.Success? ==> r.value == Fib1(n)
  {
    if n < 2 then Success(n)
    else if n in cache then Success(cache[n])
    else Failure(KeyError)
  }

  /** A memo dictionary with no gaps: every key's smaller naturals are keys
      too, as for the one `fib2` starts from. */
  ghost predicate Contiguous(cache: map<int, int>) {
    forall k, j :: k in cache && 0 <= j <= k ==> j in cache
  }

  /** From a dictionary with no gaps, `fib2(num)` leaves one with no gaps
      holding every number up to `num`. */
  lemma {:induction false} Fib2FillsBelow(n: nat, cache: map<int, int>)
    requires CacheValid(cache) && Contiguous(cache)
    ensures Contiguous(Fib2(n, cache).1)
    ensures forall k :: 0 <= k <= n ==> k in Fib2(n, cache).1
    decreases n
  {
    if n !in cache {
      Fib2FillsBelow(n - 1, cache);
      var c1 := Fib2(n - 1, cache).1;
      Fib2FillsBelow(n - 2, c1);
    }
  }

  /** Once `fib2(num)` has run, `fib3` answers every number up to `num`
      with its Fibonacci number, as in the demo, which calls `fib2(12)`
      before `fib3(12)`. */
  lemma {:induction false} Fib3AfterFib2(n: nat, cache: map<int, int>, k: int)
    requires CacheValid(cache) && Contiguous(cache) && k <= n
    ensures CacheValid(Fib2(n, cache).1)
    ensures Fib3(k, Fib2(n, cache).1) == Success(Fib1(k))
  {
    Fib2FillsBelow(n, cache);
  }

  lemma {:induction false} SeedsContiguous()
    ensures Contiguous(Seeds)
  {
  }

  /** On the dictionary `fib2` starts from, `fib3(2)` raises `KeyError`. */
  lemma {:induction false} Fib3FreshCacheFails()
    ensures CacheValid(Seeds)
    ensures Fib3(2, Seeds) == Failure(KeyError)
  {
    SeedsValid();
  }

  /** The loop of `fib4` (and of `fib5`) run `steps` times from the pair
      (`last_num`, `next_num`). */
  function Step(steps: nat, last: int, next: int): (int, int) {
    if steps == 0 then (last, next) else Step(steps - 1, next, last + next)
  }

  /** Loop invariant of `fib4`: started from two consecutive Fibonacci
      numbers, `k` steps later the pair has moved `k` places along. */
  lemma {:induction false} StepAdvances(i: nat, k: nat)
    ensures Step(k, Fib1(i), Fib1(i + 1)) == (Fib1(i + k), Fib1(i + k + 1))
    decreases k
  {
    if k > 0 {
      assert Fib1(i + 2) == Fib1(i) + Fib1(i + 1);
      StepAdvances(i + 1, k - 1);
    }
  }

  /** `fib4` as written: `range(1, num)` runs `num - 1` times, so the loop
      starting from (0, 1) returns `next_num == fib1(num)` for `num >= 1`,
      but for `num <= 0` it does not run and returns 1. */
  function Fib4(n: int): (r: int)
    ensures n >= 1 ==> r == Fib1(n)
    ensures n <= 0 ==> r == 1
  {
    var steps := if n >= 1 then n - 1 else 0;
    StepAdvances(0, steps);
    Step(steps, 0, 1).1
  }

  /** The disagreement: `fib4(0)` is 1 where `fib1(0)` is 0. */
  lemma {:induction false} Fib4DisagreesAtZero()
    ensures Fib4(0) == 1 && Fib1(0) == 0
  {
  }

  /** `fib4` as evidently intended: run the loop `num` times and return
      `last_num`, which is `fib1(num)` for every `num >= 0`, zero included. */
  function Fib4Corrected(n: nat): (r: int)
    ensures r == Fib1(n)
  {
    StepAdvances(0, n);
    Step(n, 0, 1).0
  }

  /** `fib5`: the generator's values as a list. It yields 0, then 1 when
      `num > 0`, then each new `next_num` of `num - 1` loop steps: exactly
      `fib1(0)`, ..., `fib1(num)`, so the demo's last value is `fib1(num)`. */
  method Fib5(n: int) returns (r: seq<int>)
    ensures n <= 0 ==> r == [0]
    ensures n > 0 ==> |r| == n + 1 && forall i :: 0 <= i < |r| ==> r[i] == Fib1(i)
  {
    r := [0];
    if n > 0 {
      r := r + [1];
      var last, next := 0, 1;
      var k := 1;
      while k < n
        invariant 1 <= k <= n
        invariant |r| == k + 1 && forall i :: 0 <= i < |r| ==> r[i] == Fib1(i)
        invariant last == Fib1(k - 1) && next == Fib1(k)
      {
        last, next := next, last + next;
        r := r + [next];
        k := k + 1;
      }
    }
  }
}
