/** The page offsets of the fetch loop: `range(0, total_results, max_results)`.

    `PyRange` follows Python's `range(start, stop, step)`: a zero step is an
    error, a positive step counts up while below `stop`, a negative step counts
    down while above it. The lemmas pin down the offsets the loop visits when
    the step (the page size) is positive. */
module Pagination {
  import opened Wrappers

  /** `start, start + step, ...` while below `stop`. */
  function RangeFrom(start: int, stop: int, step: int): seq<int>
    requires step > 0
    decreases stop - start
  {
    if start >= stop then [] else [start] + RangeFrom(start + step, stop, step)
  }

  /** `start, start + step, ...` while above `stop`, for a negative `step`. */
  function RangeDown(start: int, stop: int, step: int): seq<int>
    requires step < 0
    decreases start - stop
  {
    if start <= stop then [] else [start] + RangeDown(start + step, stop, step)
  }

  /** Python's `range(start, stop, step)`; `None` is the `ValueError` raised for
      a zero step. */
  function PyRange(start: int, stop: int, step: int): (r: Option<seq<int>>)
    ensures r.None? <==> step == 0
    ensures step < 0 && start <= stop ==> r == Some([])
    ensures step > 0 && stop <= start ==> r == Some([])
  {
    if step == 0 then None
    else if step > 0 then Some(RangeFrom(start, stop, step))
    else Some(RangeDown(start, stop, step))
  }

  /** Number of pages of size `pageSize` needed for `total` items: ⌈total / pageSize⌉. */
  function CeilDiv(total: nat, pageSize: nat): nat
    requires pageSize > 0
  {
    (total + pageSize - 1) / pageSize
  }

  lemma MulMonotone(m: int, a: int, b: int)
    requires m > 0 && a <= b
    ensures m * a <= m * b
  {
    assert m * b - m * a == m * (b - a);
  }

  /** Euclidean division is determined by its bounds. */
  lemma DivUnique(x: int, m: int, n: int)
    requires m > 0 && n * m <= x < n * m + m
    ensures x / m == n
  {
    var q := x / m;
    assert x == m * q + x % m;
    if q < n { MulMonotone(m, q + 1, n); }
    if q > n { MulMonotone(m, n + 1, q); }
  }

  /** `n` pages of `step` cover `stop - start` items and `n - 1` pages do not. */
  lemma {:induction false} RangeFromCount(start: int, stop: int, step: int)
    requires step > 0
    ensures stop <= start ==> |RangeFrom(start, stop, step)| == 0
    ensures start < stop ==>
      var n := |RangeFrom(start, stop, step)|;
      (n - 1) * step < stop - start <= n * step
    decreases stop - start
  {
    if start < stop {
      RangeFromCount(start + step, stop, step);
      var n := |RangeFrom(start + step, stop, step)|;
      assert (n + 1 - 1) * step == n * step;
      assert (n + 1) * step == n * step + step;
    }
  }

  /** The offsets are `start + k * step` for `k` below ⌈(stop - start) / step⌉. */
  lemma {:induction false} RangeFromShape(start: int, stop: int, step: int)
    requires step > 0
    ensures |RangeFrom(start, stop, step)| == if stop <= start then 0 else CeilDiv(stop - start, step)
    ensures forall k | 0 <= k < |RangeFrom(start, stop, step)| :: RangeFrom(start, stop, step)[k] == start + k * step
    decreases stop - start
  {
    RangeFromCount(start, stop, step);
    if start < stop {
      var r := RangeFrom(start, stop, step);
      var rest := RangeFrom(start + step, stop, step);
      var n := |r|;
      assert (n - 1) * step == n * step - step;
      DivUnique(stop - start + step - 1, step, n);
      RangeFromShape(start + step, stop, step);
      forall k | 0 <= k < |r|
        ensures r[k] == start + k * step
      {
        if k > 0 {
          assert r[k] == rest[k - 1];
          assert start + step + (k - 1) * step == start + k * step;
        }
      }
    }
  }

  lemma ModStep(a: int, b: int)
    requires b > 0
    ensures (a + b) % b == a % b
  {
    var q := a / b;
    assert a == b * q + a % b;
    assert a + b == b * (q + 1) + a % b;
    DivUnique(a + b, b, q + 1);
  }

  lemma ModSmall(a: int, b: int)
    requires 0 <= a < b
    ensures a % b == a
  {
    DivUnique(a, b, 0);
    assert a == b * (a / b) + a % b;
  }

  /** An offset is visited exactly when it lies in `[start, stop)` at a whole
      number of steps from `start`. */
  lemma {:induction false} RangeFromMembers(start: int, stop: int, step: int, x: int)
    requires step > 0
    ensures x in RangeFrom(start, stop, step) <==> start <= x < stop && (x - start) % step == 0
    decreases stop - start
  {
    if start < stop {
      var rest := RangeFrom(start + step, stop, step);
      assert RangeFrom(start, stop, step) == [start] + rest;
      assert x in RangeFrom(start, stop, step) <==> x == start || x in rest;
      RangeFromMembers(start + step, stop, step, x);
      if x >= start + step {
        ModStep(x - (start + step), step);
      } else if start <= x {
        ModSmall(x - start, step);
      }
    }
  }

  /** Consecutive offsets differ by exactly one step, so page windows neither
      overlap nor leave a gap; the first offset is `start`. */
  lemma {:induction false} RangeFromSteps(start: int, stop: int, step: int)
    requires step > 0
    ensures start < stop ==> RangeFrom(start, stop, step)[0] == start
    ensures forall k | 0 <= k < |RangeFrom(start, stop, step)| - 1 ::
      RangeFrom(start, stop, step)[k + 1] == RangeFrom(start, stop, step)[k] + step
    decreases stop - start
  {
    if start < stop {
      var r := RangeFrom(start, stop, step);
      var rest := RangeFrom(start + step, stop, step);
      RangeFromSteps(start + step, stop, step);
      forall k | 0 <= k < |r| - 1
        ensures r[k + 1] == r[k] + step
      {
        if k > 0 {
          assert r[k + 1] == rest[k] && r[k] == rest[k - 1];
        }
      }
    }
  }

  /** The last offset is the largest one below `stop`: one more step reaches or
      passes `stop`. */
  lemma {:induction false} RangeFromLast(start: int, stop: int, step: int)
    requires step > 0 && start < stop
    ensures |RangeFrom(start, stop, step)| > 0
    ensures var r := RangeFrom(start, stop, step); r[|r| - 1] < stop <= r[|r| - 1] + step
    decreases stop - start
  {
    var r := RangeFrom(start, stop, step);
    var rest := RangeFrom(start + step, stop, step);
    assert r == [start] + rest;
    if start + step < stop {
      RangeFromLast(start + step, stop, step);
      assert r[|r| - 1] == rest[|rest| - 1];
    } else {
      assert r == [start];
    }
  }

  /** The offsets of the fetch loop, `range(0, total, pageSize)` for a positive
      page size: exactly the multiples of `pageSize` below `total`, ⌈total / pageSize⌉
      of them, rising by `pageSize`, the last within one page of `total`. */
  lemma PageOffsets(total: nat, pageSize: int)
    requires pageSize > 0
    ensures PyRange(0, total, pageSize).Some?
    ensures var offsets := PyRange(0, total, pageSize).value;
      && |offsets| == CeilDiv(total, pageSize)
      && (forall x :: x in offsets <==> 0 <= x < total && x % pageSize == 0)
      && (forall k | 0 <= k < |offsets| :: offsets[k] == k * pageSize)
      && (forall k | 0 <= k < |offsets| - 1 :: offsets[k + 1] == offsets[k] + pageSize)
      && (total > 0 ==> offsets[|offsets| - 1] < total <= offsets[|offsets| - 1] + pageSize)
  {
    var offsets := RangeFrom(0, total, pageSize);
    RangeFromShape(0, total, pageSize);
    RangeFromSteps(0, total, pageSize);
    forall x
      ensures x in offsets <==> 0 <= x < total && x % pageSize == 0
    {
      RangeFromMembers(0, total, pageSize, x);
    }
    if total > 0 {
      RangeFromLast(0, total, pageSize);
    }
  }

  /** A worked case: 250 results in pages of 100 are fetched at 0, 100 and 200. */
  lemma ExampleOffsets()
    ensures PyRange(0, 250, 100) == Some([0, 100, 200])
  {
    assert RangeFrom(300, 250, 100) == [];
    assert RangeFrom(200, 250, 100) == [200];
    assert RangeFrom(100, 250, 100) == [100, 200];
    assert RangeFrom(0, 250, 100) == [0, 100, 200];
  }
}
