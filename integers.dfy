/** `IntegerList32` / `IntegerList64`: in this version these lists hold a
    value vector only, so their kernels are functions over sequences of
    integers of one width. `arange32` / `arange64` build such a vector. */
module Integers {
  import opened Wrappers
  import opened Primitives
  import Boolean
  import opened Base

  // ---------------------------------------------------------------------
  // argmax / argmin / max / min

  /** The position `max_by_key` picks: a maximal element, the last one
      among equals. */
  function LastMaxIndex(s: seq<int>): (k: nat)
    requires |s| > 0
    ensures k < |s|
    ensures forall j :: 0 <= j < |s| ==> s[j] <= s[k]
    ensures forall j :: k < j < |s| ==> s[j] < s[k]
  {
    if |s| == 1 then 0
    else
      var k := LastMaxIndex(s[..|s| - 1]);
      if s[|s| - 1] >= s[k] then |s| - 1 else k
  }

  /** The position `min_by_key` picks: a minimal element, the first one
      among equals. */
  function FirstMinIndex(s: seq<int>): (k: nat)
    requires |s| > 0
    ensures k < |s|
    ensures forall j :: 0 <= j < |s| ==> s[k] <= s[j]
    ensures forall j :: 0 <= j < k ==> s[k] < s[j]
  {
    if |s| == 1 then 0
    else
      var k := FirstMinIndex(s[..|s| - 1]);
      if s[|s| - 1] < s[k] then |s| - 1 else k
  }

  /** `argmax`: the `unwrap` panics on an empty list. */
  function ArgMax(s: seq<int>): (r: Result<nat>)
    ensures r.Err? <==> |s| == 0
    ensures r.Err? ==> r.error == Panic
    ensures r.Ok? ==> r.value < |s| && forall j :: 0 <= j < |s| ==>
      s[j] <= s[r.value] && (j > r.value ==> s[j] < s[r.value])
  {
    if |s| == 0 then Err(Panic) else Ok(LastMaxIndex(s))
  }

  /** `argmin`: the `unwrap` panics on an empty list. */
  function ArgMin(s: seq<int>): (r: Result<nat>)
    ensures r.Err? <==> |s| == 0
    ensures r.Err? ==> r.error == Panic
    ensures r.Ok? ==> r.value < |s| && forall j :: 0 <= j < |s| ==>
      s[r.value] <= s[j] && (j < r.value ==> s[r.value] < s[j])
  {
    if |s| == 0 then Err(Panic) else Ok(FirstMinIndex(s))
  }

  /** The largest element, folded from the front. */
  function MaxOfSeq(s: seq<int>): (m: int)
    requires |s| > 0
    ensures m in s && forall j :: 0 <= j < |s| ==> s[j] <= m
  {
    if |s| == 1 then s[0]
    else
      var m := MaxOfSeq(s[..|s| - 1]);
      assert forall j :: 0 <= j < |s| - 1 ==> s[..|s| - 1][j] == s[j];
      if s[|s| - 1] >= m then s[|s| - 1] else m
  }

  /** The smallest element, folded from the front. */
  function MinOfSeq(s: seq<int>): (m: int)
    requires |s| > 0
    ensures m in s && forall j :: 0 <= j < |s| ==> m <= s[j]
  {
    if |s| == 1 then s[0]
    else
      var m := MinOfSeq(s[..|s| - 1]);
      assert forall j :: 0 <= j < |s| - 1 ==> s[..|s| - 1][j] == s[j];
      if s[|s| - 1] <= m then s[|s| - 1] else m
  }

  /** `max`: panics on an empty list. */
  function Max(s: seq<int>): (r: Result<int>)
    ensures r.Err? <==> |s| == 0
    ensures r.Ok? ==> r.value in s && forall j :: 0 <= j < |s| ==> s[j] <= r.value
  {
    if |s| == 0 then Err(Panic) else Ok(MaxOfSeq(s))
  }

  /** `min`: panics on an empty list. */
  function Min(s: seq<int>): (r: Result<int>)
    ensures r.Err? <==> |s| == 0
    ensures r.Ok? ==> r.value in s && forall j :: 0 <= j < |s| ==> r.value <= s[j]
  {
    if |s| == 0 then Err(Panic) else Ok(MinOfSeq(s))
  }

  /** `max` is the element at `argmax`, `min` the element at `argmin`. */
  lemma ExtremaAgree(s: seq<int>)
    requires |s| > 0
    ensures Max(s) == Ok(s[ArgMax(s).value])
    ensures Min(s) == Ok(s[ArgMin(s).value])
  {
  }

  // ---------------------------------------------------------------------
  // sum / pow_scala

  /** The running sums an overflow-checked `sum` computes all fit. */
  predicate SumFits(w: Width, s: seq<int>)
  {
    forall k :: 0 <= k <= |s| ==> InRange(w, SumOf(s[..k]))
  }

  /** `sum`: the running total overflows the width nowhere, so the result
      is the mathematical sum. */
  function Sum(s: seq<int>, w: Width): (r: int)
    requires SumFits(w, s)
    ensures InRange(w, r)
  {
    assert s[..|s|] == s;
    SumOf(s)
  }

  /** Summing a list after another is summing each. */
  lemma SumUnion(a: seq<int>, b: seq<int>, w: Width)
    requires SumFits(w, a + b)
    ensures SumFits(w, a) && Sum(a + b, w) == SumOf(a) + SumOf(b)
  {
    forall k | 0 <= k <= |a| ensures InRange(w, SumOf(a[..k])) {
      assert (a + b)[..k] == a[..k];
    }
    SumOfAppend(a, b);
  }

  /** `x.pow(e)`. */
  function Pow(x: int, e: nat): int
  {
    if e == 0 then 1 else x * Pow(x, e - 1)
  }

  lemma {:induction false} PowAdd(x: int, a: nat, b: nat)
    ensures Pow(x, a + b) == Pow(x, a) * Pow(x, b)
    decreases a
  {
    if a > 0 {
      PowAdd(x, a - 1, b);
      assert Pow(x, a + b) == x * Pow(x, a - 1 + b);
    }
  }

  /** `pow_scala`: every element raised to `e`; the results must fit (an
      overflowing `pow` panics in a checked build). */
  function PowScala(s: seq<int>, e: nat, w: Width): (r: seq<int>)
    requires forall i :: 0 <= i < |s| ==> InRange(w, Pow(s[i], e))
    ensures |r| == |s| && AllInRange(w, r)
  {
    seq(|s|, i requires 0 <= i < |s| => Pow(s[i], e))
  }

  /** Exponent 0 gives all ones, exponent 1 the list itself, and raising to
      `a + b` multiplies the two powers. tests/test_numerical.py squares
      `[1, 2, 3]`. */
  lemma PowScalaLaws(s: seq<int>, w: Width)
    ensures PowScala(s, 0, w) == seq(|s|, _ => 1)
    ensures AllInRange(w, s) ==> PowScala(s, 1, w) == s
    ensures PowScala([1, 2, 3], 2, W32) == [1, 4, 9]
  {
    if AllInRange(w, s) {
      assert forall i :: 0 <= i < |s| ==> Pow(s[i], 1) == s[i];
    }
    assert Pow(2, 2) == 4 && Pow(3, 2) == 9;
  }

  lemma PowScalaProduct(s: seq<int>, a: nat, b: nat, w: Width, i: nat)
    requires i < |s| && forall j :: 0 <= j < |s| ==> InRange(w, Pow(s[j], a + b))
    ensures PowScala(s, a + b, w)[i] == Pow(s[i], a) * Pow(s[i], b)
  {
    PowAdd(s[i], a, b);
  }

  // ---------------------------------------------------------------------
  // Casts

  /** `as_bool`: nonzero is `true`. */
  function AsBool(s: seq<int>): (r: seq<bool>)
    ensures |r| == |s|
    ensures forall i :: 0 <= i < |s| ==> (r[i] <==> s[i] != 0)
  {
    seq(|s|, i requires 0 <= i < |s| => s[i] != 0)
  }

  /** Casting a boolean list to integers and back gives its raw values. */
  lemma BoolIntRoundTrip(c: Column<bool>)
    ensures AsBool(Boolean.AsInt(c).values) == c.values
  {
  }

  /** `as_int64` on an `i32` list: `x as i64`, which keeps the value. */
  function AsInt64(s: seq<int>): (r: seq<int>)
    requires AllInRange(W32, s)
    ensures AllInRange(W64, r) && |r| == |s|
    ensures forall i :: 0 <= i < |s| ==> r[i] == s[i]
  {
    s
  }

  /** `as_int32` on an `i64` list: `x as i32`, the low 32 bits. */
  function AsInt32(s: seq<int>): (r: seq<int>)
    ensures AllInRange(W32, r) && |r| == |s|
    ensures forall i :: 0 <= i < |s| ==> (s[i] - r[i]) % 0x1_0000_0000 == 0
  {
    seq(|s|, i requires 0 <= i < |s| => TruncateTo32(s[i]))
  }

  /** Widening to `i64` and truncating back to `i32` gives the list back. */
  lemma WidenNarrow(s: seq<int>)
    requires AllInRange(W32, s)
    ensures AsInt32(AsInt64(s)) == s
  {
  }

  /** `as_str`: `x.to_string()` of every element. */
  function AsStr(s: seq<int>): (r: seq<string>)
    ensures |r| == |s|
    ensures forall i :: 0 <= i < |s| ==> r[i] == FormatInt(s[i])
    ensures forall i, j :: 0 <= i < |s| && 0 <= j < |s| && r[i] == r[j] ==> s[i] == s[j]
  {
    var r := seq(|s|, i requires 0 <= i < |s| => FormatInt(s[i]));
    assert forall i, j :: 0 <= i < |s| && 0 <= j < |s| && r[i] == r[j] ==> s[i] == s[j] by {
      forall i, j | 0 <= i < |s| && 0 <= j < |s| && r[i] == r[j] ensures s[i] == s[j] {
        FormatIntInjective(s[i], s[j]);
      }
    }
    r
  }

  // ---------------------------------------------------------------------
  // arange

  /** `(start..stop).step_by(step)` for a positive step. */
  function Steps(start: int, stop: int, step: nat): (r: seq<int>)
    requires step > 0
    ensures |r| == if start < stop then (stop - start + step - 1) / step else 0
    ensures forall k :: 0 <= k < |r| ==> r[k] == start + k * step && r[k] < stop
    decreases stop - start
  {
    if start >= stop then []
    else
      var rest := Steps(start + step, stop, step);
      assert |rest| + 1 == (stop - start + step - 1) / step by {
        StepCount(start, stop, step);
      }
      [start] + rest
  }

  lemma StepCount(start: int, stop: int, step: nat)
    requires step > 0 && start < stop
    ensures (if start + step < stop then (stop - start - 1) / step else 0) + 1
            == (stop - start + step - 1) / step
  {
    var d := stop - start - 1;
    var q, r := d / step, d % step;
    assert d == q * step + r;
    assert d + step == (q + 1) * step + r;
    ModUnique(d + step, step, q + 1, r);
    if start + step >= stop {
      ModUnique(d, step, 0, d);
    }
  }

  /** `arange32` / `arange64`: `step_by(0)` panics; otherwise the list
      `start, start + step, ...` below `stop`, with no nulls. */
  function Arange(start: int, stop: int, step: nat, w: Width): (r: Result<seq<int>>)
    requires InRange(w, start) && InRange(w, stop)
    ensures r.Err? <==> step == 0
    ensures r.Ok? ==> AllInRange(w, r.value)
    ensures r.Ok? ==> |r.value| == if start < stop then (stop - start + step - 1) / step else 0
    ensures r.Ok? ==> forall k :: 0 <= k < |r.value| ==> r.value[k] == start + k * step < stop
  {
    if step == 0 then Err(Panic) else Ok(Steps(start, stop, step))
  }

  /** tests/test_constructors.py: `arange(0, 5, 2)` and `arange(0, 4, 2)`. */
  lemma ArangeExamples()
    ensures Arange(0, 5, 2, W64) == Ok([0, 2, 4])
    ensures Arange(0, 4, 2, W64) == Ok([0, 2])
  {
    var r := Steps(0, 5, 2);
    assert |r| == 3 && r[0] == 0 && r[1] == 2 && r[2] == 4;
    assert r == [0, 2, 4];
    var q := Steps(0, 4, 2);
    assert |q| == 2 && q[0] == 0 && q[1] == 2;
    assert q == [0, 2];
  }
}
