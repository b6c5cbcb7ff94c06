/** `BooleanList`: the nullable list of `bool`, with `false` as the null
    placeholder. Its logical operators, reductions, `to_index` and its casts
    are computed from the raw values. */
module Boolean {
  import opened Wrappers
  import opened Primitives
  import opened Index
  import opened Base

  /** `na_value` of a boolean list. */
  const NaValue: bool := false

  // ---------------------------------------------------------------------
  // and_ / or_

  /** `_logical_operate`: the size check's error is dropped, so the two raw
      value vectors are zipped, which stops at the shorter one; the result
      has no nulls. `conjunction` selects `&&` (`and_`), otherwise `||`
      (`or_`). */
  function Logical(a: Column<bool>, b: Column<bool>, conjunction: bool): (r: Column<bool>)
    ensures r.Valid() && r.CountNa() == 0
    ensures r.Size() == if a.Size() <= b.Size() then a.Size() else b.Size()
  {
    var n := if |a.values| <= |b.values| then |a.values| else |b.values|;
    Column(seq(n, i requires 0 <= i < n =>
                 if conjunction then a.values[i] && b.values[i] else a.values[i] || b.values[i]),
           {})
  }

  /** tests/test_boolean.py: the truth tables of `and_` and `or_`. */
  lemma LogicalTruthTable()
    ensures var a := Column([false, false, true, true], {});
            var b := Column([false, true, false, true], {});
            Logical(a, b, true).values == [false, false, false, true] &&
            Logical(a, b, false).values == [false, true, true, true]
  {
  }

  /** Up to the shorter size, `and_` / `or_` hold the conjunction or the
      disjunction of the two raw values, so a null reads as its stored
      placeholder and the result is never null. */
  lemma LogicalElements(a: Column<bool>, b: Column<bool>, conjunction: bool)
    ensures var r := Logical(a, b, conjunction);
            forall i :: 0 <= i < r.Size() ==>
              i < a.Size() && i < b.Size() &&
              r.ToList()[i] == Some(if conjunction then a.values[i] && b.values[i]
                                    else a.values[i] || b.values[i])
  {
  }

  /** `and_` as written on lists of different sizes: `[true, true, true]`
      and `[true, false]` give `[true, false]` where the dropped size check
      had a `RuntimeError`. */
  lemma LogicalTruncates()
    ensures var a := Column([true, true, true], {});
            var b := Column([true, false], {});
            Logical(a, b, true).ToList() == [Some(true), Some(false)] &&
            CheckLenEq(a, b) == Fail(RuntimeError)
  {
    var r := Logical(Column([true, true, true], {}), Column([true, false], {}), true);
    assert r.values == [true, false];
  }

  /** `and_` / `or_` with the size check's error passed on, as `_cmp` does:
      a `RuntimeError` on different sizes, the zipped list otherwise. */
  function LogicalChecked(a: Column<bool>, b: Column<bool>, conjunction: bool): (r: Result<Column<bool>>)
    ensures r.Err? <==> a.Size() != b.Size()
    ensures r.Err? ==> r.error == RuntimeError
    ensures r.Ok? ==> r.value.Valid() && r.value.CountNa() == 0 && r.value.Size() == a.Size()
    ensures r.Ok? ==> forall i :: 0 <= i < a.Size() ==>
              r.value.values[i] == if conjunction then a.values[i] && b.values[i]
                                   else a.values[i] || b.values[i]
  {
    var check := CheckLenEq(a, b);
    if check.Fail? then Err(check.error) else Ok(Logical(a, b, conjunction))
  }

  // ---------------------------------------------------------------------
  // not_

  /** The list `not_` denotes: every present value negated, the placeholder
      `false` at the nulls, the nulls kept. */
  function Negated(c: Column<bool>): Column<bool>
  {
    Column(seq(|c.values|, i requires 0 <= i < |c.values| => i !in c.nulls && !c.values[i]), c.nulls)
  }

  /** `not_`: negate every raw value, then `_fill_na` with `false`. */
  method Not(c: Column<bool>) returns (r: Column<bool>)
    requires c.Valid()
    ensures r == Negated(c)
  {
    var n := |c.values|;
    var buffer := new bool[n](i requires 0 <= i < n => !c.values[i]);
    FillNa(buffer, c.nulls, NaValue);
    r := Column(buffer[..], c.nulls);
  }

  /** `not_` keeps the nulls and negates every present element; applied
      twice it gives the list back. */
  lemma NegatedElements(c: Column<bool>)
    requires c.Valid()
    ensures Negated(c).Valid() && Negated(c).nulls == c.nulls
    ensures forall i :: 0 <= i < c.Size() ==>
      Negated(c).ToList()[i] == (if c.ToList()[i].None? then None else Some(!c.ToList()[i].value))
    ensures Negated(Negated(c)).ToList() == c.ToList()
  {
    var n := Negated(c);
    var nn := Negated(n);
    forall i | 0 <= i < |c.values| ensures nn.ToList()[i] == c.ToList()[i] {
      if i !in c.nulls {
        assert n.values[i] == !c.values[i];
      }
    }
  }

  /** De Morgan on lists without nulls: `not_(a.and_(b))` is
      `a.not_().or_(b.not_())`. */
  lemma NotAndIsOrNot(a: Column<bool>, b: Column<bool>)
    requires a.nulls == {} && b.nulls == {} && a.Size() == b.Size()
    ensures Negated(Logical(a, b, true)) == Logical(Negated(a), Negated(b), false)
  {
  }

  // ---------------------------------------------------------------------
  // all / any / sum / to_index

  /** `all`: every raw value is `true`. */
  function All(s: seq<bool>): (r: bool)
    ensures r <==> forall i :: 0 <= i < |s| ==> s[i]
  {
    if |s| == 0 then true else s[|s| - 1] && All(s[..|s| - 1])
  }

  /** `any`: some raw value is `true`. */
  function Any(s: seq<bool>): (r: bool)
    ensures r <==> exists i :: 0 <= i < |s| && s[i]
  {
    if |s| == 0 then false
    else
      assert forall i :: 0 <= i < |s| - 1 ==> s[..|s| - 1][i] == s[i];
      s[|s| - 1] || Any(s[..|s| - 1])
  }

  /** With the placeholder stored at the nulls, a single null makes `all`
      false, and `any` is true exactly when some present element is. */
  lemma NullsInReductions(c: Column<bool>)
    requires c.Valid() && forall i :: i in c.nulls ==> !c.values[i]
    ensures c.nulls != {} ==> !All(c.values)
    ensures Any(c.values) <==> Some(true) in c.ToList()
  {
    if c.nulls != {} {
      var i :| i in c.nulls;
      assert !c.values[i];
    }
    if Any(c.values) {
      var i :| 0 <= i < |c.values| && c.values[i];
      assert c.ToList()[i] == Some(true);
    }
  }

  /** The 0/1 encoding the numeric casts and `sum` use. */
  function ZeroOne(s: seq<bool>): (r: seq<int>)
    ensures |r| == |s|
    ensures forall i :: 0 <= i < |s| ==> r[i] == (if s[i] then 1 else 0)
  {
    seq(|s|, i requires 0 <= i < |s| => if s[i] then 1 else 0)
  }

  /** `sum`: the 0/1 encodings summed, which counts the raw `true` values. */
  function Sum(c: Column<bool>): (r: int)
    ensures r == CountTrue(c.values)
  {
    SumCountsTrue(c.values);
    SumOf(ZeroOne(c.values))
  }

  /** `sum` counts the raw `true` values. */
  lemma {:induction false} SumCountsTrue(s: seq<bool>)
    ensures SumOf(ZeroOne(s)) == CountTrue(s)
  {
    if |s| > 0 {
      var init := s[..|s| - 1];
      SumCountsTrue(init);
      assert ZeroOne(s)[..|s| - 1] == ZeroOne(init);
    }
  }

  /** `to_index`: the positions of the raw `true` values, in increasing
      order. */
  function ToIndex(c: Column<bool>): (r: IndexList)
    ensures forall k, k' :: 0 <= k < k' < |r.values| ==> r.values[k] < r.values[k']
    ensures forall k :: 0 <= k < |r.values| ==> r.values[k] < c.Size()
    ensures forall i :: 0 <= i < c.Size() ==> (c.values[i] <==> i in r.values)
  {
    var idx := TruePositions(c.values);
    assert forall i :: 0 <= i < |c.values| && c.values[i] ==> i in idx by {
      forall i | 0 <= i < |c.values| && c.values[i] ensures i in idx {
        TruePositionsComplete(c.values, i);
      }
    }
    IndexList(idx)
  }

  /** `to_index` lists, in strictly increasing order, exactly the positions
      holding `true`, and there are `sum()` of them. */
  lemma ToIndexPositions(c: Column<bool>)
    ensures var idx := ToIndex(c).values;
            |idx| == Sum(c) &&
            (forall k, k' :: 0 <= k < k' < |idx| ==> idx[k] < idx[k']) &&
            (forall i :: 0 <= i < c.Size() ==> (c.values[i] <==> i in idx))
  {
    SumCountsTrue(c.values);
    forall i | 0 <= i < |c.values| && c.values[i] ensures i in ToIndex(c).values {
      TruePositionsComplete(c.values, i);
    }
  }

  // ---------------------------------------------------------------------
  // Casts

  /** `as_int32` / `as_int64`: `true` as 1 and `false` as 0, nulls kept. */
  function AsInt(c: Column<bool>): (r: Column<int>)
    ensures r.nulls == c.nulls && r.Size() == c.Size()
    ensures forall i :: 0 <= i < c.Size() ==> r.values[i] == (if c.values[i] then 1 else 0)
    ensures forall i :: 0 <= i < c.Size() ==> (r.values[i] != 0 <==> c.values[i])
  {
    Column(ZeroOne(c.values), c.nulls)
  }

  /** The integer cast keeps the truth of every element: nonzero exactly
      where the boolean was `true`, and fits either width. */
  lemma AsIntTruth(c: Column<bool>)
    ensures AsInt(c).nulls == c.nulls && AsInt(c).Size() == c.Size()
    ensures AllInRange(W32, AsInt(c).values) && AllInRange(W64, AsInt(c).values)
    ensures forall i :: 0 <= i < c.Size() ==> (AsInt(c).values[i] != 0 <==> c.values[i])
    ensures Sum(c) == SumOf(AsInt(c).values)
  {
  }

  /** `as_str`: `b.to_string()` of every raw value, nulls kept. */
  function AsStr(c: Column<bool>): (r: Column<string>)
    ensures r.nulls == c.nulls && |r.values| == |c.values|
    ensures forall i :: 0 <= i < |c.values| ==> ParseBool(r.values[i]) == Some(c.values[i])
  {
    Column(seq(|c.values|, i requires 0 <= i < |c.values| => FormatBool(c.values[i])), c.nulls)
  }
}
