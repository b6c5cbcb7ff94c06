/** The kernels of the numeric lists (`NumericalList`): elementwise and
    scalar arithmetic with null propagation, comparisons with a scalar that
    read a null as `false`, and the all-null check. The element type is a
    machine integer of width `w`; the floating-point lists are not part of
    this model. */
module Numerical {
  import opened Wrappers
  import opened Primitives
  import opened Base

  // ---------------------------------------------------------------------
  // _check_all_na

  /** `_check_all_na`: a panic when every element is null; on a valid list
      it passes exactly when some element is present. */
  function CheckAllNa<T>(c: Column<T>): (r: Outcome)
    ensures r.Fail? ==> r.error == Panic
    ensures c.Valid() ==> (r == Pass <==> exists i :: 0 <= i < c.Size() && c.ToList()[i].Some?)
  {
    SomePresentIffNotAllNull(c);
    if c.CountNa() == c.Size() then Fail(Panic) else Pass
  }

  lemma SomePresentIffNotAllNull<T>(c: Column<T>)
    ensures c.Valid() ==>
      (c.CountNa() != c.Size() <==> exists i :: 0 <= i < c.Size() && c.ToList()[i].Some?)
  {
    if !c.Valid() {
      return;
    }
    var n := |c.values|;
    var all := Range(0, n);
    RangeSize(0, n);
    assert c.nulls <= all;
    if c.CountNa() != c.Size() {
      SubsetSize(c.nulls, all);
      assert all - c.nulls != {};
      var i :| i in all - c.nulls;
      assert c.ToList()[i].Some?;
    }
    if i :| 0 <= i < n && c.ToList()[i].Some? {
      assert c.nulls <= all - {i};
      SubsetSize(c.nulls, all - {i});
    }
  }

  /** The check passes exactly when some element is present, so it fails
      on the empty list. */
  lemma CheckAllNaPresent<T>(c: Column<T>)
    requires c.Valid()
    ensures CheckAllNa(c) == Pass <==> exists i :: 0 <= i < c.Size() && c.ToList()[i].Some?
    ensures c.Size() == 0 ==> CheckAllNa(c) == Fail(Panic)
  {
  }

  // ---------------------------------------------------------------------
  // _fn_num: a null-aware map

  /** `_fn_num`: apply `func` to every raw value, then overwrite the null
      positions with `default`. */
  method FnNum<T, W>(c: Column<T>, func: T -> W, default: W) returns (vec: seq<W>)
    requires c.Valid()
    ensures |vec| == c.Size()
    ensures forall i :: 0 <= i < |vec| ==>
      vec[i] == (if c.ToList()[i].None? then default else func(c.ToList()[i].value))
  {
    var n := |c.values|;
    var buffer := new W[n](i requires 0 <= i < n => func(c.values[i]));
    FillNa(buffer, c.nulls, default);
    vec := buffer[..];
  }

  // ---------------------------------------------------------------------
  // add / sub / mul

  /** The three operators of the arithmetic kernels. */
  datatype ArithOp = Plus | Minus | Times

  function Apply(op: ArithOp, x: int, y: int): int
  {
    match op
    case Plus => x + y
    case Minus => x - y
    case Times => x * y
  }

  /** The length of a zip: the shorter of the two lists. */
  function Shorter(a: Column<int>, b: Column<int>): nat
  {
    if |a.values| <= |b.values| then |a.values| else |b.values|
  }

  /** Every null of either side lies inside the zip, so `_fill_na` writes
      only inside the result. */
  predicate NullsInZip(a: Column<int>, b: Column<int>)
  {
    forall i :: i in a.nulls + b.nulls ==> i < Shorter(a, b)
  }

  /** The list `a op b` denotes: the zip to the shorter list, a null wherever
      either side is null, with the placeholder stored there, and `x op y`
      elsewhere. */
  function Zipped(a: Column<int>, b: Column<int>, op: ArithOp, na: int): Column<int>
  {
    var n := Shorter(a, b);
    var nulls := a.nulls + b.nulls;
    Column(seq(n, i requires 0 <= i < n =>
                 if i in nulls then na else Apply(op, a.values[i], b.values[i])),
           nulls)
  }

  /** Elementwise arithmetic propagates nulls from both sides, up to the
      shorter size. */
  lemma ZippedElements(a: Column<int>, b: Column<int>, op: ArithOp, na: int)
    requires a.Valid() && b.Valid() && NullsInZip(a, b)
    ensures var r := Zipped(a, b, op, na);
            r.Valid() && r.Size() == Shorter(a, b) &&
            forall i :: 0 <= i < r.Size() ==>
              r.ToList()[i] == (if a.ToList()[i].None? || b.ToList()[i].None? then None
                                else Some(Apply(op, a.ToList()[i].value, b.ToList()[i].value)))
  {
  }

  /** Subtracting what was added gives the list back when the subtrahend has
      no null the list lacks. */
  lemma SubUndoesAdd(a: Column<int>, b: Column<int>, na: int)
    requires a.Size() == b.Size() && b.nulls <= a.nulls
    ensures Zipped(Zipped(a, b, Plus, na), b, Minus, na).ToList() == a.ToList()
  {
    var s := Zipped(a, b, Plus, na);
    var d := Zipped(s, b, Minus, na);
    assert d.nulls == a.nulls;
    forall i | 0 <= i < |a.values| ensures d.ToList()[i] == a.ToList()[i] {
      if i !in a.nulls {
        assert s.values[i] == a.values[i] + b.values[i];
      }
    }
  }

  /** `add` / `sub` / `mul`: the sizes are checked but the check's error is
      dropped, so the raw values are zipped to the shorter list. `_fill_na`
      then writes through unchecked pointers, so every null must lie inside
      the zip. Every raw result, the placeholder positions included, must
      fit the width. */
  method Arith(a: Column<int>, b: Column<int>, op: ArithOp, w: Width, na: int) returns (r: Column<int>)
    requires a.Valid() && b.Valid() && NullsInZip(a, b) && InRange(w, na)
    requires forall i :: 0 <= i < Shorter(a, b) ==> InRange(w, Apply(op, a.values[i], b.values[i]))
    ensures r == Zipped(a, b, op, na)
    ensures AllInRange(w, r.values)
  {
    var n := Shorter(a, b);
    var buffer := new int[n](i requires 0 <= i < n => Apply(op, a.values[i], b.values[i]));
    var hset := a.nulls + b.nulls;
    ghost var raw := buffer[..];
    FillNa(buffer, hset, na);
    assert forall i :: 0 <= i < n ==> buffer[i] == if i in hset then na else raw[i];
    r := Column(buffer[..], hset);
  }

  /** `add` as written on lists of different sizes: `[1, 2, 3].add([1, 2])`
      returns `[2, 4]` where the dropped size check had a `RuntimeError`. */
  method ArithTruncates() returns (r: Column<int>)
    ensures r.ToList() == [Some(2), Some(4)]
    ensures CheckLenEq(Column([1, 2, 3], {}), Column([1, 2], {})) == Fail(RuntimeError)
  {
    r := Arith(Column([1, 2, 3], {}), Column([1, 2], {}), Plus, W32, 0);
    assert r.values == [2, 4];
  }

  /** `add` / `sub` / `mul` with the size check's error passed on, as `_cmp`
      does: a `RuntimeError` on different sizes, the zipped list otherwise. */
  method ArithChecked(a: Column<int>, b: Column<int>, op: ArithOp, w: Width, na: int)
    returns (r: Result<Column<int>>)
    requires a.Valid() && b.Valid() && InRange(w, na)
    requires forall i :: 0 <= i < Shorter(a, b) ==> InRange(w, Apply(op, a.values[i], b.values[i]))
    ensures r.Err? <==> a.Size() != b.Size()
    ensures r.Err? ==> r.error == RuntimeError
    ensures r.Ok? ==> r.value.Valid() && r.value.Size() == a.Size() && AllInRange(w, r.value.values)
    ensures r.Ok? ==> forall i :: 0 <= i < a.Size() ==>
              r.value.ToList()[i] == (if a.ToList()[i].None? || b.ToList()[i].None? then None
                                      else Some(Apply(op, a.values[i], b.values[i])))
  {
    var check := CheckLenEq(a, b);
    if check.Fail? {
      return Err(check.error);
    }
    var zipped := Arith(a, b, op, w, na);
    ZippedElements(a, b, op, na);
    return Ok(zipped);
  }

  // ---------------------------------------------------------------------
  // add_scala / sub_scala / mul_scala

  /** The list `c op elem` denotes: the same nulls, `x op elem` elsewhere. */
  function Scaled(c: Column<int>, op: ArithOp, elem: int, na: int): Column<int>
  {
    Column(seq(|c.values|, i requires 0 <= i < |c.values| =>
                 if i in c.nulls then na else Apply(op, c.values[i], elem)),
           c.nulls)
  }

  /** A scalar operation keeps the length and the nulls and maps every
      present element. */
  lemma ScaledElements(c: Column<int>, op: ArithOp, elem: int, na: int)
    requires c.Valid()
    ensures var r := Scaled(c, op, elem, na);
            r.Valid() && r.Size() == c.Size() && r.nulls == c.nulls &&
            forall i :: 0 <= i < r.Size() ==>
              r.ToList()[i] == (if c.ToList()[i].None? then None
                                else Some(Apply(op, c.ToList()[i].value, elem)))
  {
  }

  /** Subtracting the scalar that was added gives the list back. */
  lemma ScalarSubUndoesAdd(c: Column<int>, elem: int, na: int)
    ensures Scaled(Scaled(c, Plus, elem, na), Minus, elem, na).ToList() == c.ToList()
  {
    var s := Scaled(c, Plus, elem, na);
    var d := Scaled(s, Minus, elem, na);
    forall i | 0 <= i < |c.values| ensures d.ToList()[i] == c.ToList()[i] {
      if i !in c.nulls {
        assert s.values[i] == c.values[i] + elem;
      }
    }
  }

  /** `add_scala` / `sub_scala` / `mul_scala`. */
  method ArithScalar(c: Column<int>, op: ArithOp, elem: int, w: Width, na: int) returns (r: Column<int>)
    requires c.Valid() && InRange(w, na)
    requires forall i :: 0 <= i < c.Size() ==> InRange(w, Apply(op, c.values[i], elem))
    ensures r == Scaled(c, op, elem, na)
    ensures AllInRange(w, r.values)
  {
    var vec := FnNum(c, x => Apply(op, x, elem), na);
    r := Column(vec, c.nulls);
  }

  // ---------------------------------------------------------------------
  // greater_than_scala and friends

  /** The four scalar comparisons. */
  datatype CmpOp = Gt | Ge | Lt | Le

  function Holds(op: CmpOp, x: int, y: int): bool
  {
    match op
    case Gt => x > y
    case Ge => x >= y
    case Lt => x < y
    case Le => x <= y
  }

  /** The boolean list a scalar comparison denotes: no nulls, and `false`
      where the input is null. */
  function Compared(c: Column<int>, op: CmpOp, elem: int): Column<bool>
  {
    Column(seq(|c.values|, i requires 0 <= i < |c.values| =>
                 i !in c.nulls && Holds(op, c.values[i], elem)),
           {})
  }

  /** A scalar comparison is true exactly at the present elements that
      satisfy it; a null is read as `false`, never as null. */
  lemma ComparedElements(c: Column<int>, op: CmpOp, elem: int)
    requires c.Valid()
    ensures var r := Compared(c, op, elem);
            r.Valid() && r.Size() == c.Size() && r.CountNa() == 0 &&
            forall i :: 0 <= i < r.Size() ==>
              (r.ToList()[i] == Some(true) <==>
               c.ToList()[i].Some? && Holds(op, c.ToList()[i].value, elem))
  {
  }

  /** `<` and `>=` (and `>` and `<=`) disagree at every present element and
      are both `false` at a null. */
  lemma ComparedComplement(c: Column<int>, elem: int, i: nat)
    requires i < c.Size()
    ensures i !in c.nulls ==> Compared(c, Lt, elem).values[i] == !Compared(c, Ge, elem).values[i]
    ensures i !in c.nulls ==> Compared(c, Gt, elem).values[i] == !Compared(c, Le, elem).values[i]
    ensures i in c.nulls ==> !Compared(c, Lt, elem).values[i] && !Compared(c, Ge, elem).values[i]
  {
  }

  /** `greater_than_scala`, `greater_than_or_equal_scala`, `less_than_scala`,
      `less_than_or_equal_scala`. */
  method CompareWith(c: Column<int>, op: CmpOp, elem: int) returns (r: Column<bool>)
    requires c.Valid()
    ensures r == Compared(c, op, elem)
  {
    var vec := FnNum(c, x => Holds(op, x, elem), false);
    r := Column(vec, {});
  }
}
