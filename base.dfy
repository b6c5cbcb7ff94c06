/** The nullable list core shared by every dtype (`List` trait).

    A list is a vector of raw values plus the set of its null positions;
    a null position holds a per-type placeholder (`na_value`). The value of
    a list is `Column`; the object whose fields the in-place mutators
    (`append`, `pop`, `set`, `replace`, `_sort`) update is `List`. The
    operations that build a new list return its `Column`. */
module Base {
  import opened Wrappers
  import opened Index

  /** The positions `a`, ..., `b - 1`. */
  function Range(a: nat, b: nat): (r: set<nat>)
    ensures forall i :: i in r <==> a <= i < b
    decreases b - a
  {
    if a >= b then {} else {a} + Range(a + 1, b)
  }

  lemma {:induction false} RangeSize(a: nat, b: nat)
    requires a <= b
    ensures |Range(a, b)| == b - a
    decreases b - a
  {
    if a < b {
      RangeSize(a + 1, b);
      assert a !in Range(a + 1, b);
    }
  }

  /** A subset is no larger, and only as large when it is the whole set. */
  lemma {:induction false} SubsetSize(a: set<nat>, b: set<nat>)
    requires a <= b
    ensures |a| <= |b|
    ensures |a| == |b| ==> a == b
    decreases b
  {
    if b != {} {
      var x :| x in b;
      SubsetSize(a - {x}, b - {x});
      assert |b - {x}| == |b| - 1;
      if x in a {
        assert |a - {x}| == |a| - 1;
        assert a == (a - {x}) + {x};
      } else {
        assert a - {x} == a;
      }
    }
  }

  /** Every value wrapped as present. */
  function Somes<T>(s: seq<T>): (r: seq<Option<T>>)
    ensures |r| == |s|
    ensures forall i :: 0 <= i < |s| ==> r[i] == Some(s[i])
  {
    seq(|s|, i requires 0 <= i < |s| => Some(s[i]))
  }

  /** Wrapping as present keeps every multiplicity and adds no null. */
  lemma {:induction false} SomesMultiset<T>(s: seq<T>)
    ensures multiset(Somes(s))[None] == 0
    ensures forall x :: multiset(Somes(s))[Some(x)] == multiset(s)[x]
  {
    if |s| > 0 {
      var init := s[..|s| - 1];
      SomesMultiset(init);
      assert s == init + [s[|s| - 1]];
      assert Somes(s) == Somes(init) + [Some(s[|s| - 1])];
    } else {
      assert Somes(s) == [];
    }
  }

  /** The value of a typed list: the raw values and the null positions. */
  datatype Column<T> = Column(values: seq<T>, nulls: set<nat>) {

    /** Every null position lies inside the list. */
    ghost predicate Valid()
    {
      forall i :: i in nulls ==> i < |values|
    }

    /** `size`: the number of elements, nulls included. */
    function Size(): nat
    {
      |values|
    }

    /** `count_na`: the number of null positions. */
    function CountNa(): (m: nat)
      ensures Valid() ==> m <= Size()
    {
      assert Valid() ==> |nulls| <= |values| by {
        if Valid() {
          SubsetSize(nulls, Range(0, |values|));
          RangeSize(0, |values|);
        }
      }
      |nulls|
    }

    /** `to_list`: the elements as Python sees them, `None` at null positions. */
    function ToList(): (r: seq<Option<T>>)
      ensures |r| == |values|
      ensures forall i :: 0 <= i < |r| ==> (r[i] == None <==> i in nulls)
      ensures forall i :: 0 <= i < |r| && i !in nulls ==> r[i] == Some(values[i])
    {
      seq(|values|, i requires 0 <= i < |values| => if i in nulls then None else Some(values[i]))
    }
  }

  /** With the nulls exactly at the tail, the elements are the present prefix
      followed by nulls. */
  lemma TailNullsShape<T>(c: Column<T>, k: nat)
    requires k <= |c.values| && c.nulls == Range(k, |c.values|)
    ensures c.ToList() == Somes(c.values[..k]) + seq(|c.values| - k, _ => None)
  {
  }

  /** The elements of a list with its nulls at the tail, counted: each value
      occurs among the present prefix as often as it occurs as a present
      element. */
  lemma TailNullsCount<T>(c: Column<T>, k: nat)
    requires k <= |c.values| && c.nulls == Range(k, |c.values|)
    ensures forall x :: multiset(c.values[..k])[x] == multiset(c.ToList())[Some(x)]
  {
    TailNullsShape(c, k);
    SomesMultiset(c.values[..k]);
    var nones: seq<Option<T>> := seq(|c.values| - k, _ => None);
    forall x ensures multiset(nones)[Some(x)] == 0 {
      assert Some(x) !in nones;
    }
  }

  // ---------------------------------------------------------------------
  // _fill_na and _check_len_eq

  /** What `_fill_na` leaves in a buffer: the placeholder at the given
      positions, the old content elsewhere. */
  function Filled<T>(s: seq<T>, nulls: set<nat>, na: T): (r: seq<T>)
    ensures |r| == |s|
    ensures forall i :: 0 <= i < |s| ==> r[i] == (if i in nulls then na else s[i])
  {
    seq(|s|, i requires 0 <= i < |s| => if i in nulls then na else s[i])
  }

  /** `_fill_na`: overwrite the null positions of a buffer with the
      placeholder. The source writes through an unchecked pointer, so every
      position must lie inside the buffer. */
  method FillNa<T>(vec: array<T>, nulls: set<nat>, na: T)
    requires forall i :: i in nulls ==> i < vec.Length
    modifies vec
    ensures vec[..] == Filled(old(vec[..]), nulls, na)
  {
    var todo := nulls;
    while todo != {}
      invariant todo <= nulls
      invariant forall i :: 0 <= i < vec.Length ==>
        vec[i] == (if i in nulls - todo then na else old(vec[i]))
      decreases todo
    {
      var i :| i in todo;
      vec[i] := na;
      todo := todo - {i};
    }
  }

  /** `_check_len_eq`: a `RuntimeError` when the sizes differ. */
  function CheckLenEq<T, U>(a: Column<T>, b: Column<U>): (r: Outcome)
    ensures r == Pass <==> a.Size() == b.Size()
    ensures r.Fail? ==> r.error == RuntimeError
  {
    if a.Size() != b.Size() then Fail(RuntimeError) else Pass
  }

  // ---------------------------------------------------------------------
  // Lookup

  /** `get`: `None` at a null position, the value inside the list, an
      `IndexError` past the end. */
  function Get<T>(c: Column<T>, index: nat): (r: Result<Option<T>>)
    requires c.Valid()
    ensures r.Ok? <==> index < c.Size()
    ensures r.Err? ==> r.error == IndexError
    ensures r.Ok? ==> r.value == c.ToList()[index]
  {
    if index in c.nulls then Ok(None)
    else if index < |c.values| then Ok(Some(c.values[index]))
    else Err(IndexError)
  }

  /** Every position is below `n`. */
  predicate AllBelow(idx: seq<nat>, n: nat)
  {
    forall k :: 0 <= k < |idx| ==> idx[k] < n
  }

  /** The list made of the elements at the given positions, nulls included. */
  function Gather<T>(c: Column<T>, idx: seq<nat>): (r: Column<T>)
    requires AllBelow(idx, |c.values|)
    ensures r.Valid() && |r.values| == |idx|
    ensures forall k :: 0 <= k < |idx| ==> r.values[k] == c.values[idx[k]]
    ensures forall k :: 0 <= k < |idx| ==> r.ToList()[k] == c.ToList()[idx[k]]
  {
    Column(seq(|idx|, k requires 0 <= k < |idx| => c.values[idx[k]]),
           set k: nat | k < |idx| && idx[k] in c.nulls)
  }

  /** Gathering one more position appends its element and, when it is null,
      marks the new last position. */
  lemma GatherSnoc<T>(c: Column<T>, idx: seq<nat>, j: nat)
    requires AllBelow(idx, |c.values|) && j < |c.values|
    ensures AllBelow(idx + [j], |c.values|)
    ensures Gather(c, idx + [j]) ==
      Column(Gather(c, idx).values + [c.values[j]],
             Gather(c, idx).nulls + (if j in c.nulls then {|idx|} else {}))
  {
    var g, g' := Gather(c, idx), Gather(c, idx + [j]);
    assert g'.values == g.values + [c.values[j]];
    assert g'.nulls == g.nulls + (if j in c.nulls then {|idx|} else {});
  }

  /** `get_by_indexes`: only the last position is checked up front (an
      `IndexError`); an empty key panics in `back`, and an earlier position
      past the end panics at the unchecked read. */
  method GetByIndexes<T>(c: Column<T>, indexes: IndexList) returns (r: Result<Column<T>>)
    requires c.Valid()
    ensures Back(indexes).Err? ==> r == Err(Panic)
    ensures Back(indexes).Ok? && Back(indexes).value >= c.Size() ==> r == Err(IndexError)
    ensures Back(indexes).Ok? && Back(indexes).value < c.Size() ==>
      r == (if AllBelow(indexes.values, c.Size()) then Ok(Gather(c, indexes.values)) else Err(Panic))
  {
    var back := Back(indexes);
    if back.Err? {
      return Err(Panic);
    }
    if back.value >= |c.values| {
      return Err(IndexError);
    }
    var idx := indexes.values;
    var vec: seq<T> := [];
    var hset: set<nat> := {};
    var i := 0;
    while i < |idx|
      invariant 0 <= i <= |idx|
      invariant AllBelow(idx[..i], |c.values|)
      invariant Column(vec, hset) == Gather(c, idx[..i])
    {
      var j := idx[i];
      if j >= |c.values| {
        assert !AllBelow(idx, |c.values|);
        return Err(Panic);
      }
      assert idx[..i + 1] == idx[..i] + [j];
      GatherSnoc(c, idx[..i], j);
      vec := vec + [c.values[j]];
      if j in c.nulls {
        hset := hset + {i};
      }
      i := i + 1;
    }
    assert idx[..i] == idx;
    return Ok(Column(vec, hset));
  }

  // ---------------------------------------------------------------------
  // Filtering

  /** The number of `true` values. */
  function CountTrue(mask: seq<bool>): (k: nat)
    ensures k <= |mask|
  {
    if |mask| == 0 then 0
    else CountTrue(mask[..|mask| - 1]) + (if mask[|mask| - 1] then 1 else 0)
  }

  /** The positions holding `true`, in increasing order. */
  function TruePositions(mask: seq<bool>): (r: seq<nat>)
    ensures |r| == CountTrue(mask)
    ensures forall k :: 0 <= k < |r| ==> r[k] < |mask| && mask[r[k]]
    ensures forall k, k' :: 0 <= k < k' < |r| ==> r[k] < r[k']
  {
    if |mask| == 0 then []
    else
      var init := mask[..|mask| - 1];
      TruePositions(init) + (if mask[|mask| - 1] then [|mask| - 1] else [])
  }

  lemma TruePositionsSnoc(mask: seq<bool>, j: nat)
    requires j < |mask|
    ensures TruePositions(mask[..j + 1]) == TruePositions(mask[..j]) + (if mask[j] then [j] else [])
  {
    assert mask[..j + 1][..j] == mask[..j];
  }

  /** Every `true` position is listed. */
  lemma {:induction false} TruePositionsComplete(mask: seq<bool>, i: nat)
    requires i < |mask| && mask[i]
    ensures i in TruePositions(mask)
  {
    var n := |mask|;
    if i < n - 1 {
      var init := mask[..n - 1];
      TruePositionsComplete(init, i);
      assert TruePositions(mask)[..|TruePositions(init)|] == TruePositions(init);
    } else {
      assert TruePositions(mask)[|TruePositions(mask)| - 1] == i;
    }
  }

  /** `filter`: the elements at the positions where the condition's raw value
      is `true`, in order, with their null marks; a `RuntimeError` when the
      sizes differ. */
  method Filter<T>(c: Column<T>, condition: Column<bool>) returns (r: Result<Column<T>>)
    requires c.Valid()
    ensures c.Size() != condition.Size() ==> r == Err(RuntimeError)
    ensures c.Size() == condition.Size() ==> r == Ok(Gather(c, TruePositions(condition.values)))
  {
    if |c.values| != |condition.values| {
      return Err(RuntimeError);
    }
    var cond := condition.values;
    var vec: seq<T> := [];
    var hset: set<nat> := {};
    var i := 0;
    var j := 0;
    ghost var kept: seq<nat> := [];
    while j < |c.values|
      invariant 0 <= j <= |c.values|
      invariant kept == TruePositions(cond[..j]) && i == |kept|
      invariant AllBelow(kept, |c.values|)
      invariant Column(vec, hset) == Gather(c, kept)
    {
      TruePositionsSnoc(cond, j);
      if cond[j] {
        GatherSnoc(c, kept, j);
        vec := vec + [c.values[j]];
        if j in c.nulls {
          hset := hset + {i};
        }
        i := i + 1;
        kept := kept + [j];
      }
      j := j + 1;
    }
    assert cond[..j] == cond;
    return Ok(Column(vec, hset));
  }

  /** The positions of an all-`true` mask are all positions. */
  lemma {:induction false} TruePositionsAllTrue(mask: seq<bool>)
    requires forall i :: 0 <= i < |mask| ==> mask[i]
    ensures |TruePositions(mask)| == |mask|
    ensures forall k :: 0 <= k < |mask| ==> TruePositions(mask)[k] == k
  {
    if |mask| > 0 {
      TruePositionsAllTrue(mask[..|mask| - 1]);
    }
  }

  /** `filter` under an all-`true` condition returns the list unchanged. */
  lemma FilterAllTrue<T>(c: Column<T>, mask: seq<bool>)
    requires c.Valid() && |mask| == c.Size()
    requires forall i :: 0 <= i < |mask| ==> mask[i]
    ensures Gather(c, TruePositions(mask)) == c
  {
    TruePositionsAllTrue(mask);
    var idx := TruePositions(mask);
    var g := Gather(c, idx);
    assert g.values == c.values;
    forall k: nat
      ensures k in g.nulls <==> k in c.nulls
    {
      if k < |idx| {
        assert idx[k] == k;
      }
    }
    assert g.nulls == c.nulls;
  }

  // ---------------------------------------------------------------------
  // Whole-list construction

  /** `union_all`: the concatenation; the other list's null positions are
      shifted by this list's size. */
  function UnionAll<T>(a: Column<T>, b: Column<T>): (r: Column<T>)
    requires a.Valid() && b.Valid()
    ensures r.Valid()
    ensures r.ToList() == a.ToList() + b.ToList()
  {
    var n := |a.values|;
    var r := Column(a.values + b.values, a.nulls + set i | i in b.nulls :: i + n);
    assert r.ToList() == a.ToList() + b.ToList() by {
      forall i | n <= i < |r.values|
        ensures r.ToList()[i] == b.ToList()[i - n]
      {
        assert i in r.nulls <==> i - n in b.nulls by {
          assert (i - n) + n == i;
        }
      }
    }
    r
  }

  /** The stream `vec, vec, vec, ...` cut after `size` elements. */
  function CycleValues<T>(vec: seq<T>, size: nat): (r: seq<T>)
    requires |vec| > 0
    ensures |r| == size
    decreases size
  {
    if size <= |vec| then vec[..size] else vec + CycleValues(vec, size - |vec|)
  }

  /** Division with remainder is unique. */
  lemma ModUnique(x: int, n: int, q: int, r: int)
    requires n > 0 && 0 <= r < n && x == q * n + r
    ensures x % n == r && x / n == q
  {
    var q', r' := x / n, x % n;
    assert (q - q') * n == r' - r;
    if q - q' >= 1 {
      MulAtLeast(q - q', n);
    } else if q' - q >= 1 {
      MulAtLeast(q' - q, n);
    }
  }

  lemma MulAtLeast(d: int, n: int)
    requires d >= 1 && n > 0
    ensures d * n >= n
  {
  }

  lemma {:induction false} CycleValuesAt<T>(vec: seq<T>, size: nat, i: nat)
    requires |vec| > 0 && i < size
    ensures CycleValues(vec, size)[i] == vec[i % |vec|]
    decreases size
  {
    var n := |vec|;
    if i < n {
      ModUnique(i, n, 0, i);
    } else {
      CycleValuesAt(vec, size - n, i - n);
      ModUnique(i, n, (i - n) / n + 1, (i - n) % n);
    }
  }

  /** `cycle`: the source repeated until `size` elements, with no nulls; an
      empty source gives an empty list. */
  function Cycle<T>(vec: seq<T>, size: nat): (r: Column<T>)
    ensures r.nulls == {} && r.Valid()
    ensures |vec| == 0 ==> r.values == []
    ensures |vec| > 0 ==> |r.values| == size
    ensures |vec| > 0 ==> forall i :: 0 <= i < size ==> r.values[i] == vec[i % |vec|]
  {
    if |vec| == 0 then Column([], {})
    else
      var v := CycleValues(vec, size);
      assert forall i :: 0 <= i < size ==> v[i] == vec[i % |vec|] by {
        forall i | 0 <= i < size ensures v[i] == vec[i % |vec|] {
          CycleValuesAt(vec, size, i);
        }
      }
      Column(v, {})
  }

  /** `repeat`: `size` copies of one value, with no nulls. */
  function Repeat<T>(elem: T, size: nat): (r: Column<T>)
    ensures r.nulls == {} && |r.values| == size
    ensures forall i :: 0 <= i < size ==> r.values[i] == elem
  {
    Column(seq(size, _ => elem), {})
  }

  /** `repeat(x, n)` is `cycle([x], n)`. */
  lemma RepeatIsCycle<T>(elem: T, size: nat)
    ensures Repeat(elem, size) == Cycle([elem], size)
  {
    assert Repeat(elem, size).values == Cycle([elem], size).values;
  }

  // ---------------------------------------------------------------------
  // Comparisons

  /** `_cmp`: compare two lists position by position; a null on either side
      gives null (raw value `false`); a `RuntimeError` when the sizes differ. */
  method Cmp<T>(a: Column<T>, b: Column<T>, func: (T, T) -> bool) returns (r: Result<Column<bool>>)
    requires a.Valid() && b.Valid()
    ensures r.Err? <==> a.Size() != b.Size()
    ensures r.Err? ==> r.error == RuntimeError
    ensures r.Ok? ==> r.value.Valid() && r.value.Size() == a.Size()
    ensures r.Ok? ==> r.value.nulls == a.nulls + b.nulls
    ensures r.Ok? ==> forall i :: 0 <= i < a.Size() ==>
      r.value.values[i] == (if i in a.nulls + b.nulls then false else func(a.values[i], b.values[i]))
    ensures r.Ok? ==> forall i :: 0 <= i < a.Size() ==>
      r.value.ToList()[i] == (if a.ToList()[i].None? || b.ToList()[i].None? then None
                              else Some(func(a.values[i], b.values[i])))
  {
    if |a.values| != |b.values| {
      return Err(RuntimeError);
    }
    var n := |a.values|;
    var vec := new bool[n](i requires 0 <= i < n => func(a.values[i], b.values[i]));
    var hset := a.nulls + b.nulls;
    FillNa(vec, hset, false);
    return Ok(Column(vec[..], hset));
  }

  /** `equal`: elementwise `==` with simple null propagation. */
  method Equal<T(==)>(a: Column<T>, b: Column<T>) returns (r: Result<Column<bool>>)
    requires a.Valid() && b.Valid()
    ensures r.Err? <==> a.Size() != b.Size()
    ensures r.Ok? ==> r.value.Size() == a.Size()
    ensures r.Ok? ==> r.value.Valid() && forall i :: 0 <= i < a.Size() ==>
      r.value.ToList()[i] == (if a.ToList()[i].None? || b.ToList()[i].None? then None
                              else Some(a.values[i] == b.values[i]))
  {
    r := Cmp(a, b, (x, y) => x == y);
  }

  /** `not_equal`: elementwise `!=` with simple null propagation. */
  method NotEqual<T(==)>(a: Column<T>, b: Column<T>) returns (r: Result<Column<bool>>)
    requires a.Valid() && b.Valid()
    ensures r.Err? <==> a.Size() != b.Size()
    ensures r.Ok? ==> r.value.Size() == a.Size()
    ensures r.Ok? ==> r.value.Valid() && forall i :: 0 <= i < a.Size() ==>
      r.value.ToList()[i] == (if a.ToList()[i].None? || b.ToList()[i].None? then None
                              else Some(a.values[i] != b.values[i]))
  {
    r := Cmp(a, b, (x, y) => x != y);
  }

  /** `equal_scala` / `not_equal_scala`: compare every element with one
      value (`equal` selects `==`, otherwise `!=`); null positions stay null
      with raw value `false`. */
  method CompareScalar<T(==)>(c: Column<T>, elem: T, equal: bool) returns (r: Column<bool>)
    requires c.Valid()
    ensures r.Valid() && r.Size() == c.Size() && r.nulls == c.nulls
    ensures forall i :: 0 <= i < c.Size() ==>
      r.values[i] == (if i in c.nulls then false else (c.values[i] == elem) == equal)
  {
    var n := |c.values|;
    var vec := new bool[n](i requires 0 <= i < n => (c.values[i] == elem) == equal);
    FillNa(vec, c.nulls, false);
    return Column(vec[..], c.nulls);
  }

  // ---------------------------------------------------------------------
  // all_equal: Kleene equivalence folded with Kleene AND

  /** Kleene AND, `None` standing for unknown. */
  function KleeneAnd(p: Option<bool>, q: Option<bool>): Option<bool>
  {
    if p == Some(false) || q == Some(false) then Some(false)
    else if p == None || q == None then None
    else Some(true)
  }

  /** Kleene equivalence of two elements: unknown when either is null. */
  function Equiv<T(==)>(x: Option<T>, y: Option<T>): Option<bool>
  {
    if x.None? || y.None? then None else Some(x.value == y.value)
  }

  /** The elementwise equivalences of two lists of one size. */
  function Equivs<T(==)>(a: Column<T>, b: Column<T>): (r: seq<Option<bool>>)
    requires a.Size() == b.Size()
    ensures |r| == a.Size()
    ensures forall i :: 0 <= i < |r| ==> r[i] == Equiv(a.ToList()[i], b.ToList()[i])
  {
    seq(a.Size(), i requires 0 <= i < a.Size() => Equiv(a.ToList()[i], b.ToList()[i]))
  }

  /** Kleene AND over a sequence (true on the empty one). */
  function KleeneAll(s: seq<Option<bool>>): Option<bool>
  {
    if |s| == 0 then Some(true) else KleeneAnd(KleeneAll(s[..|s| - 1]), s[|s| - 1])
  }

  /** The fold is false iff some element is false, and true iff all are. */
  lemma {:induction false} KleeneAllCases(s: seq<Option<bool>>)
    ensures KleeneAll(s) == Some(false) <==> exists k :: 0 <= k < |s| && s[k] == Some(false)
    ensures KleeneAll(s) == Some(true) <==> forall k :: 0 <= k < |s| ==> s[k] == Some(true)
  {
    if |s| > 0 {
      var init, last := s[..|s| - 1], s[|s| - 1];
      KleeneAllCases(init);
      assert KleeneAll(s) == KleeneAnd(KleeneAll(init), last);
      assert forall k :: 0 <= k < |init| ==> init[k] == s[k];
      if KleeneAll(s) == Some(false) && last != Some(false) {
        var k :| 0 <= k < |init| && init[k] == Some(false);
        assert s[k] == Some(false);
      }
      if k :| 0 <= k < |init| && s[k] == Some(false) {
        assert init[k] == Some(false);
      }
      if KleeneAll(s) == Some(true) {
        assert last.Some? && last.value;
        assert KleeneAll(init) == Some(true) && last == Some(true);
      }
      if forall k :: 0 <= k < |s| ==> s[k] == Some(true) {
        assert last == Some(true);
        assert forall k :: 0 <= k < |init| ==> init[k] == Some(true);
      }
    }
  }

  /** The reference meaning of `all_equal`: false when the sizes differ,
      otherwise the Kleene AND of the elementwise equivalences. */
  function AllEqualSpec<T(==)>(a: Column<T>, b: Column<T>): Option<bool>
  {
    if a.Size() != b.Size() then Some(false) else KleeneAll(Equivs(a, b))
  }

  /** `all_equal`: scan the positions; a null makes the answer unknown, a
      present unequal pair makes it false at once. */
  method AllEqual<T(==)>(a: Column<T>, b: Column<T>) returns (r: Option<bool>)
    ensures r == AllEqualSpec(a, b)
  {
    if |a.values| != |b.values| {
      return Some(false);
    }
    var n := |a.values|;
    ghost var pairs := Equivs(a, b);
    var result := Some(true);
    var i := 0;
    while i < n
      invariant 0 <= i <= n
      invariant result == KleeneAll(pairs[..i])
      invariant result != Some(false)
    {
      assert pairs[..i + 1][..i] == pairs[..i];
      if i in a.nulls || i in b.nulls {
        result := None;
      } else if a.values[i] != b.values[i] {
        KleeneAllCases(pairs);
        assert pairs[i] == Some(false);
        return Some(false);
      }
      i := i + 1;
    }
    assert pairs[..i] == pairs;
    return result;
  }

  /** The three answers of `all_equal`, each with its exact condition. */
  lemma AllEqualCases<T>(a: Column<T>, b: Column<T>)
    requires a.Valid() && b.Valid()
    ensures AllEqualSpec(a, b) == Some(false) <==>
      a.Size() != b.Size() ||
      exists i :: 0 <= i < a.Size() && i !in a.nulls && i !in b.nulls && a.values[i] != b.values[i]
    ensures AllEqualSpec(a, b) == Some(true) <==>
      a.Size() == b.Size() && a.nulls == {} && b.nulls == {} && a.values == b.values
    ensures AllEqualSpec(a, b) == None <==>
      a.Size() == b.Size() &&
      (forall i :: 0 <= i < a.Size() && i !in a.nulls && i !in b.nulls ==> a.values[i] == b.values[i]) &&
      (a.nulls != {} || b.nulls != {})
  {
    if a.Size() == b.Size() {
      var n := a.Size();
      var pairs := Equivs(a, b);
      KleeneAllCases(pairs);
      assert forall i :: 0 <= i < n ==>
        (pairs[i] == Some(false) <==> i !in a.nulls && i !in b.nulls && a.values[i] != b.values[i]);
      assert forall i :: 0 <= i < n ==>
        (pairs[i] == Some(true) <==> i !in a.nulls && i !in b.nulls && a.values[i] == b.values[i]);
      if a.nulls != {} {
        var i :| i in a.nulls;
        assert pairs[i] == None;
      }
      if b.nulls != {} {
        var i :| i in b.nulls;
        assert pairs[i] == None;
      }
    }
  }

  // ---------------------------------------------------------------------
  // The in-place mutators, as transformations of the list value

  /** What `append` leaves: the value pushed, or the placeholder pushed and
      its position marked null. */
  function Appended<T>(c: Column<T>, elem: Option<T>, na: T): Column<T>
  {
    match elem
    case Some(v) => Column(c.values + [v], c.nulls)
    case None => Column(c.values + [na], c.nulls + {|c.values|})
  }

  /** What `pop` leaves on a non-empty list: the last value and its null
      mark dropped. */
  function Popped<T>(c: Column<T>): Column<T>
    requires |c.values| > 0
  {
    Column(c.values[..|c.values| - 1], c.nulls - {|c.values| - 1})
  }

  /** What `set` leaves: the value written and the mark removed, or the
      placeholder written and the mark added. */
  function Assigned<T>(c: Column<T>, index: nat, elem: Option<T>, na: T): Column<T>
    requires index < |c.values|
  {
    match elem
    case Some(v) => Column(c.values[index := v], c.nulls - {index})
    case None => Column(c.values[index := na], c.nulls + {index})
  }

  /** `append` adds exactly one element at the end, as given. */
  lemma AppendedList<T>(c: Column<T>, elem: Option<T>, na: T)
    requires c.Valid()
    ensures Appended(c, elem, na).Valid()
    ensures Appended(c, elem, na).ToList() == c.ToList() + [elem]
  {
  }

  /** `pop` after `append` restores the values and the null set. */
  lemma PopAfterAppend<T>(c: Column<T>, elem: Option<T>, na: T)
    requires c.Valid()
    ensures Popped(Appended(c, elem, na)) == c
  {
    var p := Popped(Appended(c, elem, na));
    assert p.values == c.values;
    assert |c.values| !in c.nulls;
  }

  /** After `set`, `get` at that position returns what was written; every
      other position, the size and every other null mark are unchanged. */
  lemma GetAfterSet<T>(c: Column<T>, index: nat, elem: Option<T>, na: T, j: nat)
    requires c.Valid() && index < c.Size()
    ensures Assigned(c, index, elem, na).Valid()
    ensures Assigned(c, index, elem, na).Size() == c.Size()
    ensures Get(Assigned(c, index, elem, na), index) == Ok(elem)
    ensures j != index ==> Get(Assigned(c, index, elem, na), j) == Get(c, j)
    ensures Assigned(c, index, elem, na).nulls - {index} == c.nulls - {index}
  {
  }

  /** What `replace(old, new)` leaves. Present/present rewrites every equal
      raw value; present/null nulls every equal raw value; null/present
      fills every null position and clears the marks; null/null does
      nothing. */
  function Replaced<T(==)>(c: Column<T>, oldElem: Option<T>, newElem: Option<T>, na: T): Column<T>
  {
    var n := |c.values|;
    match (oldElem, newElem)
    case (Some(o), Some(v)) =>
      Column(seq(n, i requires 0 <= i < n => if c.values[i] == o then v else c.values[i]), c.nulls)
    case (Some(o), None) =>
      Column(seq(n, i requires 0 <= i < n => if c.values[i] == o then na else c.values[i]),
             c.nulls + set i: nat | i < n && c.values[i] == o)
    case (None, Some(v)) =>
      Column(seq(n, i requires 0 <= i < n => if i in c.nulls then v else c.values[i]), {})
    case (None, None) => c
  }

  /** `replace` never changes the size; each case acts as described on the
      elements Python sees. */
  lemma ReplacedElements<T>(c: Column<T>, oldElem: Option<T>, newElem: Option<T>, na: T)
    requires c.Valid()
    ensures Replaced(c, oldElem, newElem, na).Valid()
    ensures Replaced(c, oldElem, newElem, na).Size() == c.Size()
    ensures oldElem.Some? && newElem.Some? ==>
      Replaced(c, oldElem, newElem, na).nulls == c.nulls &&
      forall i :: 0 <= i < c.Size() && i !in c.nulls ==>
        Replaced(c, oldElem, newElem, na).ToList()[i] ==
          (if c.values[i] == oldElem.value then newElem else c.ToList()[i])
    ensures oldElem.Some? && newElem.None? ==>
      forall i :: 0 <= i < c.Size() ==>
        Replaced(c, oldElem, newElem, na).ToList()[i] ==
          (if c.values[i] == oldElem.value then None else c.ToList()[i])
    ensures oldElem.None? && newElem.Some? ==>
      Replaced(c, oldElem, newElem, na).nulls == {} &&
      forall i :: 0 <= i < c.Size() ==>
        Replaced(c, oldElem, newElem, na).ToList()[i] ==
          (if i in c.nulls then newElem else c.ToList()[i])
    ensures oldElem.None? && newElem.None? ==> Replaced(c, oldElem, newElem, na) == c
  {
  }

  // ---------------------------------------------------------------------
  // The list object

  class List<T(==)> {
    var values: seq<T>
    var nulls: set<nat>
    /** The placeholder stored at null positions (`na_value`). */
    const naValue: T

    ghost predicate Valid()
      reads this
    {
      Value().Valid()
    }

    /** The list's current value. */
    function Value(): Column<T>
      reads this
    {
      Column(values, nulls)
    }

    /** `_new(vec, hset)`. */
    constructor (c: Column<T>, naValue: T)
      requires c.Valid()
      ensures Valid() && Value() == c && this.naValue == naValue
    {
      values, nulls := c.values, c.nulls;
      this.naValue := naValue;
    }

    /** `copy`: an independent list with the same value. */
    method Copy() returns (r: List<T>)
      requires Valid()
      ensures fresh(r) && r.Valid() && r.Value() == Value() && r.naValue == naValue
    {
      r := new List(Value(), naValue);
    }

    /** `append`. */
    method Append(elem: Option<T>)
      requires Valid()
      modifies this
      ensures Valid()
      ensures Value() == Appended(old(Value()), elem, naValue)
    {
      if elem.Some? {
        values := values + [elem.value];
      } else {
        nulls := nulls + {|values|};
        values := values + [naValue];
      }
    }

    /** `pop`: on an empty list `size() - 1` underflows and the program
        panics before anything changes. */
    method Pop() returns (r: Outcome)
      requires Valid()
      modifies this
      ensures Valid()
      ensures old(|values|) == 0 ==> r == Fail(Panic) && Value() == old(Value())
      ensures old(|values|) > 0 ==> r == Pass && Value() == Popped(old(Value()))
    {
      if |values| == 0 {
        return Fail(Panic);
      }
      var i := |values| - 1;
      if i in nulls {
        nulls := nulls - {i};
      }
      values := values[..i];
      assert nulls == old(nulls) - {i};
      return Pass;
    }

    /** `set`: an `IndexError` past the end, leaving the list unchanged. */
    method Set(index: nat, elem: Option<T>) returns (r: Outcome)
      requires Valid()
      modifies this
      ensures Valid()
      ensures index >= old(|values|) ==> r == Fail(IndexError) && Value() == old(Value())
      ensures index < old(|values|) ==> r == Pass && Value() == Assigned(old(Value()), index, elem, naValue)
    {
      if index >= |values| {
        return Fail(IndexError);
      }
      if elem.Some? {
        values := values[index := elem.value];
        nulls := nulls - {index};
      } else {
        values := values[index := naValue];
        nulls := nulls + {index};
      }
      return Pass;
    }

    /** `replace`: dispatch on which of the two arguments are null. */
    method Replace(oldElem: Option<T>, newElem: Option<T>)
      requires Valid()
      modifies this
      ensures Valid()
      ensures Value() == Replaced(old(Value()), oldElem, newElem, naValue)
    {
      if oldElem.Some? {
        if newElem.Some? {
          ReplaceElem(oldElem.value, newElem.value);
        } else {
          ReplaceByNa(oldElem.value);
        }
      } else if newElem.Some? {
        ReplaceNa(newElem.value);
      }
    }

    /** `replace_elem`: every raw value equal to `oldElem` becomes `newElem`. */
    method ReplaceElem(oldElem: T, newElem: T)
      requires Valid()
      modifies this
      ensures Valid()
      ensures Value() == Replaced(old(Value()), Some(oldElem), Some(newElem), naValue)
    {
      var n := |values|;
      var i := 0;
      while i < n
        invariant 0 <= i <= n && |values| == n && nulls == old(nulls)
        invariant forall k :: 0 <= k < n ==>
          values[k] == (if k < i && old(values)[k] == oldElem then newElem else old(values)[k])
      {
        if values[i] == oldElem {
          values := values[i := newElem];
        }
        i := i + 1;
      }
    }

    /** `replace_by_na`: every raw value equal to `oldElem` becomes the
        placeholder and its position is marked null. */
    method ReplaceByNa(oldElem: T)
      requires Valid()
      modifies this
      ensures Valid()
      ensures Value() == Replaced(old(Value()), Some(oldElem), None, naValue)
    {
      var n := |values|;
      var i := 0;
      while i < n
        invariant 0 <= i <= n && |values| == n
        invariant forall k :: 0 <= k < n ==>
          values[k] == (if k < i && old(values)[k] == oldElem then naValue else old(values)[k])
        invariant nulls == old(nulls) + set k: nat | k < i && old(values)[k] == oldElem
      {
        if values[i] == oldElem {
          values := values[i := naValue];
          nulls := nulls + {i};
        }
        i := i + 1;
      }
    }

    /** `replace_na`: every null position receives `newElem`; no null is left. */
    method ReplaceNa(newElem: T)
      requires Valid()
      modifies this
      ensures Valid()
      ensures Value() == Replaced(old(Value()), None, Some(newElem), naValue)
    {
      var todo := nulls;
      while todo != {}
        invariant todo <= nulls && nulls == old(nulls) && |values| == |old(values)|
        invariant forall k :: 0 <= k < |values| ==>
          values[k] == (if k in nulls - todo then newElem else old(values)[k])
        decreases todo
      {
        var i :| i in todo;
        values := values[i := newElem];
        todo := todo - {i};
      }
      nulls := {};
    }

    /** `_sort`: move every null to the tail with a two-pointer swap loop.
        Afterwards the null positions are exactly the last `count_na`
        positions, and the elements are a permutation of the old ones; a
        list with no present element is left alone. */
    method SortNulls()
      requires Valid()
      modifies this
      ensures Valid()
      ensures |values| == old(|values|) && |nulls| == old(|nulls|) && |nulls| <= |values|
      ensures nulls == Range(|values| - |nulls|, |values|)
      ensures multiset(Value().ToList()) == multiset(old(Value()).ToList())
      ensures old(|nulls|) == old(|values|) ==> Value() == old(Value())
    {
      var n := |values|;
      var m := |nulls|;
      assert Value().CountNa() <= n;
      if m == n {
        RangeSize(0, n);
        SubsetSize(nulls, Range(0, n));
        return;
      }
      values, nulls := NullsToTail(values, nulls);
    }
  }

  /** The state `_sort`'s swap loop keeps: no null left of `l`, only nulls
      right of `r`, and while a null remains, one between the pointers. */
  ghost predicate SortState(hset: set<nat>, l: nat, r: nat, n: nat)
  {
    l <= r < n &&
    (forall i :: i in hset ==> i < n) &&
    (forall i :: 0 <= i < l ==> i !in hset) &&
    (forall i :: r < i < n ==> i in hset) &&
    (hset != {} ==> exists i :: l <= i <= r && i in hset)
  }

  /** The swap loop of `_sort`, on a list with at least one present element:
      `l` looks for a null from the left, `r` for a present element from the
      right, and the two are exchanged until they meet. */
  method NullsToTail<T>(values: seq<T>, nulls: set<nat>) returns (vec: seq<T>, hset: set<nat>)
    requires Column(values, nulls).Valid() && |nulls| < |values|
    ensures |vec| == |values| && |hset| == |nulls|
    ensures hset == Range(|vec| - |hset|, |vec|)
    ensures multiset(Column(vec, hset).ToList()) == multiset(Column(values, nulls).ToList())
  {
    var n := |values|;
    vec, hset := values, nulls;
    var l: nat := 0;
    var r: nat := n - 1;
    while l < r && hset != {}
      invariant SortState(hset, l, r, n) && |vec| == n && |hset| == |nulls|
      invariant multiset(Column(vec, hset).ToList()) == multiset(Column(values, nulls).ToList())
      decreases r - l, if l in hset then 1 else 0
    {
      vec, hset, l, r := SwapRound(vec, hset, l, r);
    }
    TailNulls(hset, l, r, n);
  }

  /** One pass of the outer loop of `_sort`: the two inner loops, then the
      exchange. */
  method SwapRound<T>(vec: seq<T>, hset: set<nat>, l: nat, r: nat)
    returns (vec': seq<T>, hset': set<nat>, l': nat, r': nat)
    requires SortState(hset, l, r, |vec|) && l < r && hset != {}
    ensures SortState(hset', l', r', |vec|) && |vec'| == |vec| && |hset'| == |hset|
    ensures multiset(Column(vec', hset').ToList()) == multiset(Column(vec, hset).ToList())
    ensures r' - l' < r - l || (r' - l' == r - l && l in hset && l' !in hset')
  {
    l' := SkipPresent(hset, l, r);
    r' := SkipNulls(hset, l', r, |vec|);
    // When the pointers meet, `l'` is a null position and the swap and the
    // set updates change nothing.
    SwapStep(vec, hset, l', r');
    vec' := vec[l' := vec[r']][r' := vec[l']];
    hset' := hset - {l'} + {r'};
    assert r' in hset';
  }

  /** The first inner loop of `_sort`: advance `l` to a null position, or
      to `r`, whichever comes first. */
  method SkipPresent(hset: set<nat>, l0: nat, r: nat) returns (l: nat)
    requires l0 <= r && exists i :: l0 <= i <= r && i in hset
    ensures l0 <= l <= r && l in hset
    ensures forall i :: l0 <= i < l ==> i !in hset
  {
    l := l0;
    while l < r && l !in hset
      invariant l0 <= l <= r
      invariant forall i :: l0 <= i < l ==> i !in hset
      invariant exists i :: l <= i <= r && i in hset
    {
      l := l + 1;
    }
  }

  /** The second inner loop of `_sort`: move `r` down past null positions,
      stopping at `l`. */
  method SkipNulls(hset: set<nat>, l: nat, r0: nat, n: nat) returns (r: nat)
    requires l <= r0 < n && l in hset
    ensures l <= r <= r0
    ensures forall i :: r < i <= r0 ==> i in hset
    ensures l < r ==> r !in hset
  {
    r := r0;
    while l < r && r in hset
      invariant l <= r <= r0
      invariant forall i :: r < i <= r0 ==> i in hset
    {
      r := r - 1;
    }
  }

  /** One exchange of `_sort`: a null position `l` and a present position
      `r` trade their values and their null marks. */
  lemma SwapStep<T>(vec: seq<T>, hset: set<nat>, l: nat, r: nat)
    requires l <= r < |vec| && l in hset && (l == r || r !in hset)
    ensures var vec' := vec[l := vec[r]][r := vec[l]];
            var hset' := hset - {l} + {r};
            |hset'| == |hset| &&
            multiset(Column(vec', hset').ToList()) == multiset(Column(vec, hset).ToList())
  {
    var vec' := vec[l := vec[r]][r := vec[l]];
    var hset' := hset - {l} + {r};
    var items := Column(vec, hset).ToList();
    if l == r {
      assert vec' == vec && hset' == hset;
    } else {
      assert |hset - {l}| == |hset| - 1;
      assert Column(vec', hset').ToList() == items[l := items[r]][r := items[l]];
    }
  }

  /** Where `_sort` stops, the nulls are exactly the tail positions. */
  lemma TailNulls(hset: set<nat>, l: nat, r: nat, n: nat)
    requires SortState(hset, l, r, n)
    requires !(l < r && hset != {})
    ensures |hset| <= n && hset == Range(n - |hset|, n)
  {
    if hset != {} {
      assert hset == Range(l, n);
      RangeSize(l, n);
    }
  }
}
