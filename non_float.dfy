/** The operations of lists whose element type has a total order and a
    hash (`NonFloatList`): `sort`, `unique` and `counter`. */
module NonFloat {
  import opened Wrappers
  import opened Base

  // ---------------------------------------------------------------------
  // Orders

  /** `leq` is a total order (Rust's `Ord`). */
  ghost predicate TotalOrder<T(!new)>(leq: (T, T) -> bool)
  {
    (forall x, y :: leq(x, y) && leq(y, x) ==> x == y) &&
    (forall x, y, z :: leq(x, y) && leq(y, z) ==> leq(x, z)) &&
    (forall x, y :: leq(x, y) || leq(y, x))
  }

  /** The order `b.cmp(a)` that `sort(false)` uses. */
  function Flip<T>(leq: (T, T) -> bool): (T, T) -> bool
  {
    (x, y) => leq(y, x)
  }

  lemma FlipTotal<T(!new)>(leq: (T, T) -> bool)
    requires TotalOrder(leq)
    ensures TotalOrder(Flip(leq))
  {
  }

  predicate Sorted<T>(s: seq<T>, leq: (T, T) -> bool)
  {
    forall i, j :: 0 <= i < j < |s| ==> leq(s[i], s[j])
  }

  /** `Ord` for `i32`/`i64`. */
  function IntLeq(x: int, y: int): bool
  {
    x <= y
  }

  /** `Ord` for `bool`: `false < true`. */
  function BoolLeq(x: bool, y: bool): bool
  {
    !x || y
  }

  /** `Ord` for `String`: lexicographic, a proper prefix first. */
  function StringLeq(x: string, y: string): bool
  {
    if |x| == 0 then true
    else if |y| == 0 then false
    else if x[0] != y[0] then x[0] < y[0]
    else StringLeq(x[1..], y[1..])
  }

  lemma IntLeqTotal()
    ensures TotalOrder(IntLeq)
  {
  }

  lemma BoolLeqTotal()
    ensures TotalOrder(BoolLeq)
  {
  }

  lemma {:induction false} StringLeqAntisymmetric(x: string, y: string)
    requires StringLeq(x, y) && StringLeq(y, x)
    ensures x == y
  {
    if |x| > 0 && |y| > 0 {
      StringLeqAntisymmetric(x[1..], y[1..]);
      assert x == [x[0]] + x[1..] && y == [y[0]] + y[1..];
    }
  }

  lemma {:induction false} StringLeqTransitive(x: string, y: string, z: string)
    requires StringLeq(x, y) && StringLeq(y, z)
    ensures StringLeq(x, z)
  {
    if |x| > 0 && |y| > 0 && |z| > 0 && x[0] == y[0] && y[0] == z[0] {
      StringLeqTransitive(x[1..], y[1..], z[1..]);
    }
  }

  lemma {:induction false} StringLeqTotal(x: string, y: string)
    ensures StringLeq(x, y) || StringLeq(y, x)
  {
    if |x| > 0 && |y| > 0 && x[0] == y[0] {
      StringLeqTotal(x[1..], y[1..]);
    }
  }

  lemma StringLeqTotalOrder()
    ensures TotalOrder(StringLeq)
  {
    forall x, y | StringLeq(x, y) && StringLeq(y, x) ensures x == y {
      StringLeqAntisymmetric(x, y);
    }
    forall x, y, z | StringLeq(x, y) && StringLeq(y, z) ensures StringLeq(x, z) {
      StringLeqTransitive(x, y, z);
    }
    forall x, y ensures StringLeq(x, y) || StringLeq(y, x) {
      StringLeqTotal(x, y);
    }
  }

  // ---------------------------------------------------------------------
  // Sorting the present prefix

  /** `x` inserted before the first element it is at most. */
  function Insert<T>(x: T, s: seq<T>, leq: (T, T) -> bool): (r: seq<T>)
    ensures multiset(r) == multiset(s) + multiset{x}
  {
    if |s| == 0 then [x]
    else if leq(x, s[0]) then [x] + s
    else
      assert s == [s[0]] + s[1..];
      [s[0]] + Insert(x, s[1..], leq)
  }

  lemma {:induction false} InsertSorted<T(!new)>(x: T, s: seq<T>, leq: (T, T) -> bool)
    requires TotalOrder(leq) && Sorted(s, leq)
    ensures Sorted(Insert(x, s, leq), leq)
  {
    if |s| > 0 && !leq(x, s[0]) {
      var rest := Insert(x, s[1..], leq);
      InsertSorted(x, s[1..], leq);
      forall y | y in rest ensures leq(s[0], y) {
        assert y in multiset(rest);
        if y != x {
          assert y in s[1..];
        }
      }
    }
  }

  /** The reference arrangement of a slice by a total order (the effect of
      `sort_unstable` / `sort_unstable_by`). */
  function SortBy<T>(s: seq<T>, leq: (T, T) -> bool): (r: seq<T>)
    ensures multiset(r) == multiset(s)
  {
    if |s| == 0 then []
    else
      assert s == [s[0]] + s[1..];
      Insert(s[0], SortBy(s[1..], leq), leq)
  }

  lemma {:induction false} SortBySorted<T(!new)>(s: seq<T>, leq: (T, T) -> bool)
    requires TotalOrder(leq)
    ensures Sorted(SortBy(s, leq), leq)
  {
    if |s| > 0 {
      SortBySorted(s[1..], leq);
      InsertSorted(s[0], SortBy(s[1..], leq), leq);
    }
  }

  /** Under a total order there is one sorted arrangement of a multiset: the
      result of `sort` does not depend on which unstable sort produced it. */
  lemma {:induction false} SortedUnique<T(!new)>(a: seq<T>, b: seq<T>, leq: (T, T) -> bool)
    requires TotalOrder(leq) && Sorted(a, leq) && Sorted(b, leq)
    requires multiset(a) == multiset(b)
    ensures a == b
  {
    if |a| == 0 {
      assert |b| == |multiset(b)| == 0;
    } else {
      assert |b| == |multiset(b)| == |a|;
      SortedHeads(a, b, leq);
      TailsPermutation(a, b);
      SortedUnique(a[1..], b[1..], leq);
    }
  }

  lemma SortedHeads<T(!new)>(a: seq<T>, b: seq<T>, leq: (T, T) -> bool)
    requires |a| > 0 && |b| > 0 && Sorted(a, leq) && Sorted(b, leq)
    requires multiset(a) == multiset(b)
    requires forall x, y :: leq(x, y) && leq(y, x) ==> x == y
    ensures a[0] == b[0]
  {
    assert a[0] in multiset(b) && b[0] in multiset(a);
    var i :| 0 <= i < |b| && b[i] == a[0];
    var j :| 0 <= j < |a| && a[j] == b[0];
    if i > 0 && j > 0 {
      assert leq(b[0], b[i]) && leq(a[0], a[j]);
    }
  }

  lemma TailsPermutation<T>(a: seq<T>, b: seq<T>)
    requires |a| > 0 && |b| > 0 && a[0] == b[0]
    requires multiset(a) == multiset(b)
    ensures multiset(a[1..]) == multiset(b[1..])
  {
    assert a == [a[0]] + a[1..] && b == [b[0]] + b[1..];
    forall x ensures multiset(a[1..])[x] == multiset(b[1..])[x] {
      assert multiset(a)[x] == multiset{a[0]}[x] + multiset(a[1..])[x];
      assert multiset(b)[x] == multiset{a[0]}[x] + multiset(b[1..])[x];
    }
  }

  /** Wrapping as present carries a permutation over. */
  lemma SomesPermutation<T>(a: seq<T>, b: seq<T>)
    requires multiset(a) == multiset(b)
    ensures multiset(Somes(a)) == multiset(Somes(b))
  {
    SomesMultiset(a);
    SomesMultiset(b);
    forall o: Option<T> ensures multiset(Somes(a))[o] == multiset(Somes(b))[o] {
      if o.Some? {
        assert multiset(Somes(a))[o] == multiset(a)[o.value];
      }
    }
  }

  /** Replacing the present prefix of a list whose nulls are at the tail by
      a permutation of it keeps the elements, counted. */
  lemma PermutePrefix<T>(before: Column<T>, k: nat, sorted: seq<T>)
    requires k <= |before.values| && before.nulls == Range(k, |before.values|)
    requires multiset(sorted) == multiset(before.values[..k])
    ensures var after := Column(sorted + before.values[k..], before.nulls);
            |sorted| == k && after.Valid() && after.values[..k] == sorted &&
            multiset(after.ToList()) == multiset(before.ToList()) &&
            forall x :: multiset(sorted)[x] == multiset(before.ToList())[Some(x)]
  {
    var after := Column(sorted + before.values[k..], before.nulls);
    assert |sorted| == |multiset(sorted)| == k;
    assert after.values[..k] == sorted;
    SamePrefixShape(before, after, k);
    TailNullsCount(before, k);
  }

  lemma SamePrefixShape<T>(before: Column<T>, after: Column<T>, k: nat)
    requires k <= |before.values| == |after.values|
    requires before.nulls == after.nulls == Range(k, |before.values|)
    requires multiset(after.values[..k]) == multiset(before.values[..k])
    ensures multiset(after.ToList()) == multiset(before.ToList())
  {
    var nones: seq<Option<T>> := seq(|before.values| - k, _ => None);
    TailNullsShape(before, k);
    TailNullsShape(after, k);
    SomesPermutation(before.values[..k], after.values[..k]);
    calc {
      multiset(after.ToList());
      multiset(Somes(after.values[..k]) + nones);
      multiset(Somes(after.values[..k])) + multiset(nones);
      multiset(Somes(before.values[..k])) + multiset(nones);
      multiset(Somes(before.values[..k]) + nones);
      multiset(before.ToList());
    }
  }

  /** What `sort` leaves behind: the same length and number of nulls, the
      nulls at the tail, the present prefix ordered by `order` and holding
      exactly the present elements of `before`, and the same elements
      overall, counted. */
  ghost predicate SortedFrom<T(!new)>(before: Column<T>, after: Column<T>, order: (T, T) -> bool)
  {
    after.Valid() &&
    |after.values| == |before.values| && |after.nulls| == |before.nulls| &&
    |after.nulls| <= |after.values| &&
    after.nulls == Range(|after.values| - |after.nulls|, |after.values|) &&
    Sorted(after.values[..|after.values| - |after.nulls|], order) &&
    (forall x :: multiset(after.values[..|after.values| - |after.nulls|])[x]
               == multiset(before.ToList())[Some(x)]) &&
    multiset(after.ToList()) == multiset(before.ToList())
  }

  /** `sort`: move the nulls to the tail (`_sort`), then sort the present
      prefix, ascending by `leq` or descending. */
  method Sort<T(==,!new)>(list: List<T>, ascending: bool, leq: (T, T) -> bool)
    requires list.Valid() && TotalOrder(leq)
    modifies list
    ensures list.Valid()
    ensures SortedFrom(old(list.Value()), list.Value(), if ascending then leq else Flip(leq))
  {
    ghost var start := list.Value();
    list.SortNulls();
    ghost var mid := list.Value();
    var k := |list.values| - |list.nulls|;
    var order := if ascending then leq else Flip(leq);
    list.values := SortBy(list.values[..k], order) + list.values[k..];
    SortPrefixFacts(start, mid, k, order, leq);
  }

  /** `RefCell::borrow`: refused, with a panic, while a mutable borrow of the
      same cell is outstanding. */
  function Borrow(mutablyBorrowed: bool): (r: Outcome)
    ensures r.Fail? <==> mutablyBorrowed
    ensures r.Fail? ==> r.error == Panic
  {
    if mutablyBorrowed then Fail(Panic) else Pass
  }

  /** `sort` as the source has it: `_sort` runs to completion, then
      `values_mut()` takes a mutable borrow of the values and, while that
      borrow is held, `size()` asks `values()` for a shared borrow of the
      same cell, which panics. The nulls end at the tail and the present
      prefix is left as `_sort` arranged it. */
  method SortAsWritten<T(==,!new)>(list: List<T>, ascending: bool, leq: (T, T) -> bool) returns (r: Outcome)
    requires list.Valid() && TotalOrder(leq)
    modifies list
    ensures r == Fail(Panic)
    ensures list.Valid() && |list.nulls| <= |list.values|
    ensures list.nulls == Range(|list.values| - |list.nulls|, |list.values|)
    ensures multiset(list.Value().ToList()) == multiset(old(list.Value()).ToList())
  {
    list.SortNulls();
    var valuesMutHeld := true;
    r := Borrow(valuesMutHeld);
  }

  /** Sorting the present prefix of a list whose nulls are at the tail,
      where that list holds the elements of `before`. */
  lemma SortPrefixFacts<T(!new)>(before: Column<T>, c: Column<T>, k: nat,
                                 order: (T, T) -> bool, leq: (T, T) -> bool)
    requires TotalOrder(leq) && (order == leq || order == Flip(leq))
    requires |c.values| == |before.values| && |c.nulls| == |before.nulls|
    requires k == |c.values| - |c.nulls| && c.nulls == Range(k, |c.values|)
    requires multiset(c.ToList()) == multiset(before.ToList())
    ensures SortedFrom(before, Column(SortBy(c.values[..k], order) + c.values[k..], c.nulls), order)
  {
    FlipTotal(leq);
    var sorted := SortBy(c.values[..k], order);
    SortBySorted(c.values[..k], order);
    PermutePrefix(c, k, sorted);
    var after := Column(sorted + c.values[k..], c.nulls);
    assert after.values[..k] == sorted;
  }

  // ---------------------------------------------------------------------
  // unique

  /** The values at present positions: what `unique` deduplicates. */
  function PresentValues<T(==,!new)>(c: Column<T>): (r: set<T>)
    ensures forall x :: x in r <==> Some(x) in c.ToList()
  {
    var r := set i | 0 <= i < |c.values| && i !in c.nulls :: c.values[i];
    assert forall x :: Some(x) in c.ToList() ==> x in r by {
      forall x | Some(x) in c.ToList() ensures x in r {
        var i :| 0 <= i < |c.values| && c.ToList()[i] == Some(x);
      }
    }
    r
  }

  /** No value twice. */
  predicate Distinct<T(==)>(s: seq<T>)
  {
    forall i, j :: 0 <= i < j < |s| ==> s[i] != s[j]
  }

  /** The set `dedup` built by the first loop of `unique`. */
  method Dedup<T(==,!new)>(c: Column<T>) returns (dedup: set<T>)
    ensures dedup == PresentValues(c)
  {
    dedup := {};
    var i := 0;
    while i < |c.values|
      invariant 0 <= i <= |c.values|
      invariant dedup == set k | 0 <= k < i && k !in c.nulls :: c.values[k]
    {
      if i !in c.nulls {
        dedup := dedup + {c.values[i]};
      }
      i := i + 1;
    }
  }

  /** The second loop of `unique`: the elements of `dedup` written one by
      one to consecutive slots, in the set's iteration order. */
  method Enumerate<T(==,!new)>(dedup: set<T>) returns (vec: seq<T>)
    ensures |vec| == |dedup| && Distinct(vec)
    ensures forall x :: x in vec <==> x in dedup
  {
    vec := [];
    var rest := dedup;
    while rest != {}
      invariant rest <= dedup && |vec| + |rest| == |dedup| && Distinct(vec)
      invariant forall x :: x in vec <==> x in dedup && x !in rest
      decreases rest
    {
      var x :| x in rest;
      vec := vec + [x];
      rest := rest - {x};
    }
  }

  /** `unique` as the source has it: the buffer is created with room for the
      distinct values plus one slot for the null, every distinct value is
      written, and then the placeholder is pushed after that slot. The
      reserved slot is never written; `garbage` stands for whatever it holds. */
  method UniqueAsWritten<T(==,!new)>(c: Column<T>, na: T, garbage: T) returns (r: Column<T>)
    requires c.Valid()
    ensures c.nulls == {} ==> |r.values| == |PresentValues(c)| && r.nulls == {}
    ensures c.nulls != {} ==> |r.values| == |PresentValues(c)| + 2
    ensures c.nulls != {} ==> r.nulls == {|PresentValues(c)| + 1}
    ensures |PresentValues(c)| <= |r.values| && Distinct(r.values[..|PresentValues(c)|])
    ensures forall x :: x in r.values[..|PresentValues(c)|] <==> x in PresentValues(c)
    ensures c.nulls != {} ==> r.values[|PresentValues(c)|] == garbage
    ensures c.nulls != {} ==> r.values[|PresentValues(c)| + 1] == na
  {
    var dedup := Dedup(c);
    var l := |dedup|;
    if |c.nulls| > 0 {
      l := l + 1;
    }
    var buffer := new T[l](_ => garbage);
    var vec := Enumerate(dedup);
    var i := 0;
    while i < |vec|
      invariant 0 <= i <= |vec| && buffer.Length == l
      invariant forall k :: 0 <= k < i ==> buffer[k] == vec[k]
      invariant forall k :: i <= k < l ==> buffer[k] == garbage
    {
      buffer[i] := vec[i];
      i := i + 1;
    }
    var values := buffer[..];
    assert values[..|vec|] == vec;
    if |c.nulls| > 0 {
      values := values + [na];
    }
    assert values[..|vec|] == vec;
    var hset: set<nat> := {};
    if |c.nulls| > 0 {
      hset := {|values| - 1};
    }
    return Column(values, hset);
  }

  /** `unique` as written on `[5, None]`, with 7 in the unwritten slot:
      the result is `[5, 7, None]`, which holds a present element that is
      not in the input. */
  method UniqueAsWrittenExtraElement() returns (r: Column<int>)
    ensures r.ToList() == [Some(5), Some(7), None]
    ensures Some(7) !in Column([5, 0], {1}).ToList()
  {
    var c := Column([5, 0], {1});
    assert c.ToList() == [Some(5), None];
    assert PresentValues(c) == {5} by {
      assert 5 in PresentValues(c);
    }
    r := UniqueAsWritten(c, 0, 7);
    assert r.values[..1] == [r.values[0]];
    assert r.values == [5, 7, 0];
  }

  /** `unique` as intended: the distinct present values, each once, then
      one null when the input has any. */
  method Unique<T(==,!new)>(c: Column<T>, na: T) returns (r: Column<T>)
    requires c.Valid()
    ensures r.Valid()
    ensures |r.values| == |PresentValues(c)| + (if c.nulls == {} then 0 else 1)
    ensures r.nulls == (if c.nulls == {} then {} else {|PresentValues(c)|})
    ensures Distinct(r.values[..|PresentValues(c)|])
    ensures forall x :: Some(x) in r.ToList() <==> Some(x) in c.ToList()
    ensures (None in r.ToList()) <==> (None in c.ToList())
  {
    var dedup := Dedup(c);
    var vec := Enumerate(dedup);
    var values := vec;
    var hset: set<nat> := {};
    if |c.nulls| > 0 {
      values := values + [na];
      hset := {|values| - 1};
    }
    r := Column(values, hset);
    UniqueLayout(vec, na, c.nulls != {});
    NullPresent(c);
  }

  /** The layout of `unique`'s result: the distinct values, then the
      placeholder at a null position when there are nulls. */
  lemma UniqueLayout<T>(vec: seq<T>, na: T, withNull: bool)
    ensures var r := if withNull then Column(vec + [na], {|vec|}) else Column(vec, {});
            r.Valid() && r.values[..|vec|] == vec &&
            (forall x :: Some(x) in r.ToList() <==> x in vec) &&
            (None in r.ToList() <==> withNull)
  {
    if withNull {
      WithNullLayout(vec, na);
    } else {
      AllPresentLayout(vec);
    }
  }

  lemma WithNullLayout<T>(vec: seq<T>, na: T)
    ensures var r := Column(vec + [na], {|vec|});
            r.Valid() && r.values[..|vec|] == vec &&
            (forall x :: Some(x) in r.ToList() <==> x in vec) &&
            None in r.ToList()
  {
    var r := Column(vec + [na], {|vec|});
    assert r.values[..|vec|] == vec;
    forall x ensures Some(x) in r.ToList() <==> x in vec {
      if Some(x) in r.ToList() {
        var i :| 0 <= i < |r.values| && r.ToList()[i] == Some(x);
        assert i < |vec| && vec[i] == x;
      }
      if x in vec {
        var i :| 0 <= i < |vec| && vec[i] == x;
        assert r.ToList()[i] == Some(x);
      }
    }
    assert r.ToList()[|vec|] == None;
  }

  lemma AllPresentLayout<T>(vec: seq<T>)
    ensures var r := Column(vec, {});
            r.Valid() && r.ToList() == Somes(vec)
  {
    assert Column(vec, {}).ToList() == Somes(vec);
  }

  /** A valid list has a null element exactly when it has null positions. */
  lemma NullPresent<T>(c: Column<T>)
    requires c.Valid()
    ensures (None in c.ToList()) <==> c.nulls != {}
  {
    if c.nulls != {} {
      var i :| i in c.nulls;
      assert c.ToList()[i] == None;
    }
  }

  // ---------------------------------------------------------------------
  // counter

  /** How often each raw value occurs. */
  function Counts<T(==,!new)>(values: seq<T>): (r: map<T, nat>)
    ensures forall x :: x in r <==> x in values
    ensures forall x :: x in r ==> r[x] == multiset(values)[x]
  {
    map x | x in multiset(values) :: multiset(values)[x]
  }

  /** Counting one more value bumps its count and keeps the others. */
  lemma CountsSnoc<T(!new)>(s: seq<T>, x: T)
    ensures Counts(s + [x]) == Counts(s)[x := (if x in Counts(s) then Counts(s)[x] else 0) + 1]
  {
    var before, after := Counts(s), Counts(s + [x]);
    var expected := before[x := (if x in before then before[x] else 0) + 1];
    assert multiset(s + [x]) == multiset(s) + multiset{x};
    assert forall y :: y in after <==> y in expected;
    forall y | y in after ensures after[y] == expected[y] {
    }
  }

  /** What `counter` returns, computed from the raw counts: the placeholder's
      count minus the number of nulls, the key dropped at zero; a count
      below zero is an unsigned underflow and panics. */
  function CounterSpec<T(==,!new)>(c: Column<T>, na: T): Result<map<T, nat>>
  {
    var counts := Counts(c.values);
    if na !in counts then Ok(counts)
    else if counts[na] < |c.nulls| then Err(Panic)
    else if counts[na] == |c.nulls| then Ok(counts - {na})
    else Ok(counts[na := counts[na] - |c.nulls|])
  }

  /** A `StringList` whose raw placeholder count is below its null count:
      `["a", None, None]` after `replace("", "b")` rewrote the raw `""` of
      both null slots and `set(0, "")` wrote one present `""`. Its `counter`
      underflows. */
  lemma CounterUnderflow()
    ensures CounterSpec(Column(["", "b", "b"], {1, 2}), "") == Err(Panic)
  {
    var values := ["", "b", "b"];
    assert multiset(values) == multiset{"", "b", "b"};
    assert "" in Counts(values) && Counts(values)[""] == 1;
  }

  /** `counter`: count every raw value, then correct the placeholder's count. */
  method Counter<T(==,!new)>(c: Column<T>, na: T) returns (r: Result<map<T, nat>>)
    ensures r == CounterSpec(c, na)
  {
    var result := CountAll(c.values);
    if na in result {
      var val := result[na] - |c.nulls|;
      if val < 0 {
        return Err(Panic);
      }
      if val == 0 {
        return Ok(result - {na});
      }
      return Ok(result[na := val]);
    }
    return Ok(result);
  }

  /** The counting loop of `counter`: one entry per raw value, bumped at
      each occurrence. */
  method CountAll<T(==,!new)>(values: seq<T>) returns (result: map<T, nat>)
    ensures result == Counts(values)
  {
    result := map[];
    var i := 0;
    while i < |values|
      invariant 0 <= i <= |values|
      invariant result == Counts(values[..i])
    {
      var key := values[i];
      var val := if key in result then result[key] else 0;
      assert values[..i + 1] == values[..i] + [key];
      CountsSnoc(values[..i], key);
      result := result[key := val + 1];
      i := i + 1;
    }
    assert values[..i] == values;
  }

  /** Null positions hold the placeholder, as `append`, `set`, `pop` and
      `replace` with a null argument keep them. */
  ghost predicate PlaceholderAtNulls<T>(c: Column<T>, na: T)
  {
    forall i :: i in c.nulls ==> i < |c.values| && c.values[i] == na
  }

  /** Under that condition each raw value's count is its present count, plus
      the null count for the placeholder. */
  lemma {:induction false} RawCountSplit<T(!new)>(c: Column<T>, na: T, x: T)
    requires PlaceholderAtNulls(c, na)
    ensures multiset(c.values)[x] == multiset(c.ToList())[Some(x)] + (if x == na then |c.nulls| else 0)
    decreases |c.values|
  {
    var n := |c.values|;
    if n == 0 {
      assert c.nulls == {};
    } else {
      var last := n - 1;
      var init := Column(c.values[..last], c.nulls - {last});
      RawCountSplit(init, na, x);
      DropLast(c);
      if last in c.nulls {
        assert |c.nulls| == |init.nulls| + 1 by {
          assert c.nulls == init.nulls + {last};
        }
      } else {
        assert init.nulls == c.nulls;
      }
    }
  }

  /** A list is its first `n - 1` elements followed by the last one. */
  lemma DropLast<T>(c: Column<T>)
    requires |c.values| > 0
    ensures var last := |c.values| - 1;
            var init := Column(c.values[..last], c.nulls - {last});
            multiset(c.values) == multiset(init.values) + multiset{c.values[last]} &&
            multiset(c.ToList()) == multiset(init.ToList()) + multiset{c.ToList()[last]}
  {
    var last := |c.values| - 1;
    var init := Column(c.values[..last], c.nulls - {last});
    assert c.values == init.values + [c.values[last]];
    assert c.ToList() == init.ToList() + [c.ToList()[last]];
  }

  /** When null positions hold the placeholder, `counter` succeeds and maps
      each value present in the list to its number of present occurrences,
      and nothing else. */
  lemma CounterCountsPresent<T(!new)>(c: Column<T>, na: T)
    requires PlaceholderAtNulls(c, na)
    ensures CounterSpec(c, na).Ok?
    ensures forall x :: x in CounterSpec(c, na).value <==> Some(x) in c.ToList()
    ensures forall x :: x in CounterSpec(c, na).value ==>
      CounterSpec(c, na).value[x] == multiset(c.ToList())[Some(x)]
  {
    forall x ensures multiset(c.values)[x] == multiset(c.ToList())[Some(x)] + (if x == na then |c.nulls| else 0) {
      RawCountSplit(c, na, x);
    }
  }
}
