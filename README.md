# ulist typed lists in Dafny

This project models the Rust core of `ulist`, a Python list library whose
lists are typed vectors with null ("missing value") support.

A nullable list stores two things:

- a vector of raw values;
- the set of null positions.

Each null position holds a per-type placeholder (`na_value`): `false` for
booleans and `""` for strings.

## What is modelled

**Lists.** The model separates a list's value from the object that holds it:

- `Base.Column` is the value of a list.
- `Base.List` is the object whose fields the in-place mutators update:
  `append`, `pop`, `set`, `replace` and `_sort`.
- Every operation that builds a new list (filters, gathers, kernels, casts)
  returns a `Column`.

**Modules.** One module per source file:

| module | models |
|---|---|
| `Wrappers` | the option, result and error types |
| `Primitives` | the Rust standard-library behaviour the core relies on: the `i32`/`i64` ranges, the truncating `as i32`, `to_string`, and `parse` for integers and booleans |
| `Index` | `IndexList` |
| `Base` | the `List` trait |
| `NonFloat` | `sort`, `unique`, `counter` |
| `Numerical` | the arithmetic and comparison kernels |
| `Boolean` | `BooleanList` |
| `Integers` | `IntegerList32`, `IntegerList64`, `arange32`, `arange64` |
| `Strings` | `StringList` |
| `ControlFlow` | the Rust `select` kernel |
| `CaseWhen` | the Python `select` and `CaseObject` |

**Errors.**

- A Rust panic becomes an `Err(Panic)` / `Fail(Panic)` result. This covers an
  underflowing `len() - 1`, `unwrap` on `None`, `step_by(0)`, an out-of-range
  slice or index, and a failed `parse().unwrap()`.
- A Python exception becomes an `Err` carrying its class.
- Integer overflow in `sum`, `pow` and the arithmetic kernels is a
  precondition. The source does not handle it.

**Version differences.**

- In this version of the source, `IntegerList32` and `IntegerList64` have no
  null set. Their operations are therefore modelled on plain integer
  sequences.
- `control_flow.rs` reads a condition with a `get` that returns a bare
  `bool`. The model reads the condition's raw value there.

**Where the specification and the code disagree, the model follows the code:**

- `all`, `any` and `sum` of a boolean list fold the raw values, with the
  placeholder `false` at nulls. They are not Kleene folds over the elements.
- `and_` / `or_` drop the result of the size check and zip the two raw
  vectors. The zip stops at the shorter one, and the result has no nulls.
- `contains`, `starts_with`, `ends_with` and the scalar comparisons of the
  numeric lists produce lists with no nulls. A null input reads as `false`.
- `_fn` (`add`, `sub`, `mul`) also drops its size check and zips to the
  shorter list. `_fill_na` then writes through unchecked pointers at the
  union of the two null sets. The result is defined, and silently
  truncated, when every null lies below the shorter size; that is what the
  model requires (see Findings).

## Model

| member | source | states |
|---|---|---|
| `Primitives.TruncateTo32` | ulist/src/integers/int64.rs:291-296 | `x as i32` lands in the `i32` range, differs from `x` by a multiple of 2^32, and is the identity on `i32` values |
| `Primitives.SumOfAppend` | ulist/src/integers/int64.rs:265-267 | a sum over a concatenation is the sum of the two sums |
| `Primitives.FormatNat` | ulist/src/integers/int64.rs:298-303 | the decimal form of a natural is non-empty, all digits, and has no leading zero |
| `Primitives.DigitsValueOfFormatNat` | ulist/src/integers/int64.rs:298-303 | reading back the decimal form of `n` gives `n` |
| `Primitives.FormatInt` | ulist/src/integers/int64.rs:298-303 | `to_string` of an integer starts with `-` exactly for negatives and is all digits otherwise |
| `Primitives.ParseInt` | ulist/src/string.rs:207-221 | `parse::<i32/i64>` accepts only values inside the width and rejects the empty string |
| `Primitives.ParseFormatInt` | ulist/src/string.rs:207-221 | parsing the `to_string` of an in-range integer gives that integer back |
| `Primitives.ParseMinus` | ulist/src/string.rs:207-221 | a minus sign followed by digits parses to the negated digit value when it fits, and fails otherwise |
| `Primitives.ParseDigits` | ulist/src/string.rs:207-221 | digits alone parse to their value when it fits, and fail otherwise |
| `Primitives.FormatIntInjective` | ulist/src/integers/int64.rs:298-303 | different integers have different decimal forms |
| `Primitives.FormatBool` | ulist/src/boolean.rs:274-280 | `b.to_string()` parses back to `b` |
| `Primitives.ParseBool` | ulist/src/string.rs:183-189 | `parse::<bool>` accepts exactly "true" and "false" |
| `Index.Back` | ulist/src/index.rs:39-41 | `back` is the last position, and panics on an empty list |
| `Index.ToList` | ulist/src/index.rs:43-45 | `to_list` returns the stored positions in order |
| `Index.JoinAppend` | ulist/src/index.rs:21-25 | the `{:?}` item list of a concatenation is the two item lists joined by ", " |
| `Index.ReadJoin` | ulist/src/index.rs:24-25 | the items of the `{:?}` rendering, read back as digit runs between separators, are the stored positions |
| `Index.Str` | ulist/src/index.rs:21-37 | `__str__` is bracketed, and from 100 elements it is the `{:?}` items of the first three and of the last three positions around `..., ` |
| `Index.StrReadsBack` | ulist/src/index.rs:21-25 | below 100 elements, the text between the brackets of `__str__` reads back as the stored positions |
| `Index.StrAbbreviated` | ulist/src/index.rs:21-37 | from 100 elements, `__str__` is the full rendering of the six kept elements with `..., ` inserted after the third |
| `Index.Repr` | ulist/src/index.rs:17-19 | `__repr__` is the `__str__` text wrapped in `IndexList(` and `)` |
| `Index.StrOfShortList` | ulist/src/index.rs:17-25 | `[1, 2]` renders as "[1, 2]" and as "IndexList([1, 2])" |
| `Index.StrOfLongRange` | ulist/src/index.rs:17-37 | the positions 0 to 99 render as "[0, 1, 2, ..., 97, 98, 99]" and as "IndexList([0, 1, 2, ..., 97, 98, 99])", the outputs tests/test_index.py:13,16 expect |
| `Base.RangeSize` | ulist/src/base.rs:61-83 | the last `k` positions are `k` positions |
| `Base.SubsetSize` | ulist/src/base.rs:116-118 | a null set inside the positions is no larger than the list, and only as large when every position is null |
| `Base.SomesMultiset` | ulist/src/base.rs:311-319 | wrapping values as present keeps every multiplicity and adds no null |
| `Base.Column.CountNa` | ulist/src/base.rs:116-118 | `count_na` never exceeds `size` |
| `Base.Column.ToList` | ulist/src/base.rs:311-319 | `to_list` has `None` exactly at the null positions and the raw value elsewhere |
| `Base.TailNullsShape` | ulist/src/base.rs:61-83 | with the nulls at the tail, `to_list` is the present prefix followed by `None`s |
| `Base.TailNullsCount` | ulist/src/base.rs:61-83 | with the nulls at the tail, the prefix holds each value as often as the list holds it as a present element |
| `Base.FillNa` | ulist/src/base.rs:10-15 | `_fill_na` writes the placeholder at every null position and nothing else |
| `Base.CheckLenEq` | ulist/src/base.rs:27-35 | `_check_len_eq` passes exactly when the sizes are equal, and is a `RuntimeError` otherwise |
| `Base.Get` | ulist/src/base.rs:166-177 | `get` succeeds exactly inside the list and returns the element (`None` at a null); past the end it is an `IndexError` |
| `Base.Gather` | ulist/src/base.rs:186-193 | gathering keeps each chosen element with its null mark |
| `Base.GatherSnoc` | ulist/src/base.rs:188-193 | one more index appends its element, and marks it null when the source element is null |
| `Base.GetByIndexes` | ulist/src/base.rs:179-195 | an empty key panics; a last index past the end is an `IndexError`; an earlier index past the end panics; otherwise the gathered list |
| `Base.CountTrue` | ulist/src/boolean.rs:152-154 | the number of `true` values is at most the length |
| `Base.TruePositions` | ulist/src/boolean.rs:156-165 | the kept positions are increasing, hold `true`, and there are `CountTrue` of them |
| `Base.TruePositionsComplete` | ulist/src/boolean.rs:156-165 | every `true` position is kept |
| `Base.Filter` | ulist/src/base.rs:136-164 | `filter` keeps, in order and with their null marks, the elements where the condition's raw value is `true`; a size mismatch is a `RuntimeError` |
| `Base.TruePositionsAllTrue` | ulist/src/base.rs:149-160 | an all-`true` mask keeps every position |
| `Base.FilterAllTrue` | ulist/src/base.rs:136-164 | `filter` with an all-`true` condition returns the list unchanged |
| `Base.UnionAll` | ulist/src/base.rs:321-333 | `union_all` has the elements of the first list followed by those of the second, nulls included |
| `Base.CycleValues` | ulist/src/base.rs:120-123 | the cycled stream has exactly `size` elements |
| `Base.CycleValuesAt` | ulist/src/base.rs:120-123 | element `i` of the cycled stream is source element `i mod len` |
| `Base.Cycle` | ulist/src/base.rs:120-123 | `cycle` has `size` elements with element `i` equal to `vec[i mod len]` and no nulls; an empty source gives an empty list |
| `Base.Repeat` | ulist/src/base.rs:301-305 | `repeat` has `size` copies of the value and no nulls |
| `Base.RepeatIsCycle` | ulist/src/base.rs:120-123 | `repeat(x, n)` equals `cycle([x], n)` |
| `Base.Cmp` | ulist/src/base.rs:38-55 | `_cmp` errs exactly on a size mismatch; otherwise its nulls are the union of both inputs' nulls, with `false` stored there and `func` elsewhere |
| `Base.Equal` | ulist/src/base.rs:125-127 | `equal` is null where either side is null and `x == y` elsewhere; a size mismatch errs |
| `Base.NotEqual` | ulist/src/base.rs:203-205 | `not_equal` is null where either side is null and `x != y` elsewhere; a size mismatch errs |
| `Base.CompareScalar` | ulist/src/base.rs:129-134 | `equal_scala` / `not_equal_scala` keep the nulls with `false` stored there, and compare every present value |
| `Base.Equivs` | ulist/src/base.rs:92-98 | the pairwise equivalences are unknown where either element is null |
| `Base.KleeneAllCases` | ulist/src/base.rs:85-100 | the fold is false exactly when some pair is false, and true exactly when all are true |
| `Base.AllEqual` | ulist/src/base.rs:85-100 | the early-exit scan of `all_equal` computes the Kleene AND of the pairwise equivalences, false on a size mismatch |
| `Base.AllEqualCases` | ulist/src/base.rs:85-100 | `all_equal` is false exactly on a size mismatch or a present unequal pair; true exactly on two equal lists without nulls; `None` otherwise |
| `Base.AppendedList` | ulist/src/base.rs:102-109 | `append` adds exactly the given element at the end |
| `Base.PopAfterAppend` | ulist/src/base.rs:102-109 | `pop` after `append` restores the list |
| `Base.GetAfterSet` | ulist/src/base.rs:278-299 | after `set`, `get` at that index returns the written element, and every other position is unchanged |
| `Base.ReplacedElements` | ulist/src/base.rs:223-276 | each of the four `replace` cases acts as described on the elements, and the size never changes |
| `Base.List.constructor` | ulist/src/base.rs:25 | `_new` stores the given values and null set |
| `Base.List.Copy` | ulist/src/base.rs:111-114 | `copy` is a fresh list with the same value |
| `Base.List.Append` | ulist/src/base.rs:102-109 | the new value is the old one with the element appended |
| `Base.List.Pop` | ulist/src/base.rs:214-220 | an empty list panics and is left unchanged; otherwise the last element and its null mark are dropped |
| `Base.List.Set` | ulist/src/base.rs:278-299 | past the end is an `IndexError` with no change; otherwise the element is written and the null mark removed or added |
| `Base.List.Replace` | ulist/src/base.rs:223-233 | dispatches on which arguments are null, and the result is `Replaced` |
| `Base.List.ReplaceElem` | ulist/src/base.rs:252-265 | every raw value equal to `old` becomes `new`, and the nulls are kept |
| `Base.List.ReplaceByNa` | ulist/src/base.rs:235-250 | every raw value equal to `old` becomes the placeholder and is marked null |
| `Base.List.ReplaceNa` | ulist/src/base.rs:267-276 | every null position receives `new`, and the null set becomes empty |
| `Base.List.SortNulls` | ulist/src/base.rs:61-83 | `_sort` moves the nulls to exactly the last `count_na` positions, keeps the elements as a multiset, and leaves an all-null list alone |
| `Base.NullsToTail` | ulist/src/base.rs:67-82 | the two-pointer swap loop ends with the nulls at the tail and the elements permuted |
| `Base.SwapRound` | ulist/src/base.rs:72-82 | one outer iteration keeps the loop invariant, keeps the elements as a multiset, and makes progress |
| `Base.SkipPresent` | ulist/src/base.rs:73-75 | `l` stops at a null position with no null before it |
| `Base.SkipNulls` | ulist/src/base.rs:76-78 | `r` stops at a present position or at `l`, with only nulls passed over |
| `Base.SwapStep` | ulist/src/base.rs:79-81 | swapping a null position with a present one keeps the element multiset and the number of nulls |
| `Base.TailNulls` | ulist/src/base.rs:72 | when the loop exits, the nulls are exactly the tail positions |
| `NonFloat.FlipTotal` | ulist/src/non_float.rs:36-38 | the reversed order `b.cmp(a)` is again a total order |
| `NonFloat.IntLeqTotal` | ulist/src/non_float.rs:35 | `Ord` on integers is a total order |
| `NonFloat.BoolLeqTotal` | ulist/src/non_float.rs:35 | `Ord` on booleans is a total order |
| `NonFloat.StringLeqTotalOrder` | ulist/src/non_float.rs:35 | lexicographic `Ord` on strings is a total order |
| `NonFloat.Insert` | ulist/src/non_float.rs:35-38 | insertion adds exactly one element to the multiset |
| `NonFloat.InsertSorted` | ulist/src/non_float.rs:35-38 | insertion keeps a sorted sequence sorted |
| `NonFloat.SortBy` | ulist/src/non_float.rs:35-38 | the reference sort is a permutation |
| `NonFloat.SortBySorted` | ulist/src/non_float.rs:35-38 | the reference sort is sorted |
| `NonFloat.SortedUnique` | ulist/src/non_float.rs:35-38 | two sorted permutations of one sequence under a total order are equal, so any unstable sort gives the same result |
| `NonFloat.SomesPermutation` | ulist/src/non_float.rs:33-38 | permuting the present prefix permutes its wrapped elements |
| `NonFloat.PermutePrefix` | ulist/src/non_float.rs:33-38 | sorting the present prefix keeps the list's element multiset |
| `NonFloat.SamePrefixShape` | ulist/src/non_float.rs:33-38 | two lists with tail nulls and permuted prefixes have the same elements |
| `NonFloat.SortAsWritten` | ulist/src/non_float.rs:28-33 | as written, `sort` moves the nulls to the tail, keeping the elements, and then panics: `size()` asks for a shared borrow of the values while `values_mut()` holds the mutable one |
| `NonFloat.Sort` | ulist/src/non_float.rs:28-39 | as intended, `sort` leaves the nulls at the tail and the present prefix sorted, ascending or descending, holding exactly the present elements, with the element multiset kept |
| `NonFloat.SortPrefixFacts` | ulist/src/non_float.rs:32-38 | sorting the prefix of a list with tail nulls gives a list `SortedFrom` the original |
| `NonFloat.PresentValues` | ulist/src/non_float.rs:43-50 | the deduplicated set holds exactly the present elements |
| `NonFloat.Dedup` | ulist/src/non_float.rs:43-50 | the first loop of `unique` collects exactly the present values |
| `NonFloat.Enumerate` | ulist/src/non_float.rs:58-61 | the second loop writes every set element once, with no duplicates |
| `NonFloat.UniqueAsWritten` | ulist/src/non_float.rs:41-71 | as written, the first slots hold the distinct present values once each; with nulls the result has two more elements than distinct values, an unwritten slot after the distinct values, and the placeholder, marked null, last |
| `NonFloat.UniqueAsWrittenExtraElement` | ulist/src/non_float.rs:52-64 | `unique` as written on `[5, None]`, with 7 left in the unwritten slot, returns `[5, 7, None]`: a present 7 that the input does not hold |
| `NonFloat.Unique` | ulist/src/non_float.rs:41-71 | `unique` gives the distinct present values once each, then one null exactly when the input has one |
| `NonFloat.UniqueLayout` | ulist/src/non_float.rs:62-70 | the result's present elements are the distinct values, and it has a null exactly when one was pushed |
| `NonFloat.NullPresent` | ulist/src/base.rs:311-319 | a list has a `None` element exactly when its null set is non-empty |
| `NonFloat.Counts` | ulist/src/non_float.rs:12-18 | the raw count map has a key for every raw value, with its multiplicity |
| `NonFloat.CountsSnoc` | ulist/src/non_float.rs:14-17 | counting one more value bumps its count and keeps the others |
| `NonFloat.CountAll` | ulist/src/non_float.rs:12-18 | the counting loop computes the raw count map |
| `NonFloat.Counter` | ulist/src/non_float.rs:11-26 | `counter` is the raw count map with the placeholder's count reduced by `count_na`: dropped at zero, a panic below zero |
| `NonFloat.CounterUnderflow` | ulist/src/non_float.rs:19-20 | a string list with raw `["", "b", "b"]` and nulls at 1 and 2, which `replace` followed by `set` can produce, makes `counter` underflow |
| `NonFloat.RawCountSplit` | ulist/src/non_float.rs:19-25 | with the placeholder at every null, a raw count is the present count plus the null count for the placeholder |
| `NonFloat.CounterCountsPresent` | ulist/src/non_float.rs:11-26 | with the placeholder at every null, `counter` succeeds and maps exactly the present values to their present counts |
| `Numerical.CheckAllNa` | ulist/src/numerical.rs:17-21 | `_check_all_na` only ever panics, and on a valid list it passes exactly when some element is present |
| `Numerical.CheckAllNaPresent` | ulist/src/numerical.rs:17-21 | `_check_all_na` passes exactly when some element is present; it panics on an empty list |
| `Numerical.FnNum` | ulist/src/numerical.rs:23-27 | `_fn_num` applies `func` at present positions and writes `default` at nulls |
| `Numerical.ZippedElements` | ulist/src/numerical.rs:29-54 | `add` / `sub` / `mul` have the shorter size, are null where either side is null, and `x op y` elsewhere |
| `Numerical.SubUndoesAdd` | ulist/src/numerical.rs:52-54 | `(a + b) - b` gives `a` back when `b` has no null that `a` lacks |
| `Numerical.Arith` | ulist/src/numerical.rs:29-54 | the `_fn` kernel computes the list zipped to the shorter input, with the placeholder at the union of the nulls, and every stored value fits the width |
| `Numerical.ArithTruncates` | ulist/src/numerical.rs:30-37 | as written, `[1, 2, 3].add([1, 2])` returns `[2, 4]` although the size check failed |
| `Numerical.ArithChecked` | ulist/src/base.rs:27-38 | with the size check passed on as `_cmp` does, `add` / `sub` / `mul` are a `RuntimeError` exactly on different sizes, and otherwise null where either side is null and `x op y` elsewhere |
| `Numerical.ScaledElements` | ulist/src/numerical.rs:56-59 | a scalar operation keeps the nulls and maps every present element |
| `Numerical.ScalarSubUndoesAdd` | ulist/src/numerical.rs:104-107 | `sub_scala(x)` after `add_scala(x)` gives the list back |
| `Numerical.ArithScalar` | ulist/src/numerical.rs:93-96 | `add_scala` / `sub_scala` / `mul_scala` compute the scaled list, and every stored value fits the width |
| `Numerical.ComparedElements` | ulist/src/numerical.rs:69-83 | a scalar comparison has no nulls and is true exactly at the present elements that satisfy it |
| `Numerical.ComparedComplement` | ulist/src/numerical.rs:69-83 | `<` and `>=` (and `>` and `<=`) disagree at every present element and are both false at a null |
| `Numerical.CompareWith` | ulist/src/numerical.rs:69-83 | the comparison kernels compute the compared list |
| `Boolean.Logical` | ulist/src/boolean.rs:211-224 | `_logical_operate` has no nulls and the length of the shorter input |
| `Boolean.LogicalElements` | ulist/src/boolean.rs:211-224 | up to the shorter size, `and_` holds the conjunction and `or_` the disjunction of the two raw values, never a null |
| `Boolean.LogicalTruncates` | ulist/src/boolean.rs:216-222 | as written, `and_` of a three- and a two-element list returns two elements although the size check failed |
| `Boolean.LogicalChecked` | ulist/src/base.rs:27-38 | with the size check passed on as `_cmp` does, `and_` / `or_` are a `RuntimeError` exactly on different sizes, and otherwise the elementwise conjunction or disjunction with no nulls |
| `Boolean.LogicalTruthTable` | tests/test_boolean.py:60-73 | the truth tables of `and_` and `or_` |
| `Boolean.Not` | ulist/src/boolean.rs:112-117 | `not_` computes the negated list, with `false` stored at the nulls |
| `Boolean.NegatedElements` | ulist/src/boolean.rs:112-117 | `not_` keeps the nulls, negates every present element, and applied twice gives the elements back |
| `Boolean.NotAndIsOrNot` | ulist/src/boolean.rs:112-125 | De Morgan: `not_(a.and_(b))` equals `a.not_().or_(b.not_())` on lists without nulls |
| `Boolean.All` | ulist/src/boolean.rs:39-41 | `all` holds exactly when every raw value is `true` |
| `Boolean.Any` | ulist/src/boolean.rs:51-53 | `any` holds exactly when some raw value is `true` |
| `Boolean.NullsInReductions` | ulist/src/boolean.rs:39-53 | with `false` stored at the nulls, one null makes `all` false, and `any` is true exactly when some present element is |
| `Boolean.ZeroOne` | ulist/src/boolean.rs:152-154 | the 0/1 encoding maps `true` to 1 and `false` to 0 |
| `Boolean.Sum` | ulist/src/boolean.rs:152-154 | `sum` is the number of raw `true` values |
| `Boolean.ToIndex` | ulist/src/boolean.rs:156-165 | `to_index` lists positions in strictly increasing order, every listed position is below the size, and a position is listed exactly when its raw value is `true` |
| `Boolean.AsInt` | ulist/src/boolean.rs:250-272 | `as_int32` / `as_int64` keep the nulls and the size, and write 1 exactly where the raw value is `true` and 0 elsewhere |
| `Boolean.SumCountsTrue` | ulist/src/boolean.rs:152-154 | `sum` counts the raw `true` values |
| `Boolean.ToIndexPositions` | ulist/src/boolean.rs:156-165 | `to_index` lists, strictly increasing, exactly the `true` positions, and there are `sum()` of them |
| `Boolean.AsIntTruth` | ulist/src/boolean.rs:250-272 | `as_int32` / `as_int64` keep the nulls, fit both widths, are nonzero exactly where the value was `true`, and sum like `sum` |
| `Boolean.AsStr` | ulist/src/boolean.rs:274-280 | `as_str` keeps the nulls, and every string parses back to its boolean |
| `Integers.LastMaxIndex` | ulist/src/integers/int64.rs:222-229 | `max_by_key` picks a maximal element, the last among equals |
| `Integers.FirstMinIndex` | ulist/src/integers/int64.rs:231-238 | `min_by_key` picks a minimal element, the first among equals |
| `Integers.ArgMax` | ulist/src/integers/int32.rs:214-221 | `argmax` is the last position of a maximum, and panics on an empty list |
| `Integers.ArgMin` | ulist/src/integers/int32.rs:223-230 | `argmin` is the first position of a minimum, and panics on an empty list |
| `Integers.MaxOfSeq` | ulist/src/integers/int64.rs:252-254 | the fold returns an element that bounds every element from above |
| `Integers.MinOfSeq` | ulist/src/integers/int64.rs:256-258 | the fold returns an element that bounds every element from below |
| `Integers.Max` | ulist/src/integers/int32.rs:244-246 | `max` is an element at least every element, and panics on an empty list |
| `Integers.Min` | ulist/src/integers/int32.rs:248-250 | `min` is an element at most every element, and panics on an empty list |
| `Integers.ExtremaAgree` | ulist/src/integers/int64.rs:222-258 | `max` is the element at `argmax`, and `min` the element at `argmin` |
| `Integers.Sum` | ulist/src/integers/int32.rs:257-259 | `sum` without overflow fits the width |
| `Integers.SumUnion` | ulist/src/integers/int64.rs:265-267 | the sum of a concatenation is the sum of the two sums |
| `Integers.PowAdd` | ulist/src/integers/int64.rs:260-263 | `x^(a+b) = x^a * x^b` |
| `Integers.PowScala` | ulist/src/integers/int32.rs:252-255 | `pow_scala` keeps the length, and every result fits the width |
| `Integers.PowScalaLaws` | ulist/src/integers/int64.rs:260-263 | exponent 0 gives all ones; exponent 1 gives the list itself; `[1, 2, 3]` squared is `[1, 4, 9]` |
| `Integers.PowScalaProduct` | ulist/src/integers/int64.rs:260-263 | `pow_scala(a + b)` is elementwise `pow_scala(a) * pow_scala(b)` |
| `Integers.AsBool` | ulist/src/integers/int32.rs:262-267 | `as_bool` keeps the length, and an element is `true` exactly when the integer is nonzero |
| `Integers.BoolIntRoundTrip` | ulist/src/integers/int64.rs:270-275 | `as_bool` after the boolean list's `as_int` gives the raw booleans back |
| `Integers.AsInt64` | ulist/src/integers/int32.rs:276-281 | widening to `i64` fits, keeps the length and keeps every value |
| `Integers.AsInt32` | ulist/src/integers/int64.rs:291-296 | `as_int32` fits `i32` and agrees with the source modulo 2^32 |
| `Integers.WidenNarrow` | ulist/src/integers/int64.rs:291-296 | widening an `i32` list and truncating it back gives the list back |
| `Integers.AsStr` | ulist/src/integers/int32.rs:283-288 | `as_str` writes `to_string` (`FormatInt`) of every element, so different integers give different strings |
| `Integers.Steps` | ulist/src/integers/mod.rs:9-12 | `(start..stop).step_by(step)` has `ceil((stop - start) / step)` elements, and element `k` is `start + k*step < stop` |
| `Integers.StepCount` | ulist/src/integers/mod.rs:9-12 | the length formula drops by one per step |
| `Integers.Arange` | ulist/src/integers/mod.rs:8-18 | `arange32` / `arange64` panic exactly when `step` is 0; otherwise they give the stepped values below `stop`, in range |
| `Integers.ArangeExamples` | tests/test_constructors.py:13-14 | `arange(0, 5, 2)` is `[0, 2, 4]` and `arange(0, 4, 2)` is `[0, 2]` |
| `Strings.Test` | ulist/src/string.rs:62-66 | `contains` / `starts_with` / `ends_with` compute the tested list, with `false` at nulls and no nulls |
| `Strings.TestedElements` | ulist/src/string.rs:133-137 | a test is true exactly at the present strings that pass it |
| `Strings.AffixImpliesContains` | ulist/src/string.rs:62-85 | `starts_with` or `ends_with` implies `contains` |
| `Strings.StartsWithExample` | tests/test_string.py:19-24 | `starts_with("num")` on the test strings |
| `Strings.EndsWithExample` | tests/test_string.py:25-30 | `ends_with("num")` on the test strings |
| `Strings.ContainsExample` | tests/test_string.py:13-18 | `contains("num")` on the test strings |
| `Strings.NoLetterNoMatch` | ulist/src/string.rs:62-66 | a string lacking one of the pattern's characters does not contain the pattern |
| `Strings.ParseAll` | ulist/src/string.rs:183-221 | the mapped `parse().unwrap()` succeeds exactly when every string parses, and then gives each parsed value |
| `Strings.AsBool` | ulist/src/string.rs:183-189 | `as_bool` panics exactly when some raw value is neither "true" nor "false"; otherwise it keeps the nulls and the size and each element is the parsed boolean |
| `Strings.AsInt` | ulist/src/string.rs:207-221 | `as_int32` / `as_int64` panic exactly when some raw value does not parse as an integer of the width; otherwise they keep the nulls and the size and each element is the parsed integer |
| `Strings.BoolTextRoundTrip` | ulist/src/string.rs:183-189 | `as_bool` undoes the boolean list's `as_str`, nulls included |
| `Strings.IntTextRoundTrip` | ulist/src/string.rs:207-221 | `as_int32` / `as_int64` undo the integer lists' `as_str` |
| `Strings.NullBreaksCasts` | ulist/src/string.rs:168-170 | the null placeholder "" parses as neither type, so a list holding a null panics on every cast |
| `ControlFlow.PickFirstMatch` | ulist/src/control_flow.rs:23-28 | the first condition that holds decides |
| `ControlFlow.PickNoMatch` | ulist/src/control_flow.rs:21-29 | with no condition holding, the default stays |
| `ControlFlow.PickTotal` | ulist/src/control_flow.rs:22-29 | with all conditions long enough and a choice for each, a pick never panics |
| `ControlFlow.SelectWellFormed` | ulist/src/control_flow.rs:10-31 | with conditions of one length and enough choices, `select` succeeds; each position holds the first matching choice or the default |
| `ControlFlow.Select` | ulist/src/control_flow.rs:10-31 | the nested loops compute `Selected` |
| `ControlFlow.SelectExample` | ulist/python/ulist/control_flow.py:44-58 | the documented example gives `a, a, b, b, d, d` |
| `CaseWhen.KernelFor` | ulist/python/ulist/control_flow.py:62-74 | a `bool` default selects the boolean kernel, a `float` the float kernel, an `int` the integer kernel, a `str` the string kernel, and any other type is a `TypeError` |
| `CaseWhen.ExactTypeDispatch` | ulist/python/ulist/control_flow.py:62-67 | although a `bool` is an instance of `int`, a boolean default goes to the boolean kernel and not to the integer one |
| `CaseWhen.PySelect` | ulist/python/ulist/control_flow.py:60-83 | a successful `select` returns the list built by the kernel the default's exact type selects |
| `CaseWhen.RawConditions` | ulist/python/ulist/control_flow.py:76-79 | the kernel receives each condition's raw values |
| `CaseWhen.PySelectErrors` | ulist/python/ulist/control_flow.py:60-80 | `select`'s failures are a length mismatch (`AssertionError`), a bad default (`TypeError`), a non-boolean condition (`AssertionError`), and no conditions (panic) |
| `CaseWhen.PySelectWellFormed` | ulist/python/ulist/control_flow.py:60-83 | well-formed arguments give, at every position, the first matching choice or the default |
| `CaseWhen.CaseObject.constructor` | ulist/python/ulist/control_flow.py:92-96 | `__init__` starts with no conditions and no choices |
| `CaseWhen.CaseObject.End` | ulist/python/ulist/control_flow.py:135-137 | after a refused choice, `end` fails the length assertion; a successful `end` went through the kernel the default's exact type selects |
| `CaseWhen.CaseObject.When` | ulist/python/ulist/control_flow.py:98-133 | a non-boolean condition is refused with nothing recorded; a choice of the wrong type is refused after the condition was recorded; otherwise both are recorded |
| `CaseWhen.CaseExample` | ulist/python/ulist/control_flow.py:92-137 | a `case` over `0..5` built with `when(< 2, 0)` and `when(< 4, 1)` and default 2 ends in `[0, 0, 1, 1, 2, 2]`, the select result tests/test_control_flow.py:65-74 expects |

## Left out

**Types not modelled**

- Floating-point lists (`FloatList32`, `FloatList64`, `float.rs`), `div` and
  `div_scala`, and every cast to or from a float are not part of this model:
  floating point is not modelled.
- `as_float32` / `as_float64` of booleans and strings are left out for the
  same reason.

**Runtime and the Python boundary**

- Index.IndexList: positions are unbounded `nat`s, while the source stores
  them as `u32` (`ulist/src/index.rs:5`), so positions of 2^32 and above,
  which a list of that size would need, are not excluded by the model.

- RefCell borrowing is modelled only where it decides an outcome: in
  `NonFloat.SortAsWritten`, where `self.size()` asks for a shared borrow of
  the values while `values_mut()` holds the mutable one
  (`ulist/src/non_float.rs:32-33`). `RefCell::borrow` panics then in every
  build, so `sort` as written always panics after `_sort`; see Findings.
  Everywhere else the model assumes the borrows succeed.
- Concurrency, the pyo3 conversions of arguments and results, and Python
  object identity are left out.
- `io.rs` (reading CSV files) is not part of this model, because it does file
  I/O.
- `select_string`, which `control_flow.py` imports, is not defined in
  `control_flow.rs` in this version. `CaseWhen` dispatches to a
  `SelectString` kernel that is assumed to behave like the others.
- `CaseObject.when` takes the condition list `fn(self._values)` returned,
  not the callback itself.
- `pop` on an empty list underflows `size() - 1`. The model takes the
  checked-build behaviour, a panic; a release build would wrap around
  instead.
- NonFloat.Counter: `*val -= self.count_na()` is a `usize` subtraction.
  When the raw placeholder count is below the null count
  (`NonFloat.CounterUnderflow`), the model takes the checked-build
  behaviour, a panic; a release build would wrap around to a huge count
  instead.
- CaseWhen.PySelect: the chosen kernel fixes only the dtype of the returned
  list. The pyo3 conversion of the choices to that kernel's element type is
  not modelled; the result carries the choices as Python values.

**Representation**

- Operations that build a new list return its `Column` value rather than a
  fresh heap object, because no caller observes the aliasing.
- The iteration order of a `HashSet` is not modelled.
  - `Enumerate` takes any order; `Unique` states its result up to that order.
  - `Counter` returns a `map`.

**Weakened contracts**

- Integers.Sum: overflow of the running total is a precondition. An
  overflowing `sum` panics in a checked build and wraps around in a release
  build.
- Integers.PowScala: an overflowing `pow` is excluded by the precondition,
  for the same reason.
- Numerical.Arith: overflowing `add` / `sub` / `mul` are excluded by the
  precondition, for the same reason.
- Numerical.ArithScalar: overflowing `add_scala` / `sub_scala` / `mul_scala`
  are excluded by the precondition, for the same reason.
- Numerical.Arith: a null at or past the shorter size is excluded by the
  precondition. There `_fill_na` writes through an unchecked pointer outside
  the zipped vector, which is undefined behaviour. Unequal sizes with every
  null inside the zip are modelled: the result is truncated to the shorter
  list.
- Boolean.Sum: the sum is the mathematical count of `true` values, without
  the `i32` overflow a list of more than 2^31 - 1 `true` values would hit.
- Boolean.Logical: states only the length and the absence of nulls in its
  own contract. `LogicalElements` states its value at every position, and
  `LogicalTruthTable` gives the test's truth tables.
- Base.List.SortNulls: states the element multiset and the tail position of
  the nulls. It does not state the exact arrangement of the present values,
  which depends on the swap order.
- NonFloat.Sort: the present prefix is specified as sorted and as a
  permutation. `sort_unstable` is not modelled step by step;
  `NonFloat.SortedUnique` shows that the result is nevertheless determined.

## Findings

| source | as written | input that shows it | evidently intended | confidence | as-written member | corrected member |
|---|---|---|---|---|---|---|
| ulist/src/non_float.rs:32-33 | `sort` keeps the `values_mut()` borrow alive while `self.size()` calls `values()`, a shared borrow of the same `RefCell` | any list, e.g. `[3, 1]` with `sort(ascending=True)`: `_sort` runs, then the shared borrow panics | the present prefix sorted, ascending or descending | not executed | `NonFloat.SortAsWritten` | `NonFloat.Sort` |
| ulist/src/numerical.rs:30 | `_fn` calls `_check_len_eq` and drops its `PyResult`, then zips to the shorter list | `[1, 2, 3].add([1, 2])`: `[2, 4]` instead of a `RuntimeError` | the size mismatch raised, as `_cmp` does with `?` (base.rs:38) | not executed | `Numerical.ArithTruncates` | `Numerical.ArithChecked` |
| ulist/src/boolean.rs:216 | `_logical_operate` calls `_check_len_eq` and drops its `PyResult`, then zips to the shorter list | `[True, True, True].and_([True, False])`: `[True, False]` instead of a `RuntimeError` | the size mismatch raised, as `_cmp` does with `?` (base.rs:38) | not executed | `Boolean.LogicalTruncates` | `Boolean.LogicalChecked` |
| ulist/src/non_float.rs:52-64 | `unique` reserves `l` slots with `set_len` (one extra when there are nulls), writes the distinct values, then pushes the placeholder after the reserved slot; the extra slot is never written | the list `[5, None]`: the result has three elements, the middle one an unwritten, present value | the distinct present values followed by a single null | not executed | `NonFloat.UniqueAsWritten`, `NonFloat.UniqueAsWrittenExtraElement` | `NonFloat.Unique` |
