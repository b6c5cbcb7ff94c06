/** The Python layer of `select` and the `case` builder: `select` checks
    its arguments and dispatches on the exact type of the default to one of
    the typed kernels; `CaseObject` collects conditions and choices one
    `when` at a time and hands them to `select` at `end`. */
module CaseWhen {
  import opened Wrappers
  import opened Base
  import opened ControlFlow

  /** A Python scalar: its exact type and its value. Floats are carried but
      never computed with. */
  datatype PyValue =
    | PyBool(b: bool)
    | PyInt(i: int)
    | PyFloat(f: real)
    | PyStr(s: string)
    | PyOther(typeName: string)

  /** The dtypes of the lists that are not boolean. */
  datatype OtherDType = Int32 | Int64 | Float32 | Float64 | Str

  /** A ulist as the wrapper sees it: a boolean list with its raw values and
      nulls, or a list of another dtype. */
  datatype UList = BoolList(col: Column<bool>) | OtherList(dtype: OtherDType)

  /** The kernels `select` dispatches to. */
  datatype Kernel = SelectBool | SelectFloat | SelectInt | SelectString

  /** The dispatch on `type(default)`: an exact type test, so `True` goes to
      the boolean kernel although `bool` is a subclass of `int`. */
  function KernelFor(default: PyValue): (r: Result<Kernel>)
    ensures default.PyBool? ==> r == Ok(SelectBool)
    ensures default.PyFloat? ==> r == Ok(SelectFloat)
    ensures default.PyInt? ==> r == Ok(SelectInt)
    ensures default.PyStr? ==> r == Ok(SelectString)
    ensures r.Err? <==> default.PyOther?
    ensures r.Err? ==> r.error == TypeError
  {
    match default
    case PyBool(_) => Ok(SelectBool)
    case PyFloat(_) => Ok(SelectFloat)
    case PyInt(_) => Ok(SelectInt)
    case PyStr(_) => Ok(SelectString)
    case PyOther(_) => Err(TypeError)
  }

  /** A `bool` is an instance of `int`, yet the exact type test sends a
      boolean default to the boolean kernel, never to the integer one. */
  lemma ExactTypeDispatch(b: bool, x: int)
    ensures IsInstance(PyBool(b), PyInt(x))
    ensures KernelFor(PyBool(b)) == Ok(SelectBool) != KernelFor(PyInt(x))
  {
  }

  /** The raw values of a list of boolean lists. */
  function RawConditions(conditions: seq<UList>): (r: seq<seq<bool>>)
    requires forall k :: 0 <= k < |conditions| ==> conditions[k].BoolList?
    ensures |r| == |conditions|
    ensures forall k :: 0 <= k < |r| ==> r[k] == conditions[k].col.values
  {
    seq(|conditions|, k requires 0 <= k < |conditions| => conditions[k].col.values)
  }

  /** What `select` returns: the list the kernel built, whose dtype is the
      kernel's, and its elements. */
  datatype Selection = Selection(kernel: Kernel, values: seq<PyValue>)

  /** `select`: the length check, then the dispatch, then the check that
      every condition wraps a boolean list, then the kernel. */
  function PySelect(conditions: seq<UList>, choices: seq<PyValue>, default: PyValue): (r: Result<Selection>)
    ensures r.Ok? ==> KernelFor(default) == Ok(r.value.kernel)
  {
    if |conditions| != |choices| then Err(AssertionError)
    else if KernelFor(default).Err? then Err(TypeError)
    else if exists k :: 0 <= k < |conditions| && conditions[k].OtherList? then Err(AssertionError)
    else
      var selected := Selected(RawConditions(conditions), choices, default);
      if selected.Err? then Err(selected.error)
      else Ok(Selection(KernelFor(default).value, selected.value))
  }

  /** The failures of `select`, in the order the checks run. */
  lemma PySelectErrors(conditions: seq<UList>, choices: seq<PyValue>, default: PyValue)
    ensures |conditions| != |choices| ==> PySelect(conditions, choices, default) == Err(AssertionError)
    ensures |conditions| == |choices| && default.PyOther? ==>
            PySelect(conditions, choices, default) == Err(TypeError)
    ensures |conditions| == |choices| && !default.PyOther? &&
            (exists k :: 0 <= k < |conditions| && conditions[k].OtherList?) ==>
            PySelect(conditions, choices, default) == Err(AssertionError)
    ensures |conditions| == |choices| == 0 && !default.PyOther? ==>
            PySelect(conditions, choices, default) == Err(Panic)
  {
  }

  /** One boolean condition per choice, all of one length: `select` gives,
      at every position, the choice of the first condition whose raw value
      is `true` there, and the default where none is. */
  lemma PySelectWellFormed(conditions: seq<UList>, choices: seq<PyValue>, default: PyValue)
    requires |conditions| == |choices| > 0 && !default.PyOther?
    requires forall k :: 0 <= k < |conditions| ==> conditions[k].BoolList?
    requires forall k :: 0 <= k < |conditions| ==> |conditions[k].col.values| == |conditions[0].col.values|
    ensures PySelect(conditions, choices, default).Ok?
    ensures |PySelect(conditions, choices, default).value.values| == |conditions[0].col.values|
    ensures forall j, i :: 0 <= j < |conditions[0].col.values| && 0 <= i < |conditions| &&
                           conditions[i].col.values[j] &&
                           (forall k :: 0 <= k < i ==> !conditions[k].col.values[j]) ==>
                           PySelect(conditions, choices, default).value.values[j] == choices[i]
    ensures forall j :: 0 <= j < |conditions[0].col.values| &&
                        (forall k :: 0 <= k < |conditions| ==> !conditions[k].col.values[j]) ==>
                        PySelect(conditions, choices, default).value.values[j] == default
  {
    var raw := RawConditions(conditions);
    SelectWellFormed(raw, choices, default);
  }

  /** `isinstance(v, type(default))` for these scalars: the same type, or a
      `bool` where an `int` is expected. */
  predicate IsInstance(v: PyValue, default: PyValue)
  {
    match default
    case PyBool(_) => v.PyBool?
    case PyInt(_) => v.PyInt? || v.PyBool?
    case PyFloat(_) => v.PyFloat?
    case PyStr(_) => v.PyStr?
    case PyOther(t) => v.PyOther? && v.typeName == t
  }

  /** `CaseObject`: the list the conditions are computed on, the default,
      and the conditions and choices collected so far. */
  class CaseObject {
    const nums: UList
    const default: PyValue
    var conditions: seq<UList>
    var choices: seq<PyValue>

    /** `__init__`: nothing collected yet. */
    constructor (nums: UList, default: PyValue)
      ensures this.nums == nums && this.default == default
      ensures conditions == [] && choices == []
    {
      this.nums := nums;
      this.default := default;
      conditions := [];
      choices := [];
    }

    /** `when`: `cond` is the list `fn(self._values)` returned. A condition
        that is not boolean is refused before anything is recorded; a
        choice of the wrong type is refused after its condition was
        recorded, which leaves one condition more than choices. */
    method When(cond: UList, choice: PyValue) returns (r: Outcome)
      modifies this
      ensures cond.OtherList? ==> r == Fail(TypeError) && conditions == old(conditions) && choices == old(choices)
      ensures cond.BoolList? ==> conditions == old(conditions) + [cond]
      ensures cond.BoolList? && !IsInstance(choice, default) ==> r == Fail(TypeError) && choices == old(choices)
      ensures cond.BoolList? && IsInstance(choice, default) ==> r == Pass && choices == old(choices) + [choice]
    {
      if cond.OtherList? {
        return Fail(TypeError);
      }
      conditions := conditions + [cond];
      if !IsInstance(choice, default) {
        return Fail(TypeError);
      }
      choices := choices + [choice];
      return Pass;
    }

    /** `end`: `select` over what was collected. After a `when` that
        refused its choice there is one condition more than choices, and
        `end` fails its length assertion. */
    function End(): (r: Result<Selection>)
      reads this
      ensures |conditions| != |choices| ==> r == Err(AssertionError)
      ensures r.Ok? ==> KernelFor(default) == Ok(r.value.kernel)
    {
      PySelect(conditions, choices, default)
    }
  }

  /** A `case` over `0, ..., 5`: `when(< 2, 0)`, `when(< 4, 1)`, default
      `2`. */
  method CaseExample() returns (r: Result<Selection>)
    ensures r == Ok(Selection(SelectInt, [PyInt(0), PyInt(0), PyInt(1), PyInt(1), PyInt(2), PyInt(2)]))
  {
    var below2 := BoolList(Column([true, true, false, false, false, false], {}));
    var below4 := BoolList(Column([true, true, true, true, false, false], {}));
    var nums := OtherList(Int64);
    var builder := new CaseObject(nums, PyInt(2));
    var first := builder.When(below2, PyInt(0));
    var second := builder.When(below4, PyInt(1));
    r := builder.End();
    var conds := [below2, below4];
    var picks := [PyInt(0), PyInt(1)];
    assert builder.conditions == conds && builder.choices == picks;
    assert RawConditions(conds) == [below2.col.values, below4.col.values];
    SelectExample(PyInt(0), PyInt(1), PyInt(2));
  }
}
