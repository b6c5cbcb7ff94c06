/** The `select` kernel behind `select_bool` / `select_float` /
    `select_int`: for each position, the choice of the first condition that
    holds there, or the default. A condition is read through its raw values;
    reading past the end of one, or taking a choice that does not exist,
    panics. */
module ControlFlow {
  import opened Wrappers

  /** What `select` puts at position `j`, scanning the conditions from
      `i` on. */
  function PickFrom<T>(conditions: seq<seq<bool>>, choices: seq<T>, default: T, j: nat, i: nat): Result<T>
    decreases |conditions| - i
  {
    if i >= |conditions| then Ok(default)
    else if j >= |conditions[i]| then Err(Panic)
    else if conditions[i][j] then (if i < |choices| then Ok(choices[i]) else Err(Panic))
    else PickFrom(conditions, choices, default, j, i + 1)
  }

  function Pick<T>(conditions: seq<seq<bool>>, choices: seq<T>, default: T, j: nat): Result<T>
  {
    PickFrom(conditions, choices, default, j, 0)
  }

  /** The result of `select`: a panic when there is no condition (the first
      one gives the length) or when some position panics; otherwise the
      picks. */
  function Selected<T>(conditions: seq<seq<bool>>, choices: seq<T>, default: T): Result<seq<T>>
  {
    if |conditions| == 0 then Err(Panic)
    else
      var n := |conditions[0]|;
      if exists j :: 0 <= j < n && Pick(conditions, choices, default, j).Err? then Err(Panic)
      else Ok(seq(n, j requires 0 <= j < n => Pick(conditions, choices, default, j).value))
  }

  /** The first condition that holds at `j` decides; later ones are not
      read. */
  lemma {:induction false} PickFirstMatch<T>(conditions: seq<seq<bool>>, choices: seq<T>, default: T, j: nat, i: nat, from: nat)
    requires from <= i < |conditions| && i < |choices|
    requires j < |conditions[i]| && conditions[i][j]
    requires forall k :: from <= k < i ==> j < |conditions[k]| && !conditions[k][j]
    ensures PickFrom(conditions, choices, default, j, from) == Ok(choices[i])
    decreases i - from
  {
    if from < i {
      PickFirstMatch(conditions, choices, default, j, i, from + 1);
    }
  }

  /** Where no condition holds, the default. */
  lemma {:induction false} PickNoMatch<T>(conditions: seq<seq<bool>>, choices: seq<T>, default: T, j: nat, from: nat)
    requires from <= |conditions|
    requires forall k :: from <= k < |conditions| ==> j < |conditions[k]| && !conditions[k][j]
    ensures PickFrom(conditions, choices, default, j, from) == Ok(default)
    decreases |conditions| - from
  {
    if from < |conditions| {
      PickNoMatch(conditions, choices, default, j, from + 1);
    }
  }

  /** Conditions of one length and a choice for each: `select` does not
      panic, the result has the conditions' length, and every position holds
      the first matching choice or the default. */
  lemma SelectWellFormed<T>(conditions: seq<seq<bool>>, choices: seq<T>, default: T)
    requires |conditions| > 0 && |choices| >= |conditions|
    requires forall k :: 0 <= k < |conditions| ==> |conditions[k]| == |conditions[0]|
    ensures Selected(conditions, choices, default).Ok?
    ensures |Selected(conditions, choices, default).value| == |conditions[0]|
    ensures forall j, i :: 0 <= j < |conditions[0]| && 0 <= i < |conditions| && conditions[i][j] &&
                           (forall k :: 0 <= k < i ==> !conditions[k][j]) ==>
                           Selected(conditions, choices, default).value[j] == choices[i]
    ensures forall j :: 0 <= j < |conditions[0]| && (forall k :: 0 <= k < |conditions| ==> !conditions[k][j]) ==>
                        Selected(conditions, choices, default).value[j] == default
  {
    var n := |conditions[0]|;
    forall j | 0 <= j < n ensures Pick(conditions, choices, default, j).Ok? {
      PickTotal(conditions, choices, default, j, 0);
    }
    forall j, i | 0 <= j < n && 0 <= i < |conditions| && conditions[i][j] &&
                  (forall k :: 0 <= k < i ==> !conditions[k][j])
      ensures Pick(conditions, choices, default, j) == Ok(choices[i])
    {
      PickFirstMatch(conditions, choices, default, j, i, 0);
    }
    forall j | 0 <= j < n && (forall k :: 0 <= k < |conditions| ==> !conditions[k][j])
      ensures Pick(conditions, choices, default, j) == Ok(default)
    {
      PickNoMatch(conditions, choices, default, j, 0);
    }
  }

  lemma {:induction false} PickTotal<T>(conditions: seq<seq<bool>>, choices: seq<T>, default: T, j: nat, from: nat)
    requires |choices| >= |conditions|
    requires forall k :: 0 <= k < |conditions| ==> j < |conditions[k]|
    ensures PickFrom(conditions, choices, default, j, from).Ok?
    decreases |conditions| - from
  {
    if from < |conditions| && !conditions[from][j] {
      PickTotal(conditions, choices, default, j, from + 1);
    }
  }

  /** `select`: a buffer filled with the default, then for every position
      the conditions in order until one holds. */
  method Select<T>(conditions: seq<seq<bool>>, choices: seq<T>, default: T) returns (r: Result<seq<T>>)
    ensures r == Selected(conditions, choices, default)
  {
    if |conditions| == 0 {
      return Err(Panic);
    }
    var n := |conditions[0]|;
    var vec := new T[n](_ => default);
    var j := 0;
    while j < n
      invariant 0 <= j <= n
      invariant forall k :: 0 <= k < j ==> Pick(conditions, choices, default, k) == Ok(vec[k])
    {
      var i := 0;
      while i < |conditions|
        invariant 0 <= i <= |conditions|
        invariant forall k :: 0 <= k < j ==> Pick(conditions, choices, default, k) == Ok(vec[k])
        invariant Pick(conditions, choices, default, j) == PickFrom(conditions, choices, default, j, i)
      {
        if j >= |conditions[i]| {
          return Err(Panic);
        }
        if conditions[i][j] {
          if i >= |choices| {
            return Err(Panic);
          }
          vec[j] := choices[i];
          break;
        }
        i := i + 1;
      }
      if i == |conditions| {
        vec[j] := default;
      }
      j := j + 1;
    }
    r := Ok(vec[..]);
    assert r.value == seq(n, k requires 0 <= k < n => Pick(conditions, choices, default, k).value);
  }

  /** The select example: over `0, ..., 5`, the conditions `< 2` and `< 4`
      with choices `a` and `b` and default `d` give `a, a, b, b, d, d`. */
  lemma SelectExample<T>(a: T, b: T, d: T)
    ensures var below2 := [true, true, false, false, false, false];
            var below4 := [true, true, true, true, false, false];
            Selected([below2, below4], [a, b], d) == Ok([a, a, b, b, d, d])
  {
    var below2 := [true, true, false, false, false, false];
    var below4 := [true, true, true, true, false, false];
    var cs := [below2, below4];
    SelectWellFormed(cs, [a, b], d);
    var r := Selected(cs, [a, b], d).value;
    assert |r| == 6;
    PickFirstMatch(cs, [a, b], d, 0, 0, 0);
    PickFirstMatch(cs, [a, b], d, 1, 0, 0);
    PickFirstMatch(cs, [a, b], d, 2, 1, 0);
    PickFirstMatch(cs, [a, b], d, 3, 1, 0);
    PickNoMatch(cs, [a, b], d, 4, 0);
    PickNoMatch(cs, [a, b], d, 5, 0);
    assert r == [a, a, b, b, d, d];
  }
}
