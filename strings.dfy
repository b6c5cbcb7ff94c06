/** `StringList`: the nullable list of strings, with the empty string as
    the null placeholder. Its substring tests read a null as `false`; its
    casts parse every raw value. */
module Strings {
  import opened Wrappers
  import opened Primitives
  import opened Base
  import Boolean
  import Integers
  import NonFloat

  /** `na_value` of a string list. */
  const NaValue: string := ""

  // ---------------------------------------------------------------------
  // contains / starts_with / ends_with

  /** `s.starts_with(p)`. */
  predicate IsPrefix(p: string, s: string)
  {
    |p| <= |s| && s[..|p|] == p
  }

  /** `s.ends_with(p)`. */
  predicate IsSuffix(p: string, s: string)
  {
    |p| <= |s| && s[|s| - |p|..] == p
  }

  /** `p` occurs in `s` at offset `i`. */
  predicate OccursAt(p: string, s: string, i: int)
  {
    0 <= i <= |s| - |p| && s[i..i + |p|] == p
  }

  /** `s.contains(p)`: `p` occurs at some offset. */
  predicate IsSubstring(p: string, s: string)
  {
    exists i :: 0 <= i <= |s| - |p| && OccursAt(p, s, i)
  }

  /** The three substring tests. */
  datatype StrTest = Contains | StartsWith | EndsWith

  predicate Matches(t: StrTest, pat: string, s: string)
  {
    match t
    case Contains => IsSubstring(pat, s)
    case StartsWith => IsPrefix(pat, s)
    case EndsWith => IsSuffix(pat, s)
  }

  /** The boolean list a substring test denotes: no nulls, and `false`
      where the input is null. */
  function Tested(c: Column<string>, t: StrTest, pat: string): Column<bool>
  {
    Column(seq(|c.values|, i requires 0 <= i < |c.values| =>
                 i !in c.nulls && Matches(t, pat, c.values[i])),
           {})
  }

  /** `contains` / `starts_with` / `ends_with`: test every raw value, then
      `_fill_na` with `false`; the result has no nulls. */
  method Test(c: Column<string>, t: StrTest, pat: string) returns (r: Column<bool>)
    requires c.Valid()
    ensures r == Tested(c, t, pat)
  {
    var n := |c.values|;
    var buffer := new bool[n](i requires 0 <= i < n => Matches(t, pat, c.values[i]));
    FillNa(buffer, c.nulls, false);
    r := Column(buffer[..], {});
  }

  /** A test is true exactly at the present strings that pass it. */
  lemma TestedElements(c: Column<string>, t: StrTest, pat: string)
    requires c.Valid()
    ensures var r := Tested(c, t, pat);
            r.Valid() && r.Size() == c.Size() && r.CountNa() == 0 &&
            forall i :: 0 <= i < r.Size() ==>
              (r.ToList()[i] == Some(true) <==>
               c.ToList()[i].Some? && Matches(t, pat, c.ToList()[i].value))
  {
  }

  /** A string that starts or ends with the pattern contains it. */
  lemma AffixImpliesContains(c: Column<string>, pat: string, i: nat)
    requires i < c.Size()
    ensures Tested(c, StartsWith, pat).values[i] ==> Tested(c, Contains, pat).values[i]
    ensures Tested(c, EndsWith, pat).values[i] ==> Tested(c, Contains, pat).values[i]
  {
    var s := c.values[i];
    if IsPrefix(pat, s) {
      assert OccursAt(pat, s, 0);
    }
    if IsSuffix(pat, s) {
      assert OccursAt(pat, s, |s| - |pat|);
    }
  }

  /** tests/test_string.py: `starts_with("num")`. */
  lemma StartsWithExample()
    ensures Tested(Column(["num", "1num2", "3num", "num1"], {}), StartsWith, "num").values
            == [true, false, false, true]
  {
    var r := Tested(Column(["num", "1num2", "3num", "num1"], {}), StartsWith, "num").values;
    assert "1num2"[..3] == "1nu" && "3num"[..3] == "3nu" && "num1"[..3] == "num";
    assert !r[1] && !r[2] && r[3];
  }

  /** tests/test_string.py: `ends_with("num")`. */
  lemma EndsWithExample()
    ensures Tested(Column(["num", "1num2", "3num", "num1"], {}), EndsWith, "num").values
            == [true, false, true, false]
  {
    var r := Tested(Column(["num", "1num2", "3num", "num1"], {}), EndsWith, "num").values;
    assert "1num2"[2..] == "um2" && "3num"[1..] == "num" && "num1"[1..] == "um1";
    assert !r[1] && r[2] && !r[3];
  }

  /** tests/test_string.py: `contains("num")`. */
  lemma ContainsExample()
    ensures Tested(Column(["num1", "num2", "element1", "element2"], {}), Contains, "num").values
            == [true, true, false, false]
  {
    assert OccursAt("num", "num1", 0) && OccursAt("num", "num2", 0);
    NoLetterNoMatch("num", "element1", 1);
    NoLetterNoMatch("num", "element2", 1);
  }

  /** A string lacking one of the pattern's characters does not contain it. */
  lemma NoLetterNoMatch(p: string, s: string, k: nat)
    requires k < |p| && forall i :: 0 <= i < |s| ==> s[i] != p[k]
    ensures !IsSubstring(p, s)
  {
    forall i | 0 <= i <= |s| - |p| ensures !OccursAt(p, s, i) {
      assert s[i..i + |p|][k] != p[k];
    }
  }

  // ---------------------------------------------------------------------
  // Casts

  /** Every string parsed, `None` when one of them does not parse (the
      `unwrap` that panics). */
  function ParseAll<U>(s: seq<string>, parse: string -> Option<U>): (r: Option<seq<U>>)
    ensures r.Some? <==> forall i :: 0 <= i < |s| ==> parse(s[i]).Some?
    ensures r.Some? ==> |r.value| == |s| && forall i :: 0 <= i < |s| ==> parse(s[i]) == Some(r.value[i])
  {
    if |s| == 0 then Some([])
    else
      var init := s[..|s| - 1];
      assert forall i :: 0 <= i < |init| ==> init[i] == s[i];
      match (ParseAll(init, parse), parse(s[|s| - 1]))
      case (Some(vs), Some(v)) => Some(vs + [v])
      case _ => None
  }

  /** `as_bool`: `parse::<bool>().unwrap()` of every raw value, nulls kept. */
  function AsBool(c: Column<string>): (r: Result<Column<bool>>)
    ensures r.Err? ==> r.error == Panic
    ensures r.Ok? <==> forall i :: 0 <= i < |c.values| ==> ParseBool(c.values[i]).Some?
    ensures r.Ok? ==> r.value.nulls == c.nulls && r.value.Size() == c.Size()
    ensures r.Ok? ==> forall i :: 0 <= i < |c.values| ==> ParseBool(c.values[i]) == Some(r.value.values[i])
  {
    match ParseAll(c.values, ParseBool)
    case None => Err(Panic)
    case Some(vs) => Ok(Column(vs, c.nulls))
  }

  /** `as_int32` / `as_int64`: `parse().unwrap()` of every raw value, nulls
      kept. */
  function AsInt(c: Column<string>, w: Width): (r: Result<Column<int>>)
    ensures r.Err? ==> r.error == Panic
    ensures r.Ok? <==> forall i :: 0 <= i < |c.values| ==> ParseInt(c.values[i], w).Some?
    ensures r.Ok? ==> r.value.nulls == c.nulls && r.value.Size() == c.Size() && AllInRange(w, r.value.values)
    ensures r.Ok? ==> forall i :: 0 <= i < |c.values| ==> ParseInt(c.values[i], w) == Some(r.value.values[i])
  {
    match ParseAll(c.values, s => ParseInt(s, w))
    case None => Err(Panic)
    case Some(vs) => Ok(Column(vs, c.nulls))
  }

  /** `as_bool` undoes `BooleanList::as_str`, nulls included: the null
      placeholder `false` is written as "false" and read back. */
  lemma BoolTextRoundTrip(b: Column<bool>)
    ensures AsBool(Boolean.AsStr(b)) == Ok(b)
  {
    var text := Boolean.AsStr(b);
    var parsed := ParseAll(text.values, ParseBool);
    assert parsed.Some?;
    assert parsed.value == b.values;
  }

  /** `as_int32` / `as_int64` undo the integer lists' `as_str`. */
  lemma IntTextRoundTrip(s: seq<int>, w: Width)
    requires AllInRange(w, s)
    ensures AsInt(Column(Integers.AsStr(s), {}), w) == Ok(Column(s, {}))
  {
    var text := Integers.AsStr(s);
    assert forall i :: 0 <= i < |s| ==> text[i] == FormatInt(s[i]);
    forall i | 0 <= i < |s| ensures ParseInt(text[i], w) == Some(s[i]) {
      ParseFormatInt(s[i], w);
    }
    var parsed := ParseAll(text, x => ParseInt(x, w));
    assert parsed.Some?;
    assert parsed.value == s;
  }

  /** A null stores "", which neither parse accepts, so every cast of a list
      holding a null panics. */
  lemma NullBreaksCasts(c: Column<string>, w: Width)
    requires NonFloat.PlaceholderAtNulls(c, NaValue) && c.nulls != {}
    ensures AsBool(c).Err? && AsInt(c, w).Err?
  {
    var i :| i in c.nulls;
    assert ParseBool(c.values[i]) == None;
    assert ParseInt(c.values[i], w) == None;
  }
}
