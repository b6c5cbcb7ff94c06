/** `IndexList`: a dense, non-nullable vector of positions, used as the key
    of a gather (`get_by_indexes`) and produced by `BooleanList::to_index`.
    It has no mutators, so it is a value. */
module Index {
  import opened Wrappers
  import opened Primitives

  datatype IndexList = IndexList(values: seq<nat>)

  /** `back`: the last position. On an empty list `len() - 1` underflows
      and the program panics. */
  function Back(l: IndexList): (r: Result<nat>)
    ensures r.Ok? <==> |l.values| > 0
    ensures r.Ok? ==> r.value == l.values[|l.values| - 1]
    ensures r.Err? ==> r.error == Panic
  {
    if |l.values| == 0 then Err(Panic) else Ok(l.values[|l.values| - 1])
  }

  /** `to_list`: a copy of the stored positions, in order. */
  function ToList(l: IndexList): (r: seq<nat>)
    ensures |r| == |l.values|
    ensures forall i :: 0 <= i < |r| ==> r[i] == l.values[i]
  {
    l.values
  }

  /** The items of a list as `{:?}` prints them: decimal forms joined by ", ". */
  function Join(xs: seq<nat>): string
  {
    if |xs| == 0 then ""
    else if |xs| == 1 then FormatNat(xs[0])
    else FormatNat(xs[0]) + ", " + Join(xs[1..])
  }

  lemma {:induction false} JoinAppend(a: seq<nat>, b: seq<nat>)
    requires |a| > 0 && |b| > 0
    ensures Join(a + b) == Join(a) + ", " + Join(b)
  {
    if |a| == 1 {
      assert (a + b)[1..] == b;
    } else {
      assert (a + b)[1..] == a[1..] + b;
      JoinAppend(a[1..], b);
    }
  }

  /** The length of the run of digits that starts a string. */
  function DigitRun(s: string): (k: nat)
    ensures k <= |s| && AllDigits(s[..k])
    ensures k < |s| ==> !IsDigit(s[k])
  {
    if |s| == 0 || !IsDigit(s[0]) then 0
    else
      var k := 1 + DigitRun(s[1..]);
      assert forall i :: 1 <= i < k ==> s[i] == s[1..][i - 1];
      k
  }

  /** Reads a `{:?}` item list back: a run of digits, then a separator of two
      characters, and so on to the end of the text. */
  function ReadItems(s: string): seq<nat>
    decreases |s|
  {
    if |s| == 0 then []
    else
      var k := DigitRun(s);
      [DigitsValue(s[..k])] + (if k + 2 <= |s| then ReadItems(s[k + 2..]) else [])
  }

  lemma {:induction false} DigitRunPrefix(a: string, b: string)
    requires AllDigits(a)
    requires |b| == 0 || !IsDigit(b[0])
    ensures DigitRun(a + b) == |a|
  {
    if |a| > 0 {
      assert (a + b)[1..] == a[1..] + b;
      DigitRunPrefix(a[1..], b);
    }
  }

  /** Reading back the `{:?}` item list gives the positions it was made from. */
  lemma {:induction false} ReadJoin(xs: seq<nat>)
    ensures ReadItems(Join(xs)) == xs
  {
    if |xs| > 0 {
      var a := FormatNat(xs[0]);
      DigitsValueOfFormatNat(xs[0]);
      if |xs| == 1 {
        assert Join(xs) == a;
        ReadItemsLast(a);
      } else {
        var rest := Join(xs[1..]);
        assert Join(xs) == a + (", " + rest);
        ReadItemsCons(a, rest);
        ReadJoin(xs[1..]);
      }
    }
  }

  lemma ReadItemsLast(a: string)
    requires |a| > 0 && AllDigits(a)
    ensures ReadItems(a) == [DigitsValue(a)]
  {
    DigitRunPrefix(a, "");
    assert a + "" == a;
    assert a[..|a|] == a;
  }

  lemma ReadItemsCons(a: string, rest: string)
    requires |a| > 0 && AllDigits(a)
    ensures ReadItems(a + (", " + rest)) == [DigitsValue(a)] + ReadItems(rest)
  {
    var s := a + (", " + rest);
    DigitRunPrefix(a, ", " + rest);
    assert s[..|a|] == a;
    assert s[|a| + 2..] == rest;
  }

  /** `__str__`: below 100 elements the whole list as `{:?}` prints it;
      from 100 on, the first three and the last three items around `...`. */
  function Str(l: IndexList): (r: string)
    ensures |r| >= 2 && r[0] == '[' && r[|r| - 1] == ']'
    ensures var n := |l.values|;
            n >= 100 ==> r == "[" + Join(l.values[..3]) + ", ..., " + Join(l.values[n - 3..]) + "]"
  {
    var v := l.values;
    var n := |v|;
    if n < 100 then "[" + Join(v) + "]"
    else
      assert v[..3] == [v[0], v[1], v[2]];
      assert v[n - 3..] == [v[n - 3], v[n - 2], v[n - 1]];
      Join3(v[0], v[1], v[2]);
      Join3(v[n - 3], v[n - 2], v[n - 1]);
      LongAssoc(FormatNat(v[0]), FormatNat(v[1]), FormatNat(v[2]),
                FormatNat(v[n - 3]), FormatNat(v[n - 2]), FormatNat(v[n - 1]));
      "[" + FormatNat(v[0]) + ", " + FormatNat(v[1]) + ", " + FormatNat(v[2]) + ", ..., "
      + FormatNat(v[n - 3]) + ", " + FormatNat(v[n - 2]) + ", " + FormatNat(v[n - 1]) + "]"
  }

  /** The six elements an abbreviated `__str__` keeps. */
  function Ends(l: IndexList): (r: IndexList)
    requires |l.values| >= 6
    ensures |r.values| == 6
  {
    var n := |l.values|;
    IndexList(l.values[..3] + l.values[n - 3..])
  }

  lemma Join3(a: nat, b: nat, c: nat)
    ensures Join([a, b, c]) == FormatNat(a) + ", " + FormatNat(b) + ", " + FormatNat(c)
  {
    assert [a, b, c][1..] == [b, c];
    assert [b, c][1..] == [c];
    assert Join([b, c]) == FormatNat(b) + ", " + FormatNat(c);
    assert Join([a, b, c]) == FormatNat(a) + ", " + (FormatNat(b) + ", " + FormatNat(c));
    SeparatedAssoc(FormatNat(a), FormatNat(b), FormatNat(c), ", ");
  }

  lemma SeparatedAssoc(x: string, y: string, z: string, sep: string)
    ensures x + sep + (y + sep + z) == x + sep + y + sep + z
  {
  }

  lemma LongAssoc(a0: string, a1: string, a2: string, b0: string, b1: string, b2: string)
    ensures "[" + a0 + ", " + a1 + ", " + a2 + ", ..., " + b0 + ", " + b1 + ", " + b2 + "]"
            == "[" + (a0 + ", " + a1 + ", " + a2) + ", ..., " + (b0 + ", " + b1 + ", " + b2) + "]"
  {
  }

  /** From 100 elements on, `__str__` is the full rendering of the first three
      and the last three elements with `..., ` inserted after the third. */
  lemma StrAbbreviated(l: IndexList)
    requires |l.values| >= 100
    ensures var full := Str(Ends(l));
            var k := |"[" + Join(l.values[..3]) + ", "|;
            k <= |full| && Str(l) == full[..k] + "..., " + full[k..]
  {
    var n := |l.values|;
    var x := "[" + Join(l.values[..3]) + ", ";
    var y := Join(l.values[n - 3..]) + "]";
    EndsRendering(l);
    StrLongSplit(l);
    SplitConcat(Str(Ends(l)), x, y);
  }

  lemma SplitConcat(full: string, x: string, y: string)
    requires full == x + y
    ensures |x| <= |full| && full[..|x|] == x && full[|x|..] == y
  {
  }

  lemma EndsRendering(l: IndexList)
    requires |l.values| >= 100
    ensures var n := |l.values|;
            Str(Ends(l)) == ("[" + Join(l.values[..3]) + ", ") + (Join(l.values[n - 3..]) + "]")
  {
    var v := l.values;
    var n := |v|;
    var head, tail := v[..3], v[n - 3..];
    assert Ends(l).values == head + tail;
    StrShort(Ends(l));
    JoinAppend(head, tail);
  }

  lemma StrShort(l: IndexList)
    requires |l.values| < 100
    ensures Str(l) == "[" + Join(l.values) + "]"
  {
  }

  /** Below 100 elements, the text between the brackets of `__str__` reads
      back as the stored positions. */
  lemma StrReadsBack(l: IndexList)
    requires |l.values| < 100
    ensures var r := Str(l); ReadItems(r[1..|r| - 1]) == l.values
  {
    var r := Str(l);
    StrShort(l);
    assert r[1..|r| - 1] == Join(l.values);
    ReadJoin(l.values);
  }

  lemma StrLongSplit(l: IndexList)
    requires |l.values| >= 100
    ensures var n := |l.values|;
            Str(l) == ("[" + Join(l.values[..3]) + ", ") + "..., " + (Join(l.values[n - 3..]) + "]")
  {
  }

  /** `__repr__`: the `__str__` text inside `IndexList(...)`. */
  function Repr(l: IndexList): (r: string)
    ensures |r| == |Str(l)| + 11
    ensures r[..10] == "IndexList(" && r[|r| - 1] == ')'
    ensures r[10..|r| - 1] == Str(l)
  {
    "IndexList(" + Str(l) + ")"
  }

  /** tests/test_index.py: a two-element list. */
  lemma StrOfShortList()
    ensures Str(IndexList([1, 2])) == "[1, 2]"
    ensures Repr(IndexList([1, 2])) == "IndexList([1, 2])"
  {
    assert Join([1, 2]) == "1, 2" by {
      assert [1, 2][1..] == [2];
    }
  }

  /** The positions `0..n`, as `range(0, n)` gives them. */
  function Upto(n: nat): (r: seq<nat>)
    ensures |r| == n && forall i :: 0 <= i < n ==> r[i] == i
  {
    seq(n, i requires 0 <= i => i as nat)
  }

  /** tests/test_index.py: the positions 0 to 99, abbreviated. */
  lemma StrOfLongRange()
    ensures Str(IndexList(Upto(100))) == "[0, 1, 2, ..., 97, 98, 99]"
    ensures Repr(IndexList(Upto(100))) == "IndexList([0, 1, 2, ..., 97, 98, 99])"
  {
    StrOfUpto100();
    LongLiteral();
    ReprLiteral();
  }

  lemma StrOfUpto100()
    ensures Str(IndexList(Upto(100))) == "[" + "0, 1, 2" + ", ..., " + "97, 98, 99" + "]"
  {
    var v := Upto(100);
    assert v[..3] == [0, 1, 2];
    assert v[97..] == [97, 98, 99];
    JoinSmall();
    JoinLarge();
  }

  lemma LongLiteral()
    ensures "[" + "0, 1, 2" + ", ..., " + "97, 98, 99" + "]" == "[0, 1, 2, ..., 97, 98, 99]"
  {
    assert "[" + "0, 1, 2" == "[0, 1, 2";
    assert "[0, 1, 2" + ", ..., " == "[0, 1, 2, ..., ";
    assert "[0, 1, 2, ..., " + "97, 98, 99" == "[0, 1, 2, ..., 97, 98, 99";
    assert "[0, 1, 2, ..., 97, 98, 99" + "]" == "[0, 1, 2, ..., 97, 98, 99]";
  }

  lemma ReprLiteral()
    ensures "IndexList(" + "[0, 1, 2, ..., 97, 98, 99]" + ")" == "IndexList([0, 1, 2, ..., 97, 98, 99])"
  {
    assert "IndexList(" + "[0, 1, 2, ..., 97, 98, 99]" == "IndexList([0, 1, 2, ..., 97, 98, 99]";
  }

  lemma JoinSmall()
    ensures Join([0, 1, 2]) == "0, 1, 2"
  {
    Join3(0, 1, 2);
  }

  lemma JoinLarge()
    ensures Join([97, 98, 99]) == "97, 98, 99"
  {
    Join3(97, 98, 99);
    assert FormatNat(9) == "9";
    assert FormatNat(97) == "97";
    assert FormatNat(98) == "98";
    assert FormatNat(99) == "99";
  }
}
