/** The multi-checkbox group (src/components/fields/CheckboxRadioFieldComponent.tsx):
    clicking an option toggles its membership in the field's value list. */
module Checkbox {
  import opened Json

  /** `Array.isArray(value) ? value : []` */
  function Current(value: Value): seq<Value> {
    if value.Arr? then value.items else []
  }

  /** `s.filter(v => v !== x)`: every occurrence of `x` dropped, the rest in order. */
  function Without(s: seq<Value>, x: Value): (r: seq<Value>)
    ensures x !in r
    ensures forall y :: y != x ==> (y in r <==> y in s)
    ensures multiset(r) == multiset(s)[x := 0]
    decreases |s|
  {
    if |s| == 0 then []
    else
      assert s == [s[0]] + s[1..];
      if s[0] == x then Without(s[1..], x) else [s[0]] + Without(s[1..], x)
  }

  /** Filtering distributes over concatenation, so the kept elements keep their order. */
  lemma {:induction false} WithoutAppend(s: seq<Value>, t: seq<Value>, x: Value)
    ensures Without(s + t, x) == Without(s, x) + Without(t, x)
    decreases |s|
  {
    if |s| == 0 {
      assert s + t == t;
    } else {
      assert (s + t)[0] == s[0] && (s + t)[1..] == s[1..] + t;
      WithoutAppend(s[1..], t, x);
    }
  }

  /** Filtering out an absent value changes nothing. */
  lemma {:induction false} WithoutAbsent(s: seq<Value>, x: Value)
    requires x !in s
    ensures Without(s, x) == s
    decreases |s|
  {
    if |s| > 0 {
      assert x !in s[1..];
      WithoutAbsent(s[1..], x);
      assert s == [s[0]] + s[1..];
    }
  }

  /** `handleMultipleCheckboxChange`: remove every occurrence of a present
      option, append an absent one at the end. Membership of the clicked
      option flips; every other option keeps its membership. */
  function Toggle(value: Value, option: Value): (r: seq<Value>)
    ensures option in r <==> option !in Current(value)
    ensures forall y :: y != option ==> (y in r <==> y in Current(value))
    ensures option !in Current(value) ==> r == Current(value) + [option]
    ensures option in Current(value) ==> multiset(r) == multiset(Current(value))[option := 0]
  {
    var current := Current(value);
    if option in current then Without(current, option) else current + [option]
  }

  /** The box shown checked for `option`: `Array.isArray(value) && value.indexOf(option) !== -1`. */
  predicate Checked(value: Value, option: Value) {
    value.Arr? && option in value.items
  }

  /** The checked state shown after a click is the flipped state of the
      clicked option, and the unchanged state of every other option. */
  lemma ToggleFlipsChecked(value: Value, option: Value, other: Value)
    ensures Checked(Arr(Toggle(value, option)), option) <==> !Checked(value, option)
    ensures other != option ==> (Checked(Arr(Toggle(value, option)), other) <==> Checked(value, other))
  {
  }

  /** Checking an unchecked option and unchecking it again restores the list. */
  lemma ToggleTwiceRestores(value: Value, option: Value)
    requires option !in Current(value)
    ensures Toggle(Arr(Toggle(value, option)), option) == Current(value)
  {
    var current := Current(value);
    WithoutAppend(current, [option], option);
    WithoutAbsent(current, option);
    assert Without([option], option) == [];
  }

  predicate Distinct(s: seq<Value>) {
    forall i, j :: 0 <= i < j < |s| ==> s[i] != s[j]
  }

  lemma {:induction false} WithoutDistinct(s: seq<Value>, x: Value)
    requires Distinct(s)
    ensures Distinct(Without(s, x))
    decreases |s|
  {
    if |s| > 0 {
      assert Distinct(s[1..]);
      WithoutDistinct(s[1..], x);
      assert s[0] !in s[1..];
    }
  }

  /** A duplicate-free value list stays duplicate-free. */
  lemma ToggleKeepsDistinct(value: Value, option: Value)
    requires Distinct(Current(value))
    ensures Distinct(Toggle(value, option))
  {
    if option in Current(value) {
      WithoutDistinct(Current(value), option);
    }
  }
}
