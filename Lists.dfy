/** List edits shared by the editors: removal by position, and filter-then-map. */
module Lists {

  /** `s.filter((_, i) => i !== index)`: position `index` dropped when it
      exists, every other element kept in order. */
  function RemovedAt<T>(s: seq<T>, index: int): (r: seq<T>)
    ensures 0 <= index < |s| ==> (
      && |r| == |s| - 1
      && (forall j :: 0 <= j < index ==> r[j] == s[j])
      && (forall j :: index <= j < |r| ==> r[j] == s[j + 1]))
    ensures !(0 <= index < |s|) ==> r == s
  {
    if 0 <= index < |s| then s[..index] + s[index + 1..] else s
  }

  /** Removing an element and inserting it back at the same position restores the list. */
  lemma RemovedThenReinserted<T>(s: seq<T>, index: nat)
    requires index < |s|
    ensures RemovedAt(s, index)[..index] + [s[index]] + RemovedAt(s, index)[index..] == s
  {
    var r := RemovedAt(s, index);
    var back := r[..index] + [s[index]] + r[index..];
    assert |back| == |s|;
    forall j | 0 <= j < |s|
      ensures back[j] == s[j]
    {
      if j < index {
        assert back[j] == r[j];
      } else if j > index {
        assert back[j] == r[j - 1];
      }
    }
  }

  /** `xs.filter(keep).map(f)`: the kept elements, transformed, in order. */
  function KeepMap<A, B>(xs: seq<A>, keep: A -> bool, f: A -> B): (r: seq<B>)
    ensures |r| <= |xs|
    decreases |xs|
  {
    if |xs| == 0 then []
    else if keep(xs[0]) then [f(xs[0])] + KeepMap(xs[1..], keep, f)
    else KeepMap(xs[1..], keep, f)
  }

  /** Filtering then mapping distributes over concatenation. */
  lemma {:induction false} KeepMapAppend<A, B>(xs: seq<A>, ys: seq<A>, keep: A -> bool, f: A -> B)
    ensures KeepMap(xs + ys, keep, f) == KeepMap(xs, keep, f) + KeepMap(ys, keep, f)
    decreases |xs|
  {
    if |xs| == 0 {
      assert xs + ys == ys;
    } else {
      assert (xs + ys)[0] == xs[0];
      assert (xs + ys)[1..] == xs[1..] + ys;
      KeepMapAppend(xs[1..], ys, keep, f);
    }
  }

  /** Every result element is the image of a kept input element. */
  lemma {:induction false} KeepMapImage<A, B>(xs: seq<A>, keep: A -> bool, f: A -> B, j: nat)
    requires j < |KeepMap(xs, keep, f)|
    ensures exists i :: 0 <= i < |xs| && keep(xs[i]) && KeepMap(xs, keep, f)[j] == f(xs[i])
    decreases |xs|
  {
    var rest := KeepMap(xs[1..], keep, f);
    if keep(xs[0]) && j == 0 {
      assert keep(xs[0]) && KeepMap(xs, keep, f)[0] == f(xs[0]);
    } else {
      var j' := if keep(xs[0]) then j - 1 else j;
      assert KeepMap(xs, keep, f)[j] == rest[j'];
      KeepMapImage(xs[1..], keep, f, j');
      var i :| 0 <= i < |xs[1..]| && keep(xs[1..][i]) && rest[j'] == f(xs[1..][i]);
      assert xs[1..][i] == xs[i + 1];
    }
  }

  /** When every element is kept and maps to its counterpart in `ys`, the result is `ys`. */
  lemma {:induction false} KeepMapAllKept<A, B>(xs: seq<A>, keep: A -> bool, f: A -> B, ys: seq<B>)
    requires |xs| == |ys|
    requires forall i :: 0 <= i < |xs| ==> keep(xs[i]) && f(xs[i]) == ys[i]
    ensures KeepMap(xs, keep, f) == ys
    decreases |xs|
  {
    if |xs| > 0 {
      assert forall i :: 0 <= i < |xs[1..]| ==> xs[1..][i] == xs[i + 1] && ys[1..][i] == ys[i + 1];
      KeepMapAllKept(xs[1..], keep, f, ys[1..]);
      assert ys == [ys[0]] + ys[1..];
    }
  }
}
