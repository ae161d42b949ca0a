/** The pure list computations behind the handlers of the `App` component:
    the duplicate test of `handleAddChoice` (a `find` whose result is tested
    for truthiness) and the remove-at-index `filter` of `handleRemoveChoice`. */
module ChoiceList {

  datatype Option<T> = None | Some(value: T)

  /** Truthiness of a JavaScript string: only the empty string is falsy. */
  predicate Truthy(s: string) {
    s != ""
  }

  /** `Array.prototype.find` with the callback `choice => choice === target`:
      the first element equal to `target`, or `undefined` (here `None`). */
  function Find(s: seq<string>, target: string): (r: Option<string>)
    ensures r.Some? <==> target in s
    ensures r.Some? ==> r.value == target
  {
    if s == [] then None
    else if s[0] == target then Some(s[0])
    else
      assert s == [s[0]] + s[1..];
      Find(s[1..], target)
  }

  /** The guard of `handleAddChoice`: the element that `find` returns must be
      truthy, so the empty string is never reported as a duplicate, even when
      the list already holds it. */
  function IsDuplicate(s: seq<string>, current: string): (dup: bool)
    ensures dup <==> Truthy(current) && current in s
  {
    match Find(s, current)
    case Some(v) => Truthy(v)
    case None => false
  }

  /** `s.filter((_, i) => i !== index)`: every element whose position is not
      `index`, in their original order. The filter walks the positions; this
      definition peels the last one so that positions keep their meaning. */
  function RemoveAt(s: seq<string>, index: int): (r: seq<string>)
    ensures 0 <= index < |s| ==> r == s[..index] + s[index + 1..]
    ensures !(0 <= index < |s|) ==> r == s
  {
    if s == [] then []
    else
      var n := |s| - 1;
      var front := RemoveAt(s[..n], index);
      assert s == s[..n] + [s[n]];
      if n == index then front
      else
        assert 0 <= index < n ==> s[..n][..index] == s[..index] && s[index + 1..] == s[..n][index + 1..] + [s[n]];
        front + [s[n]]
  }

  /** No two entries are equal unless they are the (exempt) empty string. */
  ghost predicate DistinctNonEmpty(s: seq<string>) {
    forall i, j :: 0 <= i < j < |s| && Truthy(s[i]) ==> s[i] != s[j]
  }

  /** The list `handleAddChoice` leaves behind. */
  function AddResult(s: seq<string>, current: string): (r: seq<string>)
    ensures IsDuplicate(s, current) ==> r == s
    ensures !IsDuplicate(s, current) ==> |r| == |s| + 1 && r[..|s|] == s && r[|s|] == current
  {
    if IsDuplicate(s, current) then s else s + [current]
  }

  /** An add keeps the non-empty entries distinct. */
  lemma AddKeepsDistinct(s: seq<string>, current: string)
    requires DistinctNonEmpty(s)
    ensures DistinctNonEmpty(AddResult(s, current))
  {
    if !IsDuplicate(s, current) {
      var r := s + [current];
      forall i, j | 0 <= i < j < |r| && Truthy(r[i])
        ensures r[i] != r[j]
      {
        if j == |s| {
          assert r[i] == s[i];
          assert s[i] in s;
        }
      }
    }
  }

  /** Removing a position keeps the non-empty entries distinct. */
  lemma RemoveKeepsDistinct(s: seq<string>, index: int)
    requires DistinctNonEmpty(s)
    ensures DistinctNonEmpty(RemoveAt(s, index))
  {
    if 0 <= index < |s| {
      var r := RemoveAt(s, index);
      forall i, j | 0 <= i < j < |r| && Truthy(r[i])
        ensures r[i] != r[j]
      {
        var i' := if i < index then i else i + 1;
        var j' := if j < index then j else j + 1;
        assert r[i] == s[i'] && r[j] == s[j'];
      }
    }
  }

  /** Removing the position an add just filled restores the list exactly. */
  lemma RemoveUndoesAdd(s: seq<string>, current: string)
    requires !IsDuplicate(s, current)
    ensures RemoveAt(AddResult(s, current), |s|) == s
  {
    assert (s + [current])[..|s|] == s;
  }

  /** Adding the same text twice in a row: the second add is rejected exactly
      when the text is non-empty; the empty string goes in a second time. */
  lemma SecondAddRejected(s: seq<string>, current: string)
    ensures IsDuplicate(AddResult(s, current), current) <==> Truthy(current)
    ensures |AddResult(AddResult(s, current), current)| == |AddResult(s, current)| + (if Truthy(current) then 0 else 1)
  {
    if !IsDuplicate(s, current) {
      assert AddResult(s, current)[|s|] == current;
    }
  }

  /** The empty-string quirk: a list that already holds "" accepts it again,
      so the list can hold equal entries. */
  lemma EmptyTextRepeats(s: seq<string>)
    requires "" in s
    ensures AddResult(s, "") == s + [""]
    ensures exists i, j :: 0 <= i < j < |AddResult(s, "")| && AddResult(s, "")[i] == AddResult(s, "")[j]
  {
    var k :| 0 <= k < |s| && s[k] == "";
    var r := AddResult(s, "");
    assert r[k] == "" && r[|s|] == "";
  }
}
