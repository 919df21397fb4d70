/** Sequence helpers shared by the lookups: the first position satisfying a
    test, and the Java idiom of a list field that stays null until its first
    `add`. */
module Lists {
  import opened Outcomes

  /** Position of the first element satisfying `p`, scanning from the front. */
  function FirstIndex<T>(xs: seq<T>, p: T -> bool): (r: Option<nat>)
    ensures r.Some? ==> r.value < |xs| && p(xs[r.value])
    ensures r.Some? ==> forall k :: 0 <= k < r.value ==> !p(xs[k])
    ensures r.None? <==> forall k :: 0 <= k < |xs| ==> !p(xs[k])
  {
    if |xs| == 0 then None
    else if p(xs[0]) then Some(0)
    else
      match FirstIndex(xs[1..], p)
      case None => None
      case Some(i) => Some(i + 1)
  }

  /** The first element satisfying `p`, or `None` (Java's `return null`). */
  function FirstWhere<T>(xs: seq<T>, p: T -> bool): (r: Option<T>)
    ensures r.Some? ==> r.value in xs && p(r.value)
    ensures r.None? <==> forall k :: 0 <= k < |xs| ==> !p(xs[k])
    ensures r.Some? ==> exists i :: 0 <= i < |xs| && xs[i] == r.value && forall k :: 0 <= k < i ==> !p(xs[k])
  {
    match FirstIndex(xs, p)
    case None => None
    case Some(i) => Some(xs[i])
  }

  /** A list field that is null until the first element is added. */
  function Append<T>(list: Option<seq<T>>, x: T): (r: Option<seq<T>>)
    ensures r.Some? && |r.value| == |list.GetOr([])| + 1
    ensures r.value[..|r.value| - 1] == list.GetOr([]) && r.value[|r.value| - 1] == x
  {
    Some(list.GetOr([]) + [x])
  }

  /** Appending to a null list gives a one-element list, and appending twice
      keeps both elements in order after the earlier ones. */
  lemma AppendOrder<T>(list: Option<seq<T>>, x: T, y: T)
    ensures list.None? ==> Append(list, x) == Some([x])
    ensures Append(Append(list, x), y) == Some(list.GetOr([]) + [x, y])
  {
    assert list.GetOr([]) + [x] + [y] == list.GetOr([]) + [x, y];
  }
}
