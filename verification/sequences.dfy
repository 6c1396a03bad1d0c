/** Small facts about sequences used by several modules: searching for the first
    element that satisfies a test (List.Find), removing one element (List.Remove)
    and adding up a size over the elements. */
module Sequences {
  import opened Wrappers

  /** The index of the first element that satisfies `p`, if any. */
  function FirstIndex<T>(s: seq<T>, p: T -> bool): (r: Option<nat>)
    ensures r.Some? ==> r.value < |s| && p(s[r.value])
    ensures r.Some? ==> forall j :: 0 <= j < r.value ==> !p(s[j])
    ensures r.None? <==> forall j :: 0 <= j < |s| ==> !p(s[j])
  {
    if s == [] then None
    else if p(s[0]) then Some(0)
    else match FirstIndex(s[1..], p)
      case None =>
        assert forall j :: 1 <= j < |s| ==> s[j] == s[1..][j - 1];
        None
      case Some(k) =>
        assert forall j :: 1 <= j <= k + 1 ==> s[j] == s[1..][j - 1];
        Some(k + 1)
  }

  /** `s` without its element at index `k`. */
  function RemoveAt<T>(s: seq<T>, k: nat): (r: seq<T>)
    requires k < |s|
    ensures |r| == |s| - 1
    ensures forall j :: 0 <= j < k ==> r[j] == s[j]
    ensures forall j :: k <= j < |r| ==> r[j] == s[j + 1]
    ensures multiset(r) + multiset{s[k]} == multiset(s)
  {
    assert s == s[..k] + [s[k]] + s[k + 1..];
    s[..k] + s[k + 1..]
  }

  /** The sum of `size` over the elements of `s`. */
  function Total<T>(s: seq<T>, size: T -> nat): nat
  {
    if s == [] then 0 else Total(s[..|s| - 1], size) + size(s[|s| - 1])
  }

  lemma {:induction false} TotalAppend<T>(s: seq<T>, x: T, size: T -> nat)
    ensures Total(s + [x], size) == Total(s, size) + size(x)
  {
    assert (s + [x])[..|s|] == s;
  }

  /** Removing one element takes exactly its size off the total. */
  lemma {:induction false} TotalRemoveAt<T>(s: seq<T>, k: nat, size: T -> nat)
    requires k < |s|
    ensures Total(RemoveAt(s, k), size) + size(s[k]) == Total(s, size)
    decreases |s|
  {
    var last := |s| - 1;
    if k == last {
      assert RemoveAt(s, k) == s[..last];
    } else {
      var init := s[..last];
      TotalRemoveAt(init, k, size);
      assert RemoveAt(s, k) == RemoveAt(init, k) + [s[last]];
      TotalAppend(RemoveAt(init, k), s[last], size);
      assert init[k] == s[k];
    }
  }

  /** When every element has a positive size, the total is zero exactly for the empty sequence. */
  lemma {:induction false} TotalZeroIffEmpty<T>(s: seq<T>, size: T -> nat)
    requires forall j :: 0 <= j < |s| ==> size(s[j]) > 0
    ensures Total(s, size) == 0 <==> s == []
  {
    if s != [] {
      assert size(s[|s| - 1]) > 0;
    }
  }
}
