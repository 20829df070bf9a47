/** Arrays of sets, reduced to one set by union or intersection. Reducing an
    empty array yields nil. */
module AttrArrays {
  import opened Wrappers

  /** `union`: the sets combined by union, left to right. */
  function Union<T>(sets: seq<set<T>>): (r: Option<set<T>>)
    ensures r.None? <==> |sets| == 0
    ensures |sets| == 1 ==> r == Some(sets[0])
    ensures r.Some? ==> forall i :: 0 <= i < |sets| ==> sets[i] <= r.value
    ensures r.Some? ==> forall x :: x in r.value ==> exists i :: 0 <= i < |sets| && x in sets[i]
  {
    if |sets| == 0 then None
    else if |sets| == 1 then Some(sets[0])
    else
      var init := sets[..|sets| - 1];
      assert forall i :: 0 <= i < |init| ==> init[i] == sets[i];
      Some(Union(init).value + sets[|sets| - 1])
  }

  /** `intersection`: the sets combined by intersection, left to right. */
  function Intersection<T>(sets: seq<set<T>>): (r: Option<set<T>>)
    ensures r.None? <==> |sets| == 0
    ensures |sets| == 1 ==> r == Some(sets[0])
    ensures r.Some? ==> forall i :: 0 <= i < |sets| ==> r.value <= sets[i]
    ensures r.Some? ==> forall x :: x in sets[0] && (forall i :: 0 <= i < |sets| ==> x in sets[i]) ==> x in r.value
  {
    if |sets| == 0 then None
    else if |sets| == 1 then Some(sets[0])
    else
      var init := sets[..|sets| - 1];
      assert forall i :: 0 <= i < |init| ==> init[i] == sets[i];
      Some(Intersection(init).value * sets[|sets| - 1])
  }

  /** Every element common to all the sets lies in each of them, so the
      intersection never exceeds the union. */
  lemma IntersectionWithinUnion<T>(sets: seq<set<T>>)
    requires |sets| > 0
    ensures Intersection(sets).value <= Union(sets).value
  {
    assert Intersection(sets).value <= sets[0] <= Union(sets).value;
  }

  /** `{1,2,3}` and `{2,3,4}`: union `{1,2,3,4}`, intersection `{2,3}`. */
  lemma UnionIntersectionExample()
    ensures Union([{1, 2, 3}, {2, 3, 4}]) == Some({1, 2, 3, 4})
    ensures Intersection([{1, 2, 3}, {2, 3, 4}]) == Some({2, 3})
  {
    assert [{1, 2, 3}, {2, 3, 4}][..1] == [{1, 2, 3}];
    assert {1, 2, 3} * {2, 3, 4} == {2, 3};
    assert {1, 2, 3} + {2, 3, 4} == {1, 2, 3, 4};
  }
}
