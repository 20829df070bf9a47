/** Generic sequence helpers: Ruby's `flatten` and `uniq` on arrays of arrays. */
module Seqs {

  /** No element occurs twice. */
  ghost predicate Distinct<T>(s: seq<T>) {
    forall i, j :: 0 <= i < j < |s| ==> s[i] != s[j]
  }

  /** The parts of a sequence without repeats have none, and share no
      element. */
  lemma DistinctSplit<T>(a: seq<T>, b: seq<T>)
    requires Distinct(a + b)
    ensures Distinct(a) && Distinct(b)
    ensures forall x :: x in a ==> x !in b
  {
    var ab := a + b;
    forall i, j | 0 <= i < j < |b| ensures b[i] != b[j] {
      assert b[i] == ab[|a| + i] && b[j] == ab[|a| + j];
    }
    forall i, j | 0 <= i < |a| && 0 <= j < |b| ensures a[i] != b[j] {
      assert a[i] == ab[i] && b[j] == ab[|a| + j];
    }
    forall i, j | 0 <= i < j < |a| ensures a[i] != a[j] {
      assert a[i] == ab[i] && a[j] == ab[j];
    }
  }

  /** One level of `flatten`: the members' elements, member after member. */
  function Flatten<T>(ss: seq<seq<T>>): (r: seq<T>)
    ensures forall x :: x in r ==> exists i :: 0 <= i < |ss| && x in ss[i]
    ensures forall i, x :: 0 <= i < |ss| && x in ss[i] ==> x in r
    ensures |ss| == 0 ==> r == []
    ensures |ss| == 1 ==> r == ss[0]
  {
    if ss == [] then []
    else
      var r := ss[0] + Flatten(ss[1..]);
      assert forall i :: 1 <= i < |ss| ==> ss[i] == ss[1..][i - 1];
      assert |ss| == 1 ==> ss[1..] == [] && r == ss[0] + [];
      r
  }

  /** Flattening keeps order and multiplicity: the flattening of a
      concatenation is the concatenation of the flattenings. */
  lemma {:induction false} FlattenAppend<T>(a: seq<seq<T>>, b: seq<seq<T>>)
    ensures Flatten(a + b) == Flatten(a) + Flatten(b)
    decreases |a|
  {
    if a == [] {
      assert a + b == b;
    } else {
      assert (a + b)[0] == a[0] && (a + b)[1..] == a[1..] + b;
      FlattenAppend(a[1..], b);
    }
  }

  /** The position of the first occurrence of `x` in `s`. */
  function IndexOf<T(==)>(s: seq<T>, x: T): (i: nat)
    requires x in s
    ensures i < |s| && s[i] == x
    ensures forall k :: 0 <= k < i ==> s[k] != x
  {
    if s[0] == x then 0 else 1 + IndexOf(s[1..], x)
  }

  /** Appending an element moves no first occurrence, and a new element
      first occurs at the end. */
  lemma IndexOfAppend<T>(s: seq<T>, y: T)
    ensures forall x :: x in s ==> IndexOf(s + [y], x) == IndexOf(s, x)
    ensures y !in s ==> IndexOf(s + [y], y) == |s|
  {
    var t := s + [y];
    assert forall k :: 0 <= k < |s| ==> t[k] == s[k];
    forall x | x in s ensures IndexOf(t, x) == IndexOf(s, x) {
      assert t[IndexOf(s, x)] == x;
    }
  }

  /** `uniq`: the first occurrence of every element, in order of first
      occurrence. */
  function Dedup<T(==)>(s: seq<T>): (r: seq<T>)
    ensures forall x :: x in r ==> x in s
    ensures forall x :: x in s ==> x in r
    ensures Distinct(r)
    ensures |r| <= |s|
    ensures |s| > 0 ==> |r| > 0 && r[0] == s[0]
    ensures forall i, j :: 0 <= i < j < |r| ==> IndexOf(s, r[i]) < IndexOf(s, r[j])
  {
    if s == [] then []
    else
      var init := s[..|s| - 1];
      var d := Dedup(init);
      var last := s[|s| - 1];
      assert s == init + [last];
      IndexOfAppend(init, last);
      if last in d then d else d + [last]
  }

  /** The keys of `s` do not increase from left to right. */
  predicate Descending<T>(s: seq<T>, key: T -> nat) {
    forall i, j :: 0 <= i < j < |s| ==> key(s[j]) <= key(s[i])
  }

  /** A head no smaller than the next key keeps a descending sequence
      descending. */
  lemma ConsDescending<T>(h: T, s: seq<T>, key: T -> nat)
    requires Descending(s, key) && (s == [] || key(s[0]) <= key(h))
    ensures Descending([h] + s, key)
  {
    var r := [h] + s;
    forall i, j | 0 <= i < j < |r| ensures key(r[j]) <= key(r[i]) {
      assert r[j] == s[j - 1];
      if i == 0 {
        assert key(s[j - 1]) <= key(s[0]);
      } else {
        assert r[i] == s[i - 1];
      }
    }
  }

  /** Inserts `x` before the first element whose key is at most its own. */
  function InsertDescending<T>(x: T, s: seq<T>, key: T -> nat): (r: seq<T>)
    requires Descending(s, key)
    ensures Descending(r, key)
    ensures multiset(r) == multiset(s) + multiset{x}
    ensures |r| > 0 && (r[0] == x || (s != [] && r[0] == s[0]))
  {
    if s == [] || key(s[0]) <= key(x) then
      ConsDescending(x, s, key);
      [x] + s
    else
      var tail := s[1..];
      assert s == [s[0]] + tail;
      assert Descending(tail, key) by {
        forall i, j | 0 <= i < j < |tail| ensures key(tail[j]) <= key(tail[i]) {
          assert tail[i] == s[i + 1] && tail[j] == s[j + 1];
        }
      }
      var rest := InsertDescending(x, tail, key);
      assert tail != [] ==> key(tail[0]) <= key(s[0]);
      ConsDescending(s[0], rest, key);
      [s[0]] + rest
  }

  /** `sort_by(&key).reverse`: the elements ordered by decreasing key. */
  function SortDescending<T>(s: seq<T>, key: T -> nat): (r: seq<T>)
    ensures Descending(r, key)
    ensures multiset(r) == multiset(s)
  {
    if s == [] then []
    else
      var r := InsertDescending(s[0], SortDescending(s[1..], key), key);
      assert multiset(r) == multiset(s) by {
        assert s == [s[0]] + s[1..];
      }
      r
  }
}
