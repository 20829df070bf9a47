/** The tree adapter: a rooted tree with labelled nodes and ordered children,
    and the derived accessors the analysis adds to it (descendants in
    pre-order, the internal nodes, the taxa with quotes removed). A node is
    identified by its path from the root. */
module Newick {
  import opened Seqs

  type Taxon = string

  /** The child indices that lead from the root to a node; `[]` is the root. */
  type Path = seq<nat>

  datatype Tree = Node(name: string, children: seq<Tree>)

  predicate IsLeaf(t: Tree) { t.children == [] }

  // ---------------------------------------------------------------------
  // Labels

  predicate IsQuote(c: char) { c == '"' || c == '\'' }

  /** `tr %q{"'}, ""`: every double and single quote is deleted. */
  function Unquote(s: string): (r: string)
    ensures forall c :: c in r ==> c in s && !IsQuote(c)
    ensures forall c :: c in s && !IsQuote(c) ==> c in r
    ensures |r| <= |s|
    ensures (forall c :: c in s ==> !IsQuote(c)) ==> r == s
    ensures |s| == 1 ==> r == (if IsQuote(s[0]) then [] else s)
  {
    QuotesDropped(s);
    DropQuotes(s)
  }

  /** The characters of `s` that are not quotes, in order. */
  function DropQuotes(s: string): string
  {
    if s == [] then [] else (if IsQuote(s[0]) then [] else [s[0]]) + DropQuotes(s[1..])
  }

  lemma {:induction false} QuotesDropped(s: string)
    ensures forall c :: c in DropQuotes(s) ==> c in s && !IsQuote(c)
    ensures forall c :: c in s && !IsQuote(c) ==> c in DropQuotes(s)
    ensures |DropQuotes(s)| <= |s|
    ensures (forall c :: c in s ==> !IsQuote(c)) ==> DropQuotes(s) == s
    ensures |s| == 1 ==> DropQuotes(s) == (if IsQuote(s[0]) then [] else s)
    decreases |s|
  {
    if s != [] {
      QuotesDropped(s[1..]);
      assert forall c :: c in s <==> c == s[0] || c in s[1..];
      assert |s| == 1 ==> s[1..] == [] && [s[0]] == s;
    }
  }

  /** Quotes are deleted in place: the unquoted parts of a label, in order,
      make up the unquoted label. */
  lemma UnquoteAppend(a: string, b: string)
    ensures Unquote(a + b) == Unquote(a) + Unquote(b)
  {
    DropQuotesAppend(a, b);
  }

  lemma {:induction false} DropQuotesAppend(a: string, b: string)
    ensures DropQuotes(a + b) == DropQuotes(a) + DropQuotes(b)
    decreases |a|
  {
    if a == [] {
      assert a + b == b;
    } else {
      assert (a + b)[0] == a[0] && (a + b)[1..] == a[1..] + b;
      DropQuotesAppend(a[1..], b);
    }
  }

  // ---------------------------------------------------------------------
  // Nodes addressed by paths

  predicate ValidPath(t: Tree, p: Path)
    decreases p
  {
    p == [] || (p[0] < |t.children| && ValidPath(t.children[p[0]], p[1..]))
  }

  /** The node that `p` leads to. */
  function At(t: Tree, p: Path): Tree
    requires ValidPath(t, p)
    decreases p
  {
    if p == [] then t else At(t.children[p[0]], p[1..])
  }

  /** The path of a node's parent. */
  function Parent(p: Path): Path
    requires p != []
  {
    p[..|p| - 1]
  }

  /** A path through child `i` is a path in that child's subtree. */
  lemma ValidPathCons(t: Tree, i: nat, q: Path)
    ensures ValidPath(t, [i] + q) <==> i < |t.children| && ValidPath(t.children[i], q)
    ensures ValidPath(t, [i] + q) ==> At(t, [i] + q) == At(t.children[i], q)
  {
    assert ([i] + q)[0] == i && ([i] + q)[1..] == q;
  }

  /** The node at a non-root path is a child of the node at its parent's path. */
  lemma {:induction false} ParentChild(t: Tree, p: Path)
    requires ValidPath(t, p) && p != []
    ensures ValidPath(t, Parent(p))
    ensures p[|p| - 1] < |At(t, Parent(p)).children|
    ensures At(t, p) == At(t, Parent(p)).children[p[|p| - 1]]
    decreases p
  {
    if |p| > 1 {
      var q := p[1..];
      ParentChild(t.children[p[0]], q);
      assert Parent(p) == [p[0]] + Parent(q);
      assert q[|q| - 1] == p[|p| - 1];
      ValidPathCons(t, p[0], Parent(q));
    }
  }

  /** Every proper prefix of a path leads to an internal node. */
  lemma {:induction false} ProperPrefixIsInternal(t: Tree, p: Path, n: nat)
    requires ValidPath(t, p) && n < |p|
    ensures ValidPath(t, p[..n]) && !IsLeaf(At(t, p[..n]))
    decreases p
  {
    if n > 0 {
      ProperPrefixIsInternal(t.children[p[0]], p[1..], n - 1);
      assert p[..n] == [p[0]] + p[1..][..n - 1];
      ValidPathCons(t, p[0], p[1..][..n - 1]);
    }
  }

  // ---------------------------------------------------------------------
  // Descendants in pre-order

  /** Paths relative to `t` of the nodes of `ps` hung below child `i`. */
  function Prefixed(i: nat, ps: seq<Path>): seq<Path>
  {
    seq(|ps|, k requires 0 <= k < |ps| => [i] + ps[k])
  }

  /** `descendants`: every node below `t`, excluding `t` itself, in pre-order
      (a child, then the nodes below it, then the next child). */
  function DescendantPaths(t: Tree): (r: seq<Path>)
    ensures forall p :: p in r ==> p != [] && ValidPath(t, p)
    decreases t, |t.children| + 1
  {
    ChildrenPaths(t, 0)
  }

  /** The pre-order descendants that hang below children `i`, `i + 1`, ... */
  function ChildrenPaths(t: Tree, i: nat): (r: seq<Path>)
    requires i <= |t.children|
    ensures forall p :: p in r ==> p != [] && i <= p[0] < |t.children| && ValidPath(t, p)
    decreases t, |t.children| - i
  {
    if i == |t.children| then []
    else
      var below := DescendantPaths(t.children[i]);
      var rest := ChildrenPaths(t, i + 1);
      ValidPathCons(t, i, []);
      assert forall q :: q in Prefixed(i, below) ==> q[0] == i && ValidPath(t, q) by {
        forall q | q in Prefixed(i, below) ensures q[0] == i && ValidPath(t, q) {
          var k :| 0 <= k < |below| && q == [i] + below[k];
          ValidPathCons(t, i, below[k]);
        }
      }
      [[i]] + Prefixed(i, below) + rest
  }

  /** `p` is an ancestor of `q`. */
  predicate IsProperPrefix(p: Path, q: Path) {
    |p| < |q| && q[..|p|] == p
  }

  /** Pre-order: every non-root ancestor of a path occurs before it. */
  ghost predicate AncestorsFirst(ps: seq<Path>) {
    forall j, n :: 0 <= j < |ps| && 0 < n < |ps[j]| ==> ps[j][..n] in ps[..j]
  }

  lemma AncestorsFirstAppend(a: seq<Path>, b: seq<Path>)
    requires AncestorsFirst(a) && AncestorsFirst(b)
    ensures AncestorsFirst(a + b)
  {
    var ab := a + b;
    forall j, n | 0 <= j < |ab| && 0 < n < |ab[j]| ensures ab[j][..n] in ab[..j] {
      if j < |a| {
        assert ab[j] == a[j] && ab[..j] == a[..j];
      } else {
        var jb := j - |a|;
        assert ab[j] == b[jb];
        assert b[jb][..n] in b[..jb];
        var m :| 0 <= m < jb && b[m] == b[jb][..n];
        assert ab[|a| + m] == b[m];
      }
    }
  }

  lemma AncestorsFirstPrefixed(i: nat, ps: seq<Path>)
    requires AncestorsFirst(ps)
    ensures AncestorsFirst([[i]] + Prefixed(i, ps))
  {
    var r := [[i]] + Prefixed(i, ps);
    forall j, n | 0 <= j < |r| && 0 < n < |r[j]| ensures r[j][..n] in r[..j] {
      assert j > 0;
      var q := ps[j - 1];
      assert r[j] == [i] + q;
      if n == 1 {
        assert r[j][..n] == [i] == r[0];
      } else {
        assert q[..n - 1] in ps[..j - 1];
        var m :| 0 <= m < j - 1 && ps[m] == q[..n - 1];
        assert r[m + 1] == [i] + ps[m];
        assert r[j][..n] == [i] + q[..n - 1];
      }
    }
  }

  lemma {:induction false} DescendantPathsPreOrder(t: Tree)
    ensures AncestorsFirst(DescendantPaths(t))
    decreases t, |t.children| + 1
  {
    ChildrenPathsPreOrder(t, 0);
  }

  lemma {:induction false} ChildrenPathsPreOrder(t: Tree, i: nat)
    requires i <= |t.children|
    ensures AncestorsFirst(ChildrenPaths(t, i))
    decreases t, |t.children| - i
  {
    if i < |t.children| {
      var below := DescendantPaths(t.children[i]);
      DescendantPathsPreOrder(t.children[i]);
      ChildrenPathsPreOrder(t, i + 1);
      AncestorsFirstPrefixed(i, below);
      AncestorsFirstAppend([[i]] + Prefixed(i, below), ChildrenPaths(t, i + 1));
    }
  }

  /** `p` comes before `q` in lexicographic order of child indices, a path
      before every longer path that extends it. */
  predicate LexLess(p: Path, q: Path)
    decreases |p|
  {
    q != [] && (p == [] || p[0] < q[0] || (p[0] == q[0] && LexLess(p[1..], q[1..])))
  }

  /** Paths in strictly increasing lexicographic order. */
  ghost predicate LexSorted(ps: seq<Path>) {
    forall a, b :: 0 <= a < b < |ps| ==> LexLess(ps[a], ps[b])
  }

  /** The order is irreflexive, so a lexicographically sorted sequence
      lists each path once. */
  lemma {:induction false} LexLessIrreflexive(p: Path)
    ensures !LexLess(p, p)
    decreases |p|
  {
    if p != [] {
      LexLessIrreflexive(p[1..]);
    }
  }

  lemma LexSortedAppend(a: seq<Path>, b: seq<Path>)
    requires LexSorted(a) && LexSorted(b)
    requires forall x, y :: x in a && y in b ==> LexLess(x, y)
    ensures LexSorted(a + b)
  {
    var ab := a + b;
    forall i, j | 0 <= i < j < |ab| ensures LexLess(ab[i], ab[j]) {
      if j < |a| {
        assert ab[i] == a[i] && ab[j] == a[j];
      } else if i < |a| {
        assert ab[i] in a && ab[j] in b;
      } else {
        assert ab[i] == b[i - |a|] && ab[j] == b[j - |a|];
      }
    }
  }

  lemma LexSortedPrefixed(i: nat, ps: seq<Path>)
    requires LexSorted(ps) && forall p :: p in ps ==> p != []
    ensures LexSorted([[i]] + Prefixed(i, ps))
  {
    var r := [[i]] + Prefixed(i, ps);
    forall a, b | 0 <= a < b < |r| ensures LexLess(r[a], r[b]) {
      var y := ps[b - 1];
      assert r[b] == [i] + y && ([i] + y)[1..] == y;
      assert y in ps;
      if a == 0 {
        assert r[0] == [i] && [i][1..] == [];
      } else {
        var x := ps[a - 1];
        assert r[a] == [i] + x && ([i] + x)[1..] == x;
      }
    }
  }

  /** Pre-order lists the descendants in lexicographic order of their paths:
      a node before the nodes below it, and the subtree of a child before
      that of the next child. */
  lemma {:induction false} DescendantPathsLexSorted(t: Tree)
    ensures LexSorted(DescendantPaths(t))
    decreases t, |t.children| + 1
  {
    ChildrenPathsLexSorted(t, 0);
  }

  lemma {:induction false} ChildrenPathsLexSorted(t: Tree, i: nat)
    requires i <= |t.children|
    ensures LexSorted(ChildrenPaths(t, i))
    decreases t, |t.children| - i
  {
    if i < |t.children| {
      var below := DescendantPaths(t.children[i]);
      var rest := ChildrenPaths(t, i + 1);
      DescendantPathsLexSorted(t.children[i]);
      ChildrenPathsLexSorted(t, i + 1);
      LexSortedPrefixed(i, below);
      var first := [[i]] + Prefixed(i, below);
      forall x | x in first ensures x != [] && x[0] == i {
        if x != [i] {
          var k :| 0 <= k < |below| && x == [i] + below[k];
        }
      }
      forall x, y | x in first && y in rest ensures LexLess(x, y) {
        assert x != [] && x[0] == i && y != [] && i < y[0];
      }
      LexSortedAppend(first, rest);
      assert ChildrenPaths(t, i) == first + rest;
    }
  }

  lemma DistinctAppend<T>(a: seq<T>, b: seq<T>)
    requires Distinct(a) && Distinct(b)
    requires forall x :: x in a ==> x !in b
    ensures Distinct(a + b)
  {
    var ab := a + b;
    forall i, j | 0 <= i < j < |ab| ensures ab[i] != ab[j] {
      if j >= |a| && i < |a| {
        assert ab[i] in a && ab[j] == b[j - |a|];
      }
    }
  }

  /** No node is enumerated twice. */
  lemma {:induction false} DescendantPathsDistinct(t: Tree)
    ensures Distinct(DescendantPaths(t))
    decreases t, |t.children| + 1
  {
    ChildrenPathsDistinct(t, 0);
  }

  lemma {:induction false} ChildrenPathsDistinct(t: Tree, i: nat)
    requires i <= |t.children|
    ensures Distinct(ChildrenPaths(t, i))
    decreases t, |t.children| - i
  {
    if i < |t.children| {
      var below := DescendantPaths(t.children[i]);
      DescendantPathsDistinct(t.children[i]);
      ChildrenPathsDistinct(t, i + 1);
      var pre := Prefixed(i, below);
      forall a, b | 0 <= a < b < |pre| ensures pre[a] != pre[b] {
        assert pre[a][1..] == below[a] && pre[b][1..] == below[b];
      }
      forall x | x in pre ensures |x| >= 2 {
        var k :| 0 <= k < |below| && x == [i] + below[k];
        assert below[k] in below;
      }
      DistinctAppend([[i]], pre);
      DistinctAppend([[i]] + pre, ChildrenPaths(t, i + 1));
    }
  }

  /** Every node below `t` is enumerated. */
  lemma {:induction false} DescendantPathsComplete(t: Tree, p: Path)
    requires ValidPath(t, p) && p != []
    ensures p in DescendantPaths(t)
    decreases p
  {
    var i := p[0];
    var q := p[1..];
    assert p == [i] + q;
    var below := DescendantPaths(t.children[i]);
    var pre := Prefixed(i, below);
    var here := ChildrenPaths(t, i);
    assert here == [[i]] + pre + ChildrenPaths(t, i + 1);
    if q != [] {
      DescendantPathsComplete(t.children[i], q);
      var k :| 0 <= k < |below| && below[k] == q;
      assert pre[k] == p;
      assert here[1 + k] == p;
    } else {
      assert here[0] == p;
    }
    ChildrenPathsGrow(t, 0, i);
    assert p in ChildrenPaths(t, 0);
  }

  lemma {:induction false} ChildrenPathsGrow(t: Tree, i: nat, j: nat)
    requires i <= j <= |t.children|
    ensures forall p :: p in ChildrenPaths(t, j) ==> p in ChildrenPaths(t, i)
    decreases j - i
  {
    if i < j {
      ChildrenPathsGrow(t, i + 1, j);
    }
  }

  // ---------------------------------------------------------------------
  // Leaves and taxa

  /** Unquoted names of the leaves among `ps`, in order. */
  function LeafNamesAlong(t: Tree, ps: seq<Path>): seq<Taxon>
    requires forall p :: p in ps ==> ValidPath(t, p)
  {
    if ps == [] then []
    else
      (if IsLeaf(At(t, ps[0])) then [Unquote(At(t, ps[0]).name)] else [])
      + LeafNamesAlong(t, ps[1..])
  }

  /** `descendant_leaves`: a leaf yields its own unquoted name; an internal
      node the unquoted names of the leaves among its descendants, in
      pre-order. */
  function DescendantLeaves(t: Tree): seq<Taxon>
  {
    if IsLeaf(t) then [Unquote(t.name)]
    else LeafNamesAlong(t, DescendantPaths(t))
  }

  /** The names among `ps`'s leaves are exactly the unquoted labels of the
      leaves that `ps` lists. */
  lemma {:induction false} LeafNamesAlongMembers(t: Tree, ps: seq<Path>)
    requires forall p :: p in ps ==> ValidPath(t, p)
    ensures forall x :: x in LeafNamesAlong(t, ps) <==>
              exists p :: p in ps && IsLeaf(At(t, p)) && Unquote(At(t, p).name) == x
    decreases |ps|
  {
    if ps != [] {
      LeafNamesAlongMembers(t, ps[1..]);
      forall x | x in LeafNamesAlong(t, ps)
        ensures exists p :: p in ps && IsLeaf(At(t, p)) && Unquote(At(t, p).name) == x
      {
        if !(IsLeaf(At(t, ps[0])) && x == Unquote(At(t, ps[0]).name)) {
          assert LeafNamesAlong(t, ps) ==
            (if IsLeaf(At(t, ps[0])) then [Unquote(At(t, ps[0]).name)] else []) + LeafNamesAlong(t, ps[1..]);
          assert x in LeafNamesAlong(t, ps[1..]);
          var p :| p in ps[1..] && IsLeaf(At(t, p)) && Unquote(At(t, p).name) == x;
          assert p in ps;
        }
      }
      forall x, p | p in ps && IsLeaf(At(t, p)) && Unquote(At(t, p).name) == x
        ensures x in LeafNamesAlong(t, ps)
      {
        if p != ps[0] {
          assert p in ps[1..];
        }
      }
    }
  }

  /** `p` leads to a leaf of `t` whose unquoted label is `x`. */
  ghost predicate LeafLabelled(t: Tree, p: Path, x: Taxon) {
    ValidPath(t, p) && IsLeaf(At(t, p)) && Unquote(At(t, p).name) == x
  }

  /** `descendant_leaves` yields exactly the unquoted labels of the leaves
      of the subtree: a leaf its own, an internal node those of every leaf
      below it. */
  lemma DescendantLeavesAreLeafNames(t: Tree)
    ensures forall x :: x in DescendantLeaves(t) ==> exists p :: LeafLabelled(t, p, x)
    ensures forall p, x :: LeafLabelled(t, p, x) ==> x in DescendantLeaves(t)
  {
    forall x | x in DescendantLeaves(t) ensures exists p :: LeafLabelled(t, p, x) {
      var p := LeafNodeOf(t, x);
      assert LeafLabelled(t, p, x);
    }
    forall p, x | LeafLabelled(t, p, x) ensures x in DescendantLeaves(t) {
      LeafNodeNamed(t, p);
    }
  }

  /** A leaf name below `t` is the unquoted label of some leaf node. */
  lemma LeafNodeOf(t: Tree, x: Taxon) returns (p: Path)
    requires x in DescendantLeaves(t)
    ensures ValidPath(t, p) && IsLeaf(At(t, p)) && Unquote(At(t, p).name) == x
  {
    if IsLeaf(t) {
      p := [];
      assert At(t, p) == t;
    } else {
      var ds := DescendantPaths(t);
      LeafNamesAlongMembers(t, ds);
      p :| p in ds && IsLeaf(At(t, p)) && Unquote(At(t, p).name) == x;
    }
  }

  /** The unquoted label of a leaf node below `t` is a leaf name of `t`. */
  lemma LeafNodeNamed(t: Tree, p: Path)
    requires ValidPath(t, p) && IsLeaf(At(t, p))
    ensures Unquote(At(t, p).name) in DescendantLeaves(t)
  {
    if p == [] {
      assert At(t, p) == t;
    } else {
      var ds := DescendantPaths(t);
      DescendantPathsComplete(t, p);
      LeafNamesAlongMembers(t, ds);
    }
  }

  /** The leaves below children `i`, `i + 1`, ..., child after child. */
  function ChildLeaves(t: Tree, i: nat): seq<Taxon>
    requires i <= |t.children|
    decreases |t.children| - i
  {
    if i == |t.children| then []
    else DescendantLeaves(t.children[i]) + ChildLeaves(t, i + 1)
  }

  lemma {:induction false} LeafNamesAlongAppend(t: Tree, a: seq<Path>, b: seq<Path>)
    requires forall p :: p in a + b ==> ValidPath(t, p)
    ensures LeafNamesAlong(t, a + b) == LeafNamesAlong(t, a) + LeafNamesAlong(t, b)
    decreases |a|
  {
    if a != [] {
      assert (a + b)[0] == a[0];
      assert (a + b)[1..] == a[1..] + b;
      LeafNamesAlongAppend(t, a[1..], b);
    } else {
      assert a + b == b;
    }
  }

  lemma {:induction false} LeafNamesAlongPrefixed(t: Tree, i: nat, qs: seq<Path>)
    requires i < |t.children|
    requires forall q :: q in qs ==> ValidPath(t.children[i], q)
    ensures forall p :: p in Prefixed(i, qs) ==> ValidPath(t, p)
    ensures LeafNamesAlong(t, Prefixed(i, qs)) == LeafNamesAlong(t.children[i], qs)
    decreases |qs|
  {
    forall q | q in qs { ValidPathCons(t, i, q); }
    if qs != [] {
      assert Prefixed(i, qs)[1..] == Prefixed(i, qs[1..]);
      LeafNamesAlongPrefixed(t, i, qs[1..]);
    }
  }

  /** The leaves of an internal node are its children's leaves, child after
      child. */
  lemma {:induction false} DescendantLeavesSplit(t: Tree)
    requires !IsLeaf(t)
    ensures DescendantLeaves(t) == ChildLeaves(t, 0)
  {
    ChildrenLeafNames(t, 0);
  }

  lemma {:induction false} ChildrenLeafNames(t: Tree, i: nat)
    requires i <= |t.children|
    ensures LeafNamesAlong(t, ChildrenPaths(t, i)) == ChildLeaves(t, i)
    decreases |t.children| - i
  {
    if i < |t.children| {
      var c := t.children[i];
      var below := DescendantPaths(c);
      var pre := Prefixed(i, below);
      var rest := ChildrenPaths(t, i + 1);
      assert ChildrenPaths(t, i) == [[i]] + pre + rest;
      ValidPathCons(t, i, []);
      assert [i] + [] == [i];
      LeafNamesAlongPrefixed(t, i, below);
      LeafNamesAlongAppend(t, [[i]] + pre, rest);
      LeafNamesAlongAppend(t, [[i]], pre);
      ChildrenLeafNames(t, i + 1);
      var head := LeafNamesAlong(t, [[i]]);
      assert [[i]][1..] == [];
      assert head == (if IsLeaf(c) then [Unquote(c.name)] else []);
      assert head + LeafNamesAlong(c, below) == DescendantLeaves(c) by {
        if IsLeaf(c) {
          assert below == [];
        }
      }
    }
  }

  /** Every leaf name below child `i` is a leaf name below `t`. */
  lemma {:induction false} ChildLeavesWithin(t: Tree, i: nat, j: nat)
    requires i <= j < |t.children|
    ensures forall x :: x in DescendantLeaves(t.children[j]) ==> x in ChildLeaves(t, i)
    decreases j - i
  {
    var here := DescendantLeaves(t.children[i]);
    var later := ChildLeaves(t, i + 1);
    assert ChildLeaves(t, i) == here + later;
    if i < j {
      ChildLeavesWithin(t, i + 1, j);
      forall x | x in DescendantLeaves(t.children[j]) ensures x in ChildLeaves(t, i) {
        assert x in later;
      }
    } else {
      forall x | x in here ensures x in ChildLeaves(t, i) {
      }
    }
  }

  /** Taxa are unique: no leaf name occurs twice in the tree. */
  ghost predicate UniqueLeaves(t: Tree) {
    Distinct(DescendantLeaves(t))
  }

  /** Distinct leaves below children `i`, `i + 1`, ... make each child's
      leaves distinct and the leaf sets of two children disjoint. */
  lemma {:induction false} ChildLeavesDisjoint(t: Tree, i: nat)
    requires i <= |t.children| && Distinct(ChildLeaves(t, i))
    ensures forall j :: i <= j < |t.children| ==> Distinct(DescendantLeaves(t.children[j]))
    ensures forall j, k, x :: i <= j < k < |t.children| && x in DescendantLeaves(t.children[j]) ==>
              x !in DescendantLeaves(t.children[k])
    decreases |t.children| - i
  {
    if i < |t.children| {
      var here := DescendantLeaves(t.children[i]);
      var later := ChildLeaves(t, i + 1);
      assert ChildLeaves(t, i) == here + later;
      DistinctSplit(here, later);
      ChildLeavesDisjoint(t, i + 1);
      forall j | i <= j < |t.children| ensures Distinct(DescendantLeaves(t.children[j])) {
        if j == i {
          assert DescendantLeaves(t.children[j]) == here;
        }
      }
      forall j, k, x | i <= j < k < |t.children| && x in DescendantLeaves(t.children[j])
        ensures x !in DescendantLeaves(t.children[k])
      {
        if j == i {
          ChildLeavesWithin(t, i + 1, k);
          assert x in here;
        }
      }
    }
  }

  /** With unique taxa the children of a node have disjoint leaf sets, and
      every subtree's leaves are unique. */
  lemma ChildrenLeavesDisjoint(t: Tree)
    requires !IsLeaf(t) && UniqueLeaves(t)
    ensures forall j :: 0 <= j < |t.children| ==> UniqueLeaves(t.children[j])
    ensures forall j, k, x :: 0 <= j < k < |t.children| && x in DescendantLeaves(t.children[j]) ==>
              x !in DescendantLeaves(t.children[k])
  {
    DescendantLeavesSplit(t);
    ChildLeavesDisjoint(t, 0);
  }

  /** The leaves below a node are leaves below each of its ancestors. */
  lemma {:induction false} SubtreeLeavesWithin(t: Tree, p: Path)
    requires ValidPath(t, p)
    ensures forall x :: x in DescendantLeaves(At(t, p)) ==> x in DescendantLeaves(t)
    decreases p
  {
    if p != [] {
      SubtreeLeavesWithin(t.children[p[0]], p[1..]);
      DescendantLeavesSplit(t);
      ChildLeavesWithin(t, 0, p[0]);
    }
  }

  /** `taxa`: the labels of the tree's leaves as the tree stores them. */
  function Taxa(t: Tree): seq<string>
  {
    if IsLeaf(t) then [t.name] else RawLeafNamesAlong(t, DescendantPaths(t))
  }

  function RawLeafNamesAlong(t: Tree, ps: seq<Path>): seq<string>
    requires forall p :: p in ps ==> ValidPath(t, p)
  {
    if ps == [] then []
    else
      (if IsLeaf(At(t, ps[0])) then [At(t, ps[0]).name] else [])
      + RawLeafNamesAlong(t, ps[1..])
  }

  function Unquoted(names: seq<string>): (r: seq<Taxon>)
  {
    seq(|names|, i requires 0 <= i < |names| => Unquote(names[i]))
  }

  /** `unquoted_taxa`: the taxa with their quotes removed; they are exactly
      the root's descendant leaves. */
  function UnquotedTaxa(t: Tree): (r: seq<Taxon>)
    ensures r == DescendantLeaves(t)
  {
    UnquotedTaxaAreLeaves(t);
    Unquoted(Taxa(t))
  }

  lemma UnquotedTaxaAreLeaves(t: Tree)
    ensures Unquoted(Taxa(t)) == DescendantLeaves(t)
  {
    if !IsLeaf(t) {
      UnquoteLeafNames(t, DescendantPaths(t));
    }
  }

  lemma {:induction false} UnquoteLeafNames(t: Tree, ps: seq<Path>)
    requires forall p :: p in ps ==> ValidPath(t, p)
    ensures Unquoted(RawLeafNamesAlong(t, ps)) == LeafNamesAlong(t, ps)
    decreases |ps|
  {
    if ps != [] {
      UnquoteLeafNames(t, ps[1..]);
    }
  }

  // ---------------------------------------------------------------------
  // Internal nodes

  /** The internal nodes among `ps`, in order. */
  function FilterInternal(t: Tree, ps: seq<Path>): (r: seq<Path>)
    requires forall p :: p in ps ==> ValidPath(t, p)
    ensures forall p :: p in r ==> p in ps && !IsLeaf(At(t, p))
    ensures forall p :: p in ps && !IsLeaf(At(t, p)) ==> p in r
    decreases |ps|
  {
    if ps == [] then []
    else
      var last := ps[|ps| - 1];
      assert ps == ps[..|ps| - 1] + [last];
      FilterInternal(t, ps[..|ps| - 1]) + (if IsLeaf(At(t, last)) then [] else [last])
  }

  /** Filtering one more node of `ps` appends it when it has children. */
  lemma FilterInternalPrefix(t: Tree, ps: seq<Path>, i: nat)
    requires forall p :: p in ps ==> ValidPath(t, p)
    requires i < |ps|
    ensures ValidPath(t, ps[i])
    ensures FilterInternal(t, ps[..i + 1]) ==
              FilterInternal(t, ps[..i]) + (if IsLeaf(At(t, ps[i])) then [] else [ps[i]])
  {
    var seen := ps[..i + 1];
    assert seen[..i] == ps[..i] && seen[i] == ps[i];
    assert ps[i] in ps;
  }

  /** Filtering keeps the lexicographic order. */
  lemma {:induction false} FilterInternalLexSorted(t: Tree, ps: seq<Path>)
    requires forall p :: p in ps ==> ValidPath(t, p)
    requires LexSorted(ps)
    ensures LexSorted(FilterInternal(t, ps))
    decreases |ps|
  {
    if ps != [] {
      var init := ps[..|ps| - 1];
      var last := ps[|ps| - 1];
      assert ps == init + [last];
      FilterInternalLexSorted(t, init);
      forall x, y | x in FilterInternal(t, init) && y in (if IsLeaf(At(t, last)) then [] else [last])
        ensures LexLess(x, y)
      {
        var k :| 0 <= k < |init| && init[k] == x;
        assert ps[k] == x && y == ps[|ps| - 1];
      }
      LexSortedAppend(FilterInternal(t, init), if IsLeaf(At(t, last)) then [] else [last]);
    }
  }

  /** The non-root internal nodes in pre-order. */
  function InternalPaths(t: Tree): (r: seq<Path>)
    ensures forall p :: p in r ==> p != [] && ValidPath(t, p) && !IsLeaf(At(t, p))
    ensures forall p :: p != [] && ValidPath(t, p) && !IsLeaf(At(t, p)) ==> p in r
  {
    forall p | p != [] && ValidPath(t, p) ensures p in DescendantPaths(t) {
      DescendantPathsComplete(t, p);
    }
    FilterInternal(t, DescendantPaths(t))
  }

  lemma {:induction false} FilterInternalOrder(t: Tree, ps: seq<Path>)
    requires forall p :: p in ps ==> ValidPath(t, p)
    requires Distinct(ps) && AncestorsFirst(ps)
    ensures Distinct(FilterInternal(t, ps)) && AncestorsFirst(FilterInternal(t, ps))
    decreases |ps|
  {
    if ps != [] {
      var init := ps[..|ps| - 1];
      var last := ps[|ps| - 1];
      assert AncestorsFirst(init) by {
        forall j, n | 0 <= j < |init| && 0 < n < |init[j]| ensures init[j][..n] in init[..j] {
          assert init[j] == ps[j] && init[..j] == ps[..j];
        }
      }
      FilterInternalOrder(t, init);
      var f := FilterInternal(t, init);
      if IsLeaf(At(t, last)) {
        assert FilterInternal(t, ps) == f + [] == f;
      } else {
        assert FilterInternal(t, ps) == f + [last];
        assert last !in f;
        DistinctAppend(f, [last]);
        var r := f + [last];
        forall j, n | 0 <= j < |r| && 0 < n < |r[j]| ensures r[j][..n] in r[..j] {
          if j < |f| {
            assert r[j] == f[j] && r[..j] == f[..j];
          } else {
            assert r[j] == last && r[..j] == f;
            assert last[..n] in init by {
              assert ps[|ps| - 1] == last && ps[..|ps| - 1] == init;
            }
            ProperPrefixIsInternal(t, last, n);
          }
        }
      }
    }
  }

  /** The internal nodes are in lexicographic order of their paths. */
  lemma InternalPathsLexSorted(t: Tree)
    ensures LexSorted(InternalPaths(t))
  {
    DescendantPathsLexSorted(t);
    FilterInternalLexSorted(t, DescendantPaths(t));
  }

  /** In pre-order an ancestor comes before each of its descendants. */
  lemma InternalPathsPreOrder(t: Tree)
    ensures Distinct(InternalPaths(t))
    ensures forall a, b ::
              (0 <= a < |InternalPaths(t)| && 0 <= b < |InternalPaths(t)| &&
               IsProperPrefix(InternalPaths(t)[a], InternalPaths(t)[b])) ==> a < b
  {
    var ds := DescendantPaths(t);
    DescendantPathsDistinct(t);
    DescendantPathsPreOrder(t);
    FilterInternalOrder(t, ds);
    var ip := InternalPaths(t);
    forall a, b | 0 <= a < |ip| && 0 <= b < |ip| && IsProperPrefix(ip[a], ip[b]) ensures a < b {
      var n := |ip[a]|;
      assert ip[a] in ip;
      assert ip[b][..n] in ip[..b];
      var m :| 0 <= m < b && ip[m] == ip[b][..n];
    }
  }

  /** `clade_nodes`: walks the descendants of the root and collects those
      that have children. */
  method CladeNodes(tree: Tree) returns (clades: seq<Path>)
    ensures clades == InternalPaths(tree)
  {
    var descendants := DescendantPaths(tree);
    clades := [];
    var i := 0;
    while i < |descendants|
      invariant 0 <= i <= |descendants|
      invariant clades == FilterInternal(tree, descendants[..i])
    {
      var node := descendants[i];
      FilterInternalPrefix(tree, descendants, i);
      if !IsLeaf(At(tree, node)) {
        clades := clades + [node];
      }
      i := i + 1;
    }
    assert descendants[..i] == descendants;
    assert InternalPaths(tree) == FilterInternal(tree, descendants);
  }
}
