/** A clade: the leaf-set decomposition around one non-root internal node,
    built once and never changed afterwards. */
module Clades {
  import opened Wrappers
  import opened Seqs
  import opened Newick

  type Category = string
  type Tag = string

  /** Per category, the tag of each leaf. */
  type Metadata = map<Category, map<Taxon, Tag>>

  function Elements<T>(s: seq<T>): set<T> {
    set x | x in s
  }

  datatype Clade = Clade(
    node: Path,                                   // the originating node; it tells clades apart
    name: string,                                 // the node's unquoted label
    allLeaves: seq<Taxon>,
    leftLeaves: Option<seq<Taxon>>,               // set only for a node with exactly two children
    rightLeaves: Option<seq<Taxon>>,
    eachSiblingLeafSet: seq<seq<Taxon>>,
    allSiblingLeaves: seq<Taxon>,
    parentLeaves: seq<Taxon>,
    otherLeaves: set<Taxon>,
    nonParentLeaves: set<Taxon>,
    allTags: Option<map<Category, set<Tag>>>,     // set only when metadata is given
    singleTagInfo: Option<map<Category, Option<Tag>>>)

  /** The sole element of a one-element set. */
  function Sole<T>(s: set<T>): (r: T)
    requires |s| == 1
    ensures s == {r}
  {
    SingletonUnique(s);
    var x :| x in s; x
  }

  lemma SingletonUnique<T>(s: set<T>)
    requires |s| == 1
    ensures exists x :: x in s
    ensures forall a, b :: a in s && b in s ==> a == b
  {
    var x :| x in s;
    assert |s - {x}| == |s| - |{x}| == 0;
    assert s - {x} == {};
    assert s == {x};
  }

  /** The tags, in one category, of `leaves`; a leaf without a tag aborts. */
  function TagsOf(leaves: seq<Taxon>, name2tag: map<Taxon, Tag>): (r: Result<set<Tag>>)
    ensures r.Ok? <==> forall l :: l in leaves ==> l in name2tag
    ensures r.Err? ==> r.error == MissingTag
    ensures r.Ok? ==> forall t :: t in r.value ==> exists l :: l in leaves && l in name2tag && name2tag[l] == t
    ensures r.Ok? ==> forall l :: l in leaves ==> name2tag[l] in r.value
  {
    if leaves == [] then Ok({})
    else if leaves[0] !in name2tag then Err(MissingTag)
    else
      var rest :- TagsOf(leaves[1..], name2tag);
      assert forall l :: l in leaves ==> l == leaves[0] || l in leaves[1..];
      Ok({name2tag[leaves[0]]} + rest)
  }

  /** `get_all_tags`: per category, the set of tags seen among `leaves`. */
  function GetAllTags(leaves: seq<Taxon>, metadata: Metadata): (r: Result<map<Category, set<Tag>>>)
    ensures r.Ok? <==> forall c, l :: c in metadata && l in leaves ==> l in metadata[c]
    ensures r.Err? ==> r.error == MissingTag
    ensures r.Ok? ==> r.value.Keys == metadata.Keys
    ensures r.Ok? ==> forall c, t :: c in metadata ==>
              (t in r.value[c] <==> exists l :: l in leaves && l in metadata[c] && metadata[c][l] == t)
  {
    if forall c :: c in metadata ==> TagsOf(leaves, metadata[c]).Ok? then
      Ok(map c | c in metadata :: TagsOf(leaves, metadata[c]).value)
    else
      Err(MissingTag)
  }

  /** `get_single_tag_info`: per category, the tag when exactly one was seen. */
  function GetSingleTagInfo(allTags: map<Category, set<Tag>>): (r: map<Category, Option<Tag>>)
    ensures r.Keys == allTags.Keys
    ensures forall c :: c in allTags ==> (r[c].Some? <==> |allTags[c]| == 1)
    ensures forall c :: c in allTags && r[c].Some? ==> allTags[c] == {r[c].value}
  {
    map c | c in allTags :: if |allTags[c]| == 1 then Some(Sole(allTags[c])) else None
  }

  /** The other children of a node's parent, in order; none for the root. */
  function Siblings(home: Tree, path: Path): (r: seq<Tree>)
    requires ValidPath(home, path)
    ensures path != [] ==> ValidPath(home, Parent(path))
    ensures path != [] ==> |r| + 1 == |At(home, Parent(path)).children|
    ensures path != [] ==> forall i :: 0 <= i < |r| ==>
              r[i] == At(home, Parent(path)).children[if i < path[|path| - 1] then i else i + 1]
    ensures path == [] ==> r == []
  {
    if path == [] then []
    else
      ParentChild(home, path);
      var siblingsAndSelf := At(home, Parent(path)).children;
      var k := path[|path| - 1];
      siblingsAndSelf[..k] + siblingsAndSelf[k + 1..]
  }

  /** The fields of the clade of a non-root node, before any tags. */
  function CladeFields(home: Tree, path: Path, tree: Tree): (c: Clade)
    requires ValidPath(home, path) && path != []
    ensures c.node == path && c.name == Unquote(At(home, path).name)
    ensures c.allLeaves == DescendantLeaves(At(home, path))
    ensures ValidPath(home, Parent(path))
    ensures c.parentLeaves == DescendantLeaves(At(home, Parent(path)))
    ensures |c.eachSiblingLeafSet| + 1 == |At(home, Parent(path)).children|
    ensures forall i :: 0 <= i < |c.eachSiblingLeafSet| ==>
              c.eachSiblingLeafSet[i] ==
                DescendantLeaves(At(home, Parent(path)).children[if i < path[|path| - 1] then i else i + 1])
    ensures c.allTags.None? && c.singleTagInfo.None?
  {
    var taxa := UnquotedTaxa(tree);
    var node := At(home, path);
    var allLeaves := DescendantLeaves(node);
    var bifurcating := |node.children| == 2;
    var siblings := Siblings(home, path);
    var eachSiblingLeafSet := seq(|siblings|, i requires 0 <= i < |siblings| => DescendantLeaves(siblings[i]));
    var parentLeaves := DescendantLeaves(At(home, Parent(path)));
    Clade(
      path,
      Unquote(node.name),
      allLeaves,
      if bifurcating then Some(DescendantLeaves(node.children[0])) else None,
      if bifurcating then Some(DescendantLeaves(node.children[1])) else None,
      eachSiblingLeafSet,
      Dedup(Flatten(eachSiblingLeafSet)),
      parentLeaves,
      Elements(taxa) - Elements(allLeaves),
      Elements(taxa) - Elements(parentLeaves),
      None,
      None)
  }

  /** The last step of `Clade.new`: with metadata, the tags of the clade's
      leaves and the single-tag info; a leaf without a tag aborts. */
  function WithTags(clade: Clade, metadata: Option<Metadata>): (r: Result<Clade>)
    ensures metadata.None? ==> r == Ok(clade)
    ensures metadata.Some? ==>
              (r.Ok? <==> forall c, l :: c in metadata.value && l in clade.allLeaves ==> l in metadata.value[c])
    ensures r.Err? ==> r.error == MissingTag
    ensures r.Ok? ==> r.value.(allTags := None, singleTagInfo := None) == clade.(allTags := None, singleTagInfo := None)
  {
    if metadata.None? then Ok(clade)
    else
      var allTags := GetAllTags(clade.allLeaves, metadata.value);
      if allTags.Err? then Err(MissingTag)
      else Ok(clade.(allTags := Some(allTags.value), singleTagInfo := Some(GetSingleTagInfo(allTags.value))))
  }

  /** `Clade.new(node, tree, metadata)`. The node is given as the root `home`
      of the tree it belongs to and its path there; `tree` supplies the taxa
      (the two are the same tree except where a caller mixes trees). The root
      has no parent, so no clade can be built for it. */
  function NewClade(home: Tree, path: Path, tree: Tree, metadata: Option<Metadata>): (r: Result<Clade>)
    requires ValidPath(home, path)
    ensures path == [] ==> r == Err(RootHasNoParent)
    ensures path != [] && metadata.None? ==> r.Ok?
    ensures path != [] && metadata.Some? ==>
              (r.Ok? <==> forall c, l :: c in metadata.value && l in DescendantLeaves(At(home, path)) ==> l in metadata.value[c])
    ensures r.Err? ==> r.error in {RootHasNoParent, MissingTag}
    ensures r.Ok? ==> r.value.node == path && r.value.name == Unquote(At(home, path).name)
    ensures r.Ok? ==> r.value.allLeaves == DescendantLeaves(At(home, path))
  {
    if path == [] then Err(RootHasNoParent)
    else
      var clade := CladeFields(home, path, tree);
      var r := WithTags(clade, metadata);
      assert clade.allLeaves == DescendantLeaves(At(home, path));
      assert r.Ok? ==> r.value.node == clade.node && r.value.name == clade.name && r.value.allLeaves == clade.allLeaves;
      r
  }

  /** The tags aside, a clade holds the fields built from its node. */
  lemma NewCladeFields(home: Tree, path: Path, tree: Tree, metadata: Option<Metadata>)
    requires ValidPath(home, path) && NewClade(home, path, tree, metadata).Ok?
    ensures var c := NewClade(home, path, tree, metadata).value;
            var f := CladeFields(home, path, tree);
            && c.node == f.node && c.name == f.name && c.allLeaves == f.allLeaves
            && c.leftLeaves == f.leftLeaves && c.rightLeaves == f.rightLeaves
            && c.eachSiblingLeafSet == f.eachSiblingLeafSet && c.allSiblingLeaves == f.allSiblingLeaves
            && c.parentLeaves == f.parentLeaves && c.otherLeaves == f.otherLeaves
            && c.nonParentLeaves == f.nonParentLeaves
  {
    var c := NewClade(home, path, tree, metadata).value;
    var f := CladeFields(home, path, tree);
    assert c.(allTags := None, singleTagInfo := None) == f.(allTags := None, singleTagInfo := None);
  }

  /** For a node of `tree` itself: the other leaves complement the clade's
      leaves within the taxa, the clade's leaves lie within its parent's, and
      the non-parent leaves complement the parent's leaves. */
  lemma CladeLeafAlgebra(tree: Tree, path: Path, metadata: Option<Metadata>)
    requires ValidPath(tree, path) && NewClade(tree, path, tree, metadata).Ok?
    ensures var c := NewClade(tree, path, tree, metadata).value;
            var taxa := Elements(UnquotedTaxa(tree));
            && c.otherLeaves + Elements(c.allLeaves) == taxa
            && c.otherLeaves * Elements(c.allLeaves) == {}
            && Elements(c.allLeaves) <= Elements(c.parentLeaves)
            && Elements(c.parentLeaves) <= taxa
            && c.nonParentLeaves == taxa - Elements(c.parentLeaves)
            && c.nonParentLeaves <= c.otherLeaves
  {
    var c := NewClade(tree, path, tree, metadata).value;
    var f := CladeFields(tree, path, tree);
    NewCladeFields(tree, path, tree, metadata);
    var taxa := Elements(DescendantLeaves(tree));
    LeavesWithinParent(tree, path);
    assert c.allLeaves == DescendantLeaves(At(tree, path));
    assert c.parentLeaves == DescendantLeaves(At(tree, Parent(path)));
    assert c.otherLeaves == taxa - Elements(c.allLeaves) by { assert f.otherLeaves == taxa - Elements(f.allLeaves); }
    assert c.nonParentLeaves == taxa - Elements(c.parentLeaves) by { assert f.nonParentLeaves == taxa - Elements(f.parentLeaves); }
    Complements(taxa, Elements(c.allLeaves), Elements(c.parentLeaves), c.otherLeaves, c.nonParentLeaves);
  }

  lemma Complements<T>(taxa: set<T>, own: set<T>, parent: set<T>, other: set<T>, nonParent: set<T>)
    requires own <= parent <= taxa && other == taxa - own && nonParent == taxa - parent
    ensures other + own == taxa && other * own == {} && nonParent <= other
  {
  }

  /** The leaves of a non-root node lie among its parent's, and those among
      the whole tree's. */
  lemma LeavesWithinParent(tree: Tree, path: Path)
    requires ValidPath(tree, path) && path != []
    ensures ValidPath(tree, Parent(path))
    ensures Elements(DescendantLeaves(At(tree, path))) <= Elements(DescendantLeaves(At(tree, Parent(path))))
    ensures Elements(DescendantLeaves(At(tree, Parent(path)))) <= Elements(DescendantLeaves(tree))
  {
    var parent := Parent(path);
    ParentChild(tree, path);
    var p := At(tree, parent);
    SubtreeLeavesWithin(tree, parent);
    DescendantLeavesSplit(p);
    ChildLeavesWithin(p, 0, path[|path| - 1]);
  }

  /** Left and right leaves are set exactly for a node with two children;
      then they split the clade's leaves between them. */
  lemma CladeBifurcation(home: Tree, path: Path, tree: Tree, metadata: Option<Metadata>)
    requires ValidPath(home, path) && NewClade(home, path, tree, metadata).Ok?
    ensures var c := NewClade(home, path, tree, metadata).value;
            var node := At(home, path);
            && (c.leftLeaves.Some? <==> |node.children| == 2)
            && (c.rightLeaves.Some? <==> |node.children| == 2)
            && (|node.children| == 2 ==>
                  && c.leftLeaves.value == DescendantLeaves(node.children[0])
                  && c.rightLeaves.value == DescendantLeaves(node.children[1])
                  && c.allLeaves == c.leftLeaves.value + c.rightLeaves.value)
  {
    NewCladeFields(home, path, tree, metadata);
    var node := At(home, path);
    if |node.children| == 2 {
      DescendantLeavesSplit(node);
      assert ChildLeaves(node, 2) == [];
    }
  }

  /** One leaf set per sibling; their union, without repeats, is the
      clade's sibling leaves. */
  lemma CladeSiblingLeaves(home: Tree, path: Path, tree: Tree, metadata: Option<Metadata>)
    requires ValidPath(home, path) && NewClade(home, path, tree, metadata).Ok?
    ensures var c := NewClade(home, path, tree, metadata).value;
            && c.parentLeaves == DescendantLeaves(At(home, Parent(path)))
            && |c.eachSiblingLeafSet| + 1 == |At(home, Parent(path)).children|
            && (forall i :: 0 <= i < |c.eachSiblingLeafSet| ==>
                  c.eachSiblingLeafSet[i] ==
                    DescendantLeaves(At(home, Parent(path)).children[if i < path[|path| - 1] then i else i + 1]))
            && c.allSiblingLeaves == Dedup(Flatten(c.eachSiblingLeafSet))
            && (forall x :: x in c.allSiblingLeaves <==>
                  exists i :: 0 <= i < |c.eachSiblingLeafSet| && x in c.eachSiblingLeafSet[i])
            && Distinct(c.allSiblingLeaves)
  {
    NewCladeFields(home, path, tree, metadata);
  }

  /** Without metadata a clade has neither tags nor single-tag info. */
  lemma CladeWithoutMetadata(home: Tree, path: Path, tree: Tree)
    requires ValidPath(home, path) && path != []
    ensures var c := NewClade(home, path, tree, None).value;
            c.allTags.None? && c.singleTagInfo.None?
  {
  }

  /** With metadata, the clade's tags per category are exactly those of its
      leaves. */
  lemma CladeAllTags(home: Tree, path: Path, tree: Tree, metadata: Metadata)
    requires ValidPath(home, path) && NewClade(home, path, tree, Some(metadata)).Ok?
    ensures var c := NewClade(home, path, tree, Some(metadata)).value;
            && c.allTags.Some? && c.allTags.value.Keys == metadata.Keys
            && (forall cat, t :: cat in metadata ==>
                  (t in c.allTags.value[cat] <==>
                     exists l :: l in c.allLeaves && l in metadata[cat] && metadata[cat][l] == t))
  {
  }

  /** With metadata, the single-tag info names, per category, the tag of the
      clade's leaves when they all carry that one tag, and nil otherwise. */
  lemma CladeSingleTagInfo(home: Tree, path: Path, tree: Tree, metadata: Metadata, cat: Category)
    requires ValidPath(home, path) && NewClade(home, path, tree, Some(metadata)).Ok?
    requires cat in metadata
    ensures var c := NewClade(home, path, tree, Some(metadata)).value;
            && c.singleTagInfo.Some? && cat in c.singleTagInfo.value
            && (forall t :: c.singleTagInfo.value[cat] == Some(t) <==> c.allTags.value[cat] == {t})
            && (c.singleTagInfo.value[cat].None? <==> |c.allTags.value[cat]| != 1)
  {
    var c := NewClade(home, path, tree, Some(metadata)).value;
    var tags := GetAllTags(c.allLeaves, metadata).value;
    assert c.singleTagInfo == Some(GetSingleTagInfo(tags));
    SingleTagInfoMeaning(tags, cat);
  }

  lemma SingleTagInfoMeaning(allTags: map<Category, set<Tag>>, cat: Category)
    requires cat in allTags
    ensures var info := GetSingleTagInfo(allTags);
            forall t :: info[cat] == Some(t) <==> allTags[cat] == {t}
  {
    var info := GetSingleTagInfo(allTags);
    forall t ensures info[cat] == Some(t) <==> allTags[cat] == {t} {
      if allTags[cat] == {t} {
        assert |allTags[cat]| == 1;
        assert t in {info[cat].value};
      }
    }
  }

  /** `==`: field-by-field equality that ignores the originating node and
      the non-parent leaves. */
  predicate SameClade(a: Clade, b: Clade): (r: bool)
    ensures r <==> a.(node := b.node, nonParentLeaves := b.nonParentLeaves) == b
    ensures r ==> b.(node := a.node, nonParentLeaves := a.nonParentLeaves) == a
  {
    && a.name == b.name
    && a.allLeaves == b.allLeaves
    && a.leftLeaves == b.leftLeaves
    && a.rightLeaves == b.rightLeaves
    && a.allSiblingLeaves == b.allSiblingLeaves
    && a.eachSiblingLeafSet == b.eachSiblingLeafSet
    && a.parentLeaves == b.parentLeaves
    && a.otherLeaves == b.otherLeaves
    && a.singleTagInfo == b.singleTagInfo
    && a.allTags == b.allTags
  }

  /** Ignoring the non-parent leaves loses nothing: for clades over the same
      taxa they follow from the compared parent leaves. Clades of distinct
      nodes can still be equal. */
  lemma SameCladeDeterminesNonParentLeaves(home: Tree, p: Path, q: Path, tree: Tree, metadata: Option<Metadata>)
    requires ValidPath(home, p) && ValidPath(home, q)
    requires NewClade(home, p, tree, metadata).Ok? && NewClade(home, q, tree, metadata).Ok?
    requires SameClade(NewClade(home, p, tree, metadata).value, NewClade(home, q, tree, metadata).value)
    ensures NewClade(home, p, tree, metadata).value.nonParentLeaves == NewClade(home, q, tree, metadata).value.nonParentLeaves
  {
    NewCladeFields(home, p, tree, metadata);
    NewCladeFields(home, q, tree, metadata);
  }
}
