/** `snazzy_clades`: for every metadata category, the clades whose leaves
    all carry one tag that no other taxon carries. The clades are visited
    largest first; a clade is recorded for a category when its leaves share
    one tag and are not all covered by clades recorded before it. */
module Snazzy {
  import opened Wrappers
  import opened Seqs
  import opened Newick
  import opened Clades
  import opened TreeClusters

  /** The key of `sort_by`: the number of leaves of a clade. */
  function Size(c: Clade): nat {
    |c.allLeaves|
  }

  // The greedy pass over one category

  /** Every leaf of `c` is already covered. */
  predicate AllChecked(c: Clade, checked: set<Taxon>) {
    forall l :: l in c.allLeaves ==> l in checked
  }

  /** Every leaf of `c` has a tag in the category. */
  predicate Tagged(c: Clade, leaf2tag: map<Taxon, Tag>) {
    forall l :: l in c.allLeaves ==> l in leaf2tag
  }

  /** Every leaf of `c` carries `tag`: the clade is monophyletic for it. */
  predicate CarriesOnly(c: Clade, tag: Tag, leaf2tag: map<Taxon, Tag>) {
    forall l :: l in c.allLeaves ==> l in leaf2tag && leaf2tag[l] == tag
  }

  /** The leaves of `c` carry a single tag (`md_tags.uniq.count == 1`). */
  predicate SingleTag(c: Clade, leaf2tag: map<Taxon, Tag>)
    requires Tagged(c, leaf2tag)
  {
    |c.allLeaves| > 0 && CarriesOnly(c, leaf2tag[c.allLeaves[0]], leaf2tag)
  }

  /** The state of the pass: `already_checked` and `single_tag_clades`. */
  datatype PassState = PassState(checked: set<Taxon>, recorded: map<Clade, Tag>)

  const Start := PassState({}, map[])

  /** `t` extends `s`: covered leaves and recorded clades are kept. */
  predicate Grows(s: PassState, t: PassState) {
    && s.checked <= t.checked
    && (forall c :: c in s.recorded ==> c in t.recorded && t.recorded[c] == s.recorded[c])
  }

  /** One clade of the pass. */
  function Step(s: PassState, c: Clade, leaf2tag: map<Taxon, Tag>): (r: Result<PassState>)
    ensures |c.allLeaves| <= 1 ==> r == Err(SingleLeafClade)
    ensures |c.allLeaves| > 1 && AllChecked(c, s.checked) ==> r == Ok(s)
    ensures r == Err(MissingTag) ==> !Tagged(c, leaf2tag)
    ensures |c.allLeaves| > 1 && !AllChecked(c, s.checked) && !Tagged(c, leaf2tag) ==> r == Err(MissingTag)
    ensures |c.allLeaves| > 1 && !AllChecked(c, s.checked) && Tagged(c, leaf2tag) && SingleTag(c, leaf2tag) &&
            c in s.recorded ==>
              r == Err(DuplicateClassification)
    ensures r == Err(DuplicateClassification) ==> c in s.recorded
    ensures r.Err? ==> r.error in {SingleLeafClade, MissingTag, DuplicateClassification}
    ensures r.Ok? ==> Grows(s, r.value)
    ensures r.Ok? ==> forall d :: d in r.value.recorded && d !in s.recorded ==>
              d == c && CarriesOnly(c, r.value.recorded[c], leaf2tag) && AllChecked(c, r.value.checked)
    ensures r.Ok? && Tagged(c, leaf2tag) && SingleTag(c, leaf2tag) ==> AllChecked(c, r.value.checked)
    ensures |c.allLeaves| > 1 && !AllChecked(c, s.checked) && Tagged(c, leaf2tag) && SingleTag(c, leaf2tag) &&
            c !in s.recorded ==>
              r == Ok(PassState(s.checked + Elements(c.allLeaves), s.recorded[c := leaf2tag[c.allLeaves[0]]]))
    ensures |c.allLeaves| > 1 && !AllChecked(c, s.checked) && Tagged(c, leaf2tag) && !SingleTag(c, leaf2tag) ==>
              r == Ok(s)
  {
    if |c.allLeaves| <= 1 then Err(SingleLeafClade)
    else if AllChecked(c, s.checked) then Ok(s)
    else if !Tagged(c, leaf2tag) then Err(MissingTag)
    else if SingleTag(c, leaf2tag) then
      if c in s.recorded then Err(DuplicateClassification)
      else Ok(PassState(s.checked + Elements(c.allLeaves), s.recorded[c := leaf2tag[c.allLeaves[0]]]))
    else Ok(s)
  }

  /** The pass over `cs` from state `s`. */
  function Pass(s: PassState, cs: seq<Clade>, leaf2tag: map<Taxon, Tag>): (r: Result<PassState>)
    ensures r.Err? ==> r.error in {SingleLeafClade, MissingTag, DuplicateClassification}
    ensures r.Ok? ==> Grows(s, r.value)
    ensures r.Ok? ==> forall d :: d in r.value.recorded && d !in s.recorded ==>
              d in cs && CarriesOnly(d, r.value.recorded[d], leaf2tag) && AllChecked(d, r.value.checked)
    ensures r.Ok? ==> forall i :: 0 <= i < |cs| && Tagged(cs[i], leaf2tag) && SingleTag(cs[i], leaf2tag) ==>
              AllChecked(cs[i], r.value.checked)
    decreases |cs|
  {
    if cs == [] then Ok(s)
    else
      var next := Step(s, cs[0], leaf2tag);
      if next.Err? then next
      else
        var r := Pass(next.value, cs[1..], leaf2tag);
        assert forall i :: 1 <= i < |cs| ==> cs[i] == cs[1..][i - 1];
        r
  }

  /** The pass over a concatenation is the pass over the first part
      followed by the pass over the second, unless the first aborts. */
  lemma {:induction false} PassAppend(s: PassState, a: seq<Clade>, b: seq<Clade>, leaf2tag: map<Taxon, Tag>)
    ensures Pass(s, a + b, leaf2tag) ==
              if Pass(s, a, leaf2tag).Err? then Pass(s, a, leaf2tag) else Pass(Pass(s, a, leaf2tag).value, b, leaf2tag)
    decreases |a|
  {
    if a == [] {
      assert a + b == b;
    } else {
      assert (a + b)[0] == a[0] && (a + b)[1..] == a[1..] + b;
      var next := Step(s, a[0], leaf2tag);
      if next.Ok? {
        PassAppend(next.value, a[1..], b, leaf2tag);
      }
    }
  }

  /** A single-tag clade whose leaves are not all covered when the pass
      reaches it is recorded, with the tag of its leaves. */
  lemma PassRecords(cs: seq<Clade>, i: nat, leaf2tag: map<Taxon, Tag>)
    requires Pass(Start, cs, leaf2tag).Ok? && i < |cs|
    requires Pass(Start, cs[..i], leaf2tag).Ok?
    requires Tagged(cs[i], leaf2tag) && SingleTag(cs[i], leaf2tag)
    requires !AllChecked(cs[i], Pass(Start, cs[..i], leaf2tag).value.checked)
    ensures cs[i] in Pass(Start, cs, leaf2tag).value.recorded
    ensures Pass(Start, cs, leaf2tag).value.recorded[cs[i]] == leaf2tag[cs[i].allLeaves[0]]
  {
    var c := cs[i];
    var before := Pass(Start, cs[..i], leaf2tag).value;
    var rest := cs[i + 1..];
    assert cs == cs[..i] + ([c] + rest);
    PassAppend(Start, cs[..i], [c] + rest, leaf2tag);
    assert ([c] + rest)[0] == c && ([c] + rest)[1..] == rest;
    var step := Step(before, c, leaf2tag);
    assert Pass(before, [c] + rest, leaf2tag) == if step.Err? then step else Pass(step.value, rest, leaf2tag);
    assert step.Ok?;
    assert c in step.value.recorded && step.value.recorded[c] == leaf2tag[c.allLeaves[0]];
  }

  /** Conversely, a clade the pass records was reached with some leaf
      uncovered, its leaves all tagged with one tag. */
  lemma PassRecordedUncovered(s: PassState, cs: seq<Clade>, leaf2tag: map<Taxon, Tag>, d: Clade)
    requires Pass(s, cs, leaf2tag).Ok?
    requires d in Pass(s, cs, leaf2tag).value.recorded && d !in s.recorded
    ensures exists i :: 0 <= i < |cs| && cs[i] == d && Pass(s, cs[..i], leaf2tag).Ok? &&
              !AllChecked(d, Pass(s, cs[..i], leaf2tag).value.checked) &&
              Tagged(d, leaf2tag) && SingleTag(d, leaf2tag)
  {
    var i := RecordedAt(s, cs, leaf2tag, d);
  }

  lemma {:induction false} RecordedAt(s: PassState, cs: seq<Clade>, leaf2tag: map<Taxon, Tag>, d: Clade)
    returns (i: nat)
    requires Pass(s, cs, leaf2tag).Ok?
    requires d in Pass(s, cs, leaf2tag).value.recorded && d !in s.recorded
    ensures i < |cs| && cs[i] == d && Pass(s, cs[..i], leaf2tag).Ok?
    ensures !AllChecked(d, Pass(s, cs[..i], leaf2tag).value.checked)
    ensures Tagged(d, leaf2tag) && SingleTag(d, leaf2tag)
    decreases |cs|
  {
    var next := Step(s, cs[0], leaf2tag);
    if d in next.value.recorded {
      StepRecordsUncovered(s, cs[0], leaf2tag, d);
      i := 0;
      assert cs[..0] == [];
    } else {
      var j := RecordedAt(next.value, cs[1..], leaf2tag, d);
      PassPrefixCons(s, cs, leaf2tag, j);
      i := j + 1;
    }
  }

  /** A clade that one step records is the visited clade, reached with
      some leaf uncovered and all leaves tagged with one tag. */
  lemma StepRecordsUncovered(s: PassState, c: Clade, leaf2tag: map<Taxon, Tag>, d: Clade)
    requires Step(s, c, leaf2tag).Ok?
    requires d in Step(s, c, leaf2tag).value.recorded && d !in s.recorded
    ensures d == c && !AllChecked(c, s.checked) && Tagged(c, leaf2tag) && SingleTag(c, leaf2tag)
  {
  }

  /** The pass over the first `j + 1` clades is the first step followed by
      the pass over the next `j`. */
  lemma PassPrefixCons(s: PassState, cs: seq<Clade>, leaf2tag: map<Taxon, Tag>, j: nat)
    requires j < |cs| - 1 && Step(s, cs[0], leaf2tag).Ok?
    ensures Pass(s, cs[..j + 1], leaf2tag) == Pass(Step(s, cs[0], leaf2tag).value, cs[1..][..j], leaf2tag)
  {
    var prefix := cs[..j + 1];
    assert prefix[0] == cs[0] && prefix[1..] == cs[1..][..j];
  }

  /** Clades of distinct nodes are never recorded twice. */
  lemma {:induction false} PassNoDuplicate(s: PassState, cs: seq<Clade>, leaf2tag: map<Taxon, Tag>)
    requires Distinct(cs)
    requires forall i :: 0 <= i < |cs| ==> cs[i] !in s.recorded
    ensures Pass(s, cs, leaf2tag) != Err(DuplicateClassification)
    decreases |cs|
  {
    if cs != [] {
      var next := Step(s, cs[0], leaf2tag);
      if next.Ok? {
        forall i | 0 <= i < |cs[1..]| ensures cs[1..][i] !in next.value.recorded {
          assert cs[1..][i] == cs[i + 1] && cs[i + 1] != cs[0];
        }
        PassNoDuplicate(next.value, cs[1..], leaf2tag);
      }
    }
  }

  /** The first loop of `snazzy_clades` for one category: walks the clades,
      growing the covered leaves and recording single-tag clades. */
  method SingleTagClades(clades: seq<Clade>, leaf2tag: map<Taxon, Tag>) returns (r: Result<map<Clade, Tag>>)
    ensures r.Ok? <==> Pass(Start, clades, leaf2tag).Ok?
    ensures r.Ok? ==> r.value == Pass(Start, clades, leaf2tag).value.recorded
    ensures r.Err? ==> r.error == Pass(Start, clades, leaf2tag).error
  {
    var alreadyChecked: set<Taxon> := {};
    var singleTagClades: map<Clade, Tag> := map[];
    var i := 0;
    while i < |clades|
      invariant 0 <= i <= |clades|
      invariant Pass(Start, clades, leaf2tag) == Pass(PassState(alreadyChecked, singleTagClades), clades[i..], leaf2tag)
    {
      var clade := clades[i];
      assert clades[i..][0] == clade && clades[i..][1..] == clades[i + 1..];
      if |clade.allLeaves| <= 1 {
        return Err(SingleLeafClade);
      }
      if !(forall leaf :: leaf in clade.allLeaves ==> leaf in alreadyChecked) {
        if !(forall leaf :: leaf in clade.allLeaves ==> leaf in leaf2tag) {
          return Err(MissingTag);
        }
        var first := leaf2tag[clade.allLeaves[0]];
        if forall leaf :: leaf in clade.allLeaves ==> leaf2tag[leaf] == first {
          alreadyChecked := alreadyChecked + Elements(clade.allLeaves);
          if clade in singleTagClades {
            return Err(DuplicateClassification);
          }
          singleTagClades := singleTagClades[clade := first];
        }
      }
      i := i + 1;
    }
    assert clades[i..] == [];
    return Ok(singleTagClades);
  }

  // The second loop: keep the tags no other taxon carries

  /** No taxon outside `c` carries `tag`. */
  predicate NoOtherCarrier(c: Clade, tag: Tag, taxa: seq<Taxon>, leaf2tag: map<Taxon, Tag>) {
    forall l :: l in taxa && l !in c.allLeaves ==> !(l in leaf2tag && leaf2tag[l] == tag)
  }

  /** The recorded clades whose tag no other taxon carries. */
  function Exclusive(recorded: map<Clade, Tag>, taxa: seq<Taxon>, leaf2tag: map<Taxon, Tag>): (r: map<Clade, Tag>)
    ensures forall c :: c in r <==> c in recorded && NoOtherCarrier(c, recorded[c], taxa, leaf2tag)
    ensures forall c :: c in r ==> r[c] == recorded[c]
  {
    map c | c in recorded && NoOtherCarrier(c, recorded[c], taxa, leaf2tag) :: recorded[c]
  }

  /** What one category contributes to the result: each clade mapped to
      its tag. */
  function CategoryClades(clades: seq<Clade>, taxa: seq<Taxon>, leaf2tag: map<Taxon, Tag>): (r: Result<map<Clade, Tag>>)
    ensures r.Ok? <==> Pass(Start, clades, leaf2tag).Ok?
    ensures r.Ok? ==> forall c :: c in r.value ==>
              && c in clades
              && CarriesOnly(c, r.value[c], leaf2tag)
              && NoOtherCarrier(c, r.value[c], taxa, leaf2tag)
    ensures r.Ok? ==> forall c :: c in r.value ==> c in Pass(Start, clades, leaf2tag).value.recorded
    ensures r.Ok? ==> forall c ::
              (c in Pass(Start, clades, leaf2tag).value.recorded &&
               NoOtherCarrier(c, Pass(Start, clades, leaf2tag).value.recorded[c], taxa, leaf2tag)) ==>
                c in r.value && r.value[c] == Pass(Start, clades, leaf2tag).value.recorded[c]
  {
    var p :- Pass(Start, clades, leaf2tag);
    Ok(Exclusive(p.recorded, taxa, leaf2tag))
  }

  /** A single-tag clade that the pass reaches with some leaf uncovered, and
      whose tag no other taxon carries, is kept for the category. */
  lemma CategoryCladesKeeps(clades: seq<Clade>, taxa: seq<Taxon>, leaf2tag: map<Taxon, Tag>, i: nat)
    requires CategoryClades(clades, taxa, leaf2tag).Ok? && i < |clades|
    requires Pass(Start, clades[..i], leaf2tag).Ok?
    requires Tagged(clades[i], leaf2tag) && SingleTag(clades[i], leaf2tag)
    requires !AllChecked(clades[i], Pass(Start, clades[..i], leaf2tag).value.checked)
    requires NoOtherCarrier(clades[i], leaf2tag[clades[i].allLeaves[0]], taxa, leaf2tag)
    ensures clades[i] in CategoryClades(clades, taxa, leaf2tag).value
    ensures CategoryClades(clades, taxa, leaf2tag).value[clades[i]] == leaf2tag[clades[i].allLeaves[0]]
  {
    PassRecords(clades, i, leaf2tag);
  }

  // Merging the categories

  /** `snazzy[c][cat] = tag`, creating the inner hash when `c` is new. */
  function Put(snazzy: map<Clade, map<Category, Tag>>, c: Clade, cat: Category, tag: Tag): (r: map<Clade, map<Category, Tag>>)
    ensures c in r && cat in r[c] && r[c][cat] == tag
    ensures forall d :: d in r <==> d in snazzy || d == c
    ensures forall d :: d in snazzy && d != c ==> r[d] == snazzy[d]
    ensures forall j :: j != cat ==> (j in r[c] <==> c in snazzy && j in snazzy[c])
    ensures forall j :: j != cat && j in r[c] ==> r[c][j] == snazzy[c][j]
  {
    if c in snazzy then snazzy[c := snazzy[c][cat := tag]] else snazzy[c := map[cat := tag]]
  }

  /** `snazzy` holds, per clade, exactly the categories that map that clade
      to a tag in `perCategory`, with that tag, and no empty entries. */
  ghost predicate IsTranspose(snazzy: map<Clade, map<Category, Tag>>, perCategory: map<Category, map<Clade, Tag>>) {
    && (forall c :: c in snazzy ==> snazzy[c] != map[])
    && (forall c, k :: c in snazzy && k in snazzy[c] ==>
          k in perCategory && c in perCategory[k] && perCategory[k][c] == snazzy[c][k])
    && (forall k, c :: k in perCategory && c in perCategory[k] ==> c in snazzy && k in snazzy[c])
  }

  /** A category with no clades yet changes nothing. */
  lemma TransposeAddCategory(snazzy: map<Clade, map<Category, Tag>>, perCategory: map<Category, map<Clade, Tag>>, k: Category)
    requires IsTranspose(snazzy, perCategory) && k !in perCategory
    ensures IsTranspose(snazzy, perCategory[k := map[]])
  {
  }

  /** Adding one (clade, category, tag) entry to both sides keeps them
      transposes of each other. */
  lemma TransposePut(snazzy: map<Clade, map<Category, Tag>>, perCategory: map<Category, map<Clade, Tag>>,
                     c: Clade, k: Category, tag: Tag)
    requires IsTranspose(snazzy, perCategory)
    requires k in perCategory && c !in perCategory[k]
    ensures IsTranspose(Put(snazzy, c, k, tag), perCategory[k := perCategory[k][c := tag]])
  {
    var s := Put(snazzy, c, k, tag);
    var p := perCategory[k := perCategory[k][c := tag]];
    assert forall d :: d in s ==> s[d] != map[] by {
      forall d | d in s ensures s[d] != map[] {
        if d == c { assert k in s[c]; } else { assert s[d] == snazzy[d]; }
      }
    }
    forall d, j | d in s && j in s[d] ensures j in p && d in p[j] && p[j][d] == s[d][j] {
      if d == c && j == k {
      } else if d == c {
        assert c in snazzy && s[c] == snazzy[c][k := tag];
        assert j in snazzy[c];
      } else {
        assert s[d] == snazzy[d];
        assert j in snazzy[d];
      }
    }
    forall j, d | j in p && d in p[j] ensures d in s && j in s[d] {
      if j == k && d == c {
      } else {
        assert j in perCategory && d in perCategory[j];
      }
    }
  }

  /** The merged result does not depend on the order in which the
      categories were visited. */
  lemma {:induction false} TransposeUnique(a: map<Clade, map<Category, Tag>>, b: map<Clade, map<Category, Tag>>,
                                           perCategory: map<Category, map<Clade, Tag>>)
    requires IsTranspose(a, perCategory) && IsTranspose(b, perCategory)
    ensures a == b
  {
    forall c | c in a ensures c in b && a[c] == b[c] {
      var k :| k in a[c];
      assert k in perCategory && c in perCategory[k];
      forall j | j in a[c] ensures j in b[c] && a[c][j] == b[c][j] {
        assert c in perCategory[j];
      }
      forall j | j in b[c] ensures j in a[c] {
        assert c in perCategory[j];
      }
    }
    forall c | c in b ensures c in a {
      var k :| k in b[c];
      assert c in perCategory[k];
    }
  }

  // snazzy_clades

  /** The clades of the tree, largest first. */
  function RankedClades(tree: Tree, metadata: Metadata): (r: Result<seq<Clade>>)
    ensures r.Ok? <==> AllClades(tree, Some(metadata)).Ok?
    ensures r.Ok? ==> Descending(r.value, Size)
    ensures r.Ok? ==> multiset(r.value) == multiset(AllClades(tree, Some(metadata)).value)
  {
    var clades :- AllClades(tree, Some(metadata));
    Ok(SortDescending(clades, Size))
  }

  /** Every category's contribution, when no category aborts. */
  ghost function PerCategory(clades: seq<Clade>, taxa: seq<Taxon>, metadata: Metadata): map<Category, map<Clade, Tag>>
    requires forall k :: k in metadata ==> CategoryClades(clades, taxa, metadata[k]).Ok?
  {
    map k | k in metadata :: CategoryClades(clades, taxa, metadata[k]).value
  }

  /** The second loop of `snazzy_clades` for one category: adds to
      `snazzy` each recorded clade whose tag no other taxon carries. */
  method MergeCategory(snazzy: map<Clade, map<Category, Tag>>, ghost perCategory: map<Category, map<Clade, Tag>>,
                       mdCat: Category, recorded: map<Clade, Tag>, taxa: seq<Taxon>, leaf2mdtag: map<Taxon, Tag>)
    returns (merged: map<Clade, map<Category, Tag>>)
    requires IsTranspose(snazzy, perCategory) && mdCat !in perCategory
    ensures IsTranspose(merged, perCategory[mdCat := Exclusive(recorded, taxa, leaf2mdtag)])
  {
    ghost var exclusive := Exclusive(recorded, taxa, leaf2mdtag);
    TransposeAddCategory(snazzy, perCategory, mdCat);
    merged := snazzy;
    ghost var done: map<Clade, Tag> := map[];
    var pending := recorded.Keys;
    while pending != {}
      invariant pending <= recorded.Keys
      invariant forall c :: c in done <==> c in exclusive && c !in pending
      invariant forall c :: c in done ==> done[c] == exclusive[c]
      invariant IsTranspose(merged, perCategory[mdCat := done])
      decreases pending
    {
      var clade :| clade in pending;
      var mdTag := recorded[clade];
      if forall leaf :: leaf in taxa && leaf !in clade.allLeaves ==> !(leaf in leaf2mdtag && leaf2mdtag[leaf] == mdTag) {
        TransposePut(merged, perCategory[mdCat := done], clade, mdCat, mdTag);
        assert perCategory[mdCat := done][mdCat := done[clade := mdTag]] == perCategory[mdCat := done[clade := mdTag]];
        merged := Put(merged, clade, mdCat, mdTag);
        done := done[clade := mdTag];
      }
      pending := pending - {clade};
    }
    assert done == exclusive;
  }

  /** The loop of `snazzy_clades` over the categories, given the ranked
      clades and the taxa of the tree. */
  method MergeCategories(clades: seq<Clade>, taxa: seq<Taxon>, metadata: Metadata)
    returns (r: Result<map<Clade, map<Category, Tag>>>)
    ensures r.Ok? <==> forall k :: k in metadata ==> CategoryClades(clades, taxa, metadata[k]).Ok?
    ensures r.Ok? ==> IsTranspose(r.value, PerCategory(clades, taxa, metadata))
    ensures r.Err? ==> r.error in {SingleLeafClade, MissingTag, DuplicateClassification}
  {
    var snazzy: map<Clade, map<Category, Tag>> := map[];
    var todo := metadata.Keys;
    ghost var perCategory: map<Category, map<Clade, Tag>> := map[];
    while todo != {}
      invariant todo <= metadata.Keys
      invariant perCategory.Keys == metadata.Keys - todo
      invariant forall k :: k in perCategory ==> CategoryClades(clades, taxa, metadata[k]) == Ok(perCategory[k])
      invariant IsTranspose(snazzy, perCategory)
      decreases todo
    {
      var mdCat :| mdCat in todo;
      var leaf2mdtag := metadata[mdCat];
      var singleTagClades := SingleTagClades(clades, leaf2mdtag);
      if singleTagClades.Err? {
        assert CategoryClades(clades, taxa, metadata[mdCat]).Err?;
        return Err(singleTagClades.error);
      }
      var recorded := singleTagClades.value;
      assert CategoryClades(clades, taxa, leaf2mdtag) == Ok(Exclusive(recorded, taxa, leaf2mdtag));
      snazzy := MergeCategory(snazzy, perCategory, mdCat, recorded, taxa, leaf2mdtag);
      perCategory := perCategory[mdCat := Exclusive(recorded, taxa, leaf2mdtag)];
      todo := todo - {mdCat};
    }
    assert perCategory == PerCategory(clades, taxa, metadata);
    return Ok(snazzy);
  }

  /** `snazzy_clades(tree, metadata)`: builds and ranks the clades, then for
      each category runs the greedy pass and merges the clades whose tag no
      other taxon carries into one hash per clade. */
  method SnazzyClades(tree: Tree, metadata: Metadata) returns (r: Result<map<Clade, map<Category, Tag>>>)
    ensures RankedClades(tree, metadata).Err? ==> r == Err(MissingTag)
    ensures RankedClades(tree, metadata).Ok? ==>
              var clades := RankedClades(tree, metadata).value;
              var taxa := UnquotedTaxa(tree);
              && (r.Ok? <==> forall k :: k in metadata ==> CategoryClades(clades, taxa, metadata[k]).Ok?)
              && (r.Ok? ==> IsTranspose(r.value, PerCategory(clades, taxa, metadata)))
    ensures r.Err? ==> r.error in {SingleLeafClade, MissingTag, DuplicateClassification}
  {
    var ranked := RankedClades(tree, metadata);
    if ranked.Err? {
      assert AllClades(tree, Some(metadata)).Err?;
      return Err(MissingTag);
    }
    r := MergeCategories(ranked.value, UnquotedTaxa(tree), metadata);
  }

  /** Every entry of a result built from `clades` names one of those clades,
      whose leaves all carry the entry's tag, which no taxon outside the
      clade carries. */
  lemma SnazzyEntriesSound(clades: seq<Clade>, taxa: seq<Taxon>, metadata: Metadata,
                           snazzy: map<Clade, map<Category, Tag>>)
    requires forall k :: k in metadata ==> CategoryClades(clades, taxa, metadata[k]).Ok?
    requires IsTranspose(snazzy, PerCategory(clades, taxa, metadata))
    ensures forall c, k :: c in snazzy && k in snazzy[c] ==>
              && k in metadata
              && c in clades
              && CarriesOnly(c, snazzy[c][k], metadata[k])
              && NoOtherCarrier(c, snazzy[c][k], taxa, metadata[k])
  {
    var perCategory := PerCategory(clades, taxa, metadata);
    forall c, k | c in snazzy && k in snazzy[c]
      ensures k in metadata && c in clades
      ensures CarriesOnly(c, snazzy[c][k], metadata[k]) && NoOtherCarrier(c, snazzy[c][k], taxa, metadata[k])
    {
      assert k in perCategory && c in perCategory[k] && perCategory[k][c] == snazzy[c][k];
      var own := CategoryClades(clades, taxa, metadata[k]);
      assert perCategory[k] == own.value;
      assert c in own.value && own.value[c] == snazzy[c][k];
    }
  }

  /** Every clade kept for category `k` appears in a result built from
      `clades`, under `k`, with its tag. */
  lemma SnazzyEntriesComplete(clades: seq<Clade>, taxa: seq<Taxon>, metadata: Metadata,
                              snazzy: map<Clade, map<Category, Tag>>, k: Category)
    requires forall k :: k in metadata ==> CategoryClades(clades, taxa, metadata[k]).Ok?
    requires IsTranspose(snazzy, PerCategory(clades, taxa, metadata))
    requires k in metadata
    ensures forall c :: c in CategoryClades(clades, taxa, metadata[k]).value ==>
              c in snazzy && k in snazzy[c] && snazzy[c][k] == CategoryClades(clades, taxa, metadata[k]).value[c]
  {
    var own := CategoryClades(clades, taxa, metadata[k]).value;
    PerCategoryAt(clades, taxa, metadata, k);
    forall c | c in own ensures c in snazzy && k in snazzy[c] && snazzy[c][k] == own[c] {
      TransposeEntry(snazzy, PerCategory(clades, taxa, metadata), k, c);
    }
  }

  /** The per-category result of a category is that category's clades. */
  lemma PerCategoryAt(clades: seq<Clade>, taxa: seq<Taxon>, metadata: Metadata, k: Category)
    requires forall k :: k in metadata ==> CategoryClades(clades, taxa, metadata[k]).Ok?
    requires k in metadata
    ensures k in PerCategory(clades, taxa, metadata)
    ensures PerCategory(clades, taxa, metadata)[k] == CategoryClades(clades, taxa, metadata[k]).value
  {
  }

  /** An entry of the per-category results is an entry of their transpose. */
  lemma TransposeEntry(snazzy: map<Clade, map<Category, Tag>>, perCategory: map<Category, map<Clade, Tag>>,
                       k: Category, c: Clade)
    requires IsTranspose(snazzy, perCategory)
    requires k in perCategory && c in perCategory[k]
    ensures c in snazzy && k in snazzy[c] && snazzy[c][k] == perCategory[k][c]
  {
  }

  /** The ranked clades are the clades of the tree. */
  lemma RankedCladesOfTree(tree: Tree, metadata: Metadata, c: Clade)
    requires RankedClades(tree, metadata).Ok?
    ensures c in RankedClades(tree, metadata).value <==> c in AllClades(tree, Some(metadata)).value
  {
    var all := AllClades(tree, Some(metadata)).value;
    var ranked := RankedClades(tree, metadata).value;
    assert c in ranked <==> c in multiset(ranked);
    assert c in all <==> c in multiset(all);
  }

  /** Reordering clades of distinct nodes leaves them distinct. */
  lemma {:induction false} PermutedDistinct(all: seq<Clade>, clades: seq<Clade>)
    requires forall a, b :: 0 <= a < b < |all| ==> all[a].node != all[b].node
    requires multiset(clades) == multiset(all)
    ensures Distinct(clades)
  {
    forall i, j | 0 <= i < j < |clades| ensures clades[i] != clades[j] {
      if clades[i] == clades[j] {
        assert multiset(clades)[clades[i]] >= 2 by {
          assert clades == clades[..i] + [clades[i]] + clades[i + 1..];
          assert clades[j] in clades[i + 1..];
        }
        DistinctCountsOnce(all, clades[i]);
      }
    }
  }

  lemma {:induction false} DistinctCountsOnce(s: seq<Clade>, x: Clade)
    requires forall a, b :: 0 <= a < b < |s| ==> s[a].node != s[b].node
    ensures multiset(s)[x] <= 1
  {
    if s != [] {
      assert s == [s[0]] + s[1..];
      DistinctCountsOnce(s[1..], x);
      if s[0] == x {
        assert x !in s[1..] by {
          forall i | 0 <= i < |s[1..]| ensures s[1..][i] != x {
            assert s[1..][i] == s[i + 1];
          }
        }
      }
    }
  }

  /** With the clades of one tree, no category aborts for a repeated
      clade. */
  lemma RankedCladesNoDuplicate(tree: Tree, metadata: Metadata, leaf2tag: map<Taxon, Tag>)
    requires RankedClades(tree, metadata).Ok?
    ensures Pass(Start, RankedClades(tree, metadata).value, leaf2tag) != Err(DuplicateClassification)
  {
    var clades := RankedClades(tree, metadata).value;
    AllCladesDescendantsFirst(tree, Some(metadata));
    PermutedDistinct(AllClades(tree, Some(metadata)).value, clades);
    PassNoDuplicate(Start, clades, leaf2tag);
  }
}
