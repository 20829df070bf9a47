/** Per-leaf attribute tables (a hash from leaf name to a hash from
    attribute to value) and the arrays of attribute values read from them. */
module Attributes {
  import opened Wrappers
  import opened Newick

  /** An attribute name, such as the alignment attribute below. */
  type Attribute = string

  /** The attribute under which each leaf's aligned sequence is stored. */
  const Aln: Attribute := "aln"

  /** `Attrs`: a hash table from leaf to that leaf's attributes. */
  class Attrs<V> {
    var table: map<Taxon, map<Attribute, V>>

    constructor ()
      ensures table == map[]
    {
      table := map[];
    }

    /** The leaves of `leaves` that the table knows, in order. */
    function Known(leaves: seq<Taxon>): (r: seq<Taxon>)
      reads this
      ensures |r| <= |leaves|
      ensures forall l :: l in r <==> l in leaves && l in table
      ensures (forall l :: l in leaves ==> l in table) ==> r == leaves
      ensures (forall l :: l in leaves ==> l !in table) ==> r == []
      ensures |leaves| == 1 ==> r == (if leaves[0] in table then leaves else [])
    {
      if leaves == [] then []
      else
        assert |leaves| == 1 ==> leaves[1..] == [] && [leaves[0]] == leaves;
        if leaves[0] in table then [leaves[0]] + Known(leaves[1..])
        else Known(leaves[1..])
    }

    /** Unknown leaves are dropped where they stand: the known leaves of a
        concatenation are those of each part, in order. */
    lemma {:induction false} KnownAppend(a: seq<Taxon>, b: seq<Taxon>)
      ensures Known(a + b) == Known(a) + Known(b)
      decreases |a|
    {
      if a == [] {
        assert a + b == b;
      } else {
        assert (a + b)[0] == a[0] && (a + b)[1..] == a[1..] + b;
        KnownAppend(a[1..], b);
      }
    }

    /** `attrs(leaves, attr)`: the value of `attr` for each leaf of `leaves`
        that the table knows, in order; unknown leaves are skipped, and a known
        leaf without `attr` aborts. */
    function AttrsOf(leaves: seq<Taxon>, attr: Attribute): (r: Result<seq<V>>)
      reads this
      ensures r.Ok? <==> forall l :: l in leaves && l in table ==> attr in table[l]
      ensures r.Err? ==> r.error == MissingAttribute
      ensures r.Ok? ==> |r.value| == |Known(leaves)|
      ensures r.Ok? ==> forall i :: 0 <= i < |r.value| ==>
                Known(leaves)[i] in table && attr in table[Known(leaves)[i]] &&
                r.value[i] == table[Known(leaves)[i]][attr]
    {
      if forall l :: l in leaves && l in table ==> attr in table[l] then
        var known := Known(leaves);
        assert forall i :: 0 <= i < |known| ==> known[i] in known && known[i] in table;
        Ok(seq(|known|, i reads this requires 0 <= i < |known| && known[i] in table && attr in table[known[i]] =>
                 table[known[i]][attr]))
      else
        Err(MissingAttribute)
    }

    /** `add(leaf, attr, val)`: sets `attr` of `leaf` to `val`, creating the
        leaf's entry when it has none; every other entry is kept. */
    method Add(leaf: Taxon, attr: Attribute, val: V)
      modifies this
      ensures leaf in old(table) ==> table == old(table)[leaf := old(table)[leaf][attr := val]]
      ensures leaf !in old(table) ==> table == old(table)[leaf := map[attr := val]]
      ensures AttrsOf([leaf], attr) == Ok([val])
    {
      if leaf in table {
        table := table[leaf := table[leaf][attr := val]];
      } else {
        table := table[leaf := map[attr := val]];
      }
      assert [leaf][1..] == [];
      var r := AttrsOf([leaf], attr);
      assert r.Ok? && |r.value| == 1 && r.value[0] == val;
      assert r.value == [val];
    }
  }

  /** When no leaf is known, nothing comes back and nothing aborts. */
  lemma AttrsOfNoneKnown<V>(a: Attrs<V>, leaves: seq<Taxon>, attr: Attribute)
    requires forall l :: l in leaves ==> l !in a.table
    ensures a.AttrsOf(leaves, attr) == Ok([])
  {
    assert |a.Known(leaves)| == 0;
  }

  /** Known leaves: two genomes give their two gene sets; an unknown genome
      is skipped; a missing attribute aborts. */
  lemma AttrsOfExamples(a: Attrs<set<int>>)
    requires a.table == map["g1" := map["genes" := {1, 2, 3, 4}, "location" := {}],
                            "g2" := map["genes" := {1, 2, 4, 5}]]
    ensures a.AttrsOf(["g1", "g2"], "genes") == Ok([{1, 2, 3, 4}, {1, 2, 4, 5}])
    ensures a.AttrsOf(["g1", "g3"], "genes") == Ok([{1, 2, 3, 4}])
    ensures a.AttrsOf(["g1"], "apples") == Err(MissingAttribute)
  {
    var both := a.AttrsOf(["g1", "g2"], "genes");
    assert a.Known(["g1", "g2"]) == ["g1", "g2"];
    assert both.Ok? && |both.value| == 2;
    assert both.value == [{1, 2, 3, 4}, {1, 2, 4, 5}];
    var skipped := a.AttrsOf(["g1", "g3"], "genes");
    assert ["g1", "g3"][1..] == ["g3"];
    assert a.Known(["g1", "g3"]) == ["g1"] + a.Known(["g3"]);
    assert a.Known(["g3"]) == [];
    assert skipped.Ok? && |skipped.value| == 1;
    assert skipped.value == [{1, 2, 3, 4}];
    assert "apples" !in a.table["g1"];
  }
}
