/** The tree-level operations: the consensus of a column, the low-entropy
    alignment columns of a set of leaves, and the clades of a whole tree. */
module TreeClusters {
  import opened Wrappers
  import opened Seqs
  import opened Newick
  import opened Clades
  import opened Attributes

  // Upper-casing

  /** `upcase` on one character (ASCII letters only). */
  function Upcase(c: char): char {
    if 'a' <= c <= 'z' then (c as int - 32) as char else c
  }

  /** `upcase` on a string: no lower-case letter is left, and every other
      character stays as it was. */
  function UpcaseStr(s: string): (r: string)
    ensures |r| == |s|
    ensures forall i :: 0 <= i < |s| ==> r[i] == Upcase(s[i])
    ensures forall i :: 0 <= i < |r| ==> !('a' <= r[i] <= 'z')
    ensures forall i :: 0 <= i < |s| && !('a' <= s[i] <= 'z') ==> r[i] == s[i]
  {
    seq(|s|, i requires 0 <= i < |s| => Upcase(s[i]))
  }

  /** Upper-casing twice is upper-casing once. */
  lemma UpcaseStrIdempotent(s: string)
    ensures UpcaseStr(UpcaseStr(s)) == UpcaseStr(s)
  {
    var u := UpcaseStr(s);
    assert forall i :: 0 <= i < |u| ==> UpcaseStr(u)[i] == u[i];
  }

  function Upcased(strs: seq<string>): (r: seq<string>)
    ensures |r| == |strs|
    ensures forall i :: 0 <= i < |strs| ==> r[i] == UpcaseStr(strs[i])
  {
    seq(|strs|, i requires 0 <= i < |strs| => UpcaseStr(strs[i]))
  }

  // consensus

  /** How often `x` occurs in `s`. */
  function Count(s: seq<string>, x: string): nat {
    multiset(s)[x]
  }

  /** The group chosen after sorting the groups by size and reversing: the
      last group, in first-appearance order, among those of greatest size. */
  function LastMostFrequent(groups: seq<string>, s: seq<string>): (j: nat)
    requires |groups| > 0
    ensures j < |groups|
    ensures forall k :: 0 <= k < |groups| ==> Count(s, groups[k]) <= Count(s, groups[j])
    ensures forall k :: j < k < |groups| ==> Count(s, groups[k]) < Count(s, groups[j])
  {
    if |groups| == 1 then 0
    else
      var init := groups[..|groups| - 1];
      assert forall k :: 0 <= k < |init| ==> init[k] == groups[k];
      var j := LastMostFrequent(init, s);
      var last := |groups| - 1;
      if Count(s, groups[last]) >= Count(s, groups[j]) then last else j
  }

  /** `consensus(bases)`: the most frequent of the upper-cased strings; nil
      when there are none. */
  function Consensus(bases: seq<string>): (r: Option<string>)
    ensures r.None? <==> |bases| == 0
    ensures r.Some? ==> exists i :: 0 <= i < |bases| && r.value == UpcaseStr(bases[i])
    ensures r.Some? ==> forall i :: 0 <= i < |bases| ==>
              Count(Upcased(bases), UpcaseStr(bases[i])) <= Count(Upcased(bases), r.value)
  {
    var ups := Upcased(bases);
    var groups := Dedup(ups);
    if groups == [] then None
    else
      var j := LastMostFrequent(groups, ups);
      assert groups[j] in ups;
      assert forall i :: 0 <= i < |bases| ==> ups[i] in groups;
      Some(groups[j])
  }

  /** A string that, once upper-cased, occurs more often than every other
      upper-cased string is the consensus. */
  lemma {:induction false} ConsensusPlurality(bases: seq<string>, x: string)
    requires exists i :: 0 <= i < |bases| && UpcaseStr(bases[i]) == x
    requires forall i :: 0 <= i < |bases| && UpcaseStr(bases[i]) != x ==>
               Count(Upcased(bases), UpcaseStr(bases[i])) < Count(Upcased(bases), x)
    ensures Consensus(bases) == Some(x)
  {
    var ups := Upcased(bases);
    var r := Consensus(bases).value;
    var i :| 0 <= i < |bases| && r == UpcaseStr(bases[i]);
    var k :| 0 <= k < |bases| && UpcaseStr(bases[k]) == x;
    assert Count(ups, x) <= Count(ups, r);
  }

  /** Upper and lower case count as one: `a A a A t t C C` gives `A`. */
  lemma ConsensusCaseExample(bases: seq<string>)
    requires bases == ["a", "A", "a", "A", "t", "t", "C", "C"]
    ensures Consensus(bases) == Some("A")
  {
    var ups := Upcased(bases);
    CaseUpcasedExample(bases, ups);
    CaseTallyExample(ups);
    forall i | 0 <= i < |bases| && UpcaseStr(bases[i]) != "A"
      ensures Count(ups, UpcaseStr(bases[i])) < Count(ups, "A")
    {
      assert UpcaseStr(bases[i]) == ups[i];
      assert ups[i] == "T" || ups[i] == "C";
    }
    assert UpcaseStr(bases[0]) == ups[0];
    ConsensusPlurality(bases, "A");
  }

  lemma CaseUpcasedExample(bases: seq<string>, ups: seq<string>)
    requires bases == ["a", "A", "a", "A", "t", "t", "C", "C"] && ups == Upcased(bases)
    ensures ups == ["A", "A", "A", "A", "T", "T", "C", "C"]
  {
    assert UpcaseStr("a") == "A" by { assert UpcaseStr("a")[0] == 'A'; }
    assert UpcaseStr("A") == "A" by { assert UpcaseStr("A")[0] == 'A'; }
    assert UpcaseStr("t") == "T" by { assert UpcaseStr("t")[0] == 'T'; }
    assert UpcaseStr("C") == "C" by { assert UpcaseStr("C")[0] == 'C'; }
  }

  /** `a c T t C t g` gives `T`, the most frequent once upper-cased. */
  lemma ConsensusMostFrequentExample(bases: seq<string>)
    requires bases == ["a", "c", "T", "t", "C", "t", "g"]
    ensures Consensus(bases) == Some("T")
  {
    var ups := Upcased(bases);
    MostFrequentUpcasedExample(bases, ups);
    TallyExample(ups);
    forall i | 0 <= i < |bases| && UpcaseStr(bases[i]) != "T"
      ensures Count(ups, UpcaseStr(bases[i])) < Count(ups, "T")
    {
      assert UpcaseStr(bases[i]) == ups[i];
      assert ups[i] == "A" || ups[i] == "C" || ups[i] == "G";
    }
    assert UpcaseStr(bases[2]) == ups[2];
    ConsensusPlurality(bases, "T");
  }

  lemma MostFrequentUpcasedExample(bases: seq<string>, ups: seq<string>)
    requires bases == ["a", "c", "T", "t", "C", "t", "g"] && ups == Upcased(bases)
    ensures ups == ["A", "C", "T", "T", "C", "T", "G"]
  {
    assert UpcaseStr("a") == "A" by { assert UpcaseStr("a")[0] == 'A'; }
    assert UpcaseStr("c") == "C" by { assert UpcaseStr("c")[0] == 'C'; }
    assert UpcaseStr("T") == "T" by { assert UpcaseStr("T")[0] == 'T'; }
    assert UpcaseStr("t") == "T" by { assert UpcaseStr("t")[0] == 'T'; }
    assert UpcaseStr("C") == "C" by { assert UpcaseStr("C")[0] == 'C'; }
    assert UpcaseStr("g") == "G" by { assert UpcaseStr("g")[0] == 'G'; }
  }

  /** The tallies of the upper-cased `a A a A t t C C`. */
  lemma CaseTallyExample(ups: seq<string>)
    requires ups == ["A", "A", "A", "A", "T", "T", "C", "C"]
    ensures Count(ups, "A") == 4 && Count(ups, "T") == 2 && Count(ups, "C") == 2
  {
    assert "T" != "A" && "T" != "C" && "A" != "C" by {
      assert "T"[0] == 'T' && "A"[0] == 'A' && "C"[0] == 'C';
    }
    assert multiset(ups) == multiset{"A", "A", "A", "A"} + multiset{"T", "T"} + multiset{"C", "C"};
  }

  /** The tallies of the upper-cased `a c T t C t g`. */
  lemma TallyExample(ups: seq<string>)
    requires ups == ["A", "C", "T", "T", "C", "T", "G"]
    ensures Count(ups, "T") == 3 && Count(ups, "A") == 1 && Count(ups, "C") == 2 && Count(ups, "G") == 1
  {
    assert "T" != "A" && "T" != "C" && "T" != "G" && "A" != "C" && "A" != "G" && "C" != "G" by {
      assert "T"[0] == 'T' && "A"[0] == 'A' && "C"[0] == 'C' && "G"[0] == 'G';
    }
    assert multiset(ups) == multiset{"A"} + multiset{"C", "C"} + multiset{"T", "T", "T"} + multiset{"G"};
  }

  // low_ent_cols

  /** The length of the first row; the common row length when all agree. */
  function Width(rows: seq<seq<char>>): nat {
    if rows == [] then 0 else |rows[0]|
  }

  /** Every row has the same length. */
  predicate SameLength(rows: seq<seq<char>>) {
    forall i :: 0 <= i < |rows| ==> |rows[i]| == Width(rows)
  }

  /** `transpose`: the columns of equally long rows, in order. */
  function Transpose(rows: seq<seq<char>>): (cols: seq<seq<char>>)
    requires SameLength(rows)
    ensures |cols| == Width(rows)
    ensures forall k :: 0 <= k < |cols| ==> |cols[k]| == |rows|
    ensures forall k, i :: 0 <= k < |cols| && 0 <= i < |rows| ==> cols[k][i] == rows[i][k]
  {
    seq(Width(rows), k requires 0 <= k < Width(rows) =>
      seq(|rows|, i requires 0 <= i < |rows| => rows[i][k]))
  }

  /** Transposing the columns of equally long, non-empty rows gives the rows
      back. */
  lemma TransposeTwice(rows: seq<seq<char>>)
    requires SameLength(rows) && Width(rows) > 0
    ensures SameLength(Transpose(rows))
    ensures Transpose(Transpose(rows)) == rows
  {
    var cols := Transpose(rows);
    assert Width(cols) == |rows|;
    var back := Transpose(cols);
    assert |back| == |rows|;
    forall i | 0 <= i < |rows| ensures back[i] == rows[i] {
      assert |back[i]| == |cols| == |rows[i]|;
      forall k | 0 <= k < |rows[i]| ensures back[i][k] == rows[i][k] {
        assert back[i][k] == cols[k][i];
      }
    }
  }

  predicate HasGap(col: seq<char>) {
    exists i :: 0 <= i < |col| && col[i] == '-'
  }

  /** A column is kept when it has no gap and its upper-cased characters
      have low entropy. `lowEntropy(s)` stands for
      `Shannon::entropy(s) <= entropy_cutoff`. */
  predicate IsKeyColumn(col: seq<char>, lowEntropy: string -> bool) {
    !HasGap(col) && lowEntropy(UpcaseStr(col))
  }

  /** The 1-based indices of the key columns of equally long rows. */
  function KeyColumns(rows: seq<seq<char>>, lowEntropy: string -> bool): set<nat>
    requires SameLength(rows)
  {
    var cols := Transpose(rows);
    set k | 0 <= k < |cols| && IsKeyColumn(cols[k], lowEntropy) :: k + 1
  }

  /** The 1-based indices of the key columns among the first `n` columns,
      in increasing order: what the loop of `low_ent_cols` has collected
      after `n` columns. */
  function KeyColumnsUpTo(cols: seq<seq<char>>, n: nat, lowEntropy: string -> bool): seq<nat>
    requires n <= |cols|
  {
    if n == 0 then []
    else KeyColumnsUpTo(cols, n - 1, lowEntropy) + (if IsKeyColumn(cols[n - 1], lowEntropy) then [n] else [])
  }

  /** Column `c` is collected exactly when it is a key column. */
  lemma {:induction false} KeyColumnsUpToMembers(cols: seq<seq<char>>, n: nat, lowEntropy: string -> bool)
    requires n <= |cols|
    ensures forall j :: j in KeyColumnsUpTo(cols, n, lowEntropy) ==> 1 <= j <= n
    ensures forall c :: 0 <= c < n ==> (c + 1 in KeyColumnsUpTo(cols, n, lowEntropy) <==> IsKeyColumn(cols[c], lowEntropy))
  {
    if n > 0 {
      KeyColumnsUpToMembers(cols, n - 1, lowEntropy);
    }
  }

  /** Collecting column by column finds exactly the key columns. */
  lemma KeyColumnsCollected(rows: seq<seq<char>>, lowEntropy: string -> bool)
    requires SameLength(rows)
    ensures Elements(KeyColumnsUpTo(Transpose(rows), Width(rows), lowEntropy)) == KeyColumns(rows, lowEntropy)
  {
    var cols := Transpose(rows);
    var collected := KeyColumnsUpTo(cols, |cols|, lowEntropy);
    KeyColumnsUpToMembers(cols, |cols|, lowEntropy);
    forall j | j in collected ensures j in KeyColumns(rows, lowEntropy) {
      var c := j - 1;
      assert 0 <= c < |cols| && c + 1 in collected;
      assert IsKeyColumn(cols[c], lowEntropy);
    }
    forall j | j in KeyColumns(rows, lowEntropy) ensures j in collected {
      var c :| 0 <= c < |cols| && IsKeyColumn(cols[c], lowEntropy) && j == c + 1;
    }
  }

  /** The loop of `low_ent_cols` over the columns. */
  method CollectKeyColumns(alnCols: seq<seq<char>>, lowEntropy: string -> bool) returns (lowEntCols: seq<nat>)
    ensures lowEntCols == KeyColumnsUpTo(alnCols, |alnCols|, lowEntropy)
  {
    lowEntCols := [];
    var k := 0;
    while k < |alnCols|
      invariant 0 <= k <= |alnCols|
      invariant lowEntCols == KeyColumnsUpTo(alnCols, k, lowEntropy)
    {
      var alnCol := alnCols[k];
      var hasGaps := exists i :: 0 <= i < |alnCol| && alnCol[i] == '-';
      var lowEnt := lowEntropy(UpcaseStr(alnCol));
      if !hasGaps && lowEnt {
        lowEntCols := lowEntCols + [k + 1];
      }
      k := k + 1;
    }
  }

  /** `low_ent_cols(leaves, leaf2attrs, entropy_cutoff)`: reads the aligned
      rows of the known leaves, transposes them and collects the 1-based
      indices of the gap-free low-entropy columns. A known leaf without an
      alignment aborts, and so do rows of different lengths. */
  method LowEntCols(leaves: seq<Taxon>, leaf2attrs: Attrs<seq<char>>, lowEntropy: string -> bool)
    returns (r: Result<set<nat>>)
    ensures leaf2attrs.AttrsOf(leaves, Aln).Err? ==> r == Err(MissingAttribute)
    ensures leaf2attrs.AttrsOf(leaves, Aln).Ok? && !SameLength(leaf2attrs.AttrsOf(leaves, Aln).value) ==>
              r == Err(LengthMismatch)
    ensures leaf2attrs.AttrsOf(leaves, Aln).Ok? && SameLength(leaf2attrs.AttrsOf(leaves, Aln).value) ==> r.Ok?
    ensures r.Ok? ==> var rows := leaf2attrs.AttrsOf(leaves, Aln).value;
              SameLength(rows) && r.value == KeyColumns(rows, lowEntropy)
    ensures r.Ok? ==> forall j :: j in r.value ==>
              1 <= j <= Width(leaf2attrs.AttrsOf(leaves, Aln).value)
  {
    var alns := leaf2attrs.AttrsOf(leaves, Aln);
    if alns.Err? {
      return Err(MissingAttribute);
    }
    var rows := alns.value;
    if !SameLength(rows) {
      return Err(LengthMismatch);
    }
    var alnCols := Transpose(rows);
    var lowEntCols := CollectKeyColumns(alnCols, lowEntropy);
    var found := set j | j in lowEntCols;
    KeyColumnsCollected(rows, lowEntropy);
    KeyColumnsUpToMembers(alnCols, |alnCols|, lowEntropy);
    r := Ok(found);
  }

  /** No leaves select no rows, and no rows have no columns. */
  lemma NoLeavesNoColumns(leaf2attrs: Attrs<seq<char>>, lowEntropy: string -> bool)
    ensures leaf2attrs.AttrsOf([], Aln) == Ok([])
    ensures KeyColumns([], lowEntropy) == {}
  {
    assert |leaf2attrs.Known([])| == 0;
  }

  /** Entropy zero: every character of the column is the same. */
  predicate Uniform(s: string) {
    forall i, j :: 0 <= i < |s| && 0 <= j < |s| ==> s[i] == s[j]
  }

  /** At cutoff zero, `CCCC` and `cccT` agree in their first three columns
      once upper-cased. */
  lemma KeyColumnsCutoffZeroExample()
    ensures SameLength(["CCCC", "cccT"])
    ensures KeyColumns(["CCCC", "cccT"], Uniform) == {1, 2, 3}
  {
    var rows := ["CCCC", "cccT"];
    var cols := Transpose(rows);
    assert cols[0] == "Cc" && cols[1] == "Cc" && cols[2] == "Cc" && cols[3] == "CT";
    assert UpcaseStr("Cc") == "CC";
    assert IsKeyColumn(cols[0], Uniform) && IsKeyColumn(cols[1], Uniform) && IsKeyColumn(cols[2], Uniform);
    assert UpcaseStr("CT")[0] != UpcaseStr("CT")[1];
    assert !IsKeyColumn(cols[3], Uniform);
    var kc := KeyColumns(rows, Uniform);
    assert 1 in kc && 2 in kc && 3 in kc;
    forall x | x in kc ensures x in {1, 2, 3} {
      var k :| 0 <= k < |cols| && IsKeyColumn(cols[k], Uniform) && x == k + 1;
    }
  }

  /** A column with a gap is dropped whatever its entropy: for `A-T` and
      `aac`, with any cutoff at which `AA` and `TC` count as low entropy. */
  lemma KeyColumnsGapExample(lowEntropy: string -> bool)
    requires lowEntropy("AA") && lowEntropy("TC")
    ensures SameLength(["A-T", "aac"])
    ensures KeyColumns(["A-T", "aac"], lowEntropy) == {1, 3}
  {
    var rows := ["A-T", "aac"];
    var cols := Transpose(rows);
    assert cols[0] == "Aa" && cols[1] == "-a" && cols[2] == "Tc";
    assert UpcaseStr("Aa") == "AA" && UpcaseStr("Tc") == "TC";
    assert IsKeyColumn(cols[0], lowEntropy) && IsKeyColumn(cols[2], lowEntropy);
    assert HasGap(cols[1]);
    var kc := KeyColumns(rows, lowEntropy);
    assert 1 in kc && 3 in kc;
    forall x | x in kc ensures x in {1, 3} {
      var k :| 0 <= k < |cols| && IsKeyColumn(cols[k], lowEntropy) && x == k + 1;
    }
  }

  // all_clades

  function Reverse<T>(s: seq<T>): (r: seq<T>)
    ensures |r| == |s|
    ensures forall i :: 0 <= i < |s| ==> r[i] == s[|s| - 1 - i]
  {
    seq(|s|, i requires 0 <= i < |s| => s[|s| - 1 - i])
  }

  /** Reversing twice gives the sequence back. */
  lemma ReverseTwice<T>(s: seq<T>)
    ensures Reverse(Reverse(s)) == s
  {
    var r := Reverse(Reverse(s));
    forall i | 0 <= i < |s| ensures r[i] == s[i] {
      assert r[i] == Reverse(s)[|s| - 1 - i];
    }
  }

  /** Reversing keeps every element with its multiplicity. */
  lemma {:induction false} ReversePermutes<T>(s: seq<T>)
    ensures multiset(Reverse(s)) == multiset(s)
    decreases |s|
  {
    if s != [] {
      var tail := s[1..];
      ReversePermutes(tail);
      assert Reverse(s) == Reverse(tail) + [s[0]];
      assert s == [s[0]] + tail;
    }
  }

  /** The clades of the nodes `paths` of `tree`, in order; a leaf without a
      tag in some category aborts. */
  function BuildClades(tree: Tree, paths: seq<Path>, metadata: Option<Metadata>): (r: Result<seq<Clade>>)
    requires forall p :: p in paths ==> ValidPath(tree, p) && p != []
    ensures r.Ok? <==> forall p :: p in paths ==> NewClade(tree, p, tree, metadata).Ok?
    ensures r.Err? ==> r.error == MissingTag
    ensures r.Ok? ==> |r.value| == |paths|
    ensures r.Ok? ==> forall i :: 0 <= i < |paths| ==> r.value[i] == NewClade(tree, paths[i], tree, metadata).value
  {
    if forall p :: p in paths ==> NewClade(tree, p, tree, metadata).Ok? then
      Ok(seq(|paths|, i requires 0 <= i < |paths| => NewClade(tree, paths[i], tree, metadata).value))
    else
      Err(MissingTag)
  }

  /** The non-root internal nodes, deepest first: `clade_nodes.reverse`. */
  function CladeOrder(tree: Tree): (r: seq<Path>)
    ensures forall p :: p in r <==> p != [] && ValidPath(tree, p) && !IsLeaf(At(tree, p))
  {
    var ip := InternalPaths(tree);
    var r := Reverse(ip);
    assert forall p :: p in ip ==> p in r by {
      forall p | p in ip ensures p in r {
        var k :| 0 <= k < |ip| && ip[k] == p;
        assert r[|ip| - 1 - k] == p;
      }
    }
    r
  }

  /** Reversing a distinct sequence in which ancestors come first puts
      every path before its ancestors. */
  lemma ReverseAncestorsLast(ps: seq<Path>)
    requires Distinct(ps)
    requires forall a, b :: (0 <= a < |ps| && 0 <= b < |ps| && IsProperPrefix(ps[a], ps[b])) ==> a < b
    ensures Distinct(Reverse(ps))
    ensures forall a, b ::
              (0 <= a < |ps| && 0 <= b < |ps| && IsProperPrefix(Reverse(ps)[a], Reverse(ps)[b])) ==> b < a
  {
    var ns := Reverse(ps);
    var n := |ps|;
    forall a, b | 0 <= a < n && 0 <= b < n && IsProperPrefix(ns[a], ns[b]) ensures b < a {
      var i, j := n - 1 - a, n - 1 - b;
      assert ns[a] == ps[i] && ns[b] == ps[j];
      assert i < j;
    }
    forall a, b | 0 <= a < b < n ensures ns[a] != ns[b] {
      assert ns[a] == ps[n - 1 - a] && ns[b] == ps[n - 1 - b];
    }
  }

  /** In the reversed pre-order every node comes before its ancestors, and
      no node occurs twice. */
  lemma CladeOrderDescendantsFirst(tree: Tree)
    ensures Distinct(CladeOrder(tree))
    ensures forall a, b ::
              (0 <= a < |CladeOrder(tree)| && 0 <= b < |CladeOrder(tree)| &&
               IsProperPrefix(CladeOrder(tree)[a], CladeOrder(tree)[b])) ==> b < a
  {
    var ip := InternalPaths(tree);
    assert CladeOrder(tree) == Reverse(ip);
    InternalPathsPreOrder(tree);
    ReverseAncestorsLast(ip);
  }

  /** The clade nodes come in decreasing lexicographic order of their paths:
      the reverse of pre-order, so a later child's subtree comes first. */
  lemma CladeOrderLexDescending(tree: Tree)
    ensures forall a, b :: 0 <= a < b < |CladeOrder(tree)| ==> LexLess(CladeOrder(tree)[b], CladeOrder(tree)[a])
  {
    var ip := InternalPaths(tree);
    var r := CladeOrder(tree);
    assert r == Reverse(ip);
    InternalPathsLexSorted(tree);
    forall a, b | 0 <= a < b < |r| ensures LexLess(r[b], r[a]) {
      assert r[a] == ip[|ip| - 1 - a] && r[b] == ip[|ip| - 1 - b];
    }
  }

  /** `all_clades(tree, metadata)`: one clade per non-root internal node,
      deepest nodes first; a leaf without a tag in some category aborts. */
  function AllClades(tree: Tree, metadata: Option<Metadata>): (r: Result<seq<Clade>>)
    ensures r.Ok? <==> forall p :: p in CladeOrder(tree) ==> NewClade(tree, p, tree, metadata).Ok?
    ensures r.Err? ==> r.error == MissingTag
    ensures metadata.None? ==> r.Ok?
    ensures r.Ok? ==> |r.value| == |CladeOrder(tree)|
    ensures r.Ok? ==> forall i :: 0 <= i < |r.value| ==> r.value[i].node == CladeOrder(tree)[i]
    ensures r.Ok? ==> forall i :: 0 <= i < |r.value| ==>
              r.value[i] == NewClade(tree, CladeOrder(tree)[i], tree, metadata).value
  {
    BuildClades(tree, CladeOrder(tree), metadata)
  }

  /** Every clade comes before the clades of its ancestors; the clades are
      those of distinct nodes. */
  lemma AllCladesDescendantsFirst(tree: Tree, metadata: Option<Metadata>)
    requires AllClades(tree, metadata).Ok?
    ensures var cs := AllClades(tree, metadata).value;
            forall a, b :: 0 <= a < |cs| && 0 <= b < |cs| && IsProperPrefix(cs[a].node, cs[b].node) ==> b < a
    ensures var cs := AllClades(tree, metadata).value;
            forall a, b :: 0 <= a < b < |cs| ==> cs[a].node != cs[b].node
  {
    CladeOrderDescendantsFirst(tree);
  }
}
