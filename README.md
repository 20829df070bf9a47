# tree_clusters in Dafny

This is a model of the analysis core of `tree_clusters`, a Ruby gem that finds
clades in a phylogenetic tree. A clade here is the set of leaves below one
non-root internal node. For each clade the gem works out:

- the leaf-set decomposition around that node: its own leaves, left and right
  leaves, sibling leaves, parent leaves, other leaves and non-parent leaves;
- per metadata category, the tags its leaves carry and, when there is exactly
  one, that single tag;
- the columns of a multiple alignment in which the clade's sequences are
  gap-free and of low entropy ("key columns");
- the consensus of a column.

`snazzy_clades` picks, per metadata category, the clades whose leaves all
carry one tag that no other taxon carries. It visits the clades largest first
and skips a clade once all its leaves are covered.

The model is split into modules that follow the gem's files:

| module | file | models |
|---|---|---|
| `Wrappers` | `wrappers.dfy` | `Option`, `Result` and the conditions on which the gem aborts |
| `Seqs` | `seqs.dfy` | Ruby's `flatten`, `uniq` and `sort_by(...).reverse` on arrays |
| `Newick` | `newick.dfy` | the tree: nodes addressed by paths, `descendants` in pre-order, `descendant_leaves`, `unquote`, `unquoted_taxa`, `clade_nodes` |
| `Clades` | `clade.dfy` | `Clade.new`, `get_all_tags`, `get_single_tag_info`, `==` |
| `Attributes` | `attrs.dfy` | the `Attrs` hash table: `attrs` and `add` |
| `AttrArrays` | `attr_array.dfy` | `AttrArray#union` and `#intersection` |
| `TreeClusters` | `tree_clusters.dfy` | `consensus`, `low_ent_cols`, `all_clades` |
| `Snazzy` | `snazzy.dfy` | `snazzy_clades` |

How the Ruby code maps onto the model:

- A node is identified by its path of child indices from the root.
- A `Clade` value carries the path of its node. A Ruby hash keyed by clades
  uses `eql?`, which is overridden, and `hash`, which is not. Two clade
  objects are therefore distinct keys, and in the model two clades of
  distinct nodes are distinct values.
- The gem's `==` is the separate predicate `Clades.SameClade`.
- Every `assert`/`abort_unless` of the gem becomes an `Err` result with one of
  the kinds in `Wrappers.Error`.
- Loops that accumulate state are methods with loop invariants:
  - `clade_nodes`
  - the column loop of `low_ent_cols`
  - the pass over the clades in `snazzy_clades` (`Snazzy.SingleTagClades`)

  Each of these is proved equal to a recursive specification function,
  and the properties are proved about that function.
- The other two loops of `snazzy_clades`, the one over the categories and the
  merge of each category's clades into the final hash (`Snazzy.MergeCategories`,
  `Snazzy.MergeCategory`), are methods too, but they are not proved equal to a
  recursive function. They are proved against the non-recursive predicate
  `Snazzy.IsTranspose`, which relates the merged hash to the per-category
  results entry by entry, and the lemmas about the merged result are
  stated through that predicate.
- `Attrs`, whose `add` updates the table in place, is a class.

## Model

| member | source | states |
|---|---|---|
| Newick.Unquote | lib/tree_clusters/clade.rb:126-128 | the result keeps exactly the non-quote characters of the label, is never longer, and a label without quotes is returned unchanged; a single quote character becomes empty and any other single character stays |
| Newick.UnquoteAppend | lib/tree_clusters/clade.rb:126-128 | unquoting distributes over concatenation; with the one-character case this fixes the result: each character is kept in place unless it is a quote |
| Newick.DescendantPaths | lib/tree_clusters/clade.rb:117-118 | every node enumerated as a descendant is a valid non-root node of the subtree |
| Newick.DescendantPathsPreOrder | lib/tree_clusters/clade.rb:117-118 | descendants come in pre-order: every ancestor of a node is listed before it |
| Newick.DescendantPathsLexSorted | lib/tree_clusters/clade.rb:117-118 | the descendants come in strictly increasing lexicographic order of their paths: a node before the nodes below it, and a child's subtree before the next child's |
| Newick.LexLessIrreflexive | lib/tree_clusters/clade.rb:117-118 | no path comes before itself, so a lexicographically sorted enumeration lists each node once |
| Newick.DescendantPathsDistinct | lib/tree_clusters/clade.rb:117-120 | no node is listed twice, so `uniq` over the nodes removes nothing |
| Newick.DescendantPathsComplete | lib/tree_clusters/clade.rb:117-118 | every node below the subtree's root is listed |
| Newick.DescendantLeavesSplit | lib/tree_clusters/clade.rb:113-124 | the leaves of an internal node are its children's leaves, child after child, in order |
| Newick.SubtreeLeavesWithin | lib/tree_clusters/clade.rb:113-124 | every leaf name below a node is a leaf name below each of its ancestors |
| Newick.DescendantLeavesAreLeafNames | lib/tree_clusters/clade.rb:113-124 | a name is among a node's descendant leaves exactly when it is the unquoted name of some leaf node below it (or of the node itself when it is a leaf) |
| Newick.LeafNamesAlongMembers | lib/tree_clusters/clade.rb:121-122 | selecting the leaves among listed nodes and unquoting their names yields exactly the unquoted names of the listed leaves |
| Newick.ChildLeavesDisjoint | lib/tree_clusters/clade.rb:113-124 | when the leaves below children `i`, `i + 1`, ... have no repeats, each of those children has distinct leaves and two different children share no leaf |
| Newick.ChildrenLeavesDisjoint | lib/tree_clusters/clade.rb:29-44 | with unique taxa, every child of a node has unique leaves and the leaf sets of two children (left and right, or two siblings) are disjoint |
| Newick.UnquotedTaxa | lib/tree_clusters.rb:29-31 | the unquoted taxa are exactly the unquoted leaf names of the root, in order |
| Newick.UnquotedTaxaAreLeaves | lib/tree_clusters.rb:29-31 | unquoting the stored leaf labels one by one gives the root's descendant leaves |
| Newick.FilterInternal | lib/tree_clusters.rb:23-25 | a node is kept exactly when it is listed and has children |
| Newick.InternalPaths | lib/tree_clusters.rb:21-27 | the collected nodes are exactly the non-root nodes with children |
| Newick.InternalPathsPreOrder | lib/tree_clusters.rb:21-27 | the internal nodes are distinct and every ancestor precedes its descendants |
| Newick.FilterInternalLexSorted | lib/tree_clusters.rb:21-27 | keeping the nodes with children preserves the lexicographic order |
| Newick.InternalPathsLexSorted | lib/tree_clusters.rb:21-27 | the clade nodes are in increasing lexicographic order of their paths |
| Newick.CladeNodes | lib/tree_clusters.rb:21-27 | the loop over the descendants collects exactly the internal non-root nodes in pre-order |
| Seqs.Flatten | lib/tree_clusters/clade.rb:44 | an element is in the flattened array exactly when it is in one of the member arrays; no arrays flatten to the empty array and one array to itself |
| Seqs.FlattenAppend | lib/tree_clusters/clade.rb:44 | flattening distributes over concatenation, so together with the one-array case the result is the member arrays joined in order |
| Seqs.Dedup | lib/tree_clusters/clade.rb:44 | `uniq` keeps the same elements with no repeats, is never longer, keeps the first element first, and lists the elements in the order of their first occurrence in the input |
| Seqs.SortDescending | lib/tree_clusters.rb:147-150 | the result is ordered by non-increasing key and is a permutation of the input |
| Clades.Sole | lib/tree_clusters/clade.rb:94 | the element taken from a one-element set is its only element |
| Clades.TagsOf | lib/tree_clusters/clade.rb:101-109 | aborts exactly when some leaf lacks a tag; otherwise the set holds every leaf's tag and nothing else |
| Clades.GetAllTags | lib/tree_clusters/clade.rb:98-111 | one entry per category, holding exactly the tags of the leaves; aborts exactly when some leaf is untagged in some category |
| Clades.GetSingleTagInfo | lib/tree_clusters/clade.rb:92-96 | per category, the tag when exactly one tag was seen and nil otherwise |
| Clades.Siblings | lib/tree_clusters/clade.rb:37 | a non-root node has one sibling fewer than its parent has children, and they are the parent's other children in their order, skipping the node itself; the root has none |
| Clades.CladeFields | lib/tree_clusters/clade.rb:23-55 | the clade keeps its node, its unquoted name and the node's descendant leaves, has no tags yet; the parent leaves are the parent node's descendant leaves, and each sibling leaf set is the descendant leaves of the matching sibling, in order |
| Clades.WithTags | lib/tree_clusters/clade.rb:57-63 | without metadata the clade is unchanged; with metadata it aborts exactly when a leaf is untagged, and only the two tag fields change |
| Clades.NewClade | lib/tree_clusters/clade.rb:22-64 | the root has no parent and aborts; otherwise the clade is built, failing only for an untagged leaf, keeps its node's name, and its leaves are the node's descendant leaves |
| Clades.CladeLeafAlgebra | lib/tree_clusters/clade.rb:49-55 | the other leaves partition the taxa with the clade's leaves; the clade's leaves lie within the parent's, and those within the taxa; the non-parent leaves are the taxa outside the parent and lie within the other leaves |
| Clades.LeavesWithinParent | lib/tree_clusters/clade.rb:46-49 | a node's leaves lie among its parent's leaves, which lie among the tree's leaves |
| Clades.CladeBifurcation | lib/tree_clusters/clade.rb:29-35 | left and right leaves are set exactly for a node with two children; they are those children's leaves and together form the clade's leaves |
| Clades.CladeSiblingLeaves | lib/tree_clusters/clade.rb:37-44 | one leaf array per sibling, each the descendant leaves of that sibling in order; the sibling leaves are their flattened union without repeats; the parent leaves are those of the parent node |
| Clades.CladeWithoutMetadata | lib/tree_clusters/clade.rb:57-63 | without metadata a clade has neither tags nor single-tag info |
| Clades.CladeAllTags | lib/tree_clusters/clade.rb:57-60 | with metadata the clade's tags per category are exactly the tags of its leaves |
| Clades.CladeSingleTagInfo | lib/tree_clusters/clade.rb:57-60 | with metadata, per category, the single-tag info is a tag exactly when the leaves' tag set is that one tag |
| Clades.SameCladeDeterminesNonParentLeaves | lib/tree_clusters/clade.rb:70-83 | clades equal under `==` also agree on the non-parent leaves, which `==` does not compare |
| Clades.SameClade | lib/tree_clusters/clade.rb:70-83 | two clades are `==` exactly when they agree on every field except the originating node and the non-parent leaves; the relation is symmetric |
| Attributes.Attrs.constructor | lib/tree_clusters/attrs.rb:3 | a new table is empty |
| Attributes.Attrs.Known | lib/tree_clusters/attrs.rb:24-34 | the leaves the table knows: an element is kept exactly when the table knows it; all of them when every leaf is known, none when none is, and a single leaf is kept exactly when known |
| Attributes.Attrs.KnownAppend | lib/tree_clusters/attrs.rb:24-34 | selecting known leaves distributes over concatenation, so with the one-leaf case the known leaves keep the input's order and multiplicity |
| Attributes.Attrs.AttrsOf | lib/tree_clusters/attrs.rb:23-37 | aborts exactly when a known leaf lacks the attribute; otherwise returns one value per known leaf, in the input's order, each that leaf's stored value |
| Attributes.Attrs.Add | lib/tree_clusters/attrs.rb:39-45 | the leaf's entry gains or replaces the attribute, a new entry is created for an unknown leaf, nothing else changes, and reading the attribute back gives the value |
| Attributes.AttrsOfNoneKnown | lib/tree_clusters/attrs.rb:8-11 | when no leaf is known the result is empty and nothing aborts |
| Attributes.AttrsOfExamples | spec/tree_clusters/attr_spec.rb:29-77 | two genomes give their two gene sets; an unknown genome is skipped; a missing attribute aborts |
| AttrArrays.Union | lib/tree_clusters/attr_array.rb:7-9 | nil exactly for an empty array; otherwise a set that contains every member and only elements of some member |
| AttrArrays.Intersection | lib/tree_clusters/attr_array.rb:14-16 | nil exactly for an empty array; otherwise a set within every member that holds every element common to all of them |
| AttrArrays.IntersectionWithinUnion | lib/tree_clusters/attr_array.rb:7-16 | for a non-empty array the intersection lies within the union |
| AttrArrays.UnionIntersectionExample | spec/tree_clusters/attr_array_spec.rb:8-21 | `{1,2,3}` and `{2,3,4}` have union `{1,2,3,4}` and intersection `{2,3}` |
| TreeClusters.UpcaseStr | lib/tree_clusters.rb:51 | upcasing keeps the length, leaves no lower-case letter, and keeps every character that is not a lower-case letter |
| TreeClusters.UpcaseStrIdempotent | lib/tree_clusters.rb:51 | upcasing an upcased string changes nothing |
| TreeClusters.LastMostFrequent | lib/tree_clusters.rb:52-56 | the chosen group has the greatest count, and every later group has a strictly smaller count |
| TreeClusters.Consensus | lib/tree_clusters.rb:49-57 | nil exactly for no bases; otherwise one of the upcased bases, and no upcased base occurs more often |
| TreeClusters.ConsensusPlurality | lib/tree_clusters.rb:49-57 | an upcased base that occurs strictly more often than every other upcased base is the consensus |
| TreeClusters.ConsensusCaseExample | spec/tree_clusters_spec.rb:213-217 | `a A a A t t C C` gives `A` |
| TreeClusters.ConsensusMostFrequentExample | spec/tree_clusters_spec.rb:219-225 | `a c T t C t g` gives `T` |
| TreeClusters.Transpose | lib/tree_clusters.rb:77 | equally long rows give one column per position, each holding that position of every row |
| TreeClusters.TransposeTwice | lib/tree_clusters.rb:77 | transposing equally long non-empty rows gives equally long columns, and transposing those gives back the rows |
| TreeClusters.KeyColumnsUpToMembers | lib/tree_clusters.rb:79-87 | after `n` columns, column `c` has been collected exactly when it is gap-free and of low entropy, and only columns 1 to `n` are collected |
| TreeClusters.KeyColumnsCollected | lib/tree_clusters.rb:79-89 | collecting over all columns yields exactly the key columns |
| TreeClusters.CollectKeyColumns | lib/tree_clusters.rb:79-87 | the loop collects the 1-based indices of the key columns in increasing order |
| TreeClusters.LowEntCols | lib/tree_clusters.rb:74-90 | aborts for a known leaf without an alignment and for rows of different lengths, succeeds otherwise, and returns exactly the 1-based indices of the gap-free low-entropy columns |
| TreeClusters.NoLeavesNoColumns | lib/tree_clusters.rb:74-89 | no leaves select no rows, and no rows have no key columns |
| TreeClusters.KeyColumnsCutoffZeroExample | spec/tree_clusters_spec.rb:300-307 | at entropy cutoff 0 the rows `CCCC` and `cccT` give columns 1, 2 and 3 |
| TreeClusters.KeyColumnsGapExample | spec/tree_clusters_spec.rb:309-319 | the rows `A-T` and `aac` give columns 1 and 3: the gapped column is dropped whatever its entropy |
| TreeClusters.Reverse | lib/tree_clusters.rb:139 | the result has the same length, with position `i` holding the element `i` places from the end |
| TreeClusters.ReverseTwice | lib/tree_clusters.rb:139 | reversing twice gives back the input |
| TreeClusters.ReversePermutes | lib/tree_clusters.rb:139 | the reversed array holds the same elements with the same multiplicities |
| TreeClusters.BuildClades | lib/tree_clusters.rb:139-141 | one clade per node, in order; aborts exactly when one of them aborts |
| TreeClusters.CladeOrder | lib/tree_clusters.rb:139 | the reversed clade nodes are exactly the non-root internal nodes |
| TreeClusters.ReverseAncestorsLast | lib/tree_clusters.rb:139 | reversing a distinct ancestors-first order puts every node before its ancestors |
| TreeClusters.CladeOrderDescendantsFirst | lib/tree_clusters.rb:139 | in the reversed order nodes are distinct and every node comes before its ancestors |
| TreeClusters.CladeOrderLexDescending | lib/tree_clusters.rb:139 | the reversed clade nodes are in strictly decreasing lexicographic order of their paths |
| TreeClusters.AllClades | lib/tree_clusters.rb:136-142 | one clade per non-root internal node, deepest first, the clade at position `i` being `Clade.new` of the `i`-th reversed clade node; never aborts without metadata, and with metadata aborts exactly when some clade has an untagged leaf |
| TreeClusters.AllCladesDescendantsFirst | lib/tree_clusters.rb:136-142 | every clade precedes its ancestors' clades, and no node yields two clades |
| Snazzy.Step | lib/tree_clusters.rb:156-181 | a clade with fewer than two leaves aborts; a covered clade changes nothing; an uncovered, fully tagged single-tag clade not yet recorded is recorded with its tag and all its leaves become covered; an uncovered clade with an untagged leaf aborts, and an uncovered single-tag clade already recorded aborts as repeated; an uncovered clade with several tags changes nothing; a newly recorded clade carries its tag on every leaf; nothing recorded or covered is lost |
| Snazzy.Pass | lib/tree_clusters.rb:156-182 | every clade recorded by the pass is one of the visited clades, all of whose leaves carry its tag; every single-tag clade ends up covered |
| Snazzy.PassAppend | lib/tree_clusters.rb:156-182 | a pass over two runs of clades is the pass over the first run continued with the second, an abort in the first run ending it |
| Snazzy.PassRecords | lib/tree_clusters.rb:156-182 | a clade that is single-tag and not yet covered when the pass reaches it is recorded by the pass, with its leaves' tag |
| Snazzy.PassRecordedUncovered | lib/tree_clusters.rb:156-182 | a clade the pass records is one of the visited clades, reached when some of its leaves were still uncovered, with all its leaves tagged with one tag |
| Snazzy.PassNoDuplicate | lib/tree_clusters.rb:176-177 | over clades of distinct nodes the repeated-clade assertion never fires |
| Snazzy.SingleTagClades | lib/tree_clusters.rb:153-182 | the loop records exactly the clades of the pass and aborts exactly when the pass does, with the same condition |
| Snazzy.CategoryClades | lib/tree_clusters.rb:184-198 | aborts exactly when the pass does; every clade kept for the category is recorded by the pass, and all its leaves carry its tag and no other taxon does; conversely every recorded clade whose tag no other taxon carries is kept with that tag |
| Snazzy.CategoryCladesKeeps | lib/tree_clusters.rb:156-198 | a clade that is single-tag and uncovered when the pass reaches it, and whose tag no taxon outside it carries, is kept for the category with that tag |
| Snazzy.Exclusive | lib/tree_clusters.rb:184-191 | the recorded clades are kept exactly when no taxon outside them carries their tag, and keep their recorded tag |
| Snazzy.TransposeAddCategory | lib/tree_clusters.rb:152-154 | starting a category with no clades leaves the result unchanged |
| Snazzy.TransposePut | lib/tree_clusters.rb:192-196 | setting `snazzy[clade][category]`, or creating the inner hash, records exactly that one entry |
| Snazzy.Put | lib/tree_clusters.rb:192-196 | the clade gains the category with the tag; no clade other than this one is added or changed, and the clade's other categories are kept |
| Snazzy.TransposeUnique | lib/tree_clusters.rb:152-198 | the merged result is determined by the per-category results, whatever order the categories are visited in |
| Snazzy.RankedClades | lib/tree_clusters.rb:147-150 | the clades of the tree in order of non-increasing leaf count, a permutation of `all_clades` |
| Snazzy.RankedCladesOfTree | lib/tree_clusters.rb:147-150 | a clade is ranked exactly when `all_clades` yields it |
| Snazzy.RankedCladesNoDuplicate | lib/tree_clusters.rb:176-177 | with the clades of one tree the repeated-clade assertion never fires |
| Snazzy.MergeCategory | lib/tree_clusters.rb:184-198 | merging one category adds exactly its exclusive clades with their tags |
| Snazzy.MergeCategories | lib/tree_clusters.rb:152-199 | aborts exactly when some category's pass aborts; otherwise each clade maps to exactly the categories that keep it, with their tags |
| Snazzy.SnazzyClades | lib/tree_clusters.rb:144-202 | an untagged leaf aborts while building the clades; otherwise the result is the merge of the categories' results over the ranked clades and the tree's taxa |
| Snazzy.SnazzyEntriesSound | lib/tree_clusters.rb:184-198 | every entry names a category and one of the clades, all its leaves carry the entry's tag, and no other taxon of the tree carries it |
| Snazzy.SnazzyEntriesComplete | lib/tree_clusters.rb:152-198 | every clade a category keeps appears in the result under that category, with its tag |

## Left out

- Reading files is not modelled: alignments (`read_alignment`), mapping files (`read_mapping_file`) and the ID cross-check `check_ids`. The model starts from the tree, the attribute table and the metadata as values.
- Newick parsing and the `NewickTree`/`NewickNode` library are not part of this model. The tree is a value with ordered children. `descendants`, `siblings`, `parent` and `taxa` are defined on it: taxa are the leaf labels in pre-order, and the root has no siblings and no parent.
- Shannon entropy is not modelled. `lowEntropy(s)` is a parameter that stands for `Shannon::entropy(s) <= entropy_cutoff`, because the entropy is a floating-point computation.
- Diagnostic messages and logging of `AbortIf` are left out. An abort is an `Err` carrying only its kind.
- TreeClusters.Consensus: the source fails on an empty array by calling `first` on nil. The model returns `None`, which stands for that failure.
- TreeClusters.Consensus: Ruby's `sort_by` is not stable, so among equally frequent strings the source's choice is unspecified. The contract promises only a most frequent string, which is weaker than a fixed choice. The body picks the last such string in first-appearance order, which is the choice a stable ascending sort followed by `reverse` would make.
- Snazzy.RankedClades: the order among clades with equal leaf counts is unspecified in the source for the same reason. The contract states only the descending order and the permutation. Because unary nodes can give clades of one size over the same leaves, the source's result may depend on that order.
- Snazzy.MergeCategories: categories are visited in an arbitrary order, not in hash insertion order. When several categories abort, which abort is reported is not pinned down.
- Snazzy.MergeCategory: the iteration order of the returned hash is not modelled. Ruby's hash keeps insertion order, which inside a category is the order of the ranked clades. The model's result is a `map`, and each category's clades are merged in an arbitrary order.
- TreeClusters.UpcaseStr: only ASCII letters are upcased.
- Attributes.Attrs.AttrsOf: `compact` also drops stored nil values, but the model's table cannot hold nil.
- Attributes.Attrs.Add: the inner hash is updated in place in the source and may be shared with other holders. The model's inner maps are values, so that aliasing is not captured.
- `all_clades` returns an enumerator when no block is given. The model returns the whole sequence of clades.
- Clade's `@metadata` instance variable is not kept on the clade. `==` does not read it.
- The Ruby `hash` of a clade, that is object identity, is modelled by the clade's originating node.
- Unique taxa: the gem assumes leaf names are unique but never checks it, and neither does the model. The predicate `Newick.UniqueLeaves` states the assumption, and `Newick.ChildrenLeavesDisjoint` takes it as a precondition.
