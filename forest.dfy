/** Building the forest of tree items from the flat list of catalog records
    (`BuildForest`, `BuildTree` and `BuildTreeNode` in GraphTable.tsx). */
module ForestBuilder {
  import opened Wrappers
  import opened Sequences
  import opened Catalogs

  /** A record is a root when its parent name is empty or undefined. */
  predicate IsRoot(c: Catalog) {
    c.parentName == None || c.parentName == Some("")
  }

  /** `c` is a child of an item named `name`: its parent name is exactly
      `name` (an undefined parent name equals no string). */
  predicate IsChildOf(c: Catalog, name: string) {
    c.parentName == Some(name)
  }

  /** The records the builder terminates on: names are non-empty and no two
      records share a name. */
  predicate WellFormed(cs: seq<Catalog>) {
    && (forall i :: 0 <= i < |cs| ==> cs[i].name != "")
    && (forall i, j :: 0 <= i < j < |cs| ==> cs[i].name != cs[j].name)
  }

  /** The root records in input order (reference definition). */
  function RootRecords(cs: seq<Catalog>): (r: seq<Catalog>) {
    if cs == [] then []
    else (if IsRoot(cs[0]) then [cs[0]] else []) + RootRecords(cs[1..])
  }

  /** The root records are exactly the records that are roots, and they keep
      their input order. */
  lemma {:induction false} RootRecordsSpec(cs: seq<Catalog>)
    ensures forall c :: c in RootRecords(cs) <==> c in cs && IsRoot(c)
    ensures IsSubsequence(RootRecords(cs), cs)
  {
    if cs != [] {
      var rest := RootRecords(cs[1..]);
      RootRecordsSpec(cs[1..]);
      assert cs == [cs[0]] + cs[1..];
      assert forall c :: c in cs <==> c == cs[0] || c in cs[1..];
      if IsRoot(cs[0]) {
        assert RootRecords(cs) == [cs[0]] + rest;
        assert ([cs[0]] + rest)[1..] == rest;
      } else {
        assert RootRecords(cs) == rest;
        SubsequenceOfCons(cs[0], rest, cs[1..]);
      }
    }
  }

  /** The records whose parent is named `name`, in input order (reference
      definition). */
  function ChildRecords(cs: seq<Catalog>, name: string): (r: seq<Catalog>) {
    if cs == [] then []
    else (if IsChildOf(cs[0], name) then [cs[0]] else []) + ChildRecords(cs[1..], name)
  }

  /** The child records of `name` are exactly the records whose parent name
      is `name`, and they keep their input order. */
  lemma {:induction false} ChildRecordsSpec(cs: seq<Catalog>, name: string)
    ensures forall c :: c in ChildRecords(cs, name) <==> c in cs && IsChildOf(c, name)
    ensures IsSubsequence(ChildRecords(cs, name), cs)
  {
    if cs != [] {
      var rest := ChildRecords(cs[1..], name);
      ChildRecordsSpec(cs[1..], name);
      assert cs == [cs[0]] + cs[1..];
      assert forall c :: c in cs <==> c == cs[0] || c in cs[1..];
      if IsChildOf(cs[0], name) {
        assert ChildRecords(cs, name) == [cs[0]] + rest;
        assert ([cs[0]] + rest)[1..] == rest;
      } else {
        assert ChildRecords(cs, name) == rest;
        SubsequenceOfCons(cs[0], rest, cs[1..]);
      }
    }
  }

  /** `RootRecords` of a suffix, one record at a time. */
  lemma RootRecordsStep(cs: seq<Catalog>, i: nat)
    requires i < |cs|
    ensures RootRecords(cs[i..]) == (if IsRoot(cs[i]) then [cs[i]] else []) + RootRecords(cs[i + 1..])
  {
    assert cs[i..][1..] == cs[i + 1..];
  }

  /** `ChildRecords` of a suffix, one record at a time. */
  lemma ChildRecordsStep(cs: seq<Catalog>, i: nat, name: string)
    requires i < |cs|
    ensures ChildRecords(cs[i..], name)
         == (if IsChildOf(cs[i], name) then [cs[i]] else []) + ChildRecords(cs[i + 1..], name)
  {
    assert cs[i..][1..] == cs[i + 1..];
  }

  /** The ancestors of the item being built, root first and the item itself
      last: a chain of distinct records of `cs`, linked by parent names. */
  ghost predicate IsChain(cs: seq<Catalog>, path: seq<Catalog>) {
    && |path| > 0
    && IsRoot(path[0])
    && (forall k :: 0 <= k < |path| ==> path[k] in cs)
    && (forall k :: 0 < k < |path| ==> IsChildOf(path[k], path[k - 1].name))
    && (forall j, k :: 0 <= j < k < |path| ==> path[j] != path[k])
  }

  /** The records not on the chain: what the recursion still may visit. */
  ghost function OffPath(cs: seq<Catalog>, path: seq<Catalog>): set<Catalog> {
    set c | c in cs && c !in path
  }

  /** In well-formed records distinct records have distinct names. */
  lemma DistinctNames(cs: seq<Catalog>, a: Catalog, b: Catalog)
    requires WellFormed(cs) && a in cs && b in cs && a != b
    ensures a.name != b.name
  {
    var i :| 0 <= i < |cs| && cs[i] == a;
    var j :| 0 <= j < |cs| && cs[j] == b;
    assert i != j;
  }

  /** In well-formed records a name determines the record. */
  lemma SameNameSameRecord(cs: seq<Catalog>, a: Catalog, b: Catalog)
    requires WellFormed(cs) && a in cs && b in cs && a.name == b.name
    ensures a == b
  {
    var i :| 0 <= i < |cs| && cs[i] == a;
    var j :| 0 <= j < |cs| && cs[j] == b;
    assert !(i < j) && !(j < i);
  }

  /** A record of well-formed records has a non-empty name. */
  lemma NonEmptyName(cs: seq<Catalog>, a: Catalog)
    requires WellFormed(cs) && a in cs
    ensures a.name != ""
  {
    var i :| 0 <= i < |cs| && cs[i] == a;
  }

  /** A child of the last record of a chain is not on the chain: it can be
      neither the root, whose parent name is empty or undefined, nor a later
      record, whose parent would then occur on the chain twice. */
  lemma ChildExtendsChain(cs: seq<Catalog>, path: seq<Catalog>, c: Catalog)
    requires WellFormed(cs) && IsChain(cs, path)
    requires c in cs && IsChildOf(c, path[|path| - 1].name)
    ensures c !in path
    ensures IsChain(cs, path + [c])
    ensures OffPath(cs, path + [c]) < OffPath(cs, path)
  {
    var last := path[|path| - 1];
    forall j | 0 <= j < |path| ensures path[j] != c {
      if j == 0 {
        NonEmptyName(cs, last);
      } else {
        DistinctNames(cs, path[j - 1], last);
      }
    }
    assert c in OffPath(cs, path) && c !in OffPath(cs, path + [c]);
  }

  /** A tree item for `c` with the given children (`BuildTreeNode`): its
      node id is the record's name. */
  function BuildTreeNode(c: Catalog, children: seq<TreeNode>): (r: TreeNode) {
    Node(c.name, c, children)
  }

  /** The tree for `c`, the last record of the chain `path` (`BuildTree`). */
  function BuildTree(cs: seq<Catalog>, ghost path: seq<Catalog>, c: Catalog): (r: TreeNode)
    requires WellFormed(cs) && IsChain(cs, path) && path[|path| - 1] == c
    ensures r.nodeId == c.name && r.rec == c
    ensures Recs(r.children) == ChildRecords(cs, c.name)
    decreases OffPath(cs, path), 1
  {
    BuildTreeNode(c, BuildChildren(cs, path, c, 0))
  }

  /** The subtrees of `parent` for the records from index `i` on: the body of
      the `forEach` loop in `BuildTree`, one record at a time. */
  function BuildChildren(cs: seq<Catalog>, ghost path: seq<Catalog>, parent: Catalog, i: nat)
    : (r: seq<TreeNode>)
    requires WellFormed(cs) && IsChain(cs, path) && path[|path| - 1] == parent
    requires i <= |cs|
    ensures Recs(r) == ChildRecords(cs[i..], parent.name)
    decreases OffPath(cs, path), 0, |cs| - i
  {
    if i == |cs| then []
    else
      var rest := BuildChildren(cs, path, parent, i + 1);
      ChildRecordsStep(cs, i, parent.name);
      if IsChildOf(cs[i], parent.name) then
        ChildExtendsChain(cs, path, cs[i]);
        var t := BuildTree(cs, path + [cs[i]], cs[i]);
        RecsCons(t, rest);
        [t] + rest
      else
        rest
  }

  /** The trees for the root records from index `i` on: the `forEach` loop
      in `BuildForest`. */
  function BuildRoots(cs: seq<Catalog>, i: nat): (r: seq<TreeNode>)
    requires WellFormed(cs) && i <= |cs|
    ensures Recs(r) == RootRecords(cs[i..])
    decreases |cs| - i
  {
    if i == |cs| then []
    else
      var rest := BuildRoots(cs, i + 1);
      RootRecordsStep(cs, i);
      if IsRoot(cs[i]) then
        var t := BuildTree(cs, [cs[i]], cs[i]);
        RecsCons(t, rest);
        [t] + rest
      else
        rest
  }

  /** The forest (`BuildForest`): one tree per root record, in input order. */
  function BuildForest(cs: seq<Catalog>): (r: seq<TreeNode>)
    requires WellFormed(cs)
    ensures Recs(r) == RootRecords(cs)
  {
    assert cs[0..] == cs;
    BuildRoots(cs, 0)
  }

  /** A record is attached when it is a root or its parent name is the name
      of some record. */
  ghost predicate Attached(cs: seq<Catalog>, c: Catalog) {
    IsRoot(c) || exists p :: p in cs && IsChildOf(c, p.name)
  }

  /** What every item of the forest satisfies: its node id is its record's
      name, its record is one of the input records and is attached, and its
      children are built from exactly the child records, in input order. */
  ghost predicate NodeOk(cs: seq<Catalog>, n: TreeNode) {
    && n.nodeId == n.rec.name
    && n.rec in cs
    && Attached(cs, n.rec)
    && Recs(n.children) == ChildRecords(cs, n.rec.name)
  }

  /** Every item of the trees `ts`, at any depth, satisfies `NodeOk`. */
  ghost predicate AllNodesOk(cs: seq<Catalog>, ts: seq<TreeNode>) {
    forall n :: n in PreOrderAll(ts) ==> NodeOk(cs, n)
  }

  /** A tree in front of trees whose items are all well built. */
  lemma AllNodesOkCons(cs: seq<Catalog>, t: TreeNode, ts: seq<TreeNode>)
    requires forall n :: n in PreOrder(t) ==> NodeOk(cs, n)
    requires AllNodesOk(cs, ts)
    ensures AllNodesOk(cs, [t] + ts)
  {
    PreOrderAllCons(t, ts);
  }

  lemma {:induction false} BuildTreeNodesOk(cs: seq<Catalog>, path: seq<Catalog>, c: Catalog)
    requires WellFormed(cs) && IsChain(cs, path) && path[|path| - 1] == c
    ensures forall n :: n in PreOrder(BuildTree(cs, path, c)) ==> NodeOk(cs, n)
    decreases OffPath(cs, path), 1, 0, 0
  {
    if |path| > 1 {
      assert IsChildOf(c, path[|path| - 2].name) && path[|path| - 2] in cs;
    }
    BuildChildrenNodesOk(cs, path, c, 0);
  }

  lemma {:induction false} BuildChildrenNodesOk(cs: seq<Catalog>, path: seq<Catalog>, parent: Catalog, i: nat)
    requires WellFormed(cs) && IsChain(cs, path) && path[|path| - 1] == parent
    requires i <= |cs|
    ensures AllNodesOk(cs, BuildChildren(cs, path, parent, i))
    decreases OffPath(cs, path), 0, |cs| - i, 1
  {
    if i < |cs| {
      BuildChildrenNodesOk(cs, path, parent, i + 1);
      if IsChildOf(cs[i], parent.name) {
        ChildNodesOk(cs, path, parent, i);
      } else {
        assert BuildChildren(cs, path, parent, i) == BuildChildren(cs, path, parent, i + 1);
      }
    }
  }

  /** The step of `BuildChildrenNodesOk` for a record that is a child. */
  lemma {:induction false} ChildNodesOk(cs: seq<Catalog>, path: seq<Catalog>, parent: Catalog, i: nat)
    requires WellFormed(cs) && IsChain(cs, path) && path[|path| - 1] == parent
    requires i < |cs| && IsChildOf(cs[i], parent.name)
    requires AllNodesOk(cs, BuildChildren(cs, path, parent, i + 1))
    ensures AllNodesOk(cs, BuildChildren(cs, path, parent, i))
    decreases OffPath(cs, path), 0, |cs| - i, 0
  {
    var rest := BuildChildren(cs, path, parent, i + 1);
    ChildExtendsChain(cs, path, cs[i]);
    var t := BuildTree(cs, path + [cs[i]], cs[i]);
    assert BuildChildren(cs, path, parent, i) == [t] + rest;
    BuildTreeNodesOk(cs, path + [cs[i]], cs[i]);
    AllNodesOkCons(cs, t, rest);
  }

  lemma {:induction false} BuildRootsNodesOk(cs: seq<Catalog>, i: nat)
    requires WellFormed(cs) && i <= |cs|
    ensures AllNodesOk(cs, BuildRoots(cs, i))
    decreases |cs| - i
  {
    if i < |cs| {
      var rest := BuildRoots(cs, i + 1);
      BuildRootsNodesOk(cs, i + 1);
      if IsRoot(cs[i]) {
        var t := BuildTree(cs, [cs[i]], cs[i]);
        assert BuildRoots(cs, i) == [t] + rest;
        BuildTreeNodesOk(cs, [cs[i]], cs[i]);
        AllNodesOkCons(cs, t, rest);
      } else {
        assert BuildRoots(cs, i) == rest;
      }
    }
  }

  /** Every item of the forest, at any depth, is built from an input record,
      has that record's name as its node id, and has as children exactly the
      records naming it as parent, in input order. */
  lemma ForestNodesOk(cs: seq<Catalog>)
    requires WellFormed(cs)
    ensures forall n :: n in PreOrderAll(BuildForest(cs)) ==> NodeOk(cs, n)
  {
    BuildRootsNodesOk(cs, 0);
  }

  /** A record whose parent name is neither empty nor undefined and names no
      record appears nowhere in the forest. */
  lemma DanglingRecordAbsent(cs: seq<Catalog>, x: Catalog)
    requires WellFormed(cs)
    requires !IsRoot(x) && forall p :: p in cs ==> !IsChildOf(x, p.name)
    ensures forall n :: n in PreOrderAll(BuildForest(cs)) ==> n.rec != x
  {
    ForestNodesOk(cs);
  }
}
