/** The example of a small catalog: a root with two children and a record
    whose parent does not exist. */
module ForestExample {
  import opened Wrappers
  import opened Catalogs
  import opened ForestBuilder
  import opened VisibleNodeTracker

  const Root := Catalog("root", Some(""), "Root")
  const Child1 := Catalog("child1", Some("root"), "Child 1")
  const Child2 := Catalog("child2", Some("root"), "Child 2")
  const Orphan := Catalog("orphan", Some("missing"), "Orphan")

  /** The items expected for the example. */
  const Leaf1 := Node("child1", Child1, [])
  const Leaf2 := Node("child2", Child2, [])
  const Tree := Node("root", Root, [Leaf1, Leaf2])

  /** The catalog of the example. */
  function Records(): (cs: seq<Catalog>) {
    [Root, Child1, Child2, Orphan]
  }

  /** `root` is the only root record. */
  lemma ExampleRoots()
    ensures RootRecords(Records()) == [Root]
  {
    assert !IsRoot(Orphan) && !IsRoot(Child1) && !IsRoot(Child2) && IsRoot(Root);
    assert RootRecords([]) == [];
    assert RootRecords([Orphan]) == [];
    assert RootRecords([Child2, Orphan]) == [];
    assert RootRecords([Child1, Child2, Orphan]) == [];
  }

  /** The records naming `root` as parent are `child1` and `child2`. */
  lemma ExampleRootChildren()
    ensures ChildRecords(Records(), "root") == [Child1, Child2]
  {
    assert ChildRecords([], "root") == [];
    assert ChildRecords([Orphan], "root") == [];
    assert ChildRecords([Child2, Orphan], "root") == [Child2];
    assert ChildRecords([Child1, Child2, Orphan], "root") == [Child1, Child2];
  }

  /** No record names `child1` or `child2` as parent. */
  lemma ExampleLeaves()
    ensures ChildRecords(Records(), "child1") == []
    ensures ChildRecords(Records(), "child2") == []
  {
  }

  /** When exactly one record is a root, the forest is one tree built from
      it, and that tree and its children are well-built items. */
  lemma SingleTree(cs: seq<Catalog>)
    requires WellFormed(cs) && |RootRecords(cs)| == 1
    ensures var f := BuildForest(cs);
            && |f| == 1 && f[0].rec == RootRecords(cs)[0] && NodeOk(cs, f[0])
            && forall k :: 0 <= k < |f[0].children| ==> NodeOk(cs, f[0].children[k])
  {
    var f := BuildForest(cs);
    var t := f[0];
    ForestNodesOk(cs);
    assert f == [t] && f[1..] == [] && PreOrderAll(f) == PreOrder(t);
    forall k | 0 <= k < |t.children| ensures NodeOk(cs, t.children[k]) {
      InPreOrderAll(t.children, t.children[k]);
    }
  }

  /** An item whose record names no child is a leaf. */
  lemma ItemWithoutChildren(cs: seq<Catalog>, n: TreeNode)
    requires NodeOk(cs, n) && ChildRecords(cs, n.rec.name) == []
    ensures n == Node(n.rec.name, n.rec, [])
  {
    assert |n.children| == |Recs(n.children)|;
  }

  /** The example's records are well formed. */
  lemma ExampleWellFormed(cs: seq<Catalog>)
    requires cs == Records()
    ensures WellFormed(cs)
  {
  }

  /** The forest has one tree, `root`, whose children are `child1` and
      `child2` in that order; `orphan` is left out. */
  lemma ExampleForest(cs: seq<Catalog>)
    requires cs == Records()
    ensures WellFormed(cs)
    ensures BuildForest(cs) == [Tree]
  {
    ExampleWellFormed(cs);
    ExampleRoots();
    ExampleRootChildren();
    ExampleLeaves();
    SingleTree(cs);
    var f := BuildForest(cs);
    var t := f[0];
    assert Recs(t.children) == [Child1, Child2];
    ItemWithoutChildren(cs, t.children[0]);
    ItemWithoutChildren(cs, t.children[1]);
    assert t.children == [Leaf1, Leaf2];
    assert f == [Tree];
  }

  /** With `root` collapsed only its own row is shown; a list item without
      an id adds no row. */
  lemma ExampleCollapsedRows()
    ensures ProjectRows(["tree-root", ""], Records(), Some([Column("c", "Name"), Column("d", "Kind")]))
            == [["Root", "Root"]]
  {
    var cols := Some([Column("c", "Name"), Column("d", "Kind")]);
    assert TreeItemId(Root.name) == "tree-root";
    assert FindCatalog(Records(), "tree-root") == Some(Root);
    EmptyIdMatchesNothing(Records());
    assert RowFor(Root, cols) == ["Root", "Root"];
    assert ["tree-root", ""][1..] == [""] && [""][1..] == [];
  }

  /** The pre-order of the expected forest. */
  lemma ExpectedPreOrder()
    ensures PreOrderAll([Tree]) == [Tree, Leaf1, Leaf2]
  {
    assert PreOrder(Leaf1) == [Leaf1] && PreOrder(Leaf2) == [Leaf2];
    assert PreOrderAll([Leaf2]) == [Leaf2];
    assert [Leaf1, Leaf2][1..] == [Leaf2];
    assert PreOrderAll([Leaf1, Leaf2]) == [Leaf1, Leaf2];
  }

  /** The items of the forest in pre-order: `root`, `child1`, `child2`. */
  lemma ExamplePreOrder(cs: seq<Catalog>)
    requires cs == Records()
    ensures WellFormed(cs)
    ensures PreOrderAll(BuildForest(cs)) == [Tree, Leaf1, Leaf2]
  {
    ExampleForest(cs);
    ExpectedPreOrder();
  }

  /** The one-column rows of the example's items. */
  lemma ExampleCells(columns: Option<seq<Column>>)
    requires columns == Some([Column("c", "Name")])
    ensures RowFor(Root, columns) == ["Root"]
    ensures RowFor(Child1, columns) == ["Child 1"]
    ensures RowFor(Child2, columns) == ["Child 2"]
  {
  }

  /** With every item expanded the tree view renders `tree-root`,
      `tree-child1` and `tree-child2`, and a one-column table shows the
      rows of `root`, `child1` and `child2` in that order. */
  lemma ExampleExpandedRows(cs: seq<Catalog>, columns: Option<seq<Column>>)
    requires cs == Records() && columns == Some([Column("c", "Name")])
    ensures WellFormed(cs)
    ensures ItemIds(PreOrderAll(BuildForest(cs))) == ["tree-root", "tree-child1", "tree-child2"]
    ensures ProjectRows(ItemIds(PreOrderAll(BuildForest(cs))), cs, columns)
            == [["Root"], ["Child 1"], ["Child 2"]]
  {
    ExamplePreOrder(cs);
    var nodes := PreOrderAll(BuildForest(cs));
    assert TreeItemId("root") == "tree-root" && TreeItemId("child1") == "tree-child1";
    assert TreeItemId("child2") == "tree-child2";
    ExpandedForestRows(cs, columns);
    ExampleCells(columns);
    assert nodes[0].rec == Root && nodes[1].rec == Child1 && nodes[2].rec == Child2;
  }
}
