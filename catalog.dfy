/** The entities of the graph table: catalog records, table columns and the
    tree items built from the records. */
module Catalogs {
  import opened Wrappers

  /** A catalog record as far as the tree and the table use it: its `name`
      (`spec.name`), the name of its parent (`spec.parentName`, `None` when
      undefined) and the text shown for it (`spec.properties.name`). */
  datatype Catalog = Catalog(name: string, parentName: Option<string>, displayName: string)

  /** A table column; the projection only counts the columns. */
  datatype Column = Column(id: string, name: string)

  /** A tree item: its `nodeId`, the record it was built from and its child
      items in order. */
  datatype TreeNode = Node(nodeId: string, rec: Catalog, children: seq<TreeNode>)

  /** The records the given items were built from, in order. */
  function Recs(ts: seq<TreeNode>): (r: seq<Catalog>)
    ensures |r| == |ts|
    ensures forall k :: 0 <= k < |ts| ==> r[k] == ts[k].rec
  {
    seq(|ts|, k requires 0 <= k < |ts| => ts[k].rec)
  }

  /** The records of items with one more item in front. */
  lemma RecsCons(t: TreeNode, ts: seq<TreeNode>)
    ensures Recs([t] + ts) == [t.rec] + Recs(ts)
  {
    assert forall k :: 0 < k <= |ts| ==> ([t] + ts)[k] == ts[k - 1];
  }

  /** All items of the tree rooted at `t`, in pre-order (an item before its
      children, children left to right). */
  function PreOrder(t: TreeNode): (r: seq<TreeNode>)
    decreases t, 1
  {
    [t] + PreOrderAll(t.children)
  }

  /** All items of the trees `ts`, in pre-order, the trees left to right. */
  function PreOrderAll(ts: seq<TreeNode>): (r: seq<TreeNode>)
    decreases ts, 0
  {
    if ts == [] then [] else PreOrder(ts[0]) + PreOrderAll(ts[1..])
  }

  /** An item occurs in the pre-order of a forest exactly when it occurs in
      the pre-order of one of its trees. */
  lemma {:induction false} InPreOrderAll(ts: seq<TreeNode>, n: TreeNode)
    ensures n in PreOrderAll(ts) <==> exists k :: 0 <= k < |ts| && n in PreOrder(ts[k])
    decreases ts
  {
    if ts != [] {
      InPreOrderAll(ts[1..], n);
      assert forall k :: 0 < k < |ts| ==> ts[1..][k - 1] == ts[k];
      if n in PreOrderAll(ts[1..]) {
        var k :| 0 <= k < |ts[1..]| && n in PreOrder(ts[1..][k]);
        assert n in PreOrder(ts[k + 1]);
      }
    }
  }

  /** The pre-order of a forest with one more tree in front. */
  lemma PreOrderAllCons(t: TreeNode, ts: seq<TreeNode>)
    ensures PreOrderAll([t] + ts) == PreOrder(t) + PreOrderAll(ts)
  {
    assert ([t] + ts)[1..] == ts;
  }
}
