/** `findNodeById` in GraphTable.tsx: depth-first search of a tree of items
    for the first item with a given node id. */
module NodeSearch {
  import opened Wrappers
  import opened Catalogs
  import opened ForestBuilder

  /** The first item of `s` whose node id is `id`, if any (reference
      definition of a first match). */
  function FirstWithId(s: seq<TreeNode>, id: string): (r: Option<TreeNode>)
    ensures r.None? <==> forall k :: 0 <= k < |s| ==> s[k].nodeId != id
    ensures r.Some? ==> exists k :: 0 <= k < |s| && s[k] == r.value && r.value.nodeId == id
                                    && forall j :: 0 <= j < k ==> s[j].nodeId != id
  {
    if s == [] then None
    else if s[0].nodeId == id then Some(s[0])
    else
      var r := FirstWithId(s[1..], id);
      assert forall k :: 0 < k < |s| ==> s[1..][k - 1] == s[k];
      if r.Some? then
        var k :| 0 <= k < |s[1..]| && s[1..][k] == r.value && r.value.nodeId == id
                 && forall j :: 0 <= j < k ==> s[1..][j].nodeId != id;
        assert s[k + 1] == r.value;
        r
      else r
  }

  /** The first match in a concatenation is the first match in the left part,
      or else the first match in the right part. */
  lemma {:induction false} FirstWithIdConcat(a: seq<TreeNode>, b: seq<TreeNode>, id: string)
    ensures FirstWithId(a + b, id)
            == if FirstWithId(a, id).Some? then FirstWithId(a, id) else FirstWithId(b, id)
  {
    if a != [] {
      assert (a + b)[0] == a[0];
      assert (a + b)[1..] == a[1..] + b;
      FirstWithIdConcat(a[1..], b, id);
    } else {
      assert a + b == b;
    }
  }

  /** `findNodeById(node, id)`: the node itself when its id matches, else the
      first result of searching its children left to right. */
  function FindNodeById(t: TreeNode, id: string): (r: Option<TreeNode>)
    ensures r.Some? ==> r.value.nodeId == id
    decreases t, 1
  {
    if t.nodeId == id then Some(t) else FindInChildren(t.children, id)
  }

  /** The `for` loop of `findNodeById` over the children from the first on:
      it returns the first non-null result. */
  function FindInChildren(ts: seq<TreeNode>, id: string): (r: Option<TreeNode>)
    ensures r.Some? ==> r.value.nodeId == id
    decreases ts, 0
  {
    if ts == [] then None
    else
      var found := FindNodeById(ts[0], id);
      if found.Some? then found else FindInChildren(ts[1..], id)
  }

  /** The search returns the first item with the id in pre-order. */
  lemma {:induction false} FindNodeByIdIsFirstInPreOrder(t: TreeNode, id: string)
    ensures FindNodeById(t, id) == FirstWithId(PreOrder(t), id)
    decreases t, 1
  {
    FirstWithIdConcat([t], PreOrderAll(t.children), id);
    FindInChildrenIsFirstInPreOrder(t.children, id);
  }

  lemma {:induction false} FindInChildrenIsFirstInPreOrder(ts: seq<TreeNode>, id: string)
    ensures FindInChildren(ts, id) == FirstWithId(PreOrderAll(ts), id)
    decreases ts, 0
  {
    if ts != [] {
      FindNodeByIdIsFirstInPreOrder(ts[0], id);
      FindInChildrenIsFirstInPreOrder(ts[1..], id);
      FirstWithIdConcat(PreOrder(ts[0]), PreOrderAll(ts[1..]), id);
    }
  }

  /** The search finds an item exactly when the tree holds an item with that
      id, and what it finds is an item of the tree with that id that no
      earlier item in pre-order shares. */
  lemma FindNodeByIdSpec(t: TreeNode, id: string)
    ensures FindNodeById(t, id).None? <==> forall n :: n in PreOrder(t) ==> n.nodeId != id
    ensures FindNodeById(t, id).Some? ==>
              var s := PreOrder(t);
              exists k :: 0 <= k < |s| && s[k] == FindNodeById(t, id).value
                          && forall j :: 0 <= j < k ==> s[j].nodeId != id
  {
    FindNodeByIdIsFirstInPreOrder(t, id);
  }

  /** Searching a tree of the forest by a name finds the item built from the
      record with that name, and finds nothing exactly when no item of the
      tree has a record with that name. */
  lemma FindInForest(cs: seq<Catalog>, t: TreeNode, id: string)
    requires WellFormed(cs) && t in BuildForest(cs)
    ensures FindNodeById(t, id).Some? ==>
              FindNodeById(t, id).value.rec.name == id && FindNodeById(t, id).value.rec in cs
    ensures FindNodeById(t, id).None? <==> forall n :: n in PreOrder(t) ==> n.rec.name != id
  {
    var f := BuildForest(cs);
    ForestNodesOk(cs);
    FindNodeByIdSpec(t, id);
    forall n | n in PreOrder(t) ensures NodeOk(cs, n) {
      InPreOrderAll(f, n);
    }
    var r := FindNodeById(t, id);
    if r.Some? {
      var s := PreOrder(t);
      var k :| 0 <= k < |s| && s[k] == r.value && forall j :: 0 <= j < k ==> s[j].nodeId != id;
      assert NodeOk(cs, s[k]);
    }
  }
}
