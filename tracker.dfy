/** The visible-node tracking of GraphTable.tsx: the list of rendered item
    ids (`updateVisibleNodes`) and the table body re-derived from it (the
    effect that refreshes `#tree-table tbody`). */
module VisibleNodeTracker {
  import opened Wrappers
  import opened Sequences
  import opened Catalogs
  import opened ForestBuilder

  /** The tree view's id is `tree`; the tree view gives the item with node id
      `n` the element id `tree-` followed by `n`. */
  const TreeIdPrefix: string := "tree-"

  /** The element id of the tree item whose node id is `nodeId`. */
  function TreeItemId(nodeId: string): (r: string) {
    TreeIdPrefix + nodeId
  }

  /** The element id determines the node id. */
  lemma TreeItemIdInjective(a: string, b: string)
    requires TreeItemId(a) == TreeItemId(b)
    ensures a == b
  {
    assert a == TreeItemId(a)[|TreeIdPrefix|..];
    assert b == TreeItemId(b)[|TreeIdPrefix|..];
  }

  /** The record an element id belongs to: `catalogs.find(...)`, the first
      record `c` with `"tree-" + c.name == id`, or none. */
  function FindCatalog(cs: seq<Catalog>, id: string): (r: Option<Catalog>)
    ensures r.Some? ==> r.value in cs && TreeItemId(r.value.name) == id
  {
    if cs == [] then None
    else if TreeItemId(cs[0].name) == id then Some(cs[0])
    else FindCatalog(cs[1..], id)
  }

  /** `FindCatalog` finds nothing exactly when no record has the id, and
      otherwise finds the first record in input order that has it. */
  lemma {:induction false} FindCatalogSpec(cs: seq<Catalog>, id: string)
    ensures FindCatalog(cs, id).None? <==> forall k :: 0 <= k < |cs| ==> TreeItemId(cs[k].name) != id
    ensures FindCatalog(cs, id).Some? ==>
              exists k :: 0 <= k < |cs| && cs[k] == FindCatalog(cs, id).value
                          && forall j :: 0 <= j < k ==> TreeItemId(cs[j].name) != id
  {
    if cs != [] && TreeItemId(cs[0].name) != id {
      FindCatalogSpec(cs[1..], id);
      assert forall k :: 0 < k < |cs| ==> cs[1..][k - 1] == cs[k];
      var r := FindCatalog(cs[1..], id);
      if r.Some? {
        var k :| 0 <= k < |cs[1..]| && cs[1..][k] == r.value
                 && forall j :: 0 <= j < k ==> TreeItemId(cs[1..][j].name) != id;
        assert cs[k + 1] == r.value;
      }
    }
  }

  /** How many cells a row has: one per column, none when the column list is
      undefined (`columns?.forEach`). */
  function NumColumns(columns: Option<seq<Column>>): (n: nat) {
    match columns
    case None => 0
    case Some(cols) => |cols|
  }

  /** The row shown for record `c`: every cell holds its display name. */
  function RowFor(c: Catalog, columns: Option<seq<Column>>): (row: seq<string>) {
    seq(NumColumns(columns), _ => c.displayName)
  }

  /** The rows a single visible id contributes: the row of its record, or
      none when no record has that id. */
  function RowsForId(id: string, cs: seq<Catalog>, columns: Option<seq<Column>>): (rows: seq<seq<string>>) {
    match FindCatalog(cs, id)
    case Some(c) => [RowFor(c, columns)]
    case None => []
  }

  /** The table body for the visible ids (reference definition): the rows of
      each id in turn, in the order of the ids. */
  function ProjectRows(visible: seq<string>, cs: seq<Catalog>, columns: Option<seq<Column>>)
    : (rows: seq<seq<string>>)
  {
    if visible == [] then []
    else RowsForId(visible[0], cs, columns) + ProjectRows(visible[1..], cs, columns)
  }

  /** Appending the rows of the next visible id keeps the rows done so far,
      followed by the rows still to come, equal to the whole projection. */
  lemma ProjectionStep(done: seq<seq<string>>, visible: seq<string>, k: nat, cs: seq<Catalog>,
                       columns: Option<seq<Column>>, added: seq<seq<string>>)
    requires k < |visible|
    requires done + ProjectRows(visible[k..], cs, columns) == ProjectRows(visible, cs, columns)
    requires added == RowsForId(visible[k], cs, columns)
    ensures (done + added) + ProjectRows(visible[k + 1..], cs, columns) == ProjectRows(visible, cs, columns)
  {
    assert visible[k..][1..] == visible[k + 1..];
  }

  /** A row of the right length whose cells all hold the display name is
      the row of that record. */
  lemma SameRow(row: seq<string>, c: Catalog, columns: Option<seq<Column>>)
    requires |row| == NumColumns(columns)
    requires forall j :: 0 <= j < |row| ==> row[j] == c.displayName
    ensures row == RowFor(c, columns)
  {
  }

  /** The visible ids that have a record, in their order. */
  function MatchedIds(visible: seq<string>, cs: seq<Catalog>): (r: seq<string>)
    ensures forall id :: id in r <==> id in visible && exists c :: c in cs && TreeItemId(c.name) == id
    ensures IsSubsequence(r, visible)
    ensures forall id :: multiset(r)[id]
                         == if exists c :: c in cs && TreeItemId(c.name) == id then multiset(visible)[id] else 0
  {
    if visible == [] then []
    else
      var rest := MatchedIds(visible[1..], cs);
      FindCatalogSpec(cs, visible[0]);
      assert visible == [visible[0]] + visible[1..];
      assert multiset(visible) == multiset{visible[0]} + multiset(visible[1..]);
      SubsequenceOfCons(visible[0], rest, visible[1..]);
      if FindCatalog(cs, visible[0]).Some? then
        assert multiset([visible[0]] + rest) == multiset{visible[0]} + multiset(rest);
        [visible[0]] + rest
      else
        rest
  }

  /** `rows` are the rows for `ids`: one per id, each with one cell per
      column, every cell showing the display name of the first record with
      that id. */
  ghost predicate RowsForIds(rows: seq<seq<string>>, ids: seq<string>, cs: seq<Catalog>,
                             columns: Option<seq<Column>>) {
    && |rows| == |ids|
    && forall k :: 0 <= k < |rows| ==>
         && FindCatalog(cs, ids[k]).Some?
         && |rows[k]| == NumColumns(columns)
         && forall j :: 0 <= j < |rows[k]| ==> rows[k][j] == FindCatalog(cs, ids[k]).value.displayName
  }

  /** Adding the row of a matched id in front keeps the correspondence. */
  lemma RowsForIdsCons(row: seq<string>, id: string, rows: seq<seq<string>>, ids: seq<string>,
                       cs: seq<Catalog>, columns: Option<seq<Column>>)
    requires FindCatalog(cs, id).Some? && row == RowFor(FindCatalog(cs, id).value, columns)
    requires RowsForIds(rows, ids, cs, columns)
    ensures RowsForIds([row] + rows, [id] + ids, cs, columns)
  {
    var rows', ids' := [row] + rows, [id] + ids;
    forall k | 0 <= k < |rows'|
      ensures FindCatalog(cs, ids'[k]).Some? && |rows'[k]| == NumColumns(columns)
      ensures forall j :: 0 <= j < |rows'[k]| ==> rows'[k][j] == FindCatalog(cs, ids'[k]).value.displayName
    {
      if k > 0 {
        assert rows'[k] == rows[k - 1] && ids'[k] == ids[k - 1];
      }
    }
  }

  lemma {:induction false} ProjectRowsForMatched(visible: seq<string>, cs: seq<Catalog>, columns: Option<seq<Column>>)
    ensures RowsForIds(ProjectRows(visible, cs, columns), MatchedIds(visible, cs), cs, columns)
  {
    if visible != [] {
      ProjectRowsForMatched(visible[1..], cs, columns);
      var rest, restIds := ProjectRows(visible[1..], cs, columns), MatchedIds(visible[1..], cs);
      var found := FindCatalog(cs, visible[0]);
      if found.Some? {
        assert ProjectRows(visible, cs, columns) == [RowFor(found.value, columns)] + rest;
        assert MatchedIds(visible, cs) == [visible[0]] + restIds;
        RowsForIdsCons(RowFor(found.value, columns), visible[0], rest, restIds, cs, columns);
      } else {
        assert ProjectRows(visible, cs, columns) == rest;
        assert MatchedIds(visible, cs) == restIds;
      }
    }
  }

  /** The table body has one row per visible id that has a record, in the
      order of the visible ids; each row has one cell per column and every
      cell shows the display name of the FIRST record for that id. */
  lemma ProjectRowsSpec(visible: seq<string>, cs: seq<Catalog>, columns: Option<seq<Column>>)
    ensures var rows, ids := ProjectRows(visible, cs, columns), MatchedIds(visible, cs);
            && |rows| == |ids|
            && forall k :: 0 <= k < |rows| ==>
                 && FindCatalog(cs, ids[k]).Some?
                 && |rows[k]| == NumColumns(columns)
                 && forall j :: 0 <= j < |rows[k]| ==> rows[k][j] == FindCatalog(cs, ids[k]).value.displayName
  {
    ProjectRowsForMatched(visible, cs, columns);
  }

  /** A list item without an `id` attribute contributes the id `""`, which no
      record matches. */
  lemma EmptyIdMatchesNothing(cs: seq<Catalog>)
    ensures FindCatalog(cs, "") == None
  {
    forall k | 0 <= k < |cs| ensures TreeItemId(cs[k].name) != "" {
      assert |TreeItemId(cs[k].name)| >= |TreeIdPrefix|;
    }
  }

  /** The ids of the rendered list items in document order (`nodeId ?? ''`);
      none when the tree view is not mounted. */
  function VisibleIds(rendered: Option<seq<Option<string>>>): (ids: seq<string>) {
    match rendered
    case None => []
    case Some(items) => seq(|items|, k requires 0 <= k < |items| => items[k].GetOr(""))
  }

  /** One row with a cell per column, each showing the record's display name
      (the `columns?.forEach` loop). */
  method BuildRow(c: Catalog, columns: Option<seq<Column>>) returns (row: seq<string>)
    ensures |row| == NumColumns(columns)
    ensures forall j :: 0 <= j < |row| ==> row[j] == c.displayName
  {
    row := [];
    if columns.Some? {
      var cols := columns.value;
      var j := 0;
      while j < |cols|
        invariant 0 <= j <= |cols|
        invariant |row| == j
        invariant forall m :: 0 <= m < j ==> row[m] == c.displayName
      {
        row := row + [c.displayName];
        j := j + 1;
      }
    }
  }

  /** The component's `visibleNodes` state. */
  class Tracker {
    var visibleNodes: seq<string>

    constructor ()
      ensures visibleNodes == []
    {
      visibleNodes := [];
    }

    /** `updateVisibleNodes`: the rendered list items are given as the values
        of their `id` attributes, `None` for the whole list when the tree view
        is not mounted. The new list replaces the old one. */
    method UpdateVisibleNodes(rendered: Option<seq<Option<string>>>)
      modifies this
      ensures visibleNodes == VisibleIds(rendered)
      ensures |visibleNodes| == if rendered.Some? then |rendered.value| else 0
    {
      var ids: seq<string> := [];
      if rendered.Some? {
        var items := rendered.value;
        var i := 0;
        while i < |items|
          invariant 0 <= i <= |items|
          invariant ids == VisibleIds(Some(items[..i]))
        {
          ids := ids + [items[i].GetOr("")];
          i := i + 1;
        }
        assert items[..i] == items;
      }
      visibleNodes := ids;
    }
  }

  /** The table body (`#tree-table tbody`): its rows, each a list of cell
      texts. */
  class Table {
    var rows: seq<seq<string>>

    constructor ()
      ensures rows == []
    {
      rows := [];
    }

    /** The removal loop of the effect: every row present is removed, first
        to last. */
    method Clear()
      modifies this
      ensures rows == []
    {
      var present := rows;
      var i := 0;
      while i < |present|
        invariant 0 <= i <= |present|
        invariant rows == present[i..]
      {
        rows := rows[1..];
        i := i + 1;
      }
    }

    /** The effect on `visibleNodes` and `catalogs`: remove every row, then
        append a row for each visible id that has a record. */
    method Refresh(visible: seq<string>, cs: seq<Catalog>, columns: Option<seq<Column>>)
      modifies this
      ensures rows == ProjectRows(visible, cs, columns)
    {
      Clear();
      var k := 0;
      while k < |visible|
        invariant 0 <= k <= |visible|
        invariant rows + ProjectRows(visible[k..], cs, columns) == ProjectRows(visible, cs, columns)
      {
        var found := FindCatalog(cs, visible[k]);
        if found.Some? {
          var row := BuildRow(found.value, columns);
          SameRow(row, found.value, columns);
          ProjectionStep(rows, visible, k, cs, columns, [row]);
          rows := rows + [row];
        } else {
          ProjectionStep(rows, visible, k, cs, columns, []);
          assert rows + [] == rows;
        }
        k := k + 1;
      }
    }
  }

  /** Refreshing twice with the same inputs gives the table the first refresh
      gave: the previous rows never survive a refresh. */
  method RefreshTwice(t: Table, visible: seq<string>, cs: seq<Catalog>, columns: Option<seq<Column>>)
    returns (first: seq<seq<string>>)
    modifies t
    ensures t.rows == first
  {
    t.Refresh(visible, cs, columns);
    first := t.rows;
    t.Refresh(visible, cs, columns);
  }

  /** The element ids of the given items, in order. */
  function ItemIds(ns: seq<TreeNode>): (ids: seq<string>) {
    seq(|ns|, k requires 0 <= k < |ns| => TreeItemId(ns[k].nodeId))
  }

  /** When every visible id has a record, the projection has one row per id,
      built from that record. */
  lemma {:induction false} ProjectAllMatched(visible: seq<string>, recs: seq<Catalog>, cs: seq<Catalog>,
                                             columns: Option<seq<Column>>)
    requires |recs| == |visible|
    requires forall k :: 0 <= k < |visible| ==> FindCatalog(cs, visible[k]) == Some(recs[k])
    ensures |ProjectRows(visible, cs, columns)| == |visible|
    ensures forall k :: 0 <= k < |visible| ==> ProjectRows(visible, cs, columns)[k] == RowFor(recs[k], columns)
  {
    if visible != [] {
      var vs, rs := visible[1..], recs[1..];
      forall k | 0 <= k < |vs| ensures FindCatalog(cs, vs[k]) == Some(rs[k]) {
        assert vs[k] == visible[k + 1] && rs[k] == recs[k + 1];
      }
      ProjectAllMatched(vs, rs, cs, columns);
      var rest := ProjectRows(vs, cs, columns);
      assert ProjectRows(visible, cs, columns) == [RowFor(recs[0], columns)] + rest;
      forall k | 0 < k < |visible| ensures ProjectRows(visible, cs, columns)[k] == RowFor(recs[k], columns) {
        assert rs[k - 1] == recs[k];
      }
    }
  }

  /** The id of a forest item leads back to the item's own record. */
  lemma FindItemRecord(cs: seq<Catalog>, n: TreeNode)
    requires WellFormed(cs) && NodeOk(cs, n)
    ensures FindCatalog(cs, TreeItemId(n.nodeId)) == Some(n.rec)
  {
    var r := FindCatalog(cs, TreeItemId(n.nodeId));
    FindCatalogSpec(cs, TreeItemId(n.nodeId));
    assert r.Some? by {
      var i :| 0 <= i < |cs| && cs[i] == n.rec;
    }
    TreeItemIdInjective(r.value.name, n.nodeId);
    SameNameSameRecord(cs, r.value, n.rec);
  }

  /** With every item expanded, the tree view renders the element ids of all
      items of the forest in pre-order; the table then has one row per item,
      in that order, each showing the item's own record. */
  lemma ExpandedForestRows(cs: seq<Catalog>, columns: Option<seq<Column>>)
    requires WellFormed(cs)
    ensures var nodes := PreOrderAll(BuildForest(cs));
            var rows := ProjectRows(ItemIds(nodes), cs, columns);
            |rows| == |nodes| && forall k :: 0 <= k < |nodes| ==> rows[k] == RowFor(nodes[k].rec, columns)
  {
    var nodes := PreOrderAll(BuildForest(cs));
    ForestNodesOk(cs);
    forall k | 0 <= k < |nodes|
      ensures FindCatalog(cs, ItemIds(nodes)[k]) == Some(Recs(nodes)[k])
    {
      FindItemRecord(cs, nodes[k]);
    }
    ProjectAllMatched(ItemIds(nodes), Recs(nodes), cs, columns);
  }
}
