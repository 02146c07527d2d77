# Graph table of catalogs — a Dafny model

The graph table of the one-edge sample shows a list of catalog records twice.
On the left is a tree view: every record whose parent name is empty or
undefined is a root, and under each record sit the records that name it as
their parent. On the right is a table with one row per tree item currently
rendered. Every cell of a row shows the display name
(`spec.properties.name`) of the item's record.

This project models the parts of `GraphTable.tsx` that build and search the
tree and derive the table:

- `BuildForest`, `BuildTree` and `BuildTreeNode` are pure functions over the
  records. They live in module `ForestBuilder` (`forest.dfy`), over the
  entities of module `Catalogs` (`catalog.dfy`).
- `findNodeById` is a depth-first search. It lives in module `NodeSearch`
  (`search.dfy`).
- `updateVisibleNodes` and the effect that refreshes the table body live in
  module `VisibleNodeTracker` (`tracker.dfy`). The `visibleNodes` state is a
  class `Tracker`. The table body `#tree-table tbody` is a class `Table`
  whose field `rows` holds each row as its list of cell texts. The removal
  loop and the append loop of the effect are methods with loops, proved
  against the reference function `ProjectRows`.
- `example.dfy` (module `ForestExample`) works through one catalog: a root,
  two children and a record whose parent does not exist.

Termination. `BuildTree` recurses with no explicit bound. In the model it
takes the chain of ancestors as a ghost argument and decreases the set of
records not on that chain. This needs record names that are non-empty and
unique (`WellFormed`). Under that condition every chain from a root is
acyclic, so the recursion of the source terminates on these inputs. The source
also terminates on some inputs that `WellFormed` excludes, such as two roots
with the same name, or a root named `""` with no cycle. The line for
`ForestBuilder.BuildTree` under "## Left out" names them.

Rendered items. The tree view turns every item into a list element whose
`id` is `tree-` followed by the item's node id. This is `TreeItemId`.
`updateVisibleNodes` receives the rendered list elements as their optional
`id` attribute values, in document order.

## Model

| member | source | states |
|---|---|---|
| ForestBuilder.RootRecordsSpec | docs/samples/one-edge/components/graph/GraphTable.tsx:22-26 | the root records are exactly the records whose parent name is `""` or undefined, kept in input order (a subsequence of the input) |
| ForestBuilder.ChildRecordsSpec | docs/samples/one-edge/components/graph/GraphTable.tsx:31-35 | the child records of a name are exactly the records whose parent name equals it, kept in input order |
| ForestBuilder.BuildForest | docs/samples/one-edge/components/graph/GraphTable.tsx:20-28 | the forest has one tree per root record, and the trees' records are the root records in input order |
| ForestBuilder.BuildRoots | docs/samples/one-edge/components/graph/GraphTable.tsx:22-26 | the `forEach` over the records from index `i` on yields trees for exactly the root records of that suffix, in order |
| ForestBuilder.BuildTree | docs/samples/one-edge/components/graph/GraphTable.tsx:29-40 | the tree for a record has node id = the record's name, holds that record, and its children are built from exactly the records naming it as parent, in input order |
| ForestBuilder.BuildChildren | docs/samples/one-edge/components/graph/GraphTable.tsx:31-35 | the `forEach` over the records from index `i` on yields subtrees for exactly the children of the parent in that suffix, in order |
| ForestBuilder.ChildExtendsChain | docs/samples/one-edge/components/graph/GraphTable.tsx:32-33 | with unique non-empty names, a child of the last record of an ancestor chain is not on the chain, so the recursion has a strictly smaller set of records left |
| ForestBuilder.ForestNodesOk | docs/samples/one-edge/components/graph/GraphTable.tsx:20-40 | every item of the forest, at any depth, has node id = its record's name, is built from an input record that is a root or whose parent exists, and has as children exactly that record's child records in order |
| ForestBuilder.DanglingRecordAbsent | docs/samples/one-edge/components/graph/GraphTable.tsx:20-37 | a record whose parent name is neither empty nor undefined and names no record appears nowhere in the forest |
| NodeSearch.FirstWithId | docs/samples/one-edge/components/graph/GraphTable.tsx:96-110 | reference first match: none exactly when no item has the id; otherwise an item with the id at index k, with no earlier item having it |
| NodeSearch.FindNodeById | docs/samples/one-edge/components/graph/GraphTable.tsx:96-110 | a found item has the requested node id |
| NodeSearch.FindInChildren | docs/samples/one-edge/components/graph/GraphTable.tsx:100-108 | the loop over the children returns only an item with the requested node id |
| NodeSearch.FirstWithIdConcat | docs/samples/one-edge/components/graph/GraphTable.tsx:101-106 | the first match in a concatenation is the left part's first match, or else the right part's |
| NodeSearch.FindNodeByIdIsFirstInPreOrder | docs/samples/one-edge/components/graph/GraphTable.tsx:96-110 | the search result equals the first item with the id in pre-order (node before children, children left to right) |
| NodeSearch.FindInChildrenIsFirstInPreOrder | docs/samples/one-edge/components/graph/GraphTable.tsx:101-107 | the loop result equals the first item with the id in the pre-order of the children |
| NodeSearch.FindNodeByIdSpec | docs/samples/one-edge/components/graph/GraphTable.tsx:96-110 | the search returns null exactly when no item of the tree has the id; otherwise it returns the earliest such item in pre-order |
| NodeSearch.FindInForest | docs/samples/one-edge/components/graph/GraphTable.tsx:96-110 | searching a tree of the forest by a name finds the item of the record with that name, and finds nothing exactly when no item of the tree has such a record |
| VisibleNodeTracker.TreeItemIdInjective | docs/samples/one-edge/components/graph/GraphTable.tsx:81 | the element id `"tree-" + name` determines the name |
| VisibleNodeTracker.FindCatalog | docs/samples/one-edge/components/graph/GraphTable.tsx:81 | a found record is one of the records and its `"tree-" + name` is the id |
| VisibleNodeTracker.FindCatalogSpec | docs/samples/one-edge/components/graph/GraphTable.tsx:81 | `find` returns nothing exactly when no record has the id, and otherwise the first such record in input order |
| VisibleNodeTracker.EmptyIdMatchesNothing | docs/samples/one-edge/components/graph/GraphTable.tsx:81 | the id `""` given to a list element without an `id` matches no record |
| VisibleNodeTracker.MatchedIds | docs/samples/one-edge/components/graph/GraphTable.tsx:80-82 | the ids that get a row are exactly the visible ids some record has, kept in visible order, each as many times as it is visible |
| VisibleNodeTracker.ProjectRowsSpec | docs/samples/one-edge/components/graph/GraphTable.tsx:80-91 | the table body has one row per matched id, in visible order; each row has one cell per column (none when the columns are undefined), and every cell shows the display name of the first record with that id |
| VisibleNodeTracker.ProjectionStep | docs/samples/one-edge/components/graph/GraphTable.tsx:80-91 | appending the rows of the next visible id keeps rows-so-far plus rows-to-come equal to the whole projection |
| VisibleNodeTracker.SameRow | docs/samples/one-edge/components/graph/GraphTable.tsx:83-88 | a row with one cell per column, each showing the display name, is the record's row |
| VisibleNodeTracker.BuildRow | docs/samples/one-edge/components/graph/GraphTable.tsx:83-88 | the built row has exactly one cell per column, empty when the columns are undefined, and each cell holds the record's display name |
| VisibleNodeTracker.Tracker.constructor | docs/samples/one-edge/components/graph/GraphTable.tsx:53 | `visibleNodes` starts empty |
| VisibleNodeTracker.Tracker.UpdateVisibleNodes | docs/samples/one-edge/components/graph/GraphTable.tsx:57-65 | the new `visibleNodes` is the list of rendered ids in document order, with `""` for a missing id, and nothing when the tree view is absent; it replaces the old list |
| VisibleNodeTracker.Table.Clear | docs/samples/one-edge/components/graph/GraphTable.tsx:76-79 | removing every present child node leaves the table body empty |
| VisibleNodeTracker.Table.Refresh | docs/samples/one-edge/components/graph/GraphTable.tsx:75-92 | after the effect the table body is exactly the projection of the visible ids, whatever rows it held before |
| VisibleNodeTracker.RefreshTwice | docs/samples/one-edge/components/graph/GraphTable.tsx:75-92 | running the effect a second time with the same inputs leaves the table body as the first run left it (idempotence) |
| VisibleNodeTracker.ProjectAllMatched | docs/samples/one-edge/components/graph/GraphTable.tsx:80-91 | when every visible id has a record, the table has exactly one row per id, built from that id's record |
| VisibleNodeTracker.FindItemRecord | docs/samples/one-edge/components/graph/GraphTable.tsx:81 | the element id of a forest item leads `find` back to that item's own record |
| VisibleNodeTracker.ExpandedForestRows | docs/samples/one-edge/components/graph/GraphTable.tsx:75-92 | with every item rendered in pre-order, the table shows one row per item in that order, each built from the item's own record |
| ForestExample.ExampleRoots | docs/samples/one-edge/components/graph/GraphTable.tsx:22-26 | in the example only `root` is a root record |
| ForestExample.ExampleRootChildren | docs/samples/one-edge/components/graph/GraphTable.tsx:31-35 | in the example the children of `root` are `child1` then `child2` |
| ForestExample.SingleTree | docs/samples/one-edge/components/graph/GraphTable.tsx:20-28 | with exactly one root record, the forest is one tree of that record, and it and its children are well-built items |
| ForestExample.ExampleForest | docs/samples/one-edge/components/graph/GraphTable.tsx:20-40 | the example forest is the tree `root` with leaves `child1` and `child2`; the orphan record is left out |
| ForestExample.ExampleCollapsedRows | docs/samples/one-edge/components/graph/GraphTable.tsx:75-92 | with `root` collapsed and one list element without an id, a two-column table has the single row `["Root", "Root"]` |
| ForestExample.ExamplePreOrder | docs/samples/one-edge/components/graph/GraphTable.tsx:115-123 | the example items in pre-order are `root`, `child1`, `child2` |
| ForestExample.ExampleExpandedRows | docs/samples/one-edge/components/graph/GraphTable.tsx:75-92 | with every item expanded, the ids are `tree-root`, `tree-child1`, `tree-child2`, and a one-column table shows `Root`, `Child 1`, `Child 2` in that order |

## Left out

- DOM access (`document.querySelector`, creating and appending elements) is not modelled. The tree view's rendered list elements become a parameter of `UpdateVisibleNodes`, and the table body becomes the `rows` field of `Table`.
- The `MutationObserver`, the React hooks (`useState`, `useEffect`, `useRef`) and `handleToggle` are not modelled. They only decide when `updateVisibleNodes` and the effect run. `RefreshTwice` models that rerunning the effect is harmless. The effect depends only on `visibleNodes` and `catalogs` (line 92 of `GraphTable.tsx`), so a change to `columns` alone does not rerun it, and the rows keep their old number of cells. `Refresh` takes `columns` as an input, but a change to it is not a trigger.
- Expanding and collapsing in the MUI tree view is not modelled, because that library is not part of this model. That rendered items get the element id `tree-` followed by the node id is an assumption (`TreeItemId`). That the fully expanded view renders items in pre-order is also an assumption (`ExpandedForestRows`).
- `BuildTreeNodeLabel` (icons chosen by `objectRef.kind`, the label markup) and the table header JSX are not modelled. They only decide presentation.
- A missing table body (`tableBody?.`) makes the effect a no-op in the source. The model always has a table body.
- `findNodeById`'s check `node.type === TreeItem` is not modelled, because every item in the model is a tree item. Its null-safe access to `node.props.children` is always satisfied for model items.
- ForestBuilder.BuildTree: requires unique, non-empty record names (`WellFormed`), where the source just recurses. With a cycle of parent names the source does not terminate. Inputs with duplicate names, or with an empty name, fall outside the model even without a cycle, although the source terminates on them.
- ForestBuilder.ForestNodesOk: does not state that every record reachable from a root by parent links appears in the forest exactly once. Only the soundness direction is proved: every item is a well-built input record, and dangling records are absent. A record merely being attached is not enough to appear. Records on a cycle of parent names that does not pass through a root are absent from the forest, as dangling records are. The source never reaches them either.
- A `null` parent name is outside the model. `Catalog.parentName` is `None` only for an undefined parent name. In the source a `null` parent (`=== undefined` fails) makes a record that is not a root and matches no name, so that record is dropped.
- No cycle detection or depth limit is added to `BuildTree`, because the source has none. Cyclic inputs are excluded by `WellFormed` instead.
- Row cells hold only the display name. Column ids and names are not used by the effect, so the model keeps only the number of columns.
