# Data Modeler core, in Dafny

Data Modeler edits a data model, i.e. a set of entities whose fields point at fields of other entities. It shows the model as a graph of table nodes and reference edges. This project models the core of that round trip and the edits made in between. The core has four parts.

- **The qualified-name codec and the import** (`src/utils/dataTransform.js`).
  - An entity name carries one of the table prefixes `BASE_`, `CTE_` or `VIEW_`. `extractTableType`, `removeTablePrefix` and `addTablePrefix` decode and encode it.
  - `modelToFlow` turns the model into one node per entity.
  - It also makes one edge per stored `ref` / `calculation.ref` pointer.
  - Handles have the form `entity-field`. Edge ids have the form `ref-E.f->T.g` or `calc-E.f->T.g`.
- **The export** (`src/utils/flowToModel.js`).
  - `flowToModel` rebuilds the entity map from the nodes and edges.
  - For each field, it normalises the stored pointers against the current nodes.
  - It merges them with the pointers read off incoming edges. It dedupes them, keeping the first occurrence.
  - A bare field is written as `{}`.
- **The edit handlers** (`src/hooks/useNodeHandlers.js`). Each handler is a transition on the pair `(nodes, edges)`, with cascading edge rewrites or removals:
  - add, rename or delete a field;
  - rename an entity;
  - set an alias or a calculation expression;
  - add or delete a table.
- **The legacy import** (`src/data.js`). This older `modelToFlow` keeps the full name as the label. It flags views and CTEs by substring tests.

## How the model is built

**Modules.** Each module follows one source file.
- `Wrappers`: `Option`.
- `JsSemantics`: the JavaScript built-ins the code relies on, each stated in its own terms:
  - `startsWith`, `includes` and `indexOf`;
  - `replace` with a string pattern, which changes only the first occurrence and expands the `$$`, `$&`, `` $` `` and `$'` patterns of the replacement text (ECMA-262, GetSubstitution);
  - `split(".")` destructured into two parts, where the second part may be `undefined`;
  - `trim` over the ECMAScript whitespace set;
  - `filter`;
  - `[...new Set(xs)]`;
  - objects as ordered key/value lists, `Object.keys`, and assignment (`obj[k] = v`).
- `Schema`: the model document.
- `Graph`: nodes, fields, edges, handle ids, and the invariant `Attached`. It holds when every edge end names an existing node and a handle that node really has.
- `DataTransform`, `FlowToModel`, `NodeHandlers`, `LegacyData`: the four parts above.
- `RoundTrip`: export after import.

**Loops.**
- The imports and the export fill arrays and objects in nested `forEach` loops. They are methods with `while` loops:
  - `DataTransform.ModelToFlow`, with one helper method per nested callback;
  - `FlowToModel.FlowToModel`;
  - `LegacyData.LegacyModelToFlow`.
- Each one is proved equal to a specification function. The functions are defined from the end of the list, so each loop step unfolds them directly.
- The properties are then proved about those functions.

**The graph state.**
- The graph state is the class `NodeHandlers.FlowState`. Its fields `nodes` and `edges` are sequences.
- Each handler is a method that assigns them. A React `setNodes`/`setEdges` updater becomes an immediate assignment.
- `handleUpdateNodeLabel` runs its `setEdges` inside the `setNodes` map. The model keeps this: a loop over the nodes rewrites the edges once per matching node.
- Each map/filter body is a pure function. The lemmas about it state:
  - what changes and what does not;
  - that `Attached` is preserved.

**Helpers the code imports but does not show.**
- `getHandleId(id, f)` is `id + "-" + f`.
- `updateNodeInNodes` and `updateFieldInFields` map their update over the elements whose id or name matches.
- `generateUniqueTableName` and `calculateCenterPosition` become parameters of `AddNewTable`.
- The JSON file that `src/data.js` and the default argument of `modelToFlow` import becomes the `model` parameter.

**Behaviour of the code that a reader might not expect.** The model follows the code in each case.
- **Entity rename.** The code sets the node id to the bare trimmed label. It does not re-prefix it with the table type. `NodeHandlers.RelabelledNodeExportsUnderPrefix` shows what follows on export.
- **Entity rename with `$` in the label.** The handles are rewritten with `replace`, which expands `$` patterns in the new label. A label such as `a$$b` leaves the edges pointing at handles `a$b-…` (see "## Findings").
- **Pointers without a `.`.** Import does not skip them. It builds an edge for them, with the source field `undefined` (`DataTransform.RefEdgeWithoutDot`).
- **Field rename.** Edge ids are not rebuilt. The code replaces the first occurrence of the old handle in the id. Imported ids spell the field as `E.f`, not `E-f`, so this usually finds nothing.
- **Add field.** The duplicate check compares the untrimmed input, while the field added is the trimmed input (see "## Findings").
- **The local `addTablePrefix`** in `src/utils/flowToModel.js` is the same function as the exported one. The model defines it once.

## Model

| member | source | states |
|---|---|---|
| DataTransform.ExtractTableType | src/utils/dataTransform.js:9-14 | returns BASE, CTE or VIEW exactly when the name starts with that prefix plus `_`, and null exactly when it starts with none of the three |
| DataTransform.StripFirstPrefix | src/utils/dataTransform.js:22-28 | the loop over the prefix list strips the first listed prefix the name starts with, returns the name unchanged when none matches, and never lengthens it |
| DataTransform.RemoveTablePrefix | src/utils/dataTransform.js:21-29 | an unprefixed name is unchanged; a prefixed one is exactly `type + "_" + result`; the result is never longer than the input |
| DataTransform.AddTablePrefix | src/utils/dataTransform.js:37-42 | for BASE, CTE or VIEW the result decodes back to that type and to the given name; for any other type or null it is the name unchanged |
| DataTransform.PrefixRoundTrip | src/utils/dataTransform.js:9-42 | re-adding the extracted prefix to the stripped name gives back every name |
| DataTransform.NodeFields | src/utils/dataTransform.js:72-75 | one node field per model field, in order, with its name and its stored record copied unchanged |
| DataTransform.ImportNodes | src/utils/dataTransform.js:56-78 | one node per entity, in entry order, the i-th one built from the i-th entity at height 180·i |
| DataTransform.ImportNodeSpec | src/utils/dataTransform.js:56-78 | the i-th node's id is the full name; the name splits into its table type and its label, and an unprefixed name is its own label, typed BASE; the alias defaults to ""; field names and records match the entity's; the position is (0, 180·i) |
| DataTransform.ModelToFlow | src/utils/dataTransform.js:50-123 | the nodes and edges the nested loops push are exactly the import's node list and edge list, and there is one edge per stored pointer |
| DataTransform.PushEntityEdges | src/utils/dataTransform.js:81-117 | the loop over an entity's fields appends exactly that entity's edges, field by field |
| DataTransform.PushFieldEdges | src/utils/dataTransform.js:82-116 | one field appends its normal edges and then its calculation edges |
| DataTransform.PushRefEdges | src/utils/dataTransform.js:83-97 | the loop over a pointer list appends one edge per pointer, in order |
| DataTransform.RefEdgesAt | src/utils/dataTransform.js:84-96 | the i-th edge built for a pointer list is the edge for the i-th pointer |
| DataTransform.ImportEdgeCount | src/utils/dataTransform.js:81-117 | the number of edges is the sum over all fields of the lengths of `ref` and `calculation.ref` |
| DataTransform.RefEdgeShape | src/utils/dataTransform.js:84-114 | the edge for `E.f` on field `T.g` has kind normal or calculation, source E, target T, handles `E-f` and `T-g`, id `ref-E.f->T.g` or `calc-E.f->T.g`, and is animated exactly when normal |
| DataTransform.RefEdgeWithoutDot | src/utils/dataTransform.js:84-92 | a pointer with no `.` still yields an edge, whose source is the whole pointer and whose source handle ends in `-undefined` |
| FlowToModel.EntityNameSpec | src/utils/flowToModel.js:27-40 | a prefixed node id is the entity name; otherwise the name is the label (or the id) prefixed by the node's type (BASE by default), and it decodes back to both |
| FlowToModel.ResolveSourceSpec | src/utils/flowToModel.js:67-70 | an edge source is kept when prefixed or when it is a non-empty node id, and becomes `BASE_` + source otherwise |
| FlowToModel.RefsFromEdges | src/utils/flowToModel.js:57-72 | the edge pointers of a field are exactly the pointers read off the edges of that kind whose target and target handle are that field |
| FlowToModel.NormalizeRef | src/utils/flowToModel.js:96-114 | a pointer with an empty or prefixed entity part is unchanged; a changed pointer names a node whose id or label is the entity part, and keeps the field part |
| FlowToModel.NormalizeByLabel | src/utils/flowToModel.js:108-112 | an unprefixed pointer whose entity is the id or label of a node is rewritten to the first such node's id, keeping the field |
| FlowToModel.NormalizeUnknown | src/utils/flowToModel.js:108-113 | a pointer that matches no node is kept as it is |
| FlowToModel.NormalizeIdempotent | src/utils/flowToModel.js:125-140 | when all node ids are prefixed and dot-free, normalising twice is normalising once |
| FlowToModel.ExportedRefs | src/utils/flowToModel.js:116 | the exported `ref` has no repeats, and contains exactly the normalised stored pointers and the normal edge pointers |
| FlowToModel.ExportCalculation | src/utils/flowToModel.js:120-155 | no calculation exactly when there is none stored and no calculation edge; a stored one keeps its expression (or "") and gets the repeat-free union of its normalised pointers and the edge pointers; without one, edge pointers give expression "" |
| FlowToModel.ExportFieldData | src/utils/flowToModel.js:159-173 | `ref` is present only when non-empty and then is the merged list; the calculation is the exported calculation; so a field with neither is `{}` |
| FlowToModel.ExportedRefsEmpty | src/utils/flowToModel.js:159-161 | the merged `ref` is empty exactly when nothing is stored and no normal edge enters the field |
| FlowToModel.ExportEntitySpec | src/utils/flowToModel.js:41-46 | the exported entity has an alias exactly when the node's alias is non-empty, and one key per distinct field name, in first-occurrence order |
| FlowToModel.FlowToModel | src/utils/flowToModel.js:20-183 | the loops over nodes and fields build exactly the specified export |
| FlowToModel.ExportKeys | src/utils/flowToModel.js:24-178 | the exported entity keys are the nodes' entity names, deduplicated in first-occurrence order |
| FlowToModel.ExportFieldKeys | src/utils/flowToModel.js:50-174 | the exported field keys are the node's field names, deduplicated in first-occurrence order |
| FlowToModel.ExportLastNodeWins | src/utils/flowToModel.js:177 | of several nodes with one entity name, the last one's entity is the one stored |
| RoundTrip.EdgeRefOfRefEdge | src/utils/flowToModel.js:64-72 | reading back the edge built for a well-formed pointer gives that pointer |
| RoundTrip.EdgeRefsOfRefEdges | src/utils/flowToModel.js:64-72 | reading back the edges of a well-formed pointer list gives the list |
| RoundTrip.FilterImportEdges | src/utils/flowToModel.js:57-63 | of the imported edges, those entering `T.g` with a given kind are exactly the edges built from that field's stored pointers of that kind |
| RoundTrip.ImportedIncoming | src/utils/flowToModel.js:57-89 | for a canonical document, each field reads back exactly its stored pointers from the imported edges |
| RoundTrip.FieldRoundTrip | src/utils/flowToModel.js:96-173 | a canonical field record whose edges carry exactly its pointers exports as itself |
| RoundTrip.EntityRoundTrip | src/utils/flowToModel.js:27-177 | each imported node of a canonical document exports under its entity's name as that entity |
| RoundTrip.RoundTripModel | src/utils/flowToModel.js:20-183 | exporting the import of a canonical document gives back that document: keys, aliases, fields and pointer lists |
| NodeHandlers.AddFieldToFieldsSpec | src/hooks/useNodeHandlers.js:37-49 | as written: the node keeps its id, attributes and fields; it is unchanged exactly when a field bears the name as typed, and otherwise gains one record-less field with the trimmed name, at the end |
| NodeHandlers.AddFieldSpec | src/hooks/useNodeHandlers.js:35-53 | as written: ids are kept and only nodes with that id change; each keeps its fields, is unchanged exactly when a field bears the untrimmed name, and its names grow by at most the trimmed name, at the end |
| NodeHandlers.AddFieldAgreesWhenTrimmed | src/hooks/useNodeHandlers.js:37-49 | on an already trimmed name, the code as written and the corrected update give the same node |
| NodeHandlers.AddFieldDuplicatesName | src/hooks/useNodeHandlers.js:37-49 | as written: adding " id" to a node with field "id" gives two fields named "id" |
| NodeHandlers.AppendFieldSpec | src/hooks/useNodeHandlers.js:37-49 | corrected, given the trimmed name: the node keeps its id and its fields, has the name afterwards, and its names grow by at most that name, at the end |
| NodeHandlers.AppendFieldKeepsNamesDistinct | src/hooks/useNodeHandlers.js:37-49 | corrected: duplicate-free field names stay duplicate-free |
| NodeHandlers.AddFieldFixedSpec | src/hooks/useNodeHandlers.js:31-56 | corrected: ids and other nodes are unchanged; each target node has the trimmed name and keeps distinct field names |
| NodeHandlers.AddFieldKeepsAttached | src/hooks/useNodeHandlers.js:35-53 | adding a field as written leaves every edge attached |
| NodeHandlers.RelabelStep | src/hooks/useNodeHandlers.js:62-96 | the relabelling of one more node extends the relabelled prefix by that node, renamed when its id matches |
| NodeHandlers.RenameEdgesSpec | src/hooks/useNodeHandlers.js:72-93 | edge ids and kinds are kept; an end on the old id moves to the new id and its handle `old-f` becomes the expansion of `new-` followed by `f`, which is `new-f` for a `$`-free label; edges not touching the old id are unchanged |
| NodeHandlers.RenameEdgesIdempotent | src/hooks/useNodeHandlers.js:62-97 | after a real rename, or one to a `$`-free label, rewriting the edges a second time for another node with the same id changes nothing more |
| NodeHandlers.RenameEdgesRepeat | src/hooks/useNodeHandlers.js:62-97 | under the same condition, one rewrite per matching node amounts to a single rewrite |
| NodeHandlers.RelabelWithoutDollar | src/hooks/useNodeHandlers.js:62-97 | for a `$`-free label the relabelling loop rewrites the edges exactly once when some node matches and not at all otherwise, and keeps every edge attached |
| NodeHandlers.RenameHandle | src/hooks/useNodeHandlers.js:77-89 | replacing the first `old-` turns handle `old-f` into the expansion of `new-` followed by `f`, and into `new-f` when the new id has no `$` |
| NodeHandlers.MoveKeepsAttached | src/hooks/useNodeHandlers.js:62-97 | renaming a node and moving its edges keeps every edge attached whenever the handle replacement expands to `new-` |
| NodeHandlers.RenameKeepsAttached | src/hooks/useNodeHandlers.js:62-97 | renaming an entity to a `$`-free label, together with its edge rewrite, leaves every edge attached |
| NodeHandlers.DollarLabelDetaches | src/hooks/useNodeHandlers.js:62-97 | as written: renaming node `T` with a self-edge on `T-f` to `a$$b` leaves the edge on handle `a$b-f`, which no node has |
| NodeHandlers.ExpansionDetaches | src/hooks/useNodeHandlers.js:62-97 | as written: whenever `new-` does not expand to itself, a one-field node with a self-edge comes loose on the rename |
| NodeHandlers.RenameFixedKeepsAttached | src/hooks/useNodeHandlers.js:62-97 | corrected, with the `$` of the new label escaped in the replacement: renaming to any label leaves every edge attached |
| NodeHandlers.RelabelledNodeExportsUnderPrefix | src/hooks/useNodeHandlers.js:65-69 | a renamed node of a known type exports as `TYPE_label`, which differs from its new id, so no edge aimed at the new id feeds it on export |
| NodeHandlers.SetAliasKeepsAttached | src/hooks/useNodeHandlers.js:104-112 | the target node gets the trimmed alias and every edge stays attached |
| NodeHandlers.RenameFieldInSpec | src/hooks/useNodeHandlers.js:131-146 | other fields are unchanged, fields with the old name get the new name, and after a real rename the old name is gone |
| NodeHandlers.RenameHandleEdgesSpec | src/hooks/useNodeHandlers.js:149-168 | endpoints and kinds are kept; each handle equal to the old handle becomes the new handle and every other handle stays; after a real rename no edge uses the old handle; edges off that handle are unchanged; an id without the old handle keeps its value |
| NodeHandlers.RenameFieldKeepsAttached | src/hooks/useNodeHandlers.js:127-168 | with dash-free node ids, renaming a field and moving its handle leaves every edge attached |
| NodeHandlers.DeleteFieldSpec | src/hooks/useNodeHandlers.js:175-197 | exactly the edges on the field's handle go; the field is gone from the node; every remaining edge stays attached |
| NodeHandlers.SetExpressionSpec | src/hooks/useNodeHandlers.js:204-222 | only the calculation's expression is set; field names, `ref` and `calculation.ref` are kept; every edge stays attached |
| NodeHandlers.NewTableNode | src/hooks/useNodeHandlers.js:233-246 | the new node's id decodes to the chosen type and the name, or is just the name for an unknown type; its label is the name, its alias is "", and it has no fields |
| NodeHandlers.AddTableKeepsAttached | src/hooks/useNodeHandlers.js:248 | appending the node keeps every edge attached, and a fresh id keeps the ids distinct |
| NodeHandlers.DeleteTableSpec | src/hooks/useNodeHandlers.js:267-279 | exactly the nodes with that id and the edges incident to it go, the id is gone, and every remaining edge stays attached |
| NodeHandlers.FlowState.constructor | src/hooks/useNodeHandlers.js:22-30 | the state holds the given nodes and edges |
| NodeHandlers.FlowState.AddField | src/hooks/useNodeHandlers.js:31-56 | no change for a blank name; otherwise the field addition as written (untrimmed check, trimmed name); edges unchanged and kept attached |
| NodeHandlers.FlowState.UpdateNodeLabel | src/hooks/useNodeHandlers.js:58-100 | no change for a blank label; otherwise matching nodes take the trimmed label as id and label and the edges are rewritten once per matching node; for a `$`-free label that is one rewrite when some node matched, and every edge stays attached |
| NodeHandlers.FlowState.UpdateNodeAlias | src/hooks/useNodeHandlers.js:102-115 | only the trimmed alias changes; edges untouched and kept attached |
| NodeHandlers.FlowState.UpdateFieldName | src/hooks/useNodeHandlers.js:117-171 | no change for a blank name or one equal to the old name after trimming; otherwise the field and its edges' handles move |
| NodeHandlers.FlowState.DeleteField | src/hooks/useNodeHandlers.js:173-200 | the field and exactly the edges on its handle are removed; edges stay attached |
| NodeHandlers.FlowState.UpdateFieldCalculation | src/hooks/useNodeHandlers.js:202-225 | the named fields get the new expression; edges untouched and kept attached |
| NodeHandlers.FlowState.AddNewTable | src/hooks/useNodeHandlers.js:227-263 | one node is appended, with type BASE by default; its id and position are returned |
| NodeHandlers.FlowState.DeleteTable | src/hooks/useNodeHandlers.js:265-282 | incident edges, then the node, are removed; edges stay attached |
| LegacyData.LegacyModelToFlow | src/data.js:4-71 | the legacy nodes, and exactly the same edges (count, ids, handles, kinds, animation) as the newer import |
| LegacyData.LegacyNodes | src/data.js:10-27 | one legacy node per entity, in order, at height 180·i |
| LegacyData.LegacyAgreesWithImport | src/data.js:10-27 | node by node, the legacy label is the full name (the newer node's id), the newer label is it stripped, and id, alias, fields and position agree |
| LegacyData.TypedViewOrCteIsFlagged | src/data.js:11 | every name typed CTE or VIEW by the newer import is flagged |
| LegacyData.SubstringFlagsBaseTable | src/data.js:11 | `BASE_CTE_X` is flagged although its type is BASE, because the test looks anywhere in the name |

## Left out

- Rendering, dialogs, hover styling and ReactFlow wiring are not part of this model: they only display the state.
- Edge `type` and `style` are styling and are not modelled. Only the `animated` flag is.
- Reading and parsing the JSON file and the export download are I/O. The document is a parameter and the export is a value.
- React's batching of state updates is not modelled: every updater is applied at once, in program order.
- `handleAddNewTable` also sets the editing node, label and alias. That is UI state and is not modelled.
- `generateUniqueTableName` and `calculateCenterPosition` are not shown. Their results are parameters of `AddNewTable`, and freshness of the name is a hypothesis of `AddTableKeepsAttached`.
- JavaScript's `Object.entries` puts integer-like keys first. The model keeps plain insertion order.
- Every node is assumed to have a `fields` array, so the `if (node.data.fields)` guard always holds.
- `ref_type` is limited to its two values, normal and calculation. Edges of any other kind are not modelled.
- Optional chaining on absent handles or ids (`?.replace`) is not modelled: handles and ids are always strings.
- A field added by `handleAddField` carries no record. The model gives it the empty record, which is what the export writes for it.
- `alias` is always a string on a node: `newAlias.trim()` on a non-string, which throws in JavaScript, is not modelled.
- NodeHandlers.RenameFieldKeepsAttached: assumes node ids contain no `-`, because a handle `a-b-c` could otherwise belong to two different (node, field) pairs.
- NodeHandlers.FlowState.UpdateFieldName: preserves `Attached` only under the same dash-free assumption.
- NodeHandlers.RenameKeepsAttached: holds only for labels without `$`, because `replace` expands `$` patterns in the new label (see "## Findings").
- NodeHandlers.FlowState.UpdateNodeLabel: keeps `Attached` only for labels without `$`, for the same reason.
- `handleAddNewTable` with an explicit `null` type is not modelled: the default `"BASE"` applies only to an omitted argument, which `None` stands for.

## Findings

| source | as written | input that shows it | evidently intended | confidence | as-written member | corrected member |
|---|---|---|---|---|---|---|
| src/hooks/useNodeHandlers.js:37-48 | the existence check compares field names with the untrimmed input, but the field added is the trimmed input | a node with field `id` and the input `" id"`: the check finds nothing and a second field `id` is added | the check compares the trimmed name, so field names stay unique | medium, not executed (the caller may trim first; it is not part of this model) | NodeHandlers.AddFieldDuplicatesName | NodeHandlers.AppendFieldKeepsNamesDistinct |
| src/hooks/useNodeHandlers.js:77-89 | the handles are rewritten by `replace` with the new label plus `-` as replacement text, which expands `$` patterns, while the node id takes the label literally | renaming node `T` with an edge on `T-f` to `a$$b`: the node id becomes `a$$b` and the handle `a$b-f` | the handle becomes `a$$b-f`, so every edge stays attached | medium, not executed (labels with `$` are unusual) | NodeHandlers.DollarLabelDetaches | NodeHandlers.RenameFixedKeepsAttached |
