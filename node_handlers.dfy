/**
 * The edit handlers of the canvas (`useNodeHandlers`): each one replaces the node list and/or
 * the edge list. The list rewrites are pure functions here; `FlowState` holds the two lists
 * and applies them, one method per handler, with each `setNodes`/`setEdges` updater run as an
 * immediate assignment.
 */
module NodeHandlers {
  import opened Wrappers
  import opened JsSemantics
  import opened Schema
  import opened Graph
  import opened DataTransform
  import opened FlowToModel

  // ---------------------------------------------------------------------------
  // updateNodeInNodes / updateFieldInFields

  /** `updateNodeInNodes(nodes, nodeId, update)`: `update` applied to every node with that id. */
  function UpdateNodes(nodes: seq<Node>, nodeId: string, update: Node -> Node): (r: seq<Node>)
    ensures |r| == |nodes|
    ensures forall i :: 0 <= i < |nodes| ==> r[i] == if nodes[i].id == nodeId then update(nodes[i]) else nodes[i]
  {
    seq(|nodes|, i requires 0 <= i < |nodes| => if nodes[i].id == nodeId then update(nodes[i]) else nodes[i])
  }

  /** `updateFieldInFields(fields, name, update)`: `update` applied to every field with that name. */
  function UpdateFields(fields: seq<Field>, name: string, update: Field -> Field): (r: seq<Field>)
    ensures |r| == |fields|
    ensures forall i :: 0 <= i < |fields| ==> r[i] == if fields[i].name == name then update(fields[i]) else fields[i]
  {
    seq(|fields|, i requires 0 <= i < |fields| => if fields[i].name == name then update(fields[i]) else fields[i])
  }

  /** Node ids that `getHandleId` can be split back at: no `-` in any of them. */
  predicate DashFreeIds(nodes: seq<Node>) {
    forall i :: 0 <= i < |nodes| ==> '-' !in nodes[i].id
  }

  // ---------------------------------------------------------------------------
  // handleAddField

  /** The node update of `handleAddField`: the existence test uses the name as typed, the new field the trimmed name. */
  function AddFieldToFields(node: Node, fieldName: string): Node {
    if fieldName in FieldNames(node.fields) then node
    else node.(fields := node.fields + [Field(Trim(fieldName), EmptyRecord)])
  }

  /** `handleAddField` on the node list. */
  function AddFieldNodes(nodes: seq<Node>, nodeId: string, fieldName: string): seq<Node> {
    UpdateNodes(nodes, nodeId, (n: Node) => AddFieldToFields(n, fieldName))
  }

  /**
   * As written, a name that differs from an existing field only by surrounding whitespace is
   * not recognised as existing, and its trimmed form duplicates that field.
   */
  lemma AddFieldDuplicatesName()
    ensures var node := Node("BASE_T", "T", "", [Field("id", EmptyRecord)], "BASE", Position(0, 0));
            FieldNames(AddFieldToFields(node, " id").fields) == ["id", "id"]
            && !Distinct(FieldNames(AddFieldToFields(node, " id").fields))
  {
    var node := Node("BASE_T", "T", "", [Field("id", EmptyRecord)], "BASE", Position(0, 0));
    assert FieldNames(node.fields) == ["id"];
    assert " id" != "id" by { assert |" id"| != |"id"|; }
    TrimOfPadded();
    PaddedNameAppended(node, " id", "id");
    var twice := FieldNames(AddFieldToFields(node, " id").fields);
    assert twice[0] == twice[1];
  }

  /** On a node whose only field is `name`, adding a padded form of `name` appends a second `name`. */
  lemma PaddedNameAppended(node: Node, typed: string, name: string)
    requires FieldNames(node.fields) == [name] && typed != name && Trim(typed) == name
    ensures FieldNames(AddFieldToFields(node, typed).fields) == [name, name]
  {
    var f := Field(name, EmptyRecord);
    assert AddFieldToFields(node, typed).fields == node.fields + [f];
    FieldNamesSnoc(node.fields, f);
  }

  /** `" id".trim()` is `"id"`. */
  lemma TrimOfPadded()
    ensures Trim(" id") == "id"
  {
    assert !IsJsWhitespace('i') && !IsJsWhitespace('d') && IsJsWhitespace(' ');
    assert " id"[1..] == "id";
    assert TrimStart("id") == "id";
    assert TrimStart(" id") == "id";
    assert TrimEnd("id") == "id";
  }

  /**
   * The node update as evidently intended, given the trimmed name: the existence check and
   * the new field use the same name.
   */
  function AppendField(node: Node, name: string): Node {
    if name in FieldNames(node.fields) then node
    else node.(fields := node.fields + [Field(name, EmptyRecord)])
  }

  /**
   * With the corrected check the node keeps its id and its fields, has the name afterwards,
   * and gains at most that name, at the end.
   */
  lemma AppendFieldSpec(node: Node, name: string)
    ensures var r := AppendField(node, name);
            && r.id == node.id && |node.fields| <= |r.fields| && r.fields[..|node.fields|] == node.fields
            && name in FieldNames(r.fields)
            && (FieldNames(r.fields) == FieldNames(node.fields) || FieldNames(r.fields) == FieldNames(node.fields) + [name])
  {
    if name !in FieldNames(node.fields) {
      FieldNamesSnoc(node.fields, Field(name, EmptyRecord));
      assert FieldNames(node.fields + [Field(name, EmptyRecord)])[|node.fields|] == name;
    }
  }

  /** With the corrected check, duplicate-free field names stay duplicate-free. */
  lemma AppendFieldKeepsNamesDistinct(node: Node, name: string)
    requires Distinct(FieldNames(node.fields))
    ensures Distinct(FieldNames(AppendField(node, name).fields))
  {
    if name !in FieldNames(node.fields) {
      FieldNamesSnoc(node.fields, Field(name, EmptyRecord));
      DistinctAppend(FieldNames(node.fields), name);
    }
  }

  /**
   * As written, a node keeps its id, its other attributes and its fields, and is left as it
   * is exactly when a field bears the name as typed; otherwise it gains one field with the
   * trimmed name and no data, at the end.
   */
  lemma AddFieldToFieldsSpec(node: Node, fieldName: string)
    ensures var r := AddFieldToFields(node, fieldName);
            && r == node.(fields := r.fields)
            && |node.fields| <= |r.fields| && r.fields[..|node.fields|] == node.fields
            && (r == node <==> fieldName in FieldNames(node.fields))
            && (r != node ==>
                  && r.fields == node.fields + [Field(Trim(fieldName), EmptyRecord)]
                  && FieldNames(r.fields) == FieldNames(node.fields) + [Trim(fieldName)])
  {
    if fieldName !in FieldNames(node.fields) {
      var f := Field(Trim(fieldName), EmptyRecord);
      FieldNamesSnoc(node.fields, f);
      assert |AddFieldToFields(node, fieldName).fields| != |node.fields|;
    }
  }

  /**
   * `handleAddField` on the node list keeps the ids and changes only the nodes with that id;
   * each of them keeps its fields and gains at most the trimmed name, at the end, and gains
   * nothing exactly when a field already bears the name as typed.
   */
  lemma AddFieldSpec(nodes: seq<Node>, nodeId: string, fieldName: string)
    ensures var r := AddFieldNodes(nodes, nodeId, fieldName);
            && Ids(r) == Ids(nodes)
            && (forall i :: 0 <= i < |nodes| && nodes[i].id != nodeId ==> r[i] == nodes[i])
            && (forall i :: 0 <= i < |nodes| && nodes[i].id == nodeId ==>
                  && r[i].fields[..|nodes[i].fields|] == nodes[i].fields
                  && (r[i] == nodes[i] <==> fieldName in FieldNames(nodes[i].fields))
                  && (FieldNames(r[i].fields) == FieldNames(nodes[i].fields)
                      || FieldNames(r[i].fields) == FieldNames(nodes[i].fields) + [Trim(fieldName)]))
  {
    var r := AddFieldNodes(nodes, nodeId, fieldName);
    forall i | 0 <= i < |nodes| ensures r[i].id == nodes[i].id {
      AddFieldToFieldsSpec(nodes[i], fieldName);
    }
    forall i | 0 <= i < |nodes| && nodes[i].id == nodeId
      ensures && r[i].fields[..|nodes[i].fields|] == nodes[i].fields
              && (r[i] == nodes[i] <==> fieldName in FieldNames(nodes[i].fields))
              && (FieldNames(r[i].fields) == FieldNames(nodes[i].fields)
                  || FieldNames(r[i].fields) == FieldNames(nodes[i].fields) + [Trim(fieldName)])
    {
      AddFieldToFieldsSpec(nodes[i], fieldName);
    }
  }

  /** On a name that is already trimmed, the code as written and the corrected update agree. */
  lemma AddFieldAgreesWhenTrimmed(node: Node, fieldName: string)
    requires Trim(fieldName) == fieldName
    ensures AddFieldToFields(node, fieldName) == AppendField(node, fieldName)
  {
    var f := Field(Trim(fieldName), EmptyRecord);
    assert f == Field(fieldName, EmptyRecord);
  }

  /** The corrected `handleAddField` on the node list, given the trimmed name. */
  function AddFieldNodesFixed(nodes: seq<Node>, nodeId: string, name: string): seq<Node> {
    UpdateNodes(nodes, nodeId, (n: Node) => AppendField(n, name))
  }

  /**
   * With the corrected check, every node with that id ends up with the name among its
   * fields, keeps its field names duplicate-free, and no other node changes.
   */
  lemma AddFieldFixedSpec(nodes: seq<Node>, nodeId: string, name: string)
    ensures var r := AddFieldNodesFixed(nodes, nodeId, name);
            && Ids(r) == Ids(nodes)
            && (forall i :: 0 <= i < |nodes| && nodes[i].id != nodeId ==> r[i] == nodes[i])
            && (forall i :: 0 <= i < |nodes| && nodes[i].id == nodeId ==> name in FieldNames(r[i].fields))
            && (forall i :: 0 <= i < |nodes| && Distinct(FieldNames(nodes[i].fields)) ==> Distinct(FieldNames(r[i].fields)))
  {
    var r := AddFieldNodesFixed(nodes, nodeId, name);
    forall i | 0 <= i < |nodes| && nodes[i].id == nodeId ensures name in FieldNames(r[i].fields) {
      AppendFieldSpec(nodes[i], name);
    }
    forall i | 0 <= i < |nodes| && Distinct(FieldNames(nodes[i].fields)) ensures Distinct(FieldNames(r[i].fields)) {
      AppendFieldKeepsNamesDistinct(nodes[i], name);
    }
  }

  /** Adding a field, as written, keeps every id and every existing field, so no edge comes loose. */
  lemma AddFieldKeepsAttached(nodes: seq<Node>, edges: seq<Edge>, nodeId: string, fieldName: string)
    requires Attached(nodes, edges)
    ensures Attached(AddFieldNodes(nodes, nodeId, fieldName), edges)
  {
    var r := AddFieldNodes(nodes, nodeId, fieldName);
    forall i, j | 0 <= i < |nodes| && 0 <= j < |nodes[i].fields|
      ensures HandleOn(r, nodes[i].id, HandleId(nodes[i].id, nodes[i].fields[j].name))
    {
      if nodes[i].id == nodeId {
        AddFieldToFieldsSpec(nodes[i], fieldName);
        assert r[i].fields[j] == r[i].fields[..|nodes[i].fields|][j];
      }
      HandleOnAt(r, i, j);
    }
    AttachedKept(nodes, r, edges);
  }

  // ---------------------------------------------------------------------------
  // handleUpdateNodeLabel

  /** The node update of `handleUpdateNodeLabel`: id and display name both become the new label. */
  function RelabelNodes(nodes: seq<Node>, nodeId: string, caption: string): seq<Node> {
    UpdateNodes(nodes, nodeId, (n: Node) => n.(id := caption, displayName := caption))
  }

  /** The number of nodes with id `id`. */
  function CountId(nodes: seq<Node>, id: string): (r: nat)
    ensures r > 0 <==> id in Ids(nodes)
  {
    if nodes == [] then 0
    else
      var init := nodes[..|nodes| - 1];
      assert Ids(nodes) == Ids(init) + [nodes[|nodes| - 1].id];
      CountId(init, id) + if nodes[|nodes| - 1].id == id then 1 else 0
  }

  /** One more node through the relabelling. */
  lemma RelabelStep(ns: seq<Node>, i: nat, nodeId: string, caption: string)
    requires i < |ns|
    ensures RelabelNodes(ns[..i + 1], nodeId, caption)
            == RelabelNodes(ns[..i], nodeId, caption) + [if ns[i].id == nodeId then ns[i].(id := caption, displayName := caption) else ns[i]]
    ensures CountId(ns[..i + 1], nodeId) == CountId(ns[..i], nodeId) + if ns[i].id == nodeId then 1 else 0
  {
    assert ns[..i + 1][..i] == ns[..i];
  }

  /**
   * One end of an edge moved from node `oldId` to node `newId`: the endpoint, and the handle
   * with its first `oldId-` replaced by `repl`.
   */
  function MoveEdge(e: Edge, oldId: string, newId: string, repl: string): Edge {
    var e1 := if e.source == oldId
              then e.(source := newId, sourceHandle := ReplaceFirst(e.sourceHandle, oldId + "-", repl))
              else e;
    if e.target == oldId
    then e1.(target := newId, targetHandle := ReplaceFirst(e1.targetHandle, oldId + "-", repl))
    else e1
  }

  /** Every edge moved from node `oldId` to node `newId`, with `repl` as the handle replacement. */
  function MoveEdges(edges: seq<Edge>, oldId: string, newId: string, repl: string): (r: seq<Edge>)
    ensures |r| == |edges|
    ensures forall i :: 0 <= i < |edges| ==> r[i] == MoveEdge(edges[i], oldId, newId, repl)
  {
    seq(|edges|, i requires 0 <= i < |edges| => MoveEdge(edges[i], oldId, newId, repl))
  }

  /** The edge rewrite `handleUpdateNodeLabel` runs for a renamed node: handles `replace` their `oldId-` by `newId-`. */
  function RenameEdges(edges: seq<Edge>, oldId: string, newId: string): seq<Edge> {
    MoveEdges(edges, oldId, newId, newId + "-")
  }

  /**
   * `replace` rewrites a handle `oldId-f` to the expansion of `newId-` followed by `f`,
   * which is `newId-f` when the new id has no `$`.
   */
  lemma RenameHandle(oldId: string, newId: string, f: string)
    ensures ReplaceFirst(HandleId(oldId, f), oldId + "-", newId + "-") == Substitute(newId + "-", oldId + "-", "", f) + f
    ensures '$' !in newId ==> ReplaceFirst(HandleId(oldId, f), oldId + "-", newId + "-") == HandleId(newId, f)
  {
    assert HandleId(oldId, f) == (oldId + "-") + f;
    ReplaceFirstAtStart(oldId + "-", f, newId + "-");
    if '$' !in newId {
      assert '$' !in newId + "-";
      SubstituteLiteral(newId + "-", oldId + "-", "", f);
    }
  }

  /**
   * The rewrite keeps edge ids and kinds; the ends on `oldId` move to `newId` and the other
   * ends stay; a handle `oldId-f` on a moved end becomes the expansion of `newId-` followed by
   * `f`, and so `newId-f` when the new id has no `$`; edges not touching `oldId` are unchanged.
   */
  lemma RenameEdgesSpec(edges: seq<Edge>, oldId: string, newId: string)
    ensures forall i :: 0 <= i < |edges| ==>
              && RenameEdges(edges, oldId, newId)[i].id == edges[i].id
              && RenameEdges(edges, oldId, newId)[i].refType == edges[i].refType
              && RenameEdges(edges, oldId, newId)[i].source == (if edges[i].source == oldId then newId else edges[i].source)
              && RenameEdges(edges, oldId, newId)[i].target == (if edges[i].target == oldId then newId else edges[i].target)
    ensures forall i, f :: 0 <= i < |edges| && edges[i].source == oldId && edges[i].sourceHandle == HandleId(oldId, f) ==>
              RenameEdges(edges, oldId, newId)[i].sourceHandle == Substitute(newId + "-", oldId + "-", "", f) + f
    ensures forall i, f :: 0 <= i < |edges| && edges[i].target == oldId && edges[i].targetHandle == HandleId(oldId, f) ==>
              RenameEdges(edges, oldId, newId)[i].targetHandle == Substitute(newId + "-", oldId + "-", "", f) + f
    ensures '$' !in newId ==>
              forall i, f :: 0 <= i < |edges| && edges[i].source == oldId && edges[i].sourceHandle == HandleId(oldId, f) ==>
                RenameEdges(edges, oldId, newId)[i].sourceHandle == HandleId(newId, f)
    ensures '$' !in newId ==>
              forall i, f :: 0 <= i < |edges| && edges[i].target == oldId && edges[i].targetHandle == HandleId(oldId, f) ==>
                RenameEdges(edges, oldId, newId)[i].targetHandle == HandleId(newId, f)
    ensures forall i :: 0 <= i < |edges| && edges[i].source != oldId && edges[i].target != oldId ==>
              RenameEdges(edges, oldId, newId)[i] == edges[i]
  {
    forall f {
      RenameHandle(oldId, newId, f);
    }
  }

  /**
   * After a real rename, or one to a name without `$`, running the edge rewrite again changes
   * nothing more.
   */
  lemma RenameEdgesIdempotent(edges: seq<Edge>, oldId: string, newId: string)
    requires oldId != newId || '$' !in newId
    ensures RenameEdges(RenameEdges(edges, oldId, newId), oldId, newId) == RenameEdges(edges, oldId, newId)
  {
    var r := RenameEdges(edges, oldId, newId);
    forall i | 0 <= i < |edges| ensures MoveEdge(r[i], oldId, newId, newId + "-") == r[i] {
      if oldId == newId {
        assert '$' !in oldId + "-";
        ReplaceFirstSelf(edges[i].sourceHandle, oldId + "-");
        ReplaceFirstSelf(edges[i].targetHandle, oldId + "-");
        ReplaceFirstSelf(r[i].sourceHandle, oldId + "-");
        ReplaceFirstSelf(r[i].targetHandle, oldId + "-");
      }
    }
  }

  /** The edge rewrite run `k` times: once per node that carries the old id. */
  function RenameEdgesTimes(edges: seq<Edge>, oldId: string, newId: string, k: nat): seq<Edge>
    decreases k
  {
    if k == 0 then edges else RenameEdges(RenameEdgesTimes(edges, oldId, newId, k - 1), oldId, newId)
  }

  /** One more rewrite. */
  lemma RenameEdgesTimesStep(edges: seq<Edge>, oldId: string, newId: string, k: nat)
    ensures RenameEdgesTimes(edges, oldId, newId, k + 1) == RenameEdges(RenameEdgesTimes(edges, oldId, newId, k), oldId, newId)
  {
  }

  /** For a real rename, or one to a name without `$`, rewriting several times is rewriting once. */
  lemma {:induction false} RenameEdgesRepeat(edges: seq<Edge>, oldId: string, newId: string, k: nat)
    requires k > 0 && (oldId != newId || '$' !in newId)
    ensures RenameEdgesTimes(edges, oldId, newId, k) == RenameEdges(edges, oldId, newId)
    decreases k
  {
    if k > 1 {
      RenameEdgesRepeat(edges, oldId, newId, k - 1);
      RenameEdgesIdempotent(edges, oldId, newId);
    }
  }

  /**
   * Renaming a node and moving its edges leaves no edge dangling, provided the replacement
   * expands to `newId-` whatever follows the match.
   */
  lemma MoveKeepsAttached(nodes: seq<Node>, edges: seq<Edge>, oldId: string, newId: string, repl: string)
    requires Attached(nodes, edges)
    requires forall f :: Substitute(repl, oldId + "-", "", f) == newId + "-"
    ensures Attached(RelabelNodes(nodes, oldId, newId), MoveEdges(edges, oldId, newId, repl))
  {
    var ns := RelabelNodes(nodes, oldId, newId);
    var es := MoveEdges(edges, oldId, newId, repl);
    forall e' | e' in es ensures HandleOn(ns, e'.source, e'.sourceHandle) && HandleOn(ns, e'.target, e'.targetHandle) {
      var k :| 0 <= k < |es| && es[k] == e';
      var e := edges[k];
      assert e in edges;
      var i, j := HandleOnIndex(nodes, e.source, e.sourceHandle);
      var a, b := HandleOnIndex(nodes, e.target, e.targetHandle);
      assert ns[i].fields == nodes[i].fields && ns[a].fields == nodes[a].fields;
      if e.source == oldId {
        MovedHandle(oldId, newId, repl, nodes[i].fields[j].name);
      }
      HandleOnAt(ns, i, j);
      if e.target == oldId {
        MovedHandle(oldId, newId, repl, nodes[a].fields[b].name);
      }
      HandleOnAt(ns, a, b);
    }
  }

  /** A handle `oldId-f` rewritten with a replacement that expands to `newId-` is `newId-f`. */
  lemma MovedHandle(oldId: string, newId: string, repl: string, f: string)
    requires Substitute(repl, oldId + "-", "", f) == newId + "-"
    ensures ReplaceFirst(HandleId(oldId, f), oldId + "-", repl) == HandleId(newId, f)
  {
    assert HandleId(oldId, f) == (oldId + "-") + f;
    ReplaceFirstAtStart(oldId + "-", f, repl);
  }

  /** Renaming a node to a label without `$` and rewriting its edges leaves no edge dangling. */
  lemma RenameKeepsAttached(nodes: seq<Node>, edges: seq<Edge>, oldId: string, newId: string)
    requires Attached(nodes, edges) && '$' !in newId
    ensures Attached(RelabelNodes(nodes, oldId, newId), RenameEdges(edges, oldId, newId))
  {
    assert '$' !in newId + "-";
    forall f ensures Substitute(newId + "-", oldId + "-", "", f) == newId + "-" {
      SubstituteLiteral(newId + "-", oldId + "-", "", f);
    }
    MoveKeepsAttached(nodes, edges, oldId, newId, newId + "-");
  }

  /** What the relabelling loop leaves, with and without `$` in the label. */
  lemma RelabelOutcome(nodes: seq<Node>, edges: seq<Edge>, nodeId: string, caption: string)
    ensures '$' !in caption ==>
              RenameEdgesTimes(edges, nodeId, caption, CountId(nodes, nodeId))
              == if nodeId in Ids(nodes) then RenameEdges(edges, nodeId, caption) else edges
    ensures '$' !in caption && Attached(nodes, edges) ==>
              Attached(RelabelNodes(nodes, nodeId, caption), RenameEdgesTimes(edges, nodeId, caption, CountId(nodes, nodeId)))
  {
    if '$' !in caption {
      RelabelWithoutDollar(nodes, edges, nodeId, caption);
    }
  }

  /**
   * The relabelling loop with a `$`-free label: its repeated edge rewrites amount to one
   * rewrite (none when no node has the id), and no edge comes loose.
   */
  lemma RelabelWithoutDollar(nodes: seq<Node>, edges: seq<Edge>, nodeId: string, caption: string)
    requires '$' !in caption
    ensures RenameEdgesTimes(edges, nodeId, caption, CountId(nodes, nodeId))
            == if nodeId in Ids(nodes) then RenameEdges(edges, nodeId, caption) else edges
    ensures Attached(nodes, edges) ==>
              Attached(RelabelNodes(nodes, nodeId, caption), RenameEdgesTimes(edges, nodeId, caption, CountId(nodes, nodeId)))
  {
    if nodeId in Ids(nodes) {
      RenameEdgesRepeat(edges, nodeId, caption, CountId(nodes, nodeId));
      if Attached(nodes, edges) {
        RenameKeepsAttached(nodes, edges, nodeId, caption);
      }
    } else {
      assert RelabelNodes(nodes, nodeId, caption) == nodes;
    }
  }

  /**
   * As written, a label with `$$` detaches the edges: `replace` expands the `$$` of the
   * replacement, so the handle `T-f` becomes `a$b-f` while the node's id becomes `a$$b`.
   */
  lemma DollarLabelDetaches()
    ensures var nodes := [Node("T", "T", "", [Field("f", EmptyRecord)], "BASE", Position(0, 0))];
            var edges := [Edge("ref-T.f->T.f", NormalRef, "T", "T", "T-f", "T-f", true)];
            && Attached(nodes, edges)
            && !Attached(RelabelNodes(nodes, "T", "a$$b"), RenameEdges(edges, "T", "a$$b"))
  {
    DoubleDollarExpands();
    assert "a$$b" + "-" == "a$$b-" && "T" + "-" == "T-" && HandleId("T", "f") == "T-f";
    assert |"a$b-"| != |"a$$b-"|;
    ExpansionDetaches("T", "a$$b", "f", "ref-T.f->T.f", "BASE");
  }

  /**
   * A self-referencing node with one field comes loose on a rename whenever the replacement
   * `newId-` does not expand to itself.
   */
  lemma ExpansionDetaches(oldId: string, newId: string, f: string, edgeId: string, tableType: string)
    requires Substitute(newId + "-", oldId + "-", "", f) != newId + "-"
    ensures var nodes := [Node(oldId, oldId, "", [Field(f, EmptyRecord)], tableType, Position(0, 0))];
            var edges := [Edge(edgeId, NormalRef, oldId, oldId, HandleId(oldId, f), HandleId(oldId, f), true)];
            && Attached(nodes, edges)
            && !Attached(RelabelNodes(nodes, oldId, newId), RenameEdges(edges, oldId, newId))
  {
    var nodes := [Node(oldId, oldId, "", [Field(f, EmptyRecord)], tableType, Position(0, 0))];
    var edges := [Edge(edgeId, NormalRef, oldId, oldId, HandleId(oldId, f), HandleId(oldId, f), true)];
    HandleOnAt(nodes, 0, 0);
    var ns := RelabelNodes(nodes, oldId, newId);
    var es := RenameEdges(edges, oldId, newId);
    RenameHandle(oldId, newId, f);
    var moved := Substitute(newId + "-", oldId + "-", "", f) + f;
    assert es[0].source == newId && es[0].sourceHandle == moved;
    assert |ns| == 1 && ns[0].fields == [Field(f, EmptyRecord)];
    assert !HandleOn(ns, newId, moved) by {
      forall n, g | n in ns && g in n.fields ensures HandleId(newId, g.name) != moved {
        assert g.name == f;
        var h := HandleId(newId, f);
        assert moved[..|moved| - |f|] == Substitute(newId + "-", oldId + "-", "", f);
        assert h[..|h| - |f|] == newId + "-";
      }
    }
    assert es[0] in es;
  }

  /** `replace` expands the replacement `a$$b-` of `T-` to `a$b-`. */
  lemma DoubleDollarExpands()
    ensures Substitute("a$$b-", "T-", "", "f") == "a$b-"
  {
    var q := "a$$b-";
    assert q[1..] == "$$b-" && q[1..][2..] == "b-" && q[1..][2..][1..] == "-" && q[1..][2..][1..][1..] == "";
    assert Substitute("-", "T-", "", "f") == "-";
    assert Substitute("b-", "T-", "", "f") == "b-";
    assert Substitute("$$b-", "T-", "", "f") == "$b-";
  }

  /** The corrected edge rewrite: the new id with its `$` escaped, so it is inserted literally. */
  function RenameEdgesFixed(edges: seq<Edge>, oldId: string, newId: string): seq<Edge> {
    MoveEdges(edges, oldId, newId, EscapeDollars(newId + "-"))
  }

  /** With the corrected rewrite, renaming a node to any label leaves no edge dangling. */
  lemma RenameFixedKeepsAttached(nodes: seq<Node>, edges: seq<Edge>, oldId: string, newId: string)
    requires Attached(nodes, edges)
    ensures Attached(RelabelNodes(nodes, oldId, newId), RenameEdgesFixed(edges, oldId, newId))
  {
    forall f ensures Substitute(EscapeDollars(newId + "-"), oldId + "-", "", f) == newId + "-" {
      SubstituteEscaped(newId + "-", oldId + "-", "", f);
    }
    MoveKeepsAttached(nodes, edges, oldId, newId, EscapeDollars(newId + "-"));
  }

  /**
   * The new id is the bare label, not re-prefixed: a renamed node of a known type exports under
   * `TYPE_label`, which is not its id, so no rewritten edge (whose target is the bare label)
   * feeds any of its fields on export.
   */
  lemma RelabelledNodeExportsUnderPrefix(node: Node, caption: string, kind: RefType, fieldName: string)
    requires caption != "" && !HasTablePrefix(caption) && IsTableType(Some(TableTypeOf(node)))
    ensures var renamed := node.(id := caption, displayName := caption);
            && EntityName(renamed) == TableTypeOf(node) + "_" + caption
            && EntityName(renamed) != renamed.id
            && forall e: Edge :: e.target == caption ==> !Feeds(kind, EntityName(renamed), fieldName, e)
  {
    var renamed := node.(id := caption, displayName := caption);
    assert TableTypeOf(renamed) == TableTypeOf(node);
    var r := EntityName(renamed);
    PrefixRoundTrip(r);
    assert |r| > |caption|;
  }

  // ---------------------------------------------------------------------------
  // handleUpdateNodeAlias

  /** The node update of `handleUpdateNodeAlias`. */
  function SetAliasNodes(nodes: seq<Node>, nodeId: string, alias: string): seq<Node> {
    UpdateNodes(nodes, nodeId, (n: Node) => n.(alias := Trim(alias)))
  }

  /** Setting an alias touches nothing an edge depends on, and the alias it stores is trimmed. */
  lemma SetAliasKeepsAttached(nodes: seq<Node>, edges: seq<Edge>, nodeId: string, alias: string)
    requires Attached(nodes, edges)
    ensures Attached(SetAliasNodes(nodes, nodeId, alias), edges)
    ensures forall n :: n in SetAliasNodes(nodes, nodeId, alias) && n.id == nodeId ==> n.alias == Trim(alias)
  {
    var r := SetAliasNodes(nodes, nodeId, alias);
    forall i, j | 0 <= i < |nodes| && 0 <= j < |nodes[i].fields|
      ensures HandleOn(r, nodes[i].id, HandleId(nodes[i].id, nodes[i].fields[j].name))
    {
      HandleOnAt(r, i, j);
    }
    AttachedKept(nodes, r, edges);
  }

  // ---------------------------------------------------------------------------
  // handleUpdateFieldName

  /** The field update: every field called `oldName` becomes a copy of the first one, renamed. */
  function RenameFieldIn(fields: seq<Field>, oldName: string, newName: string): seq<Field> {
    match FindIndex(fields, (f: Field) => f.name == oldName)
    case None => fields
    case Some(k) => UpdateFields(fields, oldName, (_: Field) => Field(newName, fields[k].data))
  }

  /** The node update of `handleUpdateFieldName`. */
  function RenameFieldNodes(nodes: seq<Node>, nodeId: string, oldName: string, newName: string): seq<Node> {
    UpdateNodes(nodes, nodeId, (n: Node) => n.(fields := RenameFieldIn(n.fields, oldName, newName)))
  }

  /** One edge moved from handle `oldHandle` to `newHandle`, with the first `oldHandle` in its id replaced per moved end. */
  function RenameHandleEdge(e: Edge, oldHandle: string, newHandle: string): Edge {
    var e1 := if e.sourceHandle == oldHandle
              then e.(sourceHandle := newHandle, id := ReplaceFirst(e.id, oldHandle, newHandle))
              else e;
    if e.targetHandle == oldHandle
    then e1.(targetHandle := newHandle, id := ReplaceFirst(e1.id, oldHandle, newHandle))
    else e1
  }

  /** The edge rewrite of `handleUpdateFieldName`. */
  function RenameHandleEdges(edges: seq<Edge>, oldHandle: string, newHandle: string): (r: seq<Edge>)
    ensures |r| == |edges|
    ensures forall i :: 0 <= i < |edges| ==> r[i] == RenameHandleEdge(edges[i], oldHandle, newHandle)
  {
    seq(|edges|, i requires 0 <= i < |edges| => RenameHandleEdge(edges[i], oldHandle, newHandle))
  }

  /**
   * The rewrite keeps every edge's endpoints and kind; each handle equal to the old handle
   * becomes the new handle and every other handle stays; afterwards no edge uses the old handle
   * (when it changed); edges not on the old handle are untouched; and an id that does not
   * contain the old handle (the `E.f` form that the import writes, for dash-free names) is left
   * as it was.
   */
  lemma RenameHandleEdgesSpec(edges: seq<Edge>, oldHandle: string, newHandle: string)
    ensures forall i :: 0 <= i < |edges| ==>
              && RenameHandleEdges(edges, oldHandle, newHandle)[i].source == edges[i].source
              && RenameHandleEdges(edges, oldHandle, newHandle)[i].target == edges[i].target
              && RenameHandleEdges(edges, oldHandle, newHandle)[i].refType == edges[i].refType
              && RenameHandleEdges(edges, oldHandle, newHandle)[i].sourceHandle
                 == (if edges[i].sourceHandle == oldHandle then newHandle else edges[i].sourceHandle)
              && RenameHandleEdges(edges, oldHandle, newHandle)[i].targetHandle
                 == (if edges[i].targetHandle == oldHandle then newHandle else edges[i].targetHandle)
    ensures oldHandle != newHandle ==>
              forall e :: e in RenameHandleEdges(edges, oldHandle, newHandle) ==>
                e.sourceHandle != oldHandle && e.targetHandle != oldHandle
    ensures forall i :: 0 <= i < |edges| && edges[i].sourceHandle != oldHandle && edges[i].targetHandle != oldHandle ==>
              RenameHandleEdges(edges, oldHandle, newHandle)[i] == edges[i]
    ensures forall i :: 0 <= i < |edges| && !Includes(edges[i].id, oldHandle) ==>
              RenameHandleEdges(edges, oldHandle, newHandle)[i].id == edges[i].id
  {
    forall i | 0 <= i < |edges| && !Includes(edges[i].id, oldHandle)
      ensures RenameHandleEdges(edges, oldHandle, newHandle)[i].id == edges[i].id
    {
      IncludesIffIndexOf(edges[i].id, oldHandle);
    }
  }

  /** The fields after a rename: those not called `oldName` stay, and `newName` is present when `oldName` was. */
  lemma RenameFieldInSpec(fields: seq<Field>, oldName: string, newName: string)
    ensures |RenameFieldIn(fields, oldName, newName)| == |fields|
    ensures forall j :: 0 <= j < |fields| && fields[j].name != oldName ==> RenameFieldIn(fields, oldName, newName)[j] == fields[j]
    ensures forall j :: 0 <= j < |fields| && fields[j].name == oldName ==> RenameFieldIn(fields, oldName, newName)[j].name == newName
    ensures oldName != newName ==> oldName !in FieldNames(RenameFieldIn(fields, oldName, newName))
  {
  }

  /**
   * With dash-free node ids, renaming a field of a dash-free node and moving its handle leaves
   * no edge dangling.
   */
  lemma RenameFieldKeepsAttached(nodes: seq<Node>, edges: seq<Edge>, nodeId: string, oldName: string, newName: string)
    requires Attached(nodes, edges) && DashFreeIds(nodes) && '-' !in nodeId
    ensures Attached(RenameFieldNodes(nodes, nodeId, oldName, newName),
                     RenameHandleEdges(edges, HandleId(nodeId, oldName), HandleId(nodeId, newName)))
  {
    var oldH, newH := HandleId(nodeId, oldName), HandleId(nodeId, newName);
    var ns := RenameFieldNodes(nodes, nodeId, oldName, newName);
    var es := RenameHandleEdges(edges, oldH, newH);
    forall e' | e' in es ensures HandleOn(ns, e'.source, e'.sourceHandle) && HandleOn(ns, e'.target, e'.targetHandle) {
      var k :| 0 <= k < |es| && es[k] == e';
      var e := edges[k];
      assert e in edges;
      var i, j := HandleOnIndex(nodes, e.source, e.sourceHandle);
      RenameFieldEnd(nodes, nodeId, oldName, newName, i, j, e.sourceHandle);
      var a, b := HandleOnIndex(nodes, e.target, e.targetHandle);
      RenameFieldEnd(nodes, nodeId, oldName, newName, a, b, e.targetHandle);
    }
  }

  /** One end of an attached edge, before and after a field rename. */
  lemma RenameFieldEnd(nodes: seq<Node>, nodeId: string, oldName: string, newName: string, i: nat, j: nat, handle: string)
    requires DashFreeIds(nodes) && '-' !in nodeId
    requires i < |nodes| && j < |nodes[i].fields| && handle == HandleId(nodes[i].id, nodes[i].fields[j].name)
    ensures var oldH := HandleId(nodeId, oldName);
            HandleOn(RenameFieldNodes(nodes, nodeId, oldName, newName), nodes[i].id,
                     if handle == oldH then HandleId(nodeId, newName) else handle)
  {
    var ns := RenameFieldNodes(nodes, nodeId, oldName, newName);
    var n := nodes[i];
    var f := n.fields[j];
    RenameFieldInSpec(n.fields, oldName, newName);
    if handle == HandleId(nodeId, oldName) {
      HandleIdUnique(n.id, f.name, nodeId, oldName);
      assert ns[i].fields[j].name == newName;
    } else if n.id == nodeId {
      assert f.name != oldName;
      assert ns[i].fields[j] == f;
    } else {
      assert ns[i] == n;
    }
    HandleOnAt(ns, i, j);
  }

  // ---------------------------------------------------------------------------
  // handleDeleteField

  /** The node update of `handleDeleteField`. */
  function DeleteFieldNodes(nodes: seq<Node>, nodeId: string, fieldName: string): seq<Node> {
    UpdateNodes(nodes, nodeId, (n: Node) => n.(fields := Filter(n.fields, (f: Field) => f.name != fieldName)))
  }

  /** The edge filter of `handleDeleteField`. */
  function DeleteFieldEdges(edges: seq<Edge>, handle: string): seq<Edge> {
    Filter(edges, (e: Edge) => e.sourceHandle != handle && e.targetHandle != handle)
  }

  /**
   * Deleting a field removes exactly the edges on its handle, keeps the others in their order,
   * removes the field from the node, and leaves no edge dangling.
   */
  lemma DeleteFieldSpec(nodes: seq<Node>, edges: seq<Edge>, nodeId: string, fieldName: string)
    requires Attached(nodes, edges)
    ensures var h := HandleId(nodeId, fieldName);
            forall e :: e in DeleteFieldEdges(edges, h) <==> e in edges && e.sourceHandle != h && e.targetHandle != h
    ensures forall n :: n in DeleteFieldNodes(nodes, nodeId, fieldName) && n.id == nodeId ==> fieldName !in FieldNames(n.fields)
    ensures Attached(DeleteFieldNodes(nodes, nodeId, fieldName), DeleteFieldEdges(edges, HandleId(nodeId, fieldName)))
  {
    var h := HandleId(nodeId, fieldName);
    var ns := DeleteFieldNodes(nodes, nodeId, fieldName);
    var es := DeleteFieldEdges(edges, h);
    forall n | n in ns && n.id == nodeId ensures fieldName !in FieldNames(n.fields) {
      var p := (f: Field) => f.name != fieldName;
      forall j | 0 <= j < |n.fields| ensures FieldNames(n.fields)[j] != fieldName {
        var k :| 0 <= k < |ns| && ns[k] == n;
        assert n.fields == Filter(nodes[k].fields, p);
        assert n.fields[j] in Filter(nodes[k].fields, p);
      }
    }
    forall e | e in es ensures HandleOn(ns, e.source, e.sourceHandle) && HandleOn(ns, e.target, e.targetHandle) {
      DeleteFieldEnd(nodes, nodeId, fieldName, e.source, e.sourceHandle);
      DeleteFieldEnd(nodes, nodeId, fieldName, e.target, e.targetHandle);
    }
  }

  /** A handle other than the deleted one survives the field deletion. */
  lemma DeleteFieldEnd(nodes: seq<Node>, nodeId: string, fieldName: string, id: string, handle: string)
    requires HandleOn(nodes, id, handle) && handle != HandleId(nodeId, fieldName)
    ensures HandleOn(DeleteFieldNodes(nodes, nodeId, fieldName), id, handle)
  {
    var ns := DeleteFieldNodes(nodes, nodeId, fieldName);
    var i, j := HandleOnIndex(nodes, id, handle);
    var f := nodes[i].fields[j];
    if nodes[i].id == nodeId {
      var p := (f: Field) => f.name != fieldName;
      assert p(f);
      assert f in ns[i].fields;
      var j' :| 0 <= j' < |ns[i].fields| && ns[i].fields[j'] == f;
      HandleOnAt(ns, i, j');
    } else {
      HandleOnAt(ns, i, j);
    }
  }

  // ---------------------------------------------------------------------------
  // handleUpdateFieldCalculation

  /** The field update: `calculation: { ...field.calculation, expression }`. */
  function SetExpressionField(f: Field, expression: string): Field {
    var keptRef := if f.data.calculation.Some? then f.data.calculation.value.ref else None;
    f.(data := f.data.(calculation := Some(Calculation(Some(expression), keptRef))))
  }

  /** The node update of `handleUpdateFieldCalculation`. */
  function SetExpressionNodes(nodes: seq<Node>, nodeId: string, fieldName: string, expression: string): seq<Node> {
    UpdateNodes(nodes, nodeId, (n: Node) => n.(fields := UpdateFields(n.fields, fieldName, (f: Field) => SetExpressionField(f, expression))))
  }

  /**
   * Setting an expression changes only the calculation of the named field: its expression is
   * set, its pointers and everything else are kept, so no edge comes loose.
   */
  lemma SetExpressionSpec(nodes: seq<Node>, edges: seq<Edge>, nodeId: string, fieldName: string, expression: string)
    requires Attached(nodes, edges)
    ensures Attached(SetExpressionNodes(nodes, nodeId, fieldName, expression), edges)
    ensures forall f :: SetExpressionField(f, expression).name == f.name
                     && SetExpressionField(f, expression).data.ref == f.data.ref
                     && CalcRefsOf(SetExpressionField(f, expression).data) == CalcRefsOf(f.data)
                     && SetExpressionField(f, expression).data.calculation.value.expression == Some(expression)
  {
    var r := SetExpressionNodes(nodes, nodeId, fieldName, expression);
    forall i, j | 0 <= i < |nodes| && 0 <= j < |nodes[i].fields|
      ensures HandleOn(r, nodes[i].id, HandleId(nodes[i].id, nodes[i].fields[j].name))
    {
      assert r[i].fields[j].name == nodes[i].fields[j].name;
      HandleOnAt(r, i, j);
    }
    AttachedKept(nodes, r, edges);
  }

  // ---------------------------------------------------------------------------
  // handleAddNewTable

  /** The node `handleAddNewTable` appends for a fresh name, a type and a position. */
  function NewTableNode(tableName: string, tableType: string, position: Position): (r: Node)
    ensures IsTableType(Some(tableType)) ==>
              ExtractTableType(r.id) == Some(tableType) && RemoveTablePrefix(r.id) == tableName
    ensures !IsTableType(Some(tableType)) ==> r.id == tableName
    ensures r.displayName == tableName && r.alias == "" && r.fields == [] && r.tableType == tableType
  {
    Node(AddTablePrefix(tableName, Some(tableType)), tableName, "", [], tableType, position)
  }

  /** The new node has no fields, so the edges stay attached; a fresh id keeps the ids distinct. */
  lemma AddTableKeepsAttached(nodes: seq<Node>, edges: seq<Edge>, node: Node)
    requires Attached(nodes, edges)
    ensures Attached(nodes + [node], edges)
    ensures Distinct(Ids(nodes)) && node.id !in Ids(nodes) ==> Distinct(Ids(nodes + [node]))
  {
    forall i, j | 0 <= i < |nodes| && 0 <= j < |nodes[i].fields|
      ensures HandleOn(nodes + [node], nodes[i].id, HandleId(nodes[i].id, nodes[i].fields[j].name))
    {
      assert (nodes + [node])[i] == nodes[i];
      HandleOnAt(nodes + [node], i, j);
    }
    AttachedKept(nodes, nodes + [node], edges);
    assert Ids(nodes + [node]) == Ids(nodes) + [node.id];
  }

  // ---------------------------------------------------------------------------
  // handleDeleteTable

  /** The edge filter of `handleDeleteTable`. */
  function DeleteTableEdges(edges: seq<Edge>, nodeId: string): seq<Edge> {
    Filter(edges, (e: Edge) => e.source != nodeId && e.target != nodeId)
  }

  /** The node filter of `handleDeleteTable`. */
  function DeleteTableNodes(nodes: seq<Node>, nodeId: string): seq<Node> {
    Filter(nodes, (n: Node) => n.id != nodeId)
  }

  /**
   * Deleting a table removes every node with that id and every edge incident to it, keeps
   * all other nodes and edges, and leaves no edge dangling.
   */
  lemma DeleteTableSpec(nodes: seq<Node>, edges: seq<Edge>, nodeId: string)
    requires Attached(nodes, edges)
    ensures nodeId !in Ids(DeleteTableNodes(nodes, nodeId))
    ensures forall n :: n in DeleteTableNodes(nodes, nodeId) <==> n in nodes && n.id != nodeId
    ensures forall e :: e in DeleteTableEdges(edges, nodeId) <==> e in edges && e.source != nodeId && e.target != nodeId
    ensures Attached(DeleteTableNodes(nodes, nodeId), DeleteTableEdges(edges, nodeId))
  {
    var ns := DeleteTableNodes(nodes, nodeId);
    var es := DeleteTableEdges(edges, nodeId);
    forall k | 0 <= k < |ns| ensures Ids(ns)[k] != nodeId {
      assert ns[k] in ns;
    }
    forall e | e in es ensures HandleOn(ns, e.source, e.sourceHandle) && HandleOn(ns, e.target, e.targetHandle) {
      var i, j := HandleOnIndex(nodes, e.source, e.sourceHandle);
      var a, b := HandleOnIndex(nodes, e.target, e.targetHandle);
      assert nodes[i] in ns && nodes[a] in ns;
    }
  }

  // ---------------------------------------------------------------------------
  // The canvas state

  class FlowState {
    var nodes: seq<Node>
    var edges: seq<Edge>

    constructor(nodes0: seq<Node>, edges0: seq<Edge>)
      ensures nodes == nodes0 && edges == edges0
    {
      nodes := nodes0;
      edges := edges0;
    }

    /**
     * `handleAddField(nodeId, fieldName)`: nothing for a blank name; otherwise the trimmed name
     * is added to the nodes with that id unless a field already bears the name as typed.
     */
    method AddField(nodeId: string, fieldName: string)
      modifies this
      ensures IsBlank(fieldName) ==> nodes == old(nodes)
      ensures !IsBlank(fieldName) ==> nodes == AddFieldNodes(old(nodes), nodeId, fieldName)
      ensures edges == old(edges)
      ensures Attached(old(nodes), old(edges)) ==> Attached(nodes, edges)
    {
      if IsBlank(fieldName) {
        return;
      }
      if Attached(nodes, edges) {
        AddFieldKeepsAttached(nodes, edges, nodeId, fieldName);
      }
      nodes := AddFieldNodes(nodes, nodeId, fieldName);
    }

    /**
     * `handleUpdateNodeLabel(nodeId, newLabel)`: nothing for a blank label; otherwise each
     * node with that id takes the trimmed label as id and display name, and for each one the
     * edges are rewritten (the `setEdges` nested in the `setNodes` updater). For a label without
     * `$`, several rewrites amount to one and no edge comes loose.
     */
    method UpdateNodeLabel(nodeId: string, newLabel: string)
      modifies this
      ensures IsBlank(newLabel) ==> nodes == old(nodes) && edges == old(edges)
      ensures !IsBlank(newLabel) ==>
                && nodes == RelabelNodes(old(nodes), nodeId, Trim(newLabel))
                && edges == RenameEdgesTimes(old(edges), nodeId, Trim(newLabel), CountId(old(nodes), nodeId))
      ensures !IsBlank(newLabel) && '$' !in Trim(newLabel) ==>
                edges == if nodeId in Ids(old(nodes)) then RenameEdges(old(edges), nodeId, Trim(newLabel)) else old(edges)
      ensures Attached(old(nodes), old(edges)) && '$' !in Trim(newLabel) ==> Attached(nodes, edges)
    {
      if IsBlank(newLabel) {
        return;
      }
      var caption := Trim(newLabel);
      var ns := nodes;
      ghost var edges0 := edges;
      var updated: seq<Node> := [];
      var i := 0;
      ghost var k := 0;
      while i < |ns|
        invariant 0 <= i <= |ns|
        invariant updated == RelabelNodes(ns[..i], nodeId, caption)
        invariant k == CountId(ns[..i], nodeId)
        invariant edges == RenameEdgesTimes(edges0, nodeId, caption, k)
      {
        var node := ns[i];
        RelabelStep(ns, i, nodeId, caption);
        if node.id == nodeId {
          RenameEdgesTimesStep(edges0, nodeId, caption, k);
          edges := RenameEdges(edges, nodeId, caption);
          k := k + 1;
          updated := updated + [node.(id := caption, displayName := caption)];
        } else {
          updated := updated + [node];
        }
        i := i + 1;
      }
      assert ns[..i] == ns;
      nodes := updated;
      RelabelOutcome(ns, edges0, nodeId, caption);
    }

    /** `handleUpdateNodeAlias(nodeId, newAlias)`: the trimmed alias, on the node list only. */
    method UpdateNodeAlias(nodeId: string, newAlias: string)
      modifies this
      ensures nodes == SetAliasNodes(old(nodes), nodeId, newAlias)
      ensures edges == old(edges)
      ensures Attached(old(nodes), old(edges)) ==> Attached(nodes, edges)
    {
      if Attached(nodes, edges) {
        SetAliasKeepsAttached(nodes, edges, nodeId, newAlias);
      }
      nodes := SetAliasNodes(nodes, nodeId, newAlias);
    }

    /**
     * `handleUpdateFieldName(nodeId, oldFieldName, newFieldName)`: nothing for a blank new
     * name or one that trims to the old name; otherwise the field and its edges' handles move.
     */
    method UpdateFieldName(nodeId: string, oldFieldName: string, newFieldName: string)
      modifies this
      ensures IsBlank(newFieldName) || oldFieldName == Trim(newFieldName) ==> nodes == old(nodes) && edges == old(edges)
      ensures !IsBlank(newFieldName) && oldFieldName != Trim(newFieldName) ==>
                && nodes == RenameFieldNodes(old(nodes), nodeId, oldFieldName, Trim(newFieldName))
                && edges == RenameHandleEdges(old(edges), HandleId(nodeId, oldFieldName), HandleId(nodeId, Trim(newFieldName)))
      ensures Attached(old(nodes), old(edges)) && DashFreeIds(old(nodes)) && '-' !in nodeId ==> Attached(nodes, edges)
    {
      if IsBlank(newFieldName) || oldFieldName == Trim(newFieldName) {
        return;
      }
      var newName := Trim(newFieldName);
      var oldHandle := HandleId(nodeId, oldFieldName);
      var newHandle := HandleId(nodeId, newName);
      if Attached(nodes, edges) && DashFreeIds(nodes) && '-' !in nodeId {
        RenameFieldKeepsAttached(nodes, edges, nodeId, oldFieldName, newName);
      }
      nodes := RenameFieldNodes(nodes, nodeId, oldFieldName, newName);
      edges := RenameHandleEdges(edges, oldHandle, newHandle);
    }

    /** `handleDeleteField(nodeId, fieldName)`: the field and every edge on its handle go. */
    method DeleteField(nodeId: string, fieldName: string)
      modifies this
      ensures nodes == DeleteFieldNodes(old(nodes), nodeId, fieldName)
      ensures edges == DeleteFieldEdges(old(edges), HandleId(nodeId, fieldName))
      ensures Attached(old(nodes), old(edges)) ==> Attached(nodes, edges)
    {
      var handleId := HandleId(nodeId, fieldName);
      if Attached(nodes, edges) {
        DeleteFieldSpec(nodes, edges, nodeId, fieldName);
      }
      nodes := DeleteFieldNodes(nodes, nodeId, fieldName);
      edges := DeleteFieldEdges(edges, handleId);
    }

    /** `handleUpdateFieldCalculation(nodeId, fieldName, expression)`. */
    method UpdateFieldCalculation(nodeId: string, fieldName: string, expression: string)
      modifies this
      ensures nodes == SetExpressionNodes(old(nodes), nodeId, fieldName, expression)
      ensures edges == old(edges)
      ensures Attached(old(nodes), old(edges)) ==> Attached(nodes, edges)
    {
      if Attached(nodes, edges) {
        SetExpressionSpec(nodes, edges, nodeId, fieldName, expression);
      }
      nodes := SetExpressionNodes(nodes, nodeId, fieldName, expression);
    }

    /**
     * `handleAddNewTable(tableType = "BASE")`: appends a node for `tableName` (the fresh name
     * `generateUniqueTableName` picks) at `position` (the centre `calculateCenterPosition`
     * picks), and returns its id and position. `None` stands for an omitted (`undefined`)
     * argument only, the one case the default applies to; an explicit `null` is not modelled.
     */
    method AddNewTable(tableType: Option<string>, tableName: string, position: Position)
      returns (nodeId: string, pos: Position)
      modifies this
      ensures nodes == old(nodes) + [NewTableNode(tableName, tableType.GetOr("BASE"), position)]
      ensures nodeId == nodes[|nodes| - 1].id && pos == position
      ensures edges == old(edges)
      ensures Attached(old(nodes), old(edges)) ==> Attached(nodes, edges)
    {
      var node := NewTableNode(tableName, tableType.GetOr("BASE"), position);
      if Attached(nodes, edges) {
        AddTableKeepsAttached(nodes, edges, node);
      }
      nodes := nodes + [node];
      nodeId := node.id;
      pos := position;
    }

    /** `handleDeleteTable(nodeId)`: first the incident edges, then the node. */
    method DeleteTable(nodeId: string)
      modifies this
      ensures edges == DeleteTableEdges(old(edges), nodeId)
      ensures nodes == DeleteTableNodes(old(nodes), nodeId)
      ensures Attached(old(nodes), old(edges)) ==> Attached(nodes, edges)
    {
      if Attached(nodes, edges) {
        DeleteTableSpec(nodes, edges, nodeId);
      }
      edges := DeleteTableEdges(edges, nodeId);
      nodes := DeleteTableNodes(nodes, nodeId);
    }
  }
}
