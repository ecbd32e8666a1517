/**
 * Import: the qualified-name codec for entity names and `modelToFlow`, which turns the
 * nested document into one node per entity and one edge per stored reference.
 */
module DataTransform {
  import opened Wrappers
  import opened JsSemantics
  import opened Schema
  import opened Graph

  // ---------------------------------------------------------------------------
  // Qualified entity names: `BASE_` / `CTE_` / `VIEW_` followed by the display name

  /** The prefixes in the order `removeTablePrefix` tries them. */
  const TablePrefixes: seq<string> := ["BASE_", "CTE_", "VIEW_"]

  /** The name starts with one of the three known prefixes. */
  predicate HasTablePrefix(name: string) {
    StartsWith(name, "BASE_") || StartsWith(name, "CTE_") || StartsWith(name, "VIEW_")
  }

  /** At most one known prefix can match: they already differ in their first characters. */
  lemma PrefixesExclusive(name: string)
    ensures !(StartsWith(name, "BASE_") && StartsWith(name, "CTE_"))
    ensures !(StartsWith(name, "BASE_") && StartsWith(name, "VIEW_"))
    ensures !(StartsWith(name, "CTE_") && StartsWith(name, "VIEW_"))
  {
    assert "BASE_"[0] == 'B' && "CTE_"[0] == 'C' && "VIEW_"[0] == 'V';
  }

  /** `extractTableType`: the type named by the prefix, `None` (null) for an unprefixed name. */
  function ExtractTableType(entityName: string): (r: Option<string>)
    ensures r == Some("BASE") <==> StartsWith(entityName, "BASE_")
    ensures r == Some("CTE") <==> StartsWith(entityName, "CTE_")
    ensures r == Some("VIEW") <==> StartsWith(entityName, "VIEW_")
    ensures r.None? <==> !HasTablePrefix(entityName)
  {
    PrefixesExclusive(entityName);
    if StartsWith(entityName, "BASE_") then Some("BASE")
    else if StartsWith(entityName, "CTE_") then Some("CTE")
    else if StartsWith(entityName, "VIEW_") then Some("VIEW")
    else None
  }

  /** `name` starts with none of the first `k` prefixes. */
  predicate NoneMatchBefore(prefixes: seq<string>, name: string, k: nat)
    requires k <= |prefixes|
  {
    forall j :: 0 <= j < k ==> !StartsWith(name, prefixes[j])
  }

  /** The loop of `removeTablePrefix`: strip the first prefix of `prefixes` that `name` starts with. */
  function StripFirstPrefix(prefixes: seq<string>, name: string): (r: string)
    ensures |r| <= |name|
    ensures NoneMatchBefore(prefixes, name, |prefixes|) ==> r == name
    ensures forall i :: 0 <= i < |prefixes| && StartsWith(name, prefixes[i]) && NoneMatchBefore(prefixes, name, i)
                        ==> name == prefixes[i] + r
  {
    if prefixes == [] then name
    else if StartsWith(name, prefixes[0]) then
      assert name == prefixes[0] + name[|prefixes[0]|..];
      name[|prefixes[0]|..]
    else
      var rest := prefixes[1..];
      var r := StripFirstPrefix(rest, name);
      forall i | 1 <= i <= |prefixes| && NoneMatchBefore(prefixes, name, i)
        ensures NoneMatchBefore(rest, name, i - 1)
      {
        assert forall j :: 0 <= j < i - 1 ==> rest[j] == prefixes[j + 1];
      }
      assert forall i :: 1 <= i < |prefixes| ==> prefixes[i] == rest[i - 1];
      r
  }

  /**
   * `removeTablePrefix`: never longer than its input; a prefixed name loses exactly its
   * prefix (the type from `extractTableType` followed by `_`), any other name is unchanged.
   */
  function RemoveTablePrefix(entityName: string): (r: string)
    ensures |r| <= |entityName|
    ensures ExtractTableType(entityName).None? ==> r == entityName
    ensures ExtractTableType(entityName).Some? ==> entityName == ExtractTableType(entityName).value + "_" + r
  {
    var r := StripFirstPrefix(TablePrefixes, entityName);
    PrefixesExclusive(entityName);
    assert TablePrefixes[0] == "BASE_" && TablePrefixes[1] == "CTE_" && TablePrefixes[2] == "VIEW_";
    assert "BASE" + "_" == "BASE_" && "CTE" + "_" == "CTE_" && "VIEW" + "_" == "VIEW_";
    r
  }

  /** One of the three table types `addTablePrefix` knows. */
  predicate IsTableType(tableType: Option<string>) {
    tableType == Some("BASE") || tableType == Some("CTE") || tableType == Some("VIEW")
  }

  /**
   * `addTablePrefix(name, type)`: for a known type, a name that decodes back to that type
   * and to `name`; for null or any other type, `name` unchanged.
   */
  function AddTablePrefix(entityName: string, tableType: Option<string>): (r: string)
    ensures IsTableType(tableType) ==> ExtractTableType(r) == tableType && RemoveTablePrefix(r) == entityName
    ensures !IsTableType(tableType) ==> r == entityName
  {
    var r :=
      if tableType == Some("BASE") then "BASE_" + entityName
      else if tableType == Some("CTE") then "CTE_" + entityName
      else if tableType == Some("VIEW") then "VIEW_" + entityName
      else entityName;
    assert IsTableType(tableType) ==> r == tableType.value + "_" + entityName;
    assert IsTableType(tableType) ==> StartsWith(r, tableType.value + "_");
    r
  }

  /** Decoding and re-encoding any name gives the name back. */
  lemma PrefixRoundTrip(entityName: string)
    ensures AddTablePrefix(RemoveTablePrefix(entityName), ExtractTableType(entityName)) == entityName
  {
  }

  // ---------------------------------------------------------------------------
  // modelToFlow

  /** The vertical distance between consecutive imported nodes. */
  const RowHeight := 180

  /** `Object.entries(entity.fields).map(([fname, fdata]) => ({ name: fname, ...fdata }))`. */
  function NodeFields(fields: seq<(string, FieldData)>): (r: seq<Field>)
    ensures |r| == |fields|
    ensures forall i :: 0 <= i < |fields| ==> r[i].name == fields[i].0 && r[i].data == fields[i].1
  {
    seq(|fields|, i requires 0 <= i < |fields| => Field(fields[i].0, fields[i].1))
  }

  /** The node built for one entity at height `y`. */
  function EntityNode(entityName: string, entity: Entity, y: int): Node {
    Node(entityName, RemoveTablePrefix(entityName), entity.alias.GetOr(""), NodeFields(entity.fields),
         ExtractTableType(entityName).GetOr("BASE"), Position(0, y))
  }

  /** The nodes `modelToFlow` pushes, one per entity in entry order, a row apart. */
  function ImportNodes(entities: seq<(string, Entity)>): (r: seq<Node>)
    ensures |r| == |entities|
    ensures forall i :: 0 <= i < |entities| ==> r[i] == EntityNode(entities[i].0, entities[i].1, RowHeight * i)
  {
    seq(|entities|, i requires 0 <= i < |entities| => EntityNode(entities[i].0, entities[i].1, RowHeight * i))
  }

  /**
   * The i-th imported node: its id is the full entity name, which splits into its table type
   * and its label (an unprefixed name is its own label, typed BASE); it carries the alias or
   * "", one field per entry in entry order with the stored record unchanged, and sits at
   * height 180 * i.
   */
  lemma ImportNodeSpec(entities: seq<(string, Entity)>, i: nat)
    requires i < |entities|
    ensures var n := ImportNodes(entities)[i];
            var (name, entity) := entities[i];
            && n.id == name
            && (ExtractTableType(name).Some? ==> name == n.tableType + "_" + n.displayName && IsTableType(Some(n.tableType)))
            && (ExtractTableType(name).None? ==> n.displayName == name && n.tableType == "BASE")
            && n.alias == entity.alias.GetOr("")
            && FieldNames(n.fields) == Keys(entity.fields)
            && (forall j :: 0 <= j < |entity.fields| ==> n.fields[j].data == entity.fields[j].1)
            && n.position == Position(0, RowHeight * i)
  {
    var n := ImportNodes(entities)[i];
    var fields := entities[i].1.fields;
    forall j | 0 <= j < |fields| ensures FieldNames(n.fields)[j] == Keys(fields)[j] {
      KeysAt(fields, j);
    }
  }

  /** The edge pushed for reference `ref` of field `fieldName` of entity `entityName`. */
  function RefEdge(kind: RefType, ref: string, entityName: string, fieldName: string): Edge {
    var (sourceEntity, sourceField) := SplitFirstTwo(ref, '.');
    var tag := if kind == NormalRef then "ref-" else "calc-";
    Edge(tag + sourceEntity + "." + Show(sourceField) + "->" + entityName + "." + fieldName,
         kind, sourceEntity, entityName,
         HandleId(sourceEntity, Show(sourceField)), HandleId(entityName, fieldName),
         kind == NormalRef)
  }

  /** One edge per reference, in order. */
  function RefEdges(kind: RefType, refs: seq<string>, entityName: string, fieldName: string): (r: seq<Edge>)
    ensures |r| == |refs|
  {
    if refs == [] then []
    else RefEdges(kind, refs[..|refs| - 1], entityName, fieldName) + [RefEdge(kind, refs[|refs| - 1], entityName, fieldName)]
  }

  /** The i-th edge is the edge of the i-th reference. */
  lemma {:induction false} RefEdgesAt(kind: RefType, refs: seq<string>, entityName: string, fieldName: string, i: nat)
    requires i < |refs|
    ensures RefEdges(kind, refs, entityName, fieldName)[i] == RefEdge(kind, refs[i], entityName, fieldName)
  {
    if i < |refs| - 1 {
      RefEdgesAt(kind, refs[..|refs| - 1], entityName, fieldName, i);
    }
  }

  /** The edges of one field: its normal references, then its calculation references. */
  function FieldEdges(entityName: string, fieldName: string, fd: FieldData): seq<Edge> {
    RefEdges(NormalRef, RefsOf(fd), entityName, fieldName)
      + RefEdges(CalculationRef, CalcRefsOf(fd), entityName, fieldName)
  }

  /** The edges of the fields of one entity, field by field. */
  function EntityEdges(entityName: string, fields: seq<(string, FieldData)>): seq<Edge> {
    if fields == [] then []
    else
      var last := fields[|fields| - 1];
      EntityEdges(entityName, fields[..|fields| - 1]) + FieldEdges(entityName, last.0, last.1)
  }

  /** The edges `modelToFlow` pushes, entity by entity. */
  function ImportEdges(entities: seq<(string, Entity)>): seq<Edge> {
    if entities == [] then []
    else
      var last := entities[|entities| - 1];
      ImportEdges(entities[..|entities| - 1]) + EntityEdges(last.0, last.1.fields)
  }

  /** The number of stored references of the fields of one entity. */
  function FieldRefCount(fields: seq<(string, FieldData)>): nat {
    if fields == [] then 0
    else |RefsOf(fields[0].1)| + |CalcRefsOf(fields[0].1)| + FieldRefCount(fields[1..])
  }

  /** The number of stored references, `ref` and `calculation.ref` entries alike, over all fields. */
  function RefCount(entities: seq<(string, Entity)>): nat {
    if entities == [] then 0 else FieldRefCount(entities[0].1.fields) + RefCount(entities[1..])
  }

  /**
   * `modelToFlow`: walks the entities in order, pushing a node at height `y` and then, field
   * by field, one edge per `ref` entry and one per `calculation.ref` entry.
   */
  method ModelToFlow(model: Model) returns (nodes: seq<Node>, edges: seq<Edge>)
    ensures nodes == ImportNodes(model.entities)
    ensures edges == ImportEdges(model.entities)
    ensures |edges| == RefCount(model.entities)
  {
    var entities := model.entities;
    nodes := [];
    edges := [];
    var y := 0;
    var i := 0;
    while i < |entities|
      invariant 0 <= i <= |entities|
      invariant y == RowHeight * i
      invariant nodes == ImportNodes(entities[..i])
      invariant edges == ImportEdges(entities[..i])
    {
      var (entityName, entity) := entities[i];
      ImportNodesStep(entities, i);
      ImportEdgesStep(entities, i);
      nodes := nodes + [EntityNode(entityName, entity, y)];
      edges := PushEntityEdges(edges, entityName, entity.fields);
      y := y + RowHeight;
      i := i + 1;
    }
    assert entities[..i] == entities;
    ImportEdgeCount(entities);
  }

  /** The `forEach` over the fields of one entity, appending each field's edges. */
  method PushEntityEdges(edges: seq<Edge>, entityName: string, fields: seq<(string, FieldData)>)
    returns (out: seq<Edge>)
    ensures out == edges + EntityEdges(entityName, fields)
  {
    out := edges;
    var j := 0;
    while j < |fields|
      invariant 0 <= j <= |fields|
      invariant out == edges + EntityEdges(entityName, fields[..j])
    {
      var fieldName := fields[j].0;
      var field := fields[j].1;
      ghost var prefix := EntityEdges(entityName, fields[..j]);
      EntityEdgesStep(entityName, fields, j);
      out := PushFieldEdges(out, entityName, fieldName, field);
      j := j + 1;
      EdgesAssoc(edges, prefix, FieldEdges(entityName, fieldName, field));
    }
    assert fields[..j] == fields;
  }

  /** The body of that `forEach`: the `ref` edges of one field, then its `calculation.ref` edges. */
  method PushFieldEdges(edges: seq<Edge>, entityName: string, fieldName: string, field: FieldData)
    returns (out: seq<Edge>)
    ensures out == edges + FieldEdges(entityName, fieldName, field)
  {
    out := edges;
    if field.ref.Some? {
      out := PushRefEdges(out, NormalRef, field.ref.value, entityName, fieldName);
    }
    ghost var normal := RefEdges(NormalRef, RefsOf(field), entityName, fieldName);
    assert out == edges + normal;
    ghost var mid := out;
    if field.calculation.Some? && field.calculation.value.ref.Some? {
      out := PushRefEdges(out, CalculationRef, field.calculation.value.ref.value, entityName, fieldName);
    }
    ghost var calcEdges := RefEdges(CalculationRef, CalcRefsOf(field), entityName, fieldName);
    assert out == mid + calcEdges;
    EdgesAssoc(edges, normal, calcEdges);
  }

  lemma EdgesAssoc(a: seq<Edge>, b: seq<Edge>, c: seq<Edge>)
    ensures (a + b) + c == a + (b + c)
  {
  }

  /** The `forEach` over one list of pointers, appending one edge per pointer. */
  method PushRefEdges(edges: seq<Edge>, kind: RefType, refs: seq<string>, entityName: string, fieldName: string)
    returns (out: seq<Edge>)
    ensures out == edges + RefEdges(kind, refs, entityName, fieldName)
  {
    out := edges;
    var k := 0;
    while k < |refs|
      invariant 0 <= k <= |refs|
      invariant out == edges + RefEdges(kind, refs[..k], entityName, fieldName)
    {
      RefEdgesStep(kind, refs, entityName, fieldName, k);
      EdgesAssoc(edges, RefEdges(kind, refs[..k], entityName, fieldName), [RefEdge(kind, refs[k], entityName, fieldName)]);
      out := out + [RefEdge(kind, refs[k], entityName, fieldName)];
      k := k + 1;
    }
    assert refs[..k] == refs;
  }

  /** The nodes of one more entity. */
  lemma ImportNodesStep(entities: seq<(string, Entity)>, i: nat)
    requires i < |entities|
    ensures ImportNodes(entities[..i + 1]) == ImportNodes(entities[..i]) + [EntityNode(entities[i].0, entities[i].1, RowHeight * i)]
  {
    var a := ImportNodes(entities[..i + 1]);
    var b := ImportNodes(entities[..i]) + [EntityNode(entities[i].0, entities[i].1, RowHeight * i)];
    forall k | 0 <= k < i + 1 ensures a[k] == b[k] {
      if k < i {
        assert entities[..i + 1][k] == entities[..i][k];
      }
    }
  }

  /** The edges of one more entity. */
  lemma ImportEdgesStep(entities: seq<(string, Entity)>, i: nat)
    requires i < |entities|
    ensures ImportEdges(entities[..i + 1]) == ImportEdges(entities[..i]) + EntityEdges(entities[i].0, entities[i].1.fields)
  {
    assert entities[..i + 1][..i] == entities[..i];
  }

  /** The edges of one more field. */
  lemma EntityEdgesStep(entityName: string, fields: seq<(string, FieldData)>, j: nat)
    requires j < |fields|
    ensures EntityEdges(entityName, fields[..j + 1]) == EntityEdges(entityName, fields[..j]) + FieldEdges(entityName, fields[j].0, fields[j].1)
  {
    assert fields[..j + 1][..j] == fields[..j];
  }

  /** The edges of one more pointer. */
  lemma RefEdgesStep(kind: RefType, refs: seq<string>, entityName: string, fieldName: string, k: nat)
    requires k < |refs|
    ensures RefEdges(kind, refs[..k + 1], entityName, fieldName)
            == RefEdges(kind, refs[..k], entityName, fieldName) + [RefEdge(kind, refs[k], entityName, fieldName)]
  {
    assert refs[..k + 1][..k] == refs[..k];
  }

  // ---------------------------------------------------------------------------
  // Properties of the import

  /** One edge per stored reference of a field. */
  lemma FieldEdgeCount(entityName: string, fields: seq<(string, FieldData)>)
    ensures |EntityEdges(entityName, fields)| == FieldRefCount(fields)
  {
    FieldRefCountFromEnd(fields);
  }

  /** Every entry of every `ref` and `calculation.ref` list produces exactly one edge. */
  lemma {:induction false} ImportEdgeCount(entities: seq<(string, Entity)>)
    ensures |ImportEdges(entities)| == RefCount(entities)
  {
    if entities != [] {
      var init := entities[..|entities| - 1];
      var last := entities[|entities| - 1];
      assert ImportEdges(entities) == ImportEdges(init) + EntityEdges(last.0, last.1.fields);
      ImportEdgeCount(init);
      FieldEdgeCount(last.0, last.1.fields);
      InitLast(entities);
      RefCountSplit(init, [last]);
      assert RefCount([last]) == FieldRefCount(last.1.fields);
    }
  }

  lemma {:induction false} FieldRefCountFromEnd(fields: seq<(string, FieldData)>)
    ensures |EntityEdges("", fields)| == FieldRefCount(fields)
    ensures forall name :: |EntityEdges(name, fields)| == FieldRefCount(fields)
  {
    if fields != [] {
      var init := fields[..|fields| - 1];
      var last := fields[|fields| - 1];
      FieldRefCountFromEnd(init);
      FieldRefCountSplit(init, [last]);
      InitLast(fields);
    }
  }

  lemma {:induction false} FieldRefCountSplit(a: seq<(string, FieldData)>, b: seq<(string, FieldData)>)
    ensures FieldRefCount(a + b) == FieldRefCount(a) + FieldRefCount(b)
  {
    if a != [] {
      assert (a + b)[1..] == a[1..] + b;
      FieldRefCountSplit(a[1..], b);
    } else {
      assert a + b == b;
    }
  }

  lemma {:induction false} RefCountSplit(a: seq<(string, Entity)>, b: seq<(string, Entity)>)
    ensures RefCount(a + b) == RefCount(a) + RefCount(b)
  {
    if a != [] {
      assert (a + b)[1..] == a[1..] + b;
      RefCountSplit(a[1..], b);
    } else {
      assert a + b == b;
    }
  }

  /**
   * The edge for a well-formed pointer `"E.f"` on field `T.g`: it runs from `E` to `T`,
   * between handles `E-f` and `T-g`, and its id is `ref-E.f->T.g` (normal, animated) or
   * `calc-E.f->T.g` (calculation, not animated).
   */
  lemma RefEdgeShape(kind: RefType, e: string, f: string, t: string, g: string)
    requires '.' !in e && '.' !in f
    ensures RefEdge(kind, e + "." + f, t, g)
         == Edge((if kind == NormalRef then "ref-" else "calc-") + e + "." + f + "->" + t + "." + g,
                 kind, e, t, e + "-" + f, t + "-" + g, kind == NormalRef)
  {
    SplitJoin(e, f, '.');
  }

  /**
   * A pointer without a `.` still produces an edge: the whole string is the source entity
   * and the source field renders as `undefined`.
   */
  lemma RefEdgeWithoutDot(kind: RefType, ref: string, t: string, g: string)
    requires '.' !in ref
    ensures RefEdge(kind, ref, t, g).source == ref
    ensures RefEdge(kind, ref, t, g).sourceHandle == ref + "-undefined"
    ensures RefEdge(kind, ref, t, g).targetHandle == t + "-" + g
  {
  }
}
