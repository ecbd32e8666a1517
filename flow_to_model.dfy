/**
 * Export: `flowToModel`, which rebuilds the nested document from the canvas. Every node
 * becomes an entity; each field's pointers are the union of the pointers stored on the
 * field (normalised to prefixed entity names) and the pointers read off the incoming edges.
 */
module FlowToModel {
  import opened Wrappers
  import opened JsSemantics
  import opened Schema
  import opened Graph
  import opened DataTransform

  // ---------------------------------------------------------------------------
  // The entity name of a node

  /** `node.data.label || node.id`. */
  function DisplayNameOf(node: Node): string {
    if node.displayName != "" then node.displayName else node.id
  }

  /** `node.data.tableType || "BASE"`. */
  function TableTypeOf(node: Node): string {
    if node.tableType != "" then node.tableType else "BASE"
  }

  /** A prefixed id is the entity name; otherwise the name is built from the label and the type. */
  function EntityName(node: Node): string {
    if HasTablePrefix(node.id) then node.id
    else AddTablePrefix(DisplayNameOf(node), Some(TableTypeOf(node)))
  }

  /**
   * The entity name of a node is its id when that is prefixed; an unprefixed node of a known
   * (or missing) type gets a prefixed name whose visible part is its label (or its id).
   */
  lemma EntityNameSpec(node: Node)
    ensures HasTablePrefix(node.id) ==> EntityName(node) == node.id
    ensures !HasTablePrefix(node.id) && IsTableType(Some(TableTypeOf(node))) ==>
              HasTablePrefix(EntityName(node))
              && ExtractTableType(EntityName(node)) == Some(TableTypeOf(node))
              && RemoveTablePrefix(EntityName(node)) == DisplayNameOf(node)
    ensures !HasTablePrefix(node.id) && !IsTableType(Some(TableTypeOf(node))) ==>
              EntityName(node) == DisplayNameOf(node)
  {
  }

  /** The entity names of a list of nodes, in order. */
  function EntityNames(ns: seq<Node>): (r: seq<string>)
    ensures |r| == |ns|
    ensures forall i :: 0 <= i < |ns| ==> r[i] == EntityName(ns[i])
  {
    seq(|ns|, i requires 0 <= i < |ns| => EntityName(ns[i]))
  }

  // ---------------------------------------------------------------------------
  // Pointers read off the edges

  /** The edge has the given kind and ends on handle `entityName-fieldName` of node `entityName`. */
  predicate Feeds(kind: RefType, entityName: string, fieldName: string, e: Edge) {
    e.refType == kind && e.target == entityName && e.targetHandle == HandleId(entityName, fieldName)
  }

  /**
   * The entity name of an edge's source: the source itself when prefixed; otherwise the id of
   * the first node whose id is the source, unless that id is empty; otherwise `BASE_` + source.
   */
  function ResolveSource(nodes: seq<Node>, source: string): string {
    if source != "" && HasTablePrefix(source) then source
    else
      var found := match FindIndex(nodes, (n: Node) => n.id == source)
                   case Some(i) => nodes[i].id
                   case None => "";
      if found != "" then found else AddTablePrefix(source, Some("BASE"))
  }

  /** A source is kept when it is prefixed or the (non-empty) id of some node, and is given `BASE_` otherwise. */
  lemma ResolveSourceSpec(nodes: seq<Node>, source: string)
    ensures HasTablePrefix(source) || (source != "" && source in Ids(nodes)) ==> ResolveSource(nodes, source) == source
    ensures !HasTablePrefix(source) && (source == "" || source !in Ids(nodes)) ==> ResolveSource(nodes, source) == "BASE_" + source
  {
  }

  /** The pointer an edge stands for: resolved source entity, `.`, and the source handle with `<source>-` removed once. */
  function EdgeRef(nodes: seq<Node>, e: Edge): string {
    ResolveSource(nodes, e.source) + "." + ReplaceFirst(e.sourceHandle, e.source + "-", "")
  }

  /** The filter callback: `e.ref_type === kind && e.target === entityName && e.targetHandle === ...`. */
  function Incoming(kind: RefType, entityName: string, fieldName: string): Edge -> bool {
    (e: Edge) => Feeds(kind, entityName, fieldName, e)
  }

  /** `edges.map(edge to pointer)`. */
  function EdgeRefs(nodes: seq<Node>, es: seq<Edge>): (r: seq<string>)
    ensures |r| == |es|
    ensures forall i :: 0 <= i < |es| ==> r[i] == EdgeRef(nodes, es[i])
  {
    seq(|es|, i requires 0 <= i < |es| => EdgeRef(nodes, es[i]))
  }

  /** `edges.filter(feeds this field).map(edge to pointer)`: one pointer per incoming edge of that kind, in edge order. */
  function RefsFromEdges(nodes: seq<Node>, edges: seq<Edge>, kind: RefType, entityName: string, fieldName: string)
    : (r: seq<string>)
    ensures forall x :: x in r <==> exists e :: e in edges && Feeds(kind, entityName, fieldName, e) && x == EdgeRef(nodes, e)
  {
    var incoming := Filter(edges, Incoming(kind, entityName, fieldName));
    var r := EdgeRefs(nodes, incoming);
    forall e | e in incoming ensures EdgeRef(nodes, e) in r {
      var i :| 0 <= i < |incoming| && incoming[i] == e;
      assert r[i] == EdgeRef(nodes, e);
    }
    forall x | x in r ensures exists e :: e in edges && Feeds(kind, entityName, fieldName, e) && x == EdgeRef(nodes, e) {
      var i :| 0 <= i < |r| && r[i] == x;
      assert incoming[i] in incoming;
    }
    r
  }

  // ---------------------------------------------------------------------------
  // Normalising stored pointers

  /**
   * One stored pointer `E.f`: kept when `E` is empty or prefixed; otherwise rewritten to
   * `<id>.f` for the first node whose id or label is `E`, and kept when there is none.
   * Only the text between the first and second `.` survives a rewrite.
   */
  function NormalizeRef(nodes: seq<Node>, ref: string): (r: string)
    ensures var e := SplitFirstTwo(ref, '.').0;
            e == "" || HasTablePrefix(e) ==> r == ref
    ensures r != ref ==>
              exists i :: 0 <= i < |nodes| && (nodes[i].id == SplitFirstTwo(ref, '.').0 || nodes[i].displayName == SplitFirstTwo(ref, '.').0)
                          && r == nodes[i].id + "." + Show(SplitFirstTwo(ref, '.').1)
  {
    var (refEntity, refField) := SplitFirstTwo(ref, '.');
    if refEntity == "" then ref
    else if HasTablePrefix(refEntity) then ref
    else
      match FindIndex(nodes, (n: Node) => n.id == refEntity || n.displayName == refEntity)
      case Some(i) => nodes[i].id + "." + Show(refField)
      case None => ref
  }

  /** A pointer naming a node by its label is rewritten to that node's id. */
  lemma NormalizeByLabel(nodes: seq<Node>, i: nat, e: string, f: string)
    requires i < |nodes| && e != "" && !HasTablePrefix(e) && '.' !in e && '.' !in f
    requires nodes[i].id == e || nodes[i].displayName == e
    requires forall j :: 0 <= j < i ==> nodes[j].id != e && nodes[j].displayName != e
    ensures NormalizeRef(nodes, e + "." + f) == nodes[i].id + "." + f
  {
    SplitJoin(e, f, '.');
    var p := (n: Node) => n.id == e || n.displayName == e;
    assert p(nodes[i]);
    match FindIndex(nodes, p)
    case Some(k) =>
      assert k == i;
    case None =>
  }

  /** A pointer naming no node, by id or by label, is kept as it is. */
  lemma NormalizeUnknown(nodes: seq<Node>, ref: string)
    requires forall j :: 0 <= j < |nodes| ==> nodes[j].id != SplitFirstTwo(ref, '.').0 && nodes[j].displayName != SplitFirstTwo(ref, '.').0
    ensures NormalizeRef(nodes, ref) == ref
  {
  }

  /**
   * Normalising twice is normalising once, when every node id is a prefixed name without
   * a `.`: a rewritten pointer starts with an id and is therefore kept the second time.
   */
  lemma NormalizeIdempotent(nodes: seq<Node>, ref: string)
    requires forall j :: 0 <= j < |nodes| ==> HasTablePrefix(nodes[j].id) && '.' !in nodes[j].id
    ensures NormalizeRef(nodes, NormalizeRef(nodes, ref)) == NormalizeRef(nodes, ref)
  {
    var r := NormalizeRef(nodes, ref);
    if r != ref {
      var i :| 0 <= i < |nodes| && r == nodes[i].id + "." + Show(SplitFirstTwo(ref, '.').1);
      var f := Show(SplitFirstTwo(ref, '.').1);
      assert '.' !in f;
      SplitJoin(nodes[i].id, f, '.');
    }
  }

  /** `refs.map(normalise)`. */
  function NormalizeRefs(nodes: seq<Node>, refs: seq<string>): (r: seq<string>)
    ensures |r| == |refs|
    ensures forall i :: 0 <= i < |refs| ==> r[i] == NormalizeRef(nodes, refs[i])
  {
    seq(|refs|, i requires 0 <= i < |refs| => NormalizeRef(nodes, refs[i]))
  }

  // ---------------------------------------------------------------------------
  // Fields, entities, the model

  /**
   * The exported calculation: a stored calculation keeps its expression (`""` when missing)
   * and gets the de-duplicated union of its normalised pointers and the calculation edges;
   * without one, calculation edges alone give a calculation with an empty expression and
   * their pointers as they are; otherwise there is none.
   */
  function ExportCalculation(nodes: seq<Node>, fd: FieldData, fromEdges: seq<string>): (r: Option<Calculation>)
    ensures r.None? <==> fd.calculation.None? && fromEdges == []
    ensures r.Some? ==> r.value.expression.Some? && r.value.ref.Some?
    ensures fd.calculation.Some? ==>
              && r.value.expression == Some(fd.calculation.value.expression.GetOr(""))
              && Distinct(r.value.ref.value)
              && forall x :: x in r.value.ref.value <==> (x in NormalizeRefs(nodes, fd.calculation.value.ref.GetOr([])) || x in fromEdges)
    ensures fd.calculation.None? && fromEdges != [] ==> r == Some(Calculation(Some(""), Some(fromEdges)))
  {
    match fd.calculation
    case Some(stored) =>
      var calcRefs := NormalizeRefs(nodes, stored.ref.GetOr([]));
      Some(Calculation(Some(stored.expression.GetOr("")), Some(Dedup(calcRefs + fromEdges))))
    case None =>
      if |fromEdges| > 0 then Some(Calculation(Some(""), Some(fromEdges))) else None
  }

  /** The `ref` pointers a field exports: stored pointers normalised, then edge pointers, de-duplicated. */
  function ExportedRefs(nodes: seq<Node>, edges: seq<Edge>, entityName: string, field: Field): (r: seq<string>)
    ensures Distinct(r)
    ensures forall x :: x in r <==>
              (x in NormalizeRefs(nodes, RefsOf(field.data)) || x in RefsFromEdges(nodes, edges, NormalRef, entityName, field.name))
  {
    Dedup(NormalizeRefs(nodes, RefsOf(field.data)) + RefsFromEdges(nodes, edges, NormalRef, entityName, field.name))
  }

  /**
   * The record a field exports: `{}` when it has neither pointers nor a calculation,
   * otherwise `ref` only when there are pointers and `calculation` only when there is one.
   */
  function ExportFieldData(nodes: seq<Node>, edges: seq<Edge>, entityName: string, field: Field): (r: FieldData)
    ensures r.ref.Some? ==> r.ref.value != [] && r.ref.value == ExportedRefs(nodes, edges, entityName, field)
    ensures r.ref.None? <==> ExportedRefs(nodes, edges, entityName, field) == []
    ensures r.calculation == ExportCalculation(nodes, field.data, RefsFromEdges(nodes, edges, CalculationRef, entityName, field.name))
  {
    var allNormalRefs := ExportedRefs(nodes, edges, entityName, field);
    var calculation := ExportCalculation(nodes, field.data, RefsFromEdges(nodes, edges, CalculationRef, entityName, field.name));
    if |allNormalRefs| == 0 && calculation.None? then EmptyRecord
    else FieldData(if |allNormalRefs| > 0 then Some(allNormalRefs) else None, calculation)
  }

  /** A field exports no `ref` list exactly when it stores no pointers and no normal edge feeds it. */
  lemma ExportedRefsEmpty(nodes: seq<Node>, edges: seq<Edge>, entityName: string, field: Field)
    ensures ExportedRefs(nodes, edges, entityName, field) == [] <==>
              RefsOf(field.data) == [] && forall e :: e in edges ==> !Feeds(NormalRef, entityName, field.name, e)
  {
    var stored := NormalizeRefs(nodes, RefsOf(field.data));
    var fromEdges := RefsFromEdges(nodes, edges, NormalRef, entityName, field.name);
    var r := ExportedRefs(nodes, edges, entityName, field);
    if r != [] {
      var x := r[0];
      assert x in stored || x in fromEdges;
    }
  }

  /** `obj[field.name] = value(field)`, field by field. */
  function PutFields<V>(fields: seq<Field>, value: Field -> V): seq<(string, V)> {
    if fields == [] then []
    else
      var last := fields[|fields| - 1];
      Put(PutFields(fields[..|fields| - 1], value), last.name, value(last))
  }

  /** Assigning field after field gives one key per distinct field name, in order of first assignment. */
  lemma {:induction false} PutFieldsKeys<V>(fields: seq<Field>, value: Field -> V)
    ensures Keys(PutFields(fields, value)) == Dedup(FieldNames(fields))
  {
    if fields != [] {
      var init := fields[..|fields| - 1];
      var last := fields[|fields| - 1];
      PutFieldsKeys(init, value);
      InitLast(fields);
      FieldNamesSnoc(init, last);
      PutDedupKeys(PutFields(init, value), FieldNames(init), last.name, value(last));
    }
  }

  /** The record exported for each field of entity `entityName`. */
  function FieldExport(nodes: seq<Node>, edges: seq<Edge>, entityName: string): Field -> FieldData {
    (field: Field) => ExportFieldData(nodes, edges, entityName, field)
  }

  /** `entity.fields[field.name] = record`, field by field. */
  function ExportFields(nodes: seq<Node>, edges: seq<Edge>, entityName: string, fields: seq<Field>)
    : seq<(string, FieldData)>
  {
    PutFields(fields, FieldExport(nodes, edges, entityName))
  }

  /** The entity a node exports: `alias` only when the node's alias is non-empty. */
  function ExportEntity(nodes: seq<Node>, edges: seq<Edge>, node: Node): Entity {
    Entity(if node.alias != "" then Some(node.alias) else None,
           ExportFields(nodes, edges, EntityName(node), node.fields))
  }

  /** `entities[entityName] = entity`, node by node. */
  function ExportEntities(nodes: seq<Node>, edges: seq<Edge>, ns: seq<Node>): seq<(string, Entity)> {
    if ns == [] then []
    else
      var last := ns[|ns| - 1];
      Put(ExportEntities(nodes, edges, ns[..|ns| - 1]), EntityName(last), ExportEntity(nodes, edges, last))
  }

  /** `flowToModel(nodes, edges)`. */
  function ExportModel(nodes: seq<Node>, edges: seq<Edge>): Model {
    Model(ExportEntities(nodes, edges, nodes))
  }

  /**
   * `flowToModel`: for each node in order, build its entity field by field and assign it
   * under the node's entity name.
   */
  method FlowToModel(nodes: seq<Node>, edges: seq<Edge>) returns (model: Model)
    ensures model == ExportModel(nodes, edges)
  {
    var entities: seq<(string, Entity)> := [];
    var i := 0;
    while i < |nodes|
      invariant 0 <= i <= |nodes|
      invariant entities == ExportEntities(nodes, edges, nodes[..i])
    {
      var node := nodes[i];
      var entityName := EntityName(node);
      var alias := node.alias;
      var fields: seq<(string, FieldData)> := [];
      var j := 0;
      while j < |node.fields|
        invariant 0 <= j <= |node.fields|
        invariant fields == ExportFields(nodes, edges, entityName, node.fields[..j])
      {
        var field := node.fields[j];
        ExportFieldsStep(nodes, edges, entityName, node.fields, j);
        fields := Put(fields, field.name, ExportFieldData(nodes, edges, entityName, field));
        j := j + 1;
      }
      assert node.fields[..j] == node.fields;
      var entity := Entity(if alias != "" then Some(alias) else None, fields);
      ExportEntitiesStep(nodes, edges, nodes, i);
      entities := Put(entities, entityName, entity);
      i := i + 1;
    }
    assert nodes[..i] == nodes;
    model := Model(entities);
  }

  /** The exported fields of one more field. */
  lemma ExportFieldsStep(nodes: seq<Node>, edges: seq<Edge>, entityName: string, fields: seq<Field>, j: nat)
    requires j < |fields|
    ensures ExportFields(nodes, edges, entityName, fields[..j + 1])
         == Put(ExportFields(nodes, edges, entityName, fields[..j]), fields[j].name, ExportFieldData(nodes, edges, entityName, fields[j]))
  {
    assert fields[..j + 1][..j] == fields[..j];
  }

  /** The exported entities of one more node. */
  lemma ExportEntitiesStep(nodes: seq<Node>, edges: seq<Edge>, ns: seq<Node>, i: nat)
    requires i < |ns|
    ensures ExportEntities(nodes, edges, ns[..i + 1])
         == Put(ExportEntities(nodes, edges, ns[..i]), EntityName(ns[i]), ExportEntity(nodes, edges, ns[i]))
  {
    assert ns[..i + 1][..i] == ns[..i];
  }

  // ---------------------------------------------------------------------------
  // Properties of the export

  /**
   * The exported entity names are the nodes' entity names, each once, in order of first
   * appearance: a later node with the same name overwrites the entity in place.
   */
  lemma {:induction false} ExportKeys(nodes: seq<Node>, edges: seq<Edge>, ns: seq<Node>)
    ensures Keys(ExportEntities(nodes, edges, ns)) == Dedup(EntityNames(ns))
  {
    if ns != [] {
      var init := ns[..|ns| - 1];
      var last := ns[|ns| - 1];
      var prev := ExportEntities(nodes, edges, init);
      var entity := ExportEntity(nodes, edges, last);
      assert ExportEntities(nodes, edges, ns) == Put(prev, EntityName(last), entity);
      ExportKeys(nodes, edges, init);
      EntityNamesSnoc(ns);
      PutDedupKeys(prev, EntityNames(init), EntityName(last), entity);
    }
  }

  /** The entity names of a non-empty sequence of nodes: those of all but the last, then the last's. */
  lemma EntityNamesSnoc(ns: seq<Node>)
    requires ns != []
    ensures EntityNames(ns) == EntityNames(ns[..|ns| - 1]) + [EntityName(ns[|ns| - 1])]
  {
  }

  /** The exported field names are the node's field names, each once, in order of first appearance. */
  lemma ExportFieldKeys(nodes: seq<Node>, edges: seq<Edge>, entityName: string, fields: seq<Field>)
    ensures Keys(ExportFields(nodes, edges, entityName, fields)) == Dedup(FieldNames(fields))
  {
    PutFieldsKeys(fields, FieldExport(nodes, edges, entityName));
  }

  /**
   * A node's entity has an `alias` key exactly when the node's alias is non-empty, holding
   * that alias, and one key per distinct field name in first-occurrence order.
   */
  lemma ExportEntitySpec(nodes: seq<Node>, edges: seq<Edge>, node: Node)
    ensures var entity := ExportEntity(nodes, edges, node);
            && (entity.alias.Some? <==> node.alias != "")
            && (entity.alias.Some? ==> entity.alias.value == node.alias)
            && Keys(entity.fields) == Dedup(FieldNames(node.fields))
  {
    ExportFieldKeys(nodes, edges, EntityName(node), node.fields);
  }

  /**
   * When several nodes share an entity name, the last of them wins: the exported entity under
   * that name is the one built from the last such node.
   */
  lemma {:induction false} ExportLastNodeWins(nodes: seq<Node>, edges: seq<Edge>, ns: seq<Node>, i: nat)
    requires i < |ns|
    requires forall j :: i < j < |ns| ==> EntityName(ns[j]) != EntityName(ns[i])
    ensures Lookup(ExportEntities(nodes, edges, ns), EntityName(ns[i])) == Some(ExportEntity(nodes, edges, ns[i]))
  {
    var init := ns[..|ns| - 1];
    var last := ns[|ns| - 1];
    var prev := ExportEntities(nodes, edges, init);
    ExportKeys(nodes, edges, init);
    PutSpec(prev, EntityName(last), ExportEntity(nodes, edges, last));
    if i < |ns| - 1 {
      ExportLastNodeWins(nodes, edges, init, i);
    }
  }
}
