/**
 * The import/export round trip: exporting the canvas that `modelToFlow` builds from a
 * document gives the document back, for every document already in the shape `flowToModel`
 * writes (prefixed entity names, no duplicate keys, `E.f` pointers, `{}` for plain fields).
 */
module RoundTrip {
  import opened Wrappers
  import opened JsSemantics
  import opened Schema
  import opened Graph
  import opened DataTransform
  import opened FlowToModel

  // ---------------------------------------------------------------------------
  // Documents in exported shape

  /** A pointer `E.f` with a prefixed entity name and no further `.`. */
  predicate WellFormedRef(ref: string) {
    var (e, f) := SplitFirstTwo(ref, '.');
    f.Some? && ref == e + "." + f.value && HasTablePrefix(e)
  }

  /** A pointer list with no repeats and only well-formed pointers. */
  predicate CanonicalRefs(refs: seq<string>) {
    Distinct(refs) && forall i :: 0 <= i < |refs| ==> WellFormedRef(refs[i])
  }

  /** A field record as exported: `ref` absent or non-empty, a calculation with both an expression and a list. */
  predicate CanonicalField(fd: FieldData) {
    && (fd.ref.Some? ==> fd.ref.value != [] && CanonicalRefs(fd.ref.value))
    && (fd.calculation.Some? ==>
          fd.calculation.value.expression.Some? && fd.calculation.value.ref.Some?
          && CanonicalRefs(fd.calculation.value.ref.value))
  }

  /** An entity as exported: no empty alias, distinct field names, canonical records. */
  predicate CanonicalEntity(entity: Entity) {
    && entity.alias != Some("")
    && Distinct(Keys(entity.fields))
    && forall i :: 0 <= i < |entity.fields| ==> CanonicalField(entity.fields[i].1)
  }

  /** A document as exported: distinct prefixed entity names and canonical entities. */
  predicate Canonical(model: Model) {
    && Distinct(Keys(model.entities))
    && forall i :: 0 <= i < |model.entities| ==>
         HasTablePrefix(model.entities[i].0) && CanonicalEntity(model.entities[i].1)
  }

  /** The pointers of one kind stored on a record. */
  function StoredRefs(kind: RefType, fd: FieldData): seq<string> {
    if kind == NormalRef then RefsOf(fd) else CalcRefsOf(fd)
  }

  // ---------------------------------------------------------------------------
  // From pointer to edge and back

  /** Reading the pointer back off the edge built for a well-formed pointer gives the pointer. */
  lemma EdgeRefOfRefEdge(nodes: seq<Node>, kind: RefType, ref: string, t: string, g: string)
    requires WellFormedRef(ref)
    ensures EdgeRef(nodes, RefEdge(kind, ref, t, g)) == ref
  {
    var (e, f) := SplitFirstTwo(ref, '.');
    var fv := f.value;
    var edge := RefEdge(kind, ref, t, g);
    assert edge.source == e;
    assert edge.sourceHandle == HandleId(e, fv);
    assert HandleId(e, fv) == (e + "-") + fv;
    ReplaceFirstAtStart(e + "-", fv, "");
    assert ReplaceFirst(edge.sourceHandle, edge.source + "-", "") == fv;
    ResolveSourceSpec(nodes, e);
    assert ResolveSource(nodes, edge.source) == e;
  }

  /** The pointers read off the edges of a list of well-formed pointers are that list. */
  lemma EdgeRefsOfRefEdges(nodes: seq<Node>, kind: RefType, refs: seq<string>, t: string, g: string)
    requires forall i :: 0 <= i < |refs| ==> WellFormedRef(refs[i])
    ensures EdgeRefs(nodes, RefEdges(kind, refs, t, g)) == refs
  {
    var r := EdgeRefs(nodes, RefEdges(kind, refs, t, g));
    forall i | 0 <= i < |refs| ensures r[i] == refs[i] {
      RefEdgesAt(kind, refs, t, g, i);
      EdgeRefOfRefEdge(nodes, kind, refs[i], t, g);
    }
  }

  /** Handles of one node differ when the field names differ. */
  lemma HandleIdInjective(t: string, g: string, g': string)
    requires HandleId(t, g) == HandleId(t, g')
    ensures g == g'
  {
    assert g == HandleId(t, g)[|t| + 1..];
  }

  // ---------------------------------------------------------------------------
  // Which imported edges feed a field

  /** The edges of one pointer list feed exactly their own field, with their own kind. */
  lemma FilterRefEdges(kind: RefType, t: string, g: string, kind': RefType, t': string, g': string, refs: seq<string>)
    ensures Filter(RefEdges(kind', refs, t', g'), Incoming(kind, t, g))
         == if kind == kind' && t == t' && g == g' then RefEdges(kind', refs, t', g') else []
  {
    var es := RefEdges(kind', refs, t', g');
    forall i | 0 <= i < |es|
      ensures es[i].refType == kind' && es[i].target == t' && es[i].targetHandle == HandleId(t', g')
    {
      RefEdgesAt(kind', refs, t', g', i);
    }
    if kind == kind' && t == t' && g == g' {
      FilterKeepsAll(es, Incoming(kind, t, g));
    } else {
      forall i | 0 <= i < |es| ensures !Incoming(kind, t, g)(es[i]) {
        if t == t' && es[i].targetHandle == HandleId(t, g) {
          HandleIdInjective(t, g, g');
        }
      }
      FilterNone(es, Incoming(kind, t, g));
    }
  }

  /** The edges of one field that feed field `g` of `t`. */
  lemma FilterFieldEdges(kind: RefType, t: string, g: string, t': string, g': string, fd: FieldData)
    ensures Filter(FieldEdges(t', g', fd), Incoming(kind, t, g))
         == if t == t' && g == g' then RefEdges(kind, StoredRefs(kind, fd), t, g) else []
  {
    var p := Incoming(kind, t, g);
    var normal := RefEdges(NormalRef, RefsOf(fd), t', g');
    var calcs := RefEdges(CalculationRef, CalcRefsOf(fd), t', g');
    assert FieldEdges(t', g', fd) == normal + calcs;
    FilterConcat(normal, calcs, p);
    FilterRefEdges(kind, t, g, NormalRef, t', g', RefsOf(fd));
    FilterRefEdges(kind, t, g, CalculationRef, t', g', CalcRefsOf(fd));
    if t == t' && g == g' && kind == NormalRef {
      assert Filter(calcs, p) == [];
      assert normal + [] == normal;
    } else if t == t' && g == g' {
      assert Filter(normal, p) == [];
      assert [] + calcs == calcs;
    } else {
      assert Filter(normal, p) == [] && Filter(calcs, p) == [];
    }
  }

  /** The edges of one entity that feed field `g` of `t`: those of its field `g`, if it is `t`. */
  lemma {:induction false} FilterEntityEdges(kind: RefType, t: string, g: string, t': string, fields: seq<(string, FieldData)>)
    requires Distinct(Keys(fields))
    ensures Filter(EntityEdges(t', fields), Incoming(kind, t, g))
         == if t == t' && Lookup(fields, g).Some? then RefEdges(kind, StoredRefs(kind, Lookup(fields, g).value), t, g) else []
  {
    var p := Incoming(kind, t, g);
    if fields != [] {
      var init := fields[..|fields| - 1];
      var last := fields[|fields| - 1];
      var a := Filter(EntityEdges(t', init), p);
      var b := Filter(FieldEdges(t', last.0, last.1), p);
      assert EntityEdges(t', fields) == EntityEdges(t', init) + FieldEdges(t', last.0, last.1);
      FilterConcat(EntityEdges(t', init), FieldEdges(t', last.0, last.1), p);
      KeysSnoc(fields);
      FilterEntityEdges(kind, t, g, t', init);
      FilterFieldEdges(kind, t, g, t', last.0, last.1);
      LookupSnoc(fields, g);
      if t == t' && g == last.0 {
        assert Lookup(init, g) == None && a == [];
        assert Lookup(fields, g) == Some(last.1);
        assert [] + b == b;
      } else if t == t' {
        assert Lookup(fields, g) == Lookup(init, g) && b == [];
        assert a + [] == a;
      } else {
        assert a == [] && b == [];
      }
    }
  }

  /** The imported edges that feed field `g` of entity `t`: exactly the edges of that field's pointers. */
  lemma {:induction false} FilterImportEdges(kind: RefType, t: string, g: string, entities: seq<(string, Entity)>)
    requires Distinct(Keys(entities))
    requires forall i :: 0 <= i < |entities| ==> Distinct(Keys(entities[i].1.fields))
    ensures Filter(ImportEdges(entities), Incoming(kind, t, g)) == FedBy(kind, t, g, entities)
  {
    var p := Incoming(kind, t, g);
    if entities != [] {
      var init := entities[..|entities| - 1];
      var last := entities[|entities| - 1];
      InitLast(entities);
      KeysSnoc(entities);
      assert forall i :: 0 <= i < |init| ==> init[i] == entities[i];
      FilterImportEdges(kind, t, g, init);
      FilterConcat(ImportEdges(init), EntityEdges(last.0, last.1.fields), p);
      FilterEntityEdges(kind, t, g, last.0, last.1.fields);
      FedBySnoc(kind, t, g, entities);
    }
  }

  /** Where the last entity is `t`, it alone decides; otherwise the entities before it do. */
  lemma FedBySnoc(kind: RefType, t: string, g: string, entities: seq<(string, Entity)>)
    requires entities != [] && Distinct(Keys(entities))
    ensures var init := entities[..|entities| - 1];
            var last := entities[|entities| - 1];
            FedBy(kind, t, g, entities)
            == FedBy(kind, t, g, init)
               + if t == last.0 && Lookup(last.1.fields, g).Some?
                 then RefEdges(kind, StoredRefs(kind, Lookup(last.1.fields, g).value), t, g) else []
  {
    var init := entities[..|entities| - 1];
    var last := entities[|entities| - 1];
    KeysSnoc(entities);
    LookupSnoc(entities, t);
    if t == last.0 {
      assert Lookup(init, t) == None;
      assert Lookup(entities, t) == Some(last.1);
    } else {
      assert Lookup(entities, t) == Lookup(init, t);
    }
  }

  /** The edges of the pointers that the document stores on field `g` of entity `t`. */
  function FedBy(kind: RefType, t: string, g: string, entities: seq<(string, Entity)>): seq<Edge> {
    match Lookup(entities, t)
    case None => []
    case Some(entity) =>
      match Lookup(entity.fields, g)
      case None => []
      case Some(fd) => RefEdges(kind, StoredRefs(kind, fd), t, g)
  }

  /** Each field of an imported canonical document reads back exactly its stored pointers from the edges. */
  lemma ImportedIncoming(nodes: seq<Node>, model: Model, kind: RefType, i: nat, j: nat)
    requires Canonical(model)
    requires i < |model.entities| && j < |model.entities[i].1.fields|
    ensures var (t, entity) := model.entities[i];
            var (g, fd) := entity.fields[j];
            RefsFromEdges(nodes, ImportEdges(model.entities), kind, t, g) == StoredRefs(kind, fd)
  {
    var (t, entity) := model.entities[i];
    var (g, fd) := entity.fields[j];
    assert CanonicalEntity(entity);
    LookupDistinct(model.entities, i);
    LookupDistinct(entity.fields, j);
    FilterImportEdges(kind, t, g, model.entities);
    assert CanonicalField(fd);
    EdgeRefsOfRefEdges(nodes, kind, StoredRefs(kind, fd), t, g);
  }

  // ---------------------------------------------------------------------------
  // Field, entity and document round trips

  /** A canonical record comes back unchanged when its incoming edges carry exactly its own pointers. */
  lemma FieldRoundTrip(nodes: seq<Node>, edges: seq<Edge>, t: string, g: string, fd: FieldData)
    requires CanonicalField(fd)
    requires RefsFromEdges(nodes, edges, NormalRef, t, g) == RefsOf(fd)
    requires RefsFromEdges(nodes, edges, CalculationRef, t, g) == CalcRefsOf(fd)
    ensures ExportFieldData(nodes, edges, t, Field(g, fd)) == fd
  {
    var refs := RefsOf(fd);
    assert NormalizeRefs(nodes, refs) == refs;
    DedupAbsorbs(refs, refs);
    match fd.calculation
    case None =>
    case Some(c) =>
      var calcRefs := c.ref.value;
      assert NormalizeRefs(nodes, calcRefs) == calcRefs;
      DedupAbsorbs(calcRefs, calcRefs);
  }

  /** Exporting the imported fields of a canonical entity gives its field list back, in order. */
  lemma {:induction false} FieldsRoundTrip(nodes: seq<Node>, edges: seq<Edge>, t: string, fields: seq<(string, FieldData)>)
    requires Distinct(Keys(fields))
    requires forall j :: 0 <= j < |fields| ==> ExportFieldData(nodes, edges, t, Field(fields[j].0, fields[j].1)) == fields[j].1
    ensures ExportFields(nodes, edges, t, NodeFields(fields)) == fields
  {
    if fields != [] {
      var n := |fields|;
      var init := fields[..n - 1];
      var last := fields[n - 1];
      InitLast(fields);
      var nf := NodeFields(fields);
      assert nf[..n - 1] == NodeFields(init);
      assert nf[n - 1] == Field(last.0, last.1);
      KeysSnoc(fields);
      assert forall j :: 0 <= j < |init| ==> init[j] == fields[j];
      FieldsRoundTrip(nodes, edges, t, init);
      assert ExportFieldData(nodes, edges, t, nf[n - 1]) == last.1;
      assert ExportFields(nodes, edges, t, nf) == Put(init, last.0, last.1);
      PutKeys(init, last.0, last.1);
    }
  }

  /**
   * Assigning entities with distinct names in order rebuilds the list: exporting nodes whose
   * names and entities are those of a duplicate-free list gives that list.
   */
  lemma {:induction false} EntitiesRoundTrip(nodes: seq<Node>, edges: seq<Edge>, ns: seq<Node>, entities: seq<(string, Entity)>)
    requires Distinct(Keys(entities)) && |ns| == |entities|
    requires forall i :: 0 <= i < |entities| ==>
               EntityName(ns[i]) == entities[i].0 && ExportEntity(nodes, edges, ns[i]) == entities[i].1
    ensures ExportEntities(nodes, edges, ns) == entities
  {
    if entities != [] {
      var n := |entities|;
      var init := entities[..n - 1];
      var last := entities[n - 1];
      var front := ns[..n - 1];
      KeysSnoc(entities);
      forall i | 0 <= i < |init|
        ensures EntityName(front[i]) == init[i].0 && ExportEntity(nodes, edges, front[i]) == init[i].1
      {
        assert front[i] == ns[i] && init[i] == entities[i];
      }
      EntitiesRoundTrip(nodes, edges, front, init);
      EntitiesRoundTripStep(nodes, edges, ns, entities);
    }
  }

  /** The last step of the rebuild: a new key is appended after the entities already rebuilt. */
  lemma EntitiesRoundTripStep(nodes: seq<Node>, edges: seq<Edge>, ns: seq<Node>, entities: seq<(string, Entity)>)
    requires entities != [] && |ns| == |entities| && Distinct(Keys(entities))
    requires ExportEntities(nodes, edges, ns[..|ns| - 1]) == entities[..|entities| - 1]
    requires EntityName(ns[|ns| - 1]) == entities[|entities| - 1].0
    requires ExportEntity(nodes, edges, ns[|ns| - 1]) == entities[|entities| - 1].1
    ensures ExportEntities(nodes, edges, ns) == entities
  {
    var m := |ns| - 1;
    assert ExportEntities(nodes, edges, ns)
        == Put(ExportEntities(nodes, edges, ns[..m]), EntityName(ns[m]), ExportEntity(nodes, edges, ns[m]));
    PutLast(entities);
  }

  /** One imported entity exports back to itself. */
  lemma EntityRoundTrip(model: Model, i: nat)
    requires Canonical(model) && i < |model.entities|
    ensures var nodes := ImportNodes(model.entities);
            EntityName(nodes[i]) == model.entities[i].0
            && ExportEntity(nodes, ImportEdges(model.entities), nodes[i]) == model.entities[i].1
  {
    var nodes := ImportNodes(model.entities);
    var edges := ImportEdges(model.entities);
    var (t, entity) := model.entities[i];
    assert CanonicalEntity(entity);
    forall j | 0 <= j < |entity.fields|
      ensures ExportFieldData(nodes, edges, t, Field(entity.fields[j].0, entity.fields[j].1)) == entity.fields[j].1
    {
      ImportedIncoming(nodes, model, NormalRef, i, j);
      ImportedIncoming(nodes, model, CalculationRef, i, j);
      FieldRoundTrip(nodes, edges, t, entity.fields[j].0, entity.fields[j].1);
    }
    FieldsRoundTrip(nodes, edges, t, entity.fields);
  }

  /**
   * Export after import is the identity on documents in exported shape: same entities in the
   * same order, same aliases, same fields in the same order, same pointers and calculations.
   */
  lemma RoundTripModel(model: Model)
    requires Canonical(model)
    ensures ExportModel(ImportNodes(model.entities), ImportEdges(model.entities)) == model
  {
    var nodes := ImportNodes(model.entities);
    var edges := ImportEdges(model.entities);
    forall i | 0 <= i < |model.entities|
      ensures EntityName(nodes[i]) == model.entities[i].0
              && ExportEntity(nodes, edges, nodes[i]) == model.entities[i].1
    {
      EntityRoundTrip(model, i);
    }
    EntitiesRoundTrip(nodes, edges, nodes, model.entities);
  }
}
