/**
 * The older import in `src/data.js`: the same walk as `DataTransform.ModelToFlow`, but the
 * node keeps the full entity name as its label and carries an `isViewOrCTE` flag, decided by
 * substring tests, instead of a table type.
 */
module LegacyData {
  import opened Wrappers
  import opened JsSemantics
  import opened Schema
  import opened Graph
  import opened DataTransform

  /** A node of the legacy import. */
  datatype LegacyNode = LegacyNode(
    id: string,
    displayName: string,
    alias: string,
    fields: seq<Field>,
    isViewOrCTE: bool,
    position: Position)

  /** The legacy flag: "CTE_" or "VIEW_" occurs anywhere in the name. */
  predicate IsViewOrCTE(entityName: string) {
    Includes(entityName, "CTE_") || Includes(entityName, "VIEW_")
  }

  /** The node the legacy import pushes for one entity at height `y`. */
  function LegacyEntityNode(entityName: string, entity: Entity, y: int): LegacyNode {
    LegacyNode(entityName, entityName, entity.alias.GetOr(""), NodeFields(entity.fields), IsViewOrCTE(entityName), Position(0, y))
  }

  /** The nodes of the legacy import, one per entity in entry order, a row apart. */
  function LegacyNodes(entities: seq<(string, Entity)>): (r: seq<LegacyNode>)
    ensures |r| == |entities|
    ensures forall i :: 0 <= i < |entities| ==> r[i] == LegacyEntityNode(entities[i].0, entities[i].1, RowHeight * i)
  {
    seq(|entities|, i requires 0 <= i < |entities| => LegacyEntityNode(entities[i].0, entities[i].1, RowHeight * i))
  }

  /**
   * `modelToFlow` of `src/data.js`, on the model it is given: one node per entity, then the
   * field-by-field edges, exactly as the newer import pushes them.
   */
  method LegacyModelToFlow(model: Model) returns (nodes: seq<LegacyNode>, edges: seq<Edge>)
    ensures nodes == LegacyNodes(model.entities)
    ensures edges == ImportEdges(model.entities)
    ensures |edges| == RefCount(model.entities)
  {
    var entities := model.entities;
    nodes := [];
    edges := [];
    var y := 0;
    var i := 0;
    while i < |entities|
      invariant 0 <= i <= |entities|
      invariant y == RowHeight * i
      invariant nodes == LegacyNodes(entities[..i])
      invariant edges == ImportEdges(entities[..i])
    {
      var (entityName, entity) := entities[i];
      LegacyNodesStep(entities, i);
      ImportEdgesStep(entities, i);
      nodes := nodes + [LegacyEntityNode(entityName, entity, y)];
      edges := PushEntityEdges(edges, entityName, entity.fields);
      y := y + RowHeight;
      i := i + 1;
    }
    assert entities[..i] == entities;
    ImportEdgeCount(entities);
  }

  /** The legacy nodes of one more entity. */
  lemma LegacyNodesStep(entities: seq<(string, Entity)>, i: nat)
    requires i < |entities|
    ensures LegacyNodes(entities[..i + 1]) == LegacyNodes(entities[..i]) + [LegacyEntityNode(entities[i].0, entities[i].1, RowHeight * i)]
  {
    var a := LegacyNodes(entities[..i + 1]);
    var b := LegacyNodes(entities[..i]) + [LegacyEntityNode(entities[i].0, entities[i].1, RowHeight * i)];
    forall k | 0 <= k < i + 1 ensures a[k] == b[k] {
      if k < i {
        assert entities[..i + 1][k] == entities[..i][k];
      }
    }
  }

  /**
   * Node by node, the two imports differ only in the label and the classification: the legacy
   * label is the full name, which is the newer node's id, and the newer label is that name
   * with its prefix stripped; id, alias, fields and position agree.
   */
  lemma LegacyAgreesWithImport(entities: seq<(string, Entity)>, i: nat)
    requires i < |entities|
    ensures var legacy := LegacyNodes(entities)[i];
            var current := ImportNodes(entities)[i];
            && legacy.id == current.id && legacy.alias == current.alias
            && legacy.fields == current.fields && legacy.position == current.position
            && legacy.displayName == current.id
            && current.displayName == RemoveTablePrefix(legacy.displayName)
            && legacy.position == Position(0, RowHeight * i)
  {
  }

  /** Every name the newer import types as CTE or VIEW is flagged by the legacy test. */
  lemma TypedViewOrCteIsFlagged(entityName: string)
    requires ExtractTableType(entityName) == Some("CTE") || ExtractTableType(entityName) == Some("VIEW")
    ensures IsViewOrCTE(entityName)
  {
  }

  /**
   * The legacy test looks anywhere in the name: a `BASE_` entity whose name contains `CTE_`
   * is flagged, while the newer import types it as BASE.
   */
  lemma SubstringFlagsBaseTable()
    ensures IsViewOrCTE("BASE_CTE_X") && ExtractTableType("BASE_CTE_X") == Some("BASE")
  {
    assert "BASE_CTE_X"[5..9] == "CTE_";
    IncludesAt("BASE_CTE_X", "CTE_", 5);
    assert StartsWith("BASE_CTE_X", "BASE_") by { assert "BASE_CTE_X"[..5] == "BASE_"; }
  }
}
