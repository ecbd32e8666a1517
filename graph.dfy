/**
 * The flat graph the canvas edits: one node per entity, one edge per reference.
 * Only the attributes the core reads or writes are kept (no styling, no node type tag).
 */
module Graph {
  import opened Schema

  /** The `ref_type` tag of an edge: `"normal"` or `"calculation"`. */
  datatype RefType = NormalRef | CalculationRef

  /** A node's field: `{ name, ...fieldData }`. */
  datatype Field = Field(name: string, data: FieldData)

  datatype Position = Position(x: int, y: int)

  /** A table node; `displayName` is `node.data.label`; `alias`, `fields` and `tableType` also live under `node.data`. */
  datatype Node = Node(id: string, displayName: string, alias: string, fields: seq<Field>,
                       tableType: string, position: Position)

  datatype Edge = Edge(id: string, refType: RefType, source: string, target: string,
                       sourceHandle: string, targetHandle: string, animated: bool)

  /** `getHandleId(nodeId, fieldName)`: the connection point of a field, `"<nodeId>-<fieldName>"`. */
  function HandleId(nodeId: string, fieldName: string): string {
    nodeId + "-" + fieldName
  }

  /** The ids of the nodes, in order. */
  function Ids(nodes: seq<Node>): (r: seq<string>)
    ensures |r| == |nodes| && forall i :: 0 <= i < |nodes| ==> r[i] == nodes[i].id
  {
    seq(|nodes|, i requires 0 <= i < |nodes| => nodes[i].id)
  }

  /** The field names of a node, in order. */
  function FieldNames(fields: seq<Field>): (r: seq<string>)
    ensures |r| == |fields| && forall i :: 0 <= i < |fields| ==> r[i] == fields[i].name
  {
    seq(|fields|, i requires 0 <= i < |fields| => fields[i].name)
  }

  /** The names of one more field. */
  lemma FieldNamesSnoc(fields: seq<Field>, f: Field)
    ensures FieldNames(fields + [f]) == FieldNames(fields) + [f.name]
    ensures (fields + [f])[..|fields|] == fields
  {
  }

  /** `handle` is the handle of a field of a node whose id is `id`. */
  ghost predicate HandleOn(nodes: seq<Node>, id: string, handle: string) {
    exists n, f :: n in nodes && f in n.fields && n.id == id && handle == HandleId(id, f.name)
  }

  /** No dangling edge: both ends of every edge are fields of existing nodes. */
  ghost predicate Attached(nodes: seq<Node>, edges: seq<Edge>) {
    forall e :: e in edges ==>
      HandleOn(nodes, e.source, e.sourceHandle) && HandleOn(nodes, e.target, e.targetHandle)
  }

  /** Field `j` of node `i` gives a handle on that node. */
  lemma HandleOnAt(nodes: seq<Node>, i: nat, j: nat)
    requires i < |nodes| && j < |nodes[i].fields|
    ensures HandleOn(nodes, nodes[i].id, HandleId(nodes[i].id, nodes[i].fields[j].name))
  {
    assert nodes[i] in nodes && nodes[i].fields[j] in nodes[i].fields;
  }

  /** A handle on a node is the handle of some field `j` of some node `i` with that id. */
  lemma HandleOnIndex(nodes: seq<Node>, id: string, handle: string) returns (i: nat, j: nat)
    requires HandleOn(nodes, id, handle)
    ensures i < |nodes| && j < |nodes[i].fields|
    ensures nodes[i].id == id && handle == HandleId(id, nodes[i].fields[j].name)
  {
    var n, f :| n in nodes && f in n.fields && n.id == id && handle == HandleId(id, f.name);
    i :| 0 <= i < |nodes| && nodes[i] == n;
    j :| 0 <= j < |n.fields| && n.fields[j] == f;
  }

  /** Every handle of `nodes` is still a handle of `nodes'`. */
  ghost predicate KeepsHandles(nodes: seq<Node>, nodes': seq<Node>) {
    forall i, j :: 0 <= i < |nodes| && 0 <= j < |nodes[i].fields| ==>
      HandleOn(nodes', nodes[i].id, HandleId(nodes[i].id, nodes[i].fields[j].name))
  }

  /** Edges stay attached when the nodes change without losing a handle. */
  lemma AttachedKept(nodes: seq<Node>, nodes': seq<Node>, edges: seq<Edge>)
    requires KeepsHandles(nodes, nodes') && Attached(nodes, edges)
    ensures Attached(nodes', edges)
  {
    forall e | e in edges ensures HandleOn(nodes', e.source, e.sourceHandle) && HandleOn(nodes', e.target, e.targetHandle) {
      var i, j := HandleOnIndex(nodes, e.source, e.sourceHandle);
      var k, l := HandleOnIndex(nodes, e.target, e.targetHandle);
    }
  }

  /**
   * With dash-free node ids, a handle determines its node and field: `getHandleId` splits at
   * the first `-`.
   */
  lemma HandleIdUnique(a: string, f: string, b: string, g: string)
    requires '-' !in a && '-' !in b
    requires HandleId(a, f) == HandleId(b, g)
    ensures a == b && f == g
  {
    var h := HandleId(a, f);
    assert h[|a|] == '-' && h[|b|] == '-';
    assert a == h[..|a|] && b == h[..|b|];
    assert f == h[|a| + 1..] && g == h[|b| + 1..];
  }
}
