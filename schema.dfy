/**
 * The nested JSON document the modeller imports and exports:
 * `{ entities: { <name>: { alias?, fields: { <field>: { ref?, calculation? } | {} } } } }`.
 * JSON objects are association lists in insertion order (see `JsSemantics.Put`).
 */
module Schema {
  import opened Wrappers

  /** `{ expression, ref }`: either key may be missing in an imported document. */
  datatype Calculation = Calculation(expression: Option<string>, ref: Option<seq<string>>)

  /** A field's record; `{}` is `FieldData(None, None)`. References are `"entity.field"` strings. */
  datatype FieldData = FieldData(ref: Option<seq<string>>, calculation: Option<Calculation>)

  /** An entity keyed by its qualified name (`BASE_`, `CTE_` or `VIEW_` followed by a display name). */
  datatype Entity = Entity(alias: Option<string>, fields: seq<(string, FieldData)>)

  datatype Model = Model(entities: seq<(string, Entity)>)

  /** The minimal field form `{}`. */
  const EmptyRecord := FieldData(None, None)

  /** `field.ref || []`. */
  function RefsOf(fd: FieldData): seq<string> {
    fd.ref.GetOr([])
  }

  /** `field.calculation?.ref || []`. */
  function CalcRefsOf(fd: FieldData): seq<string> {
    if fd.calculation.Some? then fd.calculation.value.ref.GetOr([]) else []
  }
}
