/** The column metadata the formatter dispatches on. The Arrow type
    predicates (`isDateType`, `isDecimalType`, ...) are not part of this
    model; a field instead carries the set of predicates it satisfies, which
    may hold several at once. */
module Types {
  import opened Outcomes

  /** One kind per type predicate imported from `./types`. */
  datatype Kind =
    | DateKind | TimeKind | DatetimeKind | PeriodKind | IntervalKind | DurationKind
    | DecimalKind | FloatKind | IntegerKind | ObjectKind | ListKind | BooleanKind

  /** The two attributes the formatter reads from the parsed
      `ARROW:extension:metadata` JSON, each present only when it is a string. */
  datatype Meta = Meta(closed: Option<string>, freq: Option<string>)

  /** `ARROW:extension:name` and the parsed `ARROW:extension:metadata`, each
      possibly absent. */
  datatype Extension = Extension(name: Option<string>, metadata: Option<Meta>)

  /** An Arrow field as the formatter reads it:
      `kinds` the type predicates it satisfies, `arrowInterval` Arrow's own
      `DataType.isInterval`, `isStruct` whether its type is a `Struct`,
      `scale` the decimal scale (`field.type.scale || 0`), `unit` the time
      unit, `timezone` the timestamp zone and `children` the struct children. */
  datatype Field = Field(
    name: string,
    kinds: set<Kind>,
    arrowInterval: bool,
    isStruct: bool,
    scale: nat,
    unit: Option<int>,
    timezone: Option<string>,
    extension: Extension,
    children: seq<Field>
  )
}
