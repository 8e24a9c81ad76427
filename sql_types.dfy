/**
 * What the generators read from the target database and what they emit.
 * The escaping and default-schema lookups of liquibase.database.Database are
 * foreign calls, so a Database value carries them as uninterpreted functions.
 */
module SqlTypes {

  import opened Wrappers

  /** The `instanceof` tests on the database become a dialect tag. */
  datatype Dialect = MSSQL | Oracle | DB2 | MySQL | Other

  /** The class argument of `escapeObjectName`. */
  datatype ObjectKind = SchemaKind | StoredProcedureKind

  datatype Database = Database(
    dialect: Dialect,
    defaultSchemaName: Option<string>,
    escapeObjectName: (Option<string>, ObjectKind) -> string,
    escapeTableName: (Option<string>, Option<string>, Option<string>) -> string,
    escapeColumnName: (Option<string>, Option<string>, Option<string>, Option<string>) -> string)

  /** The end delimiter a fragment carries: the UnparsedSql default, or the one passed in (possibly null). */
  datatype EndDelimiter = DefaultDelimiter | Delimiter(value: Option<string>)

  /** The affected-object tags: Schema(catalog, schema), Table(name) in a schema, Column(name) in a table. */
  datatype SchemaRef = SchemaRef(catalogName: Option<string>, schemaName: Option<string>)
  datatype TableRef = TableRef(name: Option<string>, schema: SchemaRef)
  datatype DatabaseObject = ColumnObject(name: Option<string>, relation: TableRef)

  /** One emitted statement: an UnparsedSql. */
  datatype Sql = UnparsedSql(sql: string, endDelimiter: EndDelimiter, affected: seq<DatabaseObject>)

  /** `new UnparsedSql(text)`: default end delimiter, no affected objects. */
  function Unparsed(text: string): Sql {
    UnparsedSql(text, DefaultDelimiter, [])
  }

  /** Java string concatenation of a possibly null String: null reads "null". */
  function JavaText(s: Option<string>): string {
    if s.None? then "null" else s.value
  }

  /** The generator priority tiers of SqlGenerator (generic, then dialect-specific). */
  const PRIORITY_DEFAULT: int := 1
  const PRIORITY_DATABASE: int := 5

  /** The `List<Sql>` a generator fills and surroundWithSchemaSets edits in place. */
  class SqlList {
    var items: seq<Sql>

    constructor ()
      ensures items == []
    {
      items := [];
    }

    /** `add(s)` */
    method Add(s: Sql)
      modifies this
      ensures items == old(items) + [s]
    {
      items := items + [s];
    }

    /** `add(0, s)` */
    method AddFirst(s: Sql)
      modifies this
      ensures items == [s] + old(items)
    {
      items := [s] + items;
    }
  }
}
