/**
 * liquibase.sqlgenerator.core.AddDefaultValueGeneratorMySQL: the MySQL variant of
 * the add-default-value generator, which writes `ALTER <column>` where the generic
 * generator writes `ALTER COLUMN`.
 */
module AddDefaultValueGeneratorMySQL {

  import opened Wrappers
  import opened SqlTypes

  /** `V` is the type of the default value (a Java Object, possibly null). */
  datatype AddDefaultValueStatement<V> = AddDefaultValueStatement(
    catalogName: Option<string>,
    schemaName: Option<string>,
    tableName: Option<string>,
    columnName: Option<string>,
    defaultValue: V)

  /**
   * DataTypeFactory: `fromObject(value, database)` picks a data type `T` for a value,
   * and that type's `objectToSql(value, database)` renders the value as a literal.
   * The database argument is fixed, so both are functions of the remaining arguments.
   */
  datatype LiteralRenderer<!V, !T> = LiteralRenderer(fromObject: V -> T, objectToSql: (T, V) -> string)

  /** The generator ranks at database priority, above the generic generator. */
  function GetPriority(): (p: int)
    ensures p == PRIORITY_DATABASE
    ensures p > PRIORITY_DEFAULT
  {
    PRIORITY_DATABASE
  }

  /** Applies to MySQL databases and to no other, whatever the statement. */
  function Supports<V>(statement: AddDefaultValueStatement<V>, database: Database): (b: bool)
    ensures b <==> database.dialect == MySQL
  {
    database.dialect == MySQL
  }

  function TableIn<V>(statement: AddDefaultValueStatement<V>): TableRef {
    TableRef(statement.tableName, SchemaRef(statement.catalogName, statement.schemaName))
  }

  /** The value's literal, rendered by the data type looked up for that very value. */
  function DefaultLiteral<V, T>(value: V, renderer: LiteralRenderer<V, T>): string {
    renderer.objectToSql(renderer.fromObject(value), value)
  }

  /**
   * One fragment: `ALTER TABLE <table> ALTER <column> SET DEFAULT <literal>`, with the
   * default end delimiter, tagged with the altered column.
   */
  function GenerateSql<V, T>(statement: AddDefaultValueStatement<V>, database: Database,
                             renderer: LiteralRenderer<V, T>): (r: seq<Sql>)
    ensures |r| == 1
    ensures r[0].sql == "ALTER TABLE " +
                        database.escapeTableName(statement.catalogName, statement.schemaName, statement.tableName) +
                        " ALTER " +
                        database.escapeColumnName(statement.catalogName, statement.schemaName,
                                                  statement.tableName, statement.columnName) +
                        " SET DEFAULT " +
                        renderer.objectToSql(renderer.fromObject(statement.defaultValue), statement.defaultValue)
    ensures r[0].endDelimiter == DefaultDelimiter
    ensures r[0].affected == [ColumnObject(statement.columnName, TableRef(statement.tableName,
                                           SchemaRef(statement.catalogName, statement.schemaName)))]
  {
    var defaultValue := statement.defaultValue;
    [UnparsedSql("ALTER TABLE " +
                 database.escapeTableName(statement.catalogName, statement.schemaName, statement.tableName) +
                 " ALTER " +
                 database.escapeColumnName(statement.catalogName, statement.schemaName,
                                           statement.tableName, statement.columnName) +
                 " SET DEFAULT " + DefaultLiteral(defaultValue, renderer),
                 DefaultDelimiter,
                 [ColumnObject(statement.columnName, TableIn(statement))])]
  }

  /**
   * Read back from the fragment: right after the escaped table comes " ALTER " and
   * then directly the escaped column (no COLUMN keyword), and the text ends with the
   * literal, with no terminator after it.
   */
  lemma FragmentLayout<V, T>(statement: AddDefaultValueStatement<V>, database: Database,
                             renderer: LiteralRenderer<V, T>)
    ensures var text := GenerateSql(statement, database, renderer)[0].sql;
            var table := database.escapeTableName(statement.catalogName, statement.schemaName, statement.tableName);
            var column := database.escapeColumnName(statement.catalogName, statement.schemaName,
                                                    statement.tableName, statement.columnName);
            var literal := DefaultLiteral(statement.defaultValue, renderer);
            var k := 12 + |table|;
            text[..12] == "ALTER TABLE " &&
            text[12..k] == table &&
            text[k..k + 7] == " ALTER " &&
            text[k + 7..k + 7 + |column|] == column &&
            text[k + 7 + |column|..k + 20 + |column|] == " SET DEFAULT " &&
            text[|text| - |literal|..] == literal
  {
    var text := GenerateSql(statement, database, renderer)[0].sql;
    var table := database.escapeTableName(statement.catalogName, statement.schemaName, statement.tableName);
    var column := database.escapeColumnName(statement.catalogName, statement.schemaName,
                                            statement.tableName, statement.columnName);
    var literal := DefaultLiteral(statement.defaultValue, renderer);
    assert text == "ALTER TABLE " + table + " ALTER " + column + " SET DEFAULT " + literal;
  }
}
