# Liquibase stored-procedure and MySQL default-value generators in Dafny

This project models two SQL generators of Liquibase's `liquibase-core`:

- `CreateProcedureGenerator`. It validates a `CreateProcedureStatement` and turns its body into the SQL fragments that create the procedure. Along the way it:
  - puts the schema into the procedure name (`addSchemaToText`);
  - on `replaceIfExists`, emits an existence probe and rewrites the first `create`/`alter` clause to `ALTER`;
  - strips the trailing end delimiter (`removeTrailingDelimiter`);
  - appends `;` to SQL Server `MERGE` bodies;
  - wraps the fragments in Oracle or DB2 session-schema statements (`surroundWithSchemaSets`).
- `AddDefaultValueGeneratorMySQL`. Its priority, its dialect test, and the single `ALTER TABLE … ALTER … SET DEFAULT …` fragment it emits.

The Java code works step by step, and the model keeps that form:

- `validate` fills a `ValidationErrors` object (class `Validation.ValidationErrors`).
- `generateSql` fills a list (class `SqlTypes.SqlList`) and walks `StringClauses` iterators in `while` loops (classes `Clauses.StringClauses` and `Clauses.ClauseIterator`).
- `removeTrailingDelimiter` shrinks the text in a loop.
- `surroundWithSchemaSets` edits the caller's list in place.

These methods are proved against a function that says what they compute:

| method | function |
|---|---|
| `RemoveTrailingDelimiter` | `DelimiterStripped` |
| `SurroundWithSchemaSets` | `Surround` of `SchemaSets` |
| `AddSchemaToText` | `SchemaAppliedText` |
| `RewriteCreateAsAlter` | `AlterRewritten` |
| `IsReallyMerge` | `HasMergeClause` |
| `GenerateSql` | `GeneratedSql` |

The properties of these functions are proved as lemmas. `Validate` and the class methods state their results directly. The MySQL generator is pure and is modelled with functions.

How the Java pieces map onto the model:

- A nullable Java value is an `Option`.
- Java string concatenation of `null` gives `"null"` (`SqlTypes.JavaText`).
- The `instanceof` tests on the database become a dialect tag.
- The database's escaping functions and default schema are fields of the `Database` value, left uninterpreted.
- The two global configuration flags (`alwaysOverrideStoredLogicSchema` and the change-log parser's `USE_PROCEDURE_SCHEMA`) are passed in as a `Configuration`.
- `SqlParser.parse(text, true, true)` is a parameter `Tokenizer` that maps a text to its clauses.
- The whitespace-dropping `SqlParser.parse(text)` is the same clauses without the whitespace-only ones (`Clauses.Significant`).
- `StringClauses` is a class holding the clause list, and its iterator is a class holding a cursor into that list (`Clauses.ClauseIterator`). The semantics of the iterator's operations are assumptions; "## Left out" lists them.
- Java's `split("\\.")` is modelled with Java's rule of dropping trailing empty pieces (`JavaStrings.SplitOnDots`).

In `removeTrailingDelimiter`, trailing blanks (space, tab, CR, LF) are trimmed before the match. A delimiter whose translated form ends in a blank, such as `\n`, therefore never matches (`BlankEndedDelimiterNeverStrips`).

Files:

| file | contents |
|---|---|
| `wrappers.dfy` | `Option` |
| `java_strings.dfy` | the Java `String` operations used |
| `sql_types.dfy` | dialects, the database record, `Sql` fragments, the fragment list |
| `validation.dfy` | `ValidationErrors` |
| `clauses.dfy` | parsed clauses and their iterator |
| `create_procedure.dfy` | `CreateProcedureGenerator` |
| `add_default_value_mysql.dfy` | `AddDefaultValueGeneratorMySQL` |

## Model

| member | source | states |
|---|---|---|
| CreateProcedureGenerator.Validate | liquibase-core/src/main/java/liquibase/sqlgenerator/core/CreateProcedureGenerator.java:27-41 | The whole error list, in the order of the checks, with at most one error per check: a required-field error for procedureText when the text is null; then, when replaceIfExists is non-null, on SQL Server the procedureName error when the flag is true and the name is null, and on every other dialect a disallowed-field error for replaceIfExists. As consequences: the required-field error appears exactly when the text is null, and it comes first. A null replaceIfExists adds no flag error. On SQL Server the procedureName error appears exactly when replaceIfExists is true and the name is null, and the flag is never reported as disallowed. On every other dialect the flag is reported as disallowed exactly when it is non-null. No other error ever appears. |
| Validation.ValidationErrors.constructor | liquibase-core/src/main/java/liquibase/sqlgenerator/core/CreateProcedureGenerator.java:28 | An empty list of errors. |
| Validation.ValidationErrors.CheckRequiredField | liquibase-core/src/main/java/liquibase/sqlgenerator/core/CreateProcedureGenerator.java:29 | Appends a required-field error for the field exactly when the value is null, and keeps the earlier errors. |
| Validation.ValidationErrors.CheckDisallowedField | liquibase-core/src/main/java/liquibase/sqlgenerator/core/CreateProcedureGenerator.java:36 | With no list of disallowed databases (so every database disallows the field), appends a disallowed-field error exactly when the value is non-null. |
| Validation.ValidationErrors.AddError | liquibase-core/src/main/java/liquibase/sqlgenerator/core/CreateProcedureGenerator.java:33 | Appends the message as one more error. |
| CreateProcedureGenerator.TrimTrailingBlanks | liquibase-core/src/main/java/liquibase/sqlgenerator/core/CreateProcedureGenerator.java:105-112 | The text with its trailing space, LF, CR and tab characters removed. Its properties are in `TrimTrailingBlanksShape` and `TrimAppendedBlanks`. |
| CreateProcedureGenerator.TranslateEscapes | liquibase-core/src/main/java/liquibase/sqlgenerator/core/CreateProcedureGenerator.java:113 | The delimiter with `\r` replaced by CR, then `\n` replaced by LF. Its properties are in `PlainDelimiterUntranslated`, `TranslateEscapesExample` and `BlankEndedDelimiterNeverStrips`. |
| CreateProcedureGenerator.DelimiterStripped | liquibase-core/src/main/java/liquibase/sqlgenerator/core/CreateProcedureGenerator.java:100-118 | What `removeTrailingDelimiter` returns for a non-null text. Its properties are in `DelimiterStrippedShape`, `DelimiterNotAtEnd`, `EmptyDelimiterTrims` and `DelimiterBeforeBlanksStripped`. |
| CreateProcedureGenerator.RemoveTrailingDelimiter | liquibase-core/src/main/java/liquibase/sqlgenerator/core/CreateProcedureGenerator.java:96-119 | A null text gives null. A null delimiter gives the text back. Otherwise the result is DelimiterStripped: trim the trailing blanks, translate the delimiter's `\r` and `\n`, and drop the delimiter when the trimmed text ends with it, else return the untrimmed text. The loop's invariant is that the text trims to the same thing. |
| CreateProcedureGenerator.TrimTrailingBlanksShape | liquibase-core/src/main/java/liquibase/sqlgenerator/core/CreateProcedureGenerator.java:104-112 | The trimmed text is a prefix of the text. Everything cut off is space, CR, LF or tab. What is left does not end in one of them. |
| CreateProcedureGenerator.TrimAppendedBlanks | liquibase-core/src/main/java/liquibase/sqlgenerator/core/CreateProcedureGenerator.java:104-112 | Blanks appended to a text that does not end in a blank are exactly what the trim loop removes. |
| CreateProcedureGenerator.DelimiterStrippedShape | liquibase-core/src/main/java/liquibase/sqlgenerator/core/CreateProcedureGenerator.java:104-118 | The result is always the text or a prefix of it. When it is shorter, the text continues after the result with the translated delimiter and then blanks only. |
| CreateProcedureGenerator.DelimiterNotAtEnd | liquibase-core/src/main/java/liquibase/sqlgenerator/core/CreateProcedureGenerator.java:114-117 | When the trimmed text does not end with the delimiter, the original text comes back with its trailing whitespace still in place. |
| CreateProcedureGenerator.BlankEndedDelimiterNeverStrips | liquibase-core/src/main/java/liquibase/sqlgenerator/core/CreateProcedureGenerator.java:104-117 | A delimiter that ends in a blank once translated (such as `\n`) never matches, so the text comes back unchanged. |
| CreateProcedureGenerator.EmptyDelimiterTrims | liquibase-core/src/main/java/liquibase/sqlgenerator/core/CreateProcedureGenerator.java:104-115 | An empty delimiter matches every text, so the result is the text without its trailing blanks. |
| CreateProcedureGenerator.PlainDelimiterUntranslated | liquibase-core/src/main/java/liquibase/sqlgenerator/core/CreateProcedureGenerator.java:113 | A delimiter with no backslash is matched exactly as written. |
| CreateProcedureGenerator.TranslateEscapesExample | liquibase-core/src/main/java/liquibase/sqlgenerator/core/CreateProcedureGenerator.java:113 | A delimiter written as `\n` becomes LF, and one written as `\r\n` becomes CR LF. |
| JavaStrings.IsTrailingBlank | liquibase-core/src/main/java/liquibase/sqlgenerator/core/CreateProcedureGenerator.java:107 | The four characters the trim loop drops: space, LF, CR and tab. `TrimTrailingBlanksShape` uses it. |
| JavaStrings.Replace | liquibase-core/src/main/java/liquibase/sqlgenerator/core/CreateProcedureGenerator.java:113 | `String.replace`: each occurrence of the target, taken from the left without overlap, is replaced. `ReplaceAbsent` and `TranslateEscapesExample` carry its properties. |
| JavaStrings.OccursAt | liquibase-core/src/main/java/liquibase/sqlgenerator/core/CreateProcedureGenerator.java:74 | The target stands in the text at a given index. `Contains` and `ReplaceAbsent` use it. |
| JavaStrings.ReplaceAbsent | liquibase-core/src/main/java/liquibase/sqlgenerator/core/CreateProcedureGenerator.java:113 | Replacing a target that does not occur leaves the text unchanged. |
| JavaStrings.EndsWith | liquibase-core/src/main/java/liquibase/sqlgenerator/core/CreateProcedureGenerator.java:114 | `String.endsWith`: the text's last characters are the suffix. `DelimiterStrippedShape` and `MssqlMergeBodyEndsWithSemicolon` use it. |
| CreateProcedureGenerator.DelimiterBeforeBlanksStripped | liquibase-core/src/main/java/liquibase/sqlgenerator/core/CreateProcedureGenerator.java:104-115 | For a plain delimiter that does not end in a blank, `body + delimiter + blanks` strips to exactly `body`. |
| CreateProcedureGenerator.DelimiterStrippedExample | liquibase-core/src/main/java/liquibase/sqlgenerator/core/CreateProcedureGenerator.java:104-115 | `"INSERT INTO t VALUES (1);  \n"` with delimiter `;` gives `"INSERT INTO t VALUES (1)"`. |
| CreateProcedureGenerator.SchemaSets | liquibase-core/src/main/java/liquibase/sqlgenerator/core/CreateProcedureGenerator.java:125-133 | The pair of session-schema statements for Oracle (escaped schema) or DB2 (plain schema, a null default reading `null`), or none. There are none when the schema is blank or USE_PROCEDURE_SCHEMA is on. Its properties are carried by `SurroundWithSchemaSets` and `SchemaSetsIgnoreDefaultedSchema`. |
| CreateProcedureGenerator.SurroundWithSchemaSets | liquibase-core/src/main/java/liquibase/sqlgenerator/core/CreateProcedureGenerator.java:124-135 | The list is left alone unless the schema is non-blank, USE_PROCEDURE_SCHEMA is off and the dialect is Oracle or DB2. On Oracle, `ALTER SESSION SET CURRENT_SCHEMA=<escaped schema>` goes in front and the same statement on the escaped default schema goes at the end. On DB2, `SET CURRENT SCHEMA <schema>` (unescaped) goes in front and the default-schema version goes at the end. The original fragments stay in between. |
| CreateProcedureGenerator.Surround | liquibase-core/src/main/java/liquibase/sqlgenerator/core/CreateProcedureGenerator.java:128-132 | The fragments with the first statement of the pair in front and the second at the end, or the fragments alone. Its property is `SurroundKeepsOrder`, and `SurroundWithSchemaSets` is proved against it. |
| SqlTypes.Unparsed | liquibase-core/src/main/java/liquibase/sqlgenerator/core/CreateProcedureGenerator.java:59 | `new UnparsedSql(text)`: the text with the constructor's default delimiter and no affected objects. `GeneratedSqlLayout` uses it. |
| SqlTypes.JavaText | liquibase-core/src/main/java/liquibase/sqlgenerator/core/CreateProcedureGenerator.java:132 | Java string concatenation of a possibly null String, where null reads "null". `SchemaSets` uses it for the DB2 default schema. |
| SqlTypes.SqlList.constructor | liquibase-core/src/main/java/liquibase/sqlgenerator/core/CreateProcedureGenerator.java:45 | `new ArrayList<Sql>()`: an empty list. |
| SqlTypes.SqlList.Add | liquibase-core/src/main/java/liquibase/sqlgenerator/core/CreateProcedureGenerator.java:129 | `add(s)` appends at the end. |
| SqlTypes.SqlList.AddFirst | liquibase-core/src/main/java/liquibase/sqlgenerator/core/CreateProcedureGenerator.java:128 | `add(0, s)` puts the fragment in front. |
| CreateProcedureGenerator.SurroundKeepsOrder | liquibase-core/src/main/java/liquibase/sqlgenerator/core/CreateProcedureGenerator.java:128-132 | Wrapping adds one statement at each end or none. The original fragments stand unchanged and in order between them. |
| JavaStrings.SplitJoinRoundTrip | liquibase-core/src/main/java/liquibase/sqlgenerator/core/CreateProcedureGenerator.java:157 | Splitting on dots gives back the dot-free parts they were joined from. This needs the last part to be non-empty, since split drops trailing empty pieces, or there to be only one part. |
| JavaStrings.SplitOnDots | liquibase-core/src/main/java/liquibase/sqlgenerator/core/CreateProcedureGenerator.java:157 | Java's `split("\\.")`: a name without a dot gives itself as the one piece. Otherwise it gives the pieces between dots with the trailing empty ones dropped. The round trip is in `SplitJoinRoundTrip`. |
| JavaStrings.DotPieces | liquibase-core/src/main/java/liquibase/sqlgenerator/core/CreateProcedureGenerator.java:157 | The pieces between the dots, empty ones included: always at least one. `DotPiecesNoDot`, `DotPiecesAfterPiece` and `DotPiecesJoin` carry its properties. |
| JavaStrings.DropTrailingEmpty | liquibase-core/src/main/java/liquibase/sqlgenerator/core/CreateProcedureGenerator.java:157 | `split`'s removal of trailing empty pieces: the result is a prefix of the pieces, it does not end in an empty piece, and only empty pieces are dropped. |
| JavaStrings.DotPiecesNoDot | liquibase-core/src/main/java/liquibase/sqlgenerator/core/CreateProcedureGenerator.java:157 | A string without a dot is its own single piece. |
| JavaStrings.DotPiecesAfterPiece | liquibase-core/src/main/java/liquibase/sqlgenerator/core/CreateProcedureGenerator.java:157 | A dot-free piece followed by a dot splits off as the first piece. |
| JavaStrings.JoinWithDots | liquibase-core/src/main/java/liquibase/sqlgenerator/core/CreateProcedureGenerator.java:157 | The pieces joined with dots between them, the inverse of the split in `SplitJoinRoundTrip`. |
| JavaStrings.DotPiecesJoin | liquibase-core/src/main/java/liquibase/sqlgenerator/core/CreateProcedureGenerator.java:157 | Dot-free pieces joined with dots split back into exactly those pieces, before trailing empty ones are dropped. |
| CreateProcedureGenerator.QualifiedName | liquibase-core/src/main/java/liquibase/sqlgenerator/core/CreateProcedureGenerator.java:159-167 | The 1-, 2- and 3-part name rule. Its properties are in `QualifiedNameRule` and `QualifiedNameOtherwise`. |
| CreateProcedureGenerator.QualifiedNameRule | liquibase-core/src/main/java/liquibase/sqlgenerator/core/CreateProcedureGenerator.java:157-167 | Over dotted names of dot-free parts: `n` becomes `esc(s).n`, `a.n` becomes `esc(s).n`, `c.a.n` becomes `c.esc(s).n`, and four or more parts are kept as written. |
| CreateProcedureGenerator.QualifiedNameOtherwise | liquibase-core/src/main/java/liquibase/sqlgenerator/core/CreateProcedureGenerator.java:157-167 | If the split yields a part count other than 1, 2 or 3, the name is kept as written. Zero parts, as for `..`, is one such count. |
| CreateProcedureGenerator.SkipToKeyword | liquibase-core/src/main/java/liquibase/sqlgenerator/core/CreateProcedureGenerator.java:146-154 | The walk from "START" reports success exactly when the keyword occurs with a clause after it and no PACKAGE clause comes first, unless the keyword itself is PACKAGE. On success the iterator stands just past the keyword. |
| JavaStrings.HasText | liquibase-core/src/main/java/liquibase/sqlgenerator/core/CreateProcedureGenerator.java:144 | `StringUtils.trimToNull(s) != null`: the string is present and has a character above a space. `SchemaTextUnchangedWithoutSchema` uses it. |
| JavaStrings.IsBlank | liquibase-core/src/main/java/liquibase/sqlgenerator/core/CreateProcedureGenerator.java:144 | Every character is at or below U+0020, the ones `trimToNull` removes. `HasText` uses it. |
| CreateProcedureGenerator.NameSearchStart | liquibase-core/src/main/java/liquibase/sqlgenerator/core/CreateProcedureGenerator.java:147-154 | Where the search for the name clause begins, or none. When the keyword matches the "START" sentinel, the search begins at clause 0 if there are clauses. Otherwise it begins just past the first keyword clause, provided a clause follows that keyword clause and no PACKAGE clause comes before it (unless the keyword is PACKAGE). `SkipToKeyword` is proved against it. |
| CreateProcedureGenerator.PackageBefore | liquibase-core/src/main/java/liquibase/sqlgenerator/core/CreateProcedureGenerator.java:149 | A PACKAGE clause, ignoring case, comes before the keyword clause found. `SchemaTextUnchangedInPackage` and `PackageStopsScan` use it. |
| Clauses.Passes | liquibase-core/src/main/java/liquibase/sqlgenerator/core/CreateProcedureGenerator.java:148 | The clause tests of the walks: any clause, one word ignoring case (lines 148-149), or create/alter ignoring case (line 64). `FirstFrom` uses it. |
| JavaStrings.EqualsIgnoreCase | liquibase-core/src/main/java/liquibase/sqlgenerator/core/CreateProcedureGenerator.java:148 | `equalsIgnoreCase`, for ASCII letters: the two strings agree once lower-cased. |
| JavaStrings.ToLower | liquibase-core/src/main/java/liquibase/sqlgenerator/core/CreateProcedureGenerator.java:74 | `toLowerCase`, for ASCII letters: each letter lower-cased, position by position. `ToLowerAppend` carries its property. |
| JavaStrings.LowerChar | liquibase-core/src/main/java/liquibase/sqlgenerator/core/CreateProcedureGenerator.java:74 | An ASCII capital becomes its lower-case letter, and every other character stays as it is. |
| JavaStrings.ToLowerAppend | liquibase-core/src/main/java/liquibase/sqlgenerator/core/CreateProcedureGenerator.java:74 | Lower-casing distributes over concatenation. |
| JavaStrings.Contains | liquibase-core/src/main/java/liquibase/sqlgenerator/core/CreateProcedureGenerator.java:74 | `String.contains`: the target occurs at some index. `MssqlMergeBodyEndsWithSemicolon` uses it. |
| CreateProcedureGenerator.PackageStopsScan | liquibase-core/src/main/java/liquibase/sqlgenerator/core/CreateProcedureGenerator.java:148-151 | A PACKAGE clause reached before the keyword makes the name search fail. |
| Clauses.ClauseIterator.NextNonWhitespace | liquibase-core/src/main/java/liquibase/sqlgenerator/core/CreateProcedureGenerator.java:152-155 | Returns the first non-whitespace clause from the cursor on and moves past it. When only whitespace is left, returns null with the cursor at the end. |
| Clauses.ClauseIterator.HasNext | liquibase-core/src/main/java/liquibase/sqlgenerator/core/CreateProcedureGenerator.java:64 | True while clauses remain after the cursor. The loops of `SkipToKeyword`, `RewriteCreateAsAlter` and `IsReallyMerge` use it. |
| Clauses.IsWhitespaceClause | liquibase-core/src/main/java/liquibase/sqlgenerator/core/CreateProcedureGenerator.java:152 | The clauses `nextNonWhitespace` steps over: made only of space, tab, LF and CR, which is an assumption listed under "## Left out". |
| Clauses.StringClauses.constructor | liquibase-core/src/main/java/liquibase/sqlgenerator/core/CreateProcedureGenerator.java:145 | The parsed clauses `SqlParser.parse` returns, held as they are. |
| Clauses.ClauseIterator.constructor | liquibase-core/src/main/java/liquibase/sqlgenerator/core/CreateProcedureGenerator.java:146 | `getClauseIterator()`: an iterator over the clauses, with nothing returned yet. |
| Clauses.ClauseIterator.Replace | liquibase-core/src/main/java/liquibase/sqlgenerator/core/CreateProcedureGenerator.java:168 | Overwrites the clause returned last and no other. |
| Clauses.FirstFrom | liquibase-core/src/main/java/liquibase/sqlgenerator/core/CreateProcedureGenerator.java:148-155 | The index found holds a non-whitespace clause that passes the test. Every clause between the start and it, or up to the end when none is found, is whitespace or fails the test. |
| CreateProcedureGenerator.SchemaAppliedText | liquibase-core/src/main/java/liquibase/sqlgenerator/core/CreateProcedureGenerator.java:141-173 | What `addSchemaToText` returns. Its properties are in the `SchemaTextUnchanged…` lemmas, `SchemaTextRewritesNameOnly` and `SchemaTextExample`. |
| CreateProcedureGenerator.NameClause | liquibase-core/src/main/java/liquibase/sqlgenerator/core/CreateProcedureGenerator.java:155 | The clause `nextNonWhitespace` returns after the keyword: the first non-whitespace clause from the search start, when there is one. `SchemaTextRewritesNameOnly` carries its properties. |
| CreateProcedureGenerator.ExampleNameSearchStart | liquibase-core/src/main/java/liquibase/sqlgenerator/core/CreateProcedureGenerator.java:146-154 | For `create procedure foo` the search for the name begins at clause 3, just past PROCEDURE. |
| CreateProcedureGenerator.ExampleConcat | liquibase-core/src/main/java/liquibase/sqlgenerator/core/CreateProcedureGenerator.java:170 | The clauses of the example, with the name qualified, join to `create procedure app.foo`. |
| CreateProcedureGenerator.AddSchemaToText | liquibase-core/src/main/java/liquibase/sqlgenerator/core/CreateProcedureGenerator.java:140-174 | The result is SchemaAppliedText: the first non-whitespace clause after the keyword, qualified by the name rule, with the clauses joined back into text. |
| CreateProcedureGenerator.SchemaTextUnchangedWithoutSchema | liquibase-core/src/main/java/liquibase/sqlgenerator/core/CreateProcedureGenerator.java:141-144 | A null or blank schema, or USE_PROCEDURE_SCHEMA off, returns the text unchanged. |
| CreateProcedureGenerator.SchemaTextUnchangedInPackage | liquibase-core/src/main/java/liquibase/sqlgenerator/core/CreateProcedureGenerator.java:148-151 | The text is returned unchanged when the keyword is not PACKAGE and a PACKAGE clause comes before it. |
| CreateProcedureGenerator.SchemaTextUnchangedWithoutName | liquibase-core/src/main/java/liquibase/sqlgenerator/core/CreateProcedureGenerator.java:154-173 | The text is returned unchanged when there is no keyword clause, or no clause after it. |
| CreateProcedureGenerator.SchemaTextRewritesNameOnly | liquibase-core/src/main/java/liquibase/sqlgenerator/core/CreateProcedureGenerator.java:155-170 | Assumes clauses that spell out the text. Without a name clause the text is unchanged. Otherwise the text is `prefix + name + suffix` and the result is `prefix + qualified name + suffix`: one clause changes, and every other clause is untouched. |
| Clauses.ConcatReplace | liquibase-core/src/main/java/liquibase/sqlgenerator/core/CreateProcedureGenerator.java:168-170 | Overwriting one clause changes the joined text only where that clause stood. |
| Clauses.Concat | liquibase-core/src/main/java/liquibase/sqlgenerator/core/CreateProcedureGenerator.java:170 | `StringClauses.toString()`: the clauses joined as they are. `ConcatAppend` and `ConcatReplace` carry its properties. |
| Clauses.StringClauses.ToString | liquibase-core/src/main/java/liquibase/sqlgenerator/core/CreateProcedureGenerator.java:170 | The joined clauses, that is `Concat` of the current clause list. `AddSchemaToText` and `RewriteCreateAsAlter` return it. |
| Clauses.ConcatAppend | liquibase-core/src/main/java/liquibase/sqlgenerator/core/CreateProcedureGenerator.java:170 | Joining two clause lists joins their texts. |
| CreateProcedureGenerator.SchemaTextExample | liquibase-core/src/main/java/liquibase/sqlgenerator/core/CreateProcedureGenerator.java:140-174 | `create procedure foo` with schema `app` becomes `create procedure app.foo`, with escaping taken as the identity. |
| CreateProcedureGenerator.AlterRewritten | liquibase-core/src/main/java/liquibase/sqlgenerator/core/CreateProcedureGenerator.java:63-67 | The clauses after the ALTER rewrite. Its properties are in `AlterRewriteText` and `AlterRewriteWithoutCreate`. |
| CreateProcedureGenerator.RewriteCreateAsAlter | liquibase-core/src/main/java/liquibase/sqlgenerator/core/CreateProcedureGenerator.java:61-69 | The result is AlterRewritten: the first `create`/`alter` clause, in any case, becomes `ALTER`. Without one, the last clause does. |
| CreateProcedureGenerator.AlterScanExit | liquibase-core/src/main/java/liquibase/sqlgenerator/core/CreateProcedureGenerator.java:63-67 | Where the loop stops, the clause it returned last is the one AlterRewritten replaces. If nothing was returned, the clause list is empty and nothing changes. |
| CreateProcedureGenerator.AlterRewriteText | liquibase-core/src/main/java/liquibase/sqlgenerator/core/CreateProcedureGenerator.java:64-69 | Assumes clauses that spell out the text. The replaced clause reads create or alter ignoring case, and the new text is the old one with just that clause exchanged for `ALTER`. |
| CreateProcedureGenerator.AlterRewriteWithoutCreate | liquibase-core/src/main/java/liquibase/sqlgenerator/core/CreateProcedureGenerator.java:63-67 | With no create/alter clause, the scan runs to the end, and the last clause of the body becomes `ALTER`. |
| Clauses.Significant | liquibase-core/src/main/java/liquibase/sqlgenerator/core/CreateProcedureGenerator.java:75 | The whitespace-dropping parse holds exactly the non-whitespace clauses. |
| CreateProcedureGenerator.HasMergeClause | liquibase-core/src/main/java/liquibase/sqlgenerator/core/CreateProcedureGenerator.java:78-83 | Some non-whitespace clause reads `merge`, ignoring case. `IsReallyMerge` is proved against it. |
| CreateProcedureGenerator.MergeTerminated | liquibase-core/src/main/java/liquibase/sqlgenerator/core/CreateProcedureGenerator.java:74-87 | The text with `;` appended on SQL Server when it contains `merge` in lower case, does not end with `;` and has a `merge` clause. Its properties are in `MergeTerminatorRule` and `MssqlMergeBodyEndsWithSemicolon`. |
| CreateProcedureGenerator.IsReallyMerge | liquibase-core/src/main/java/liquibase/sqlgenerator/core/CreateProcedureGenerator.java:75-83 | True exactly when some non-whitespace clause reads `merge`, ignoring case. |
| CreateProcedureGenerator.MergeTerminatorRule | liquibase-core/src/main/java/liquibase/sqlgenerator/core/CreateProcedureGenerator.java:74-87 | The body is either unchanged or gains exactly one `;`. The `;` is added only on SQL Server, only with a `merge` clause, and only when the text does not already end with `;`. |
| CreateProcedureGenerator.MssqlMergeBodyEndsWithSemicolon | liquibase-core/src/main/java/liquibase/sqlgenerator/core/CreateProcedureGenerator.java:74-87 | Assumes clauses that spell out the text. On SQL Server a body with a `merge` clause always ends with `;`. The lower-cased text then contains "merge", so the cheap pre-test never hides a real merge. |
| CreateProcedureGenerator.EffectiveSchema | liquibase-core/src/main/java/liquibase/sqlgenerator/core/CreateProcedureGenerator.java:47-50 | The statement's own schema, else the database default when alwaysOverrideStoredLogicSchema is on. `SchemaSetsIgnoreDefaultedSchema` and `PlainBody` use it. |
| CreateProcedureGenerator.ProbeName | liquibase-core/src/main/java/liquibase/sqlgenerator/core/CreateProcedureGenerator.java:55-58 | The escaped procedure name, prefixed with the escaped schema when there is one. Its property is `ProbeNameSchemaPrefix`. |
| CreateProcedureGenerator.ExistenceProbe | liquibase-core/src/main/java/liquibase/sqlgenerator/core/CreateProcedureGenerator.java:59 | The `if object_id('<name>', 'p') is null exec ('create procedure <name> as select 1 a')` statement. `ReplaceIfExistsProbeFirst` places it. |
| CreateProcedureGenerator.ProcedureBody | liquibase-core/src/main/java/liquibase/sqlgenerator/core/CreateProcedureGenerator.java:47-87 | The body text: schema added, ALTER rewrite on replaceIfExists, delimiter stripped, merge `;` added. `PlainBody` and `GeneratedSqlLayout` state its place. |
| CreateProcedureGenerator.GeneratedSql | liquibase-core/src/main/java/liquibase/sqlgenerator/core/CreateProcedureGenerator.java:45-93 | The fragments `generateSql` returns. Its properties are in `GeneratedSqlLayout`, `ReplaceIfExistsProbeFirst` and `SchemaSetsIgnoreDefaultedSchema`. |
| CreateProcedureGenerator.GenerateSql | liquibase-core/src/main/java/liquibase/sqlgenerator/core/CreateProcedureGenerator.java:43-94 | The fragments are GeneratedSql, in this order: the optional probe, the body tagged with the statement's end delimiter, and the optional schema statements around both. The body is the text after the schema is added, the ALTER rewrite is applied on replaceIfExists, the delimiter is stripped and the merge `;` is added. |
| CreateProcedureGenerator.GeneratedSqlLayout | liquibase-core/src/main/java/liquibase/sqlgenerator/core/CreateProcedureGenerator.java:44-93 | There are 1 + probe + 2·wrap fragments. The body stands after the opening schema statement and the probe. It is the only fragment tagged with the statement's delimiter rather than the `UnparsedSql` constructor's default. The schema statements stand first and last. With replaceIfExists, the probe on the effective schema comes just before the body. |
| CreateProcedureGenerator.ReplaceIfExistsProbeFirst | liquibase-core/src/main/java/liquibase/sqlgenerator/core/CreateProcedureGenerator.java:54-89 | With replaceIfExists, and no Oracle or DB2 wrapping, there are exactly two fragments. The first is the `if object_id(...) is null exec ('create procedure ...')` probe. The second carries the statement's end delimiter. |
| CreateProcedureGenerator.ProbeNameSchemaPrefix | liquibase-core/src/main/java/liquibase/sqlgenerator/core/CreateProcedureGenerator.java:55-58 | The probe name is the escaped procedure name. It is prefixed with the escaped schema and a dot exactly when there is a schema. |
| CreateProcedureGenerator.SchemaSetsIgnoreDefaultedSchema | liquibase-core/src/main/java/liquibase/sqlgenerator/core/CreateProcedureGenerator.java:47-92 | A statement without its own schema is never wrapped in schema statements, even when the database default fills the schema in. |
| CreateProcedureGenerator.PlainBody | liquibase-core/src/main/java/liquibase/sqlgenerator/core/CreateProcedureGenerator.java:47-89 | The body is just the text with its delimiter stripped when there is no replaceIfExists, no effective schema and no SQL Server. |
| AddDefaultValueGeneratorMySQL.GetPriority | liquibase-core/src/main/java/liquibase/sqlgenerator/core/AddDefaultValueGeneratorMySQL.java:16-18 | Always PRIORITY_DATABASE, which ranks above the generic PRIORITY_DEFAULT. |
| AddDefaultValueGeneratorMySQL.Supports | liquibase-core/src/main/java/liquibase/sqlgenerator/core/AddDefaultValueGeneratorMySQL.java:21-23 | True exactly for MySQL databases, whatever the statement. |
| AddDefaultValueGeneratorMySQL.GenerateSql | liquibase-core/src/main/java/liquibase/sqlgenerator/core/AddDefaultValueGeneratorMySQL.java:26-34 | Exactly one fragment, `ALTER TABLE <escaped table> ALTER <escaped column> SET DEFAULT <literal>`, with the default end delimiter. The same default value picks the data type and is rendered by it. The fragment is tagged with the column in table tableName of Schema(catalogName, schemaName). |
| AddDefaultValueGeneratorMySQL.DefaultLiteral | liquibase-core/src/main/java/liquibase/sqlgenerator/core/AddDefaultValueGeneratorMySQL.java:27-29 | `fromObject(value).objectToSql(value)`: the literal for the value, rendered by the data type looked up for that same value. `GenerateSql` states this. |
| AddDefaultValueGeneratorMySQL.TableIn | liquibase-core/src/main/java/liquibase/sqlgenerator/core/AddDefaultValueGeneratorMySQL.java:31 | `new Table(tableName).setSchema(new Schema(catalogName, schemaName))`. The `GenerateSql` tag uses it. |
| AddDefaultValueGeneratorMySQL.FragmentLayout | liquibase-core/src/main/java/liquibase/sqlgenerator/core/AddDefaultValueGeneratorMySQL.java:29 | Read back from the text: the escaped table follows `ALTER TABLE `, and ` ALTER ` follows with the escaped column directly, with no COLUMN keyword. ` SET DEFAULT ` follows that. The text ends with the literal, with no terminator. |

## Left out

- The SQL tokenizer `SqlParser.parse` is a parameter. Whether its clauses spell out the text is not proved. The lemmas that need it take it as a precondition.
- Comment clauses and nested clause objects are not modelled. Every clause is a plain string, so the `instanceof String` test of line 156 and the cast of line 80 always succeed.
- The source of `StringClauses.ClauseIterator` is not part of this model, so `Clauses.ClauseIterator` rests on these assumptions:
  - `nextNonWhitespace` returns the next non-whitespace clause, or `null` once only whitespace is left. In the `null` case the clauses stepped over count as returned, and `hasNext()` is then false.
  - A whitespace clause is one made only of space, tab, LF and CR (`Clauses.IsWhitespaceClause`).
  - `replace` overwrites the clause returned last.
  - `replace` before any clause was returned does nothing. That only happens for an empty body at line 67.
- How much depends on these assumptions:
  - At lines 152 and 155 a `null` ends the walk without any `replace`, so the result depends on no more than the first assumption.
  - At line 67, after the loop of lines 64-66 ran off the end, `replace` acts on the last clause stepped over, and that clause may be whitespace. `AlterRewriteWithoutCreate` states that outcome, which follows from the first two assumptions.
- Case folding (`equalsIgnoreCase`, `toLowerCase`) covers ASCII letters only. Java's locale and Unicode rules are left out.
- The escaping functions, `getDefaultSchemaName` and the data-type lookup and rendering of default values are uninterpreted parameters, because they are foreign calls.
- The `LiquibaseConfiguration` singleton is replaced by the two flags it supplies.
- The `UnparsedSql` constructor is not part of this model. Any trimming it does to its text, and the value of its default end delimiter, are left out.
- CreateProcedureGenerator.GenerateSql: requires the procedure text to be present. Validation reports a missing text first, and the Java code does not handle a null text here.
- CreateProcedureGenerator.Validate: returns the error list rather than the `ValidationErrors` object. Warnings and the rest of that class are not modelled.
- Validation.ValidationErrors.CheckDisallowedField: modelled only for the call made here, which passes no list of disallowed databases. Its general rule is not part of this model.
- The values of PRIORITY_DEFAULT (1) and PRIORITY_DATABASE (5) come from the `SqlGenerator` interface, which is not part of this model. Only their order matters here.
- The generator registry, the generator chain and priority sorting are not part of this model.
- The `SqlGeneratorChain` argument is not modelled. Neither generator uses it.
