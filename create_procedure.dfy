/**
 * liquibase.sqlgenerator.core.CreateProcedureGenerator: validation of a
 * CreateProcedureStatement and the rewriting and wrapping of its body into the
 * SQL fragments that create the procedure.
 *
 * The two global configuration flags it reads (alwaysOverrideStoredLogicSchema and
 * the change-log parser's USE_PROCEDURE_SCHEMA) are passed in as a Configuration,
 * and the SQL parser as a Tokenizer.
 */
module CreateProcedureGenerator {

  import opened Wrappers
  import opened JavaStrings
  import opened Clauses
  import opened SqlTypes
  import opened Validation

  datatype CreateProcedureStatement = CreateProcedureStatement(
    schemaName: Option<string>,
    procedureName: Option<string>,
    procedureText: Option<string>,
    endDelimiter: Option<string>,
    replaceIfExists: Option<bool>)

  datatype Configuration = Configuration(
    alwaysOverrideStoredLogicSchema: bool,
    useProcedureSchema: bool)

  /** `SqlParser.parse(text, true, true)`: the clauses of `text`, whitespace kept. */
  type Tokenizer = string -> seq<string>

  const ProcedureNameRequired := "procedureName is required if replaceIfExists = true"

  // ---------------------------------------------------------------- validate

  /** The errors validate reports; replaceIfExists is only understood on SQL Server. */
  method Validate(statement: CreateProcedureStatement, database: Database) returns (errors: seq<ValidationError>)
    // The whole list: at most one error per check, in the order of the checks.
    ensures errors ==
              (if statement.procedureText.None? then [RequiredField("procedureText")] else []) +
              (if statement.replaceIfExists.None? then []
               else if database.dialect == MSSQL then
                 (if statement.replaceIfExists.value && statement.procedureName.None?
                  then [Message(ProcedureNameRequired)] else [])
               else [DisallowedField("replaceIfExists")])
    // Its consequences, one check at a time.
    ensures RequiredField("procedureText") in errors <==> statement.procedureText.None?
    ensures statement.procedureText.None? ==> errors[0] == RequiredField("procedureText")
    ensures statement.replaceIfExists.None? ==> forall e :: e in errors ==> e == RequiredField("procedureText")
    ensures database.dialect == MSSQL ==>
              (Message(ProcedureNameRequired) in errors <==>
                 statement.replaceIfExists == Some(true) && statement.procedureName.None?)
    ensures database.dialect == MSSQL ==> DisallowedField("replaceIfExists") !in errors
    ensures database.dialect != MSSQL ==>
              (DisallowedField("replaceIfExists") in errors <==> statement.replaceIfExists.Some?) &&
              Message(ProcedureNameRequired) !in errors
    ensures forall e :: e in errors ==>
              e == RequiredField("procedureText") || e == DisallowedField("replaceIfExists") ||
              e == Message(ProcedureNameRequired)
  {
    var validationErrors := new ValidationErrors();
    validationErrors.CheckRequiredField("procedureText", statement.procedureText);
    if statement.replaceIfExists.Some? {
      if database.dialect == MSSQL {
        if statement.replaceIfExists.value && statement.procedureName.None? {
          validationErrors.AddError(ProcedureNameRequired);
        }
      } else {
        validationErrors.CheckDisallowedField("replaceIfExists", statement.replaceIfExists);
      }
    }
    errors := validationErrors.errors;
  }

  // ------------------------------------------------- removeTrailingDelimiter

  /** `s` without its trailing spaces, tabs, CRs and LFs. */
  function TrimTrailingBlanks(s: string): string {
    if s != [] && IsTrailingBlank(s[|s| - 1]) then TrimTrailingBlanks(s[..|s| - 1]) else s
  }

  /** The trimmed text is a prefix; what was cut is blanks only, and what is left does not end in one. */
  lemma {:induction false} TrimTrailingBlanksShape(s: string)
    ensures TrimTrailingBlanks(s) <= s
    ensures forall i :: |TrimTrailingBlanks(s)| <= i < |s| ==> IsTrailingBlank(s[i])
    ensures TrimTrailingBlanks(s) == [] || !IsTrailingBlank(TrimTrailingBlanks(s)[|TrimTrailingBlanks(s)| - 1])
    decreases |s|
  {
    if s != [] && IsTrailingBlank(s[|s| - 1]) {
      TrimTrailingBlanksShape(s[..|s| - 1]);
    }
  }

  /** The delimiter as written, with the two-character sequences \r and \n turned into CR and LF. */
  function TranslateEscapes(endDelimiter: string): string {
    Replace(Replace(endDelimiter, "\\r", "\r"), "\\n", "\n")
  }

  /** What removeTrailingDelimiter returns for a non-null text. */
  function DelimiterStripped(text: string, endDelimiter: Option<string>): string {
    if endDelimiter.None? then text
    else
      var trimmed := TrimTrailingBlanks(text);
      var delimiter := TranslateEscapes(endDelimiter.value);
      if EndsWith(trimmed, delimiter) then trimmed[..|trimmed| - |delimiter|] else text
  }

  method RemoveTrailingDelimiter(procedureText: Option<string>, endDelimiter: Option<string>) returns (r: Option<string>)
    ensures procedureText.None? ==> r.None?
    ensures endDelimiter.None? ==> r == procedureText
    ensures procedureText.Some? ==> r == Some(DelimiterStripped(procedureText.value, endDelimiter))
  {
    if procedureText.None? {
      return None;
    }
    if endDelimiter.None? {
      return procedureText;
    }
    var fixedText := procedureText.value;
    while |fixedText| > 0
      invariant TrimTrailingBlanks(fixedText) == TrimTrailingBlanks(procedureText.value)
      decreases |fixedText|
    {
      var lastChar := fixedText[|fixedText| - 1];
      if IsTrailingBlank(lastChar) {
        fixedText := fixedText[..|fixedText| - 1];
      } else {
        break;
      }
    }
    var delimiter := TranslateEscapes(endDelimiter.value);
    if EndsWith(fixedText, delimiter) {
      r := Some(fixedText[..|fixedText| - |delimiter|]);
    } else {
      r := procedureText;
    }
  }

  /**
   * The result is always a prefix of the text. When it is shorter, the text is the
   * result, then the (translated) delimiter, then blanks only.
   */
  lemma DelimiterStrippedShape(text: string, endDelimiter: Option<string>)
    ensures DelimiterStripped(text, endDelimiter) <= text
    ensures DelimiterStripped(text, endDelimiter) != text ==>
              endDelimiter.Some? &&
              var r := DelimiterStripped(text, endDelimiter);
              var d := TranslateEscapes(endDelimiter.value);
              |r| + |d| <= |text| && text[|r|..|r| + |d|] == d &&
              forall i :: |r| + |d| <= i < |text| ==> IsTrailingBlank(text[i])
  {
    TrimTrailingBlanksShape(text);
    if endDelimiter.Some? {
      var t := TrimTrailingBlanks(text);
      var d := TranslateEscapes(endDelimiter.value);
      if EndsWith(t, d) {
        assert t[..|t| - |d|] <= t;
        assert text[|t| - |d|..|t|] == t[|t| - |d|..];
      }
    }
  }

  /** When the trimmed text does not end with the delimiter, the text comes back as given, blanks and all. */
  lemma DelimiterNotAtEnd(text: string, endDelimiter: string)
    requires !EndsWith(TrimTrailingBlanks(text), TranslateEscapes(endDelimiter))
    ensures DelimiterStripped(text, Some(endDelimiter)) == text
  {
  }

  /** A delimiter that ends in a blank (such as "\n" written as "\\n") can never match, since blanks are trimmed first. */
  lemma BlankEndedDelimiterNeverStrips(text: string, endDelimiter: string)
    requires TranslateEscapes(endDelimiter) != []
    requires IsTrailingBlank(TranslateEscapes(endDelimiter)[|TranslateEscapes(endDelimiter)| - 1])
    ensures DelimiterStripped(text, Some(endDelimiter)) == text
  {
    TrimTrailingBlanksShape(text);
    var t := TrimTrailingBlanks(text);
    var d := TranslateEscapes(endDelimiter);
    if |d| <= |t| {
      assert t[|t| - |d|..][|d| - 1] == t[|t| - 1];
    }
  }

  /** An empty delimiter matches every text, so only the trailing blanks go. */
  lemma EmptyDelimiterTrims(text: string)
    ensures DelimiterStripped(text, Some("")) == TrimTrailingBlanks(text)
  {
    assert Replace("", "\\r", "\r") == "";
    assert Replace("", "\\n", "\n") == "";
  }

  /** A delimiter without backslashes is matched as written. */
  lemma {:induction false} PlainDelimiterUntranslated(endDelimiter: string)
    requires '\\' !in endDelimiter
    ensures TranslateEscapes(endDelimiter) == endDelimiter
  {
    assert !Contains(endDelimiter, "\\r") by {
      forall i | 0 <= i <= |endDelimiter| - 2 ensures !OccursAt(endDelimiter, "\\r", i) {
        assert endDelimiter[i] != '\\';
      }
    }
    ReplaceAbsent(endDelimiter, "\\r", "\r");
    assert !Contains(endDelimiter, "\\n") by {
      forall i | 0 <= i <= |endDelimiter| - 2 ensures !OccursAt(endDelimiter, "\\n", i) {
        assert endDelimiter[i] != '\\';
      }
    }
    ReplaceAbsent(endDelimiter, "\\n", "\n");
  }

  /** The two-character sequences `\n` and `\r\n` written in a delimiter become LF and CR LF. */
  lemma TranslateEscapesExample()
    ensures TranslateEscapes("\\n") == "\n"
    ensures TranslateEscapes("\\r\\n") == "\r\n"
  {
    assert Replace("n", "\\r", "\r") == "n";
    assert Replace("\\n", "\\r", "\r") == "\\n" by {
      assert "\\n"[..2][1] != "\\r"[1];
      assert "\\n"[1..] == "n";
    }
    assert Replace("\\n", "\\n", "\n") == "\n" by {
      assert "\\n"[..2] == "\\n";
      assert "\\n"[2..] == "";
    }
    assert Replace("\\r\\n", "\\r", "\r") == "\r\\n" by {
      assert "\\r\\n"[..2] == "\\r";
      assert "\\r\\n"[2..] == "\\n";
    }
    assert Replace("\r\\n", "\\n", "\n") == "\r\n" by {
      assert "\r\\n"[..2][0] != "\\n"[0];
      assert "\r\\n"[1..] == "\\n";
    }
  }

  /** Blanks after a text that does not end in one are exactly what the trim removes. */
  lemma {:induction false} TrimAppendedBlanks(s: string, blanks: string)
    requires s == [] || !IsTrailingBlank(s[|s| - 1])
    requires forall i :: 0 <= i < |blanks| ==> IsTrailingBlank(blanks[i])
    ensures TrimTrailingBlanks(s + blanks) == s
    decreases |blanks|
  {
    if blanks == [] {
      assert s + blanks == s;
    } else {
      var shorter := blanks[..|blanks| - 1];
      assert (s + blanks)[..|s + blanks| - 1] == s + shorter;
      TrimAppendedBlanks(s, shorter);
    }
  }

  /** With a plain delimiter, a text that ends in it before its blanks loses the delimiter and the blanks. */
  lemma DelimiterBeforeBlanksStripped(body: string, endDelimiter: string, blanks: string)
    requires '\\' !in endDelimiter
    requires endDelimiter != [] && !IsTrailingBlank(endDelimiter[|endDelimiter| - 1])
    requires forall i :: 0 <= i < |blanks| ==> IsTrailingBlank(blanks[i])
    ensures DelimiterStripped(body + endDelimiter + blanks, Some(endDelimiter)) == body
  {
    PlainDelimiterUntranslated(endDelimiter);
    var t := body + endDelimiter;
    assert t[|t| - 1] == endDelimiter[|endDelimiter| - 1];
    TrimAppendedBlanks(t, blanks);
    assert t[|t| - |endDelimiter|..] == endDelimiter;
    assert t[..|t| - |endDelimiter|] == body;
  }

  // ------------------------------------------------- surroundWithSchemaSets

  /** The session-schema statements placed before and after the fragments, when there are any. */
  function SchemaSets(schemaName: Option<string>, database: Database, useProcedureSchema: bool): Option<(Sql, Sql)> {
    if !HasText(schemaName) || useProcedureSchema then None
    else if database.dialect == Oracle then
      Some((Unparsed("ALTER SESSION SET CURRENT_SCHEMA=" + database.escapeObjectName(schemaName, SchemaKind)),
            Unparsed("ALTER SESSION SET CURRENT_SCHEMA=" + database.escapeObjectName(database.defaultSchemaName, SchemaKind))))
    else if database.dialect == DB2 then
      Some((Unparsed("SET CURRENT SCHEMA " + schemaName.value),
            Unparsed("SET CURRENT SCHEMA " + JavaText(database.defaultSchemaName))))
    else None
  }

  function Surround(items: seq<Sql>, sets: Option<(Sql, Sql)>): seq<Sql> {
    if sets.None? then items else [sets.value.0] + items + [sets.value.1]
  }

  method SurroundWithSchemaSets(sql: SqlList, schemaName: Option<string>, database: Database, useProcedureSchema: bool)
    modifies sql
    ensures sql.items == Surround(old(sql.items), SchemaSets(schemaName, database, useProcedureSchema))
    ensures !HasText(schemaName) || useProcedureSchema || database.dialect !in {Oracle, DB2} ==>
              sql.items == old(sql.items)
    ensures HasText(schemaName) && !useProcedureSchema && database.dialect == Oracle ==>
              sql.items ==
                [Unparsed("ALTER SESSION SET CURRENT_SCHEMA=" + database.escapeObjectName(schemaName, SchemaKind))] +
                old(sql.items) +
                [Unparsed("ALTER SESSION SET CURRENT_SCHEMA=" + database.escapeObjectName(database.defaultSchemaName, SchemaKind))]
    ensures HasText(schemaName) && !useProcedureSchema && database.dialect == DB2 ==>
              sql.items ==
                [Unparsed("SET CURRENT SCHEMA " + schemaName.value)] +
                old(sql.items) +
                [Unparsed("SET CURRENT SCHEMA " + JavaText(database.defaultSchemaName))]
  {
    if HasText(schemaName) && !useProcedureSchema {
      var defaultSchema := database.defaultSchemaName;
      if database.dialect == Oracle {
        sql.AddFirst(Unparsed("ALTER SESSION SET CURRENT_SCHEMA=" + database.escapeObjectName(schemaName, SchemaKind)));
        sql.Add(Unparsed("ALTER SESSION SET CURRENT_SCHEMA=" + database.escapeObjectName(defaultSchema, SchemaKind)));
      } else if database.dialect == DB2 {
        sql.AddFirst(Unparsed("SET CURRENT SCHEMA " + schemaName.value));
        sql.Add(Unparsed("SET CURRENT SCHEMA " + JavaText(defaultSchema)));
      }
    }
  }

  /** Wrapping adds at most one statement at each end and keeps the fragments, in order, between them. */
  lemma SurroundKeepsOrder(items: seq<Sql>, sets: Option<(Sql, Sql)>)
    ensures var r := Surround(items, sets);
            var k := if sets.Some? then 1 else 0;
            |r| == |items| + 2 * k && r[k..k + |items|] == items
  {
  }

  // ---------------------------------------------------------- addSchemaToText

  /** The procedure name with the schema put in: the 1-, 2- and 3-part rule. */
  function QualifiedName(name: string, escapedSchema: string): string {
    var parts := SplitOnDots(name);
    if |parts| == 1 then escapedSchema + "." + parts[0]
    else if |parts| == 2 then escapedSchema + "." + parts[1]
    else if |parts| == 3 then parts[0] + "." + escapedSchema + "." + parts[2]
    else name
  }

  /**
   * For a name made of dot-free parts: `n` becomes `s.n`, `a.n` becomes `s.n`,
   * `c.a.n` becomes `c.s.n`, and four or more parts are kept as they are.
   */
  lemma QualifiedNameRule(parts: seq<string>, escapedSchema: string)
    requires |parts| >= 1
    requires forall i :: 0 <= i < |parts| ==> '.' !in parts[i]
    requires |parts| == 1 || parts[|parts| - 1] != []
    ensures |parts| == 1 ==> QualifiedName(JoinWithDots(parts), escapedSchema) == escapedSchema + "." + parts[0]
    ensures |parts| == 2 ==> QualifiedName(JoinWithDots(parts), escapedSchema) == escapedSchema + "." + parts[1]
    ensures |parts| == 3 ==> QualifiedName(JoinWithDots(parts), escapedSchema) ==
                               parts[0] + "." + escapedSchema + "." + parts[2]
    ensures |parts| >= 4 ==> QualifiedName(JoinWithDots(parts), escapedSchema) == JoinWithDots(parts)
  {
    SplitJoinRoundTrip(parts);
  }

  /** Any other number of parts, such as none for "..", leaves the name as it was. */
  lemma QualifiedNameOtherwise(name: string, escapedSchema: string)
    requires |SplitOnDots(name)| !in {1, 2, 3}
    ensures QualifiedName(name, escapedSchema) == name
  {
  }

  /** A PACKAGE clause comes before the keyword clause at `k`. */
  predicate PackageBefore(cs: seq<string>, k: nat) {
    var p := FirstFrom(cs, 0, WordIgnoringCase("PACKAGE"));
    p.Some? && p.value < k
  }

  /**
   * Where addSchemaToText starts looking for the name: just past the first keyword
   * clause, or None when it leaves the text alone (no keyword, a PACKAGE first, or
   * nothing after the keyword). The scan starts from the sentinel "START".
   */
  function NameSearchStart(cs: seq<string>, keyword: string): (r: Option<nat>)
    ensures r.Some? ==> r.value < |cs|
  {
    if EqualsIgnoreCase("START", keyword) then (if cs != [] then Some(0) else None)
    else
      match FirstFrom(cs, 0, WordIgnoringCase(keyword))
      case None => None
      case Some(k) =>
        if !EqualsIgnoreCase(keyword, "PACKAGE") && PackageBefore(cs, k) then None
        else if k + 1 < |cs| then Some(k + 1)
        else None
  }

  /** The name clause: the first non-whitespace clause after the keyword, if the scan finds one. */
  function NameClause(cs: seq<string>, keyword: string): (r: Option<nat>)
    ensures r.Some? ==> r.value < |cs| && !IsWhitespaceClause(cs[r.value])
  {
    match NameSearchStart(cs, keyword)
    case None => None
    case Some(from) => FirstFrom(cs, from, AnyClause)
  }

  /** What addSchemaToText returns. */
  function SchemaAppliedText(text: string, schemaName: Option<string>, keyword: string, database: Database,
                             useProcedureSchema: bool, parse: Tokenizer): string
  {
    if schemaName.None? || !HasText(schemaName) || !useProcedureSchema then text
    else
      var cs := parse(text);
      if NameSearchStart(cs, keyword).None? then text
      else
        match NameClause(cs, keyword)
        case None => Concat(cs)
        case Some(j) => Concat(cs[j := QualifiedName(cs[j], database.escapeObjectName(schemaName, SchemaKind))])
  }

  /**
   * The keyword walk of addSchemaToText: from the sentinel "START" to the first keyword
   * clause, giving up at a PACKAGE clause. True when the walk stopped on the keyword
   * with clauses still after it; the iterator then stands just past the keyword.
   */
  method SkipToKeyword(clauseIterator: ClauseIterator, keywordBeforeName: string) returns (found: bool)
    requires clauseIterator.cursor == 0
    modifies clauseIterator
    ensures clauseIterator.Valid()
    ensures found <==> NameSearchStart(clauseIterator.source.clauses, keywordBeforeName).Some?
    ensures found ==> clauseIterator.cursor == NameSearchStart(clauseIterator.source.clauses, keywordBeforeName).value
  {
    ghost var cs := clauseIterator.source.clauses;
    var checkPackage := !EqualsIgnoreCase(keywordBeforeName, "PACKAGE");
    var next: Option<string> := Some("START");
    while next.Some? && !EqualsIgnoreCase(next.value, keywordBeforeName) && clauseIterator.HasNext()
      invariant clauseIterator.source.clauses == cs
      invariant clauseIterator.cursor <= |cs|
      invariant clauseIterator.cursor == 0 ==> next == Some("START")
      invariant clauseIterator.cursor > 0 ==> !EqualsIgnoreCase("START", keywordBeforeName)
      invariant next.Some? && clauseIterator.cursor > 0 ==>
                  next.value == cs[clauseIterator.cursor - 1] && !IsWhitespaceClause(next.value)
      invariant next.None? ==> clauseIterator.cursor == |cs|
      invariant forall j :: 0 <= j < clauseIterator.cursor - (if next.Some? then 1 else 0) &&
                             !IsWhitespaceClause(cs[j]) ==>
                  !EqualsIgnoreCase(cs[j], keywordBeforeName) && (checkPackage ==> !EqualsIgnoreCase(cs[j], "PACKAGE"))
      decreases |cs| - clauseIterator.cursor
    {
      if checkPackage && EqualsIgnoreCase(next.value, "PACKAGE") {
        assert !EqualsIgnoreCase("START", "PACKAGE") by { assert ToLower("START")[0] != ToLower("PACKAGE")[0]; }
        PackageStopsScan(cs, clauseIterator.cursor - 1, keywordBeforeName);
        return false;
      }
      next := clauseIterator.NextNonWhitespace();
    }
    found := next.Some? && clauseIterator.HasNext();
    if next.None? || clauseIterator.cursor == |cs| {
      assert FirstFrom(cs, 0, WordIgnoringCase(keywordBeforeName)).None? ||
             FirstFrom(cs, 0, WordIgnoringCase(keywordBeforeName)).value + 1 == |cs|;
    } else if clauseIterator.cursor > 0 {
      assert FirstFrom(cs, 0, WordIgnoringCase(keywordBeforeName)) == Some(clauseIterator.cursor - 1);
      assert checkPackage ==> !PackageBefore(cs, clauseIterator.cursor - 1);
    }
  }

  /** A PACKAGE clause at `p`, with no keyword clause up to it, stops the scan for good. */
  lemma PackageStopsScan(cs: seq<string>, p: nat, keyword: string)
    requires p < |cs| && !IsWhitespaceClause(cs[p]) && EqualsIgnoreCase(cs[p], "PACKAGE")
    requires !EqualsIgnoreCase(keyword, "PACKAGE") && !EqualsIgnoreCase("START", keyword)
    requires forall j :: 0 <= j <= p && !IsWhitespaceClause(cs[j]) ==> !EqualsIgnoreCase(cs[j], keyword)
    ensures NameSearchStart(cs, keyword).None?
  {
    assert Passes(WordIgnoringCase("PACKAGE"), cs[p]);
    assert FirstFrom(cs, 0, WordIgnoringCase("PACKAGE")).Some?;
  }

  method AddSchemaToText(procedureText: string, schemaName: Option<string>, keywordBeforeName: string,
                         database: Database, useProcedureSchema: bool, parse: Tokenizer) returns (r: string)
    ensures r == SchemaAppliedText(procedureText, schemaName, keywordBeforeName, database, useProcedureSchema, parse)
  {
    if schemaName.None? {
      return procedureText;
    }
    if HasText(schemaName) && useProcedureSchema {
      var parsedSql := new StringClauses(parse(procedureText));
      var clauseIterator := new ClauseIterator(parsedSql);
      var found := SkipToKeyword(clauseIterator, keywordBeforeName);
      if found {
        var procNameClause := clauseIterator.NextNonWhitespace();
        if procNameClause.Some? {
          var finalName := QualifiedName(procNameClause.value, database.escapeObjectName(schemaName, SchemaKind));
          clauseIterator.Replace(finalName);
        }
        return parsedSql.ToString();
      }
    }
    return procedureText;
  }

  /** The text is left as it is without a schema, with a blank one, or when USE_PROCEDURE_SCHEMA is off. */
  lemma SchemaTextUnchangedWithoutSchema(text: string, schemaName: Option<string>, keyword: string,
                                         database: Database, useProcedureSchema: bool, parse: Tokenizer)
    requires !HasText(schemaName) || !useProcedureSchema
    ensures SchemaAppliedText(text, schemaName, keyword, database, useProcedureSchema, parse) == text
  {
  }

  /** A PACKAGE clause ahead of the keyword (when the keyword is not PACKAGE) leaves the text alone. */
  lemma SchemaTextUnchangedInPackage(text: string, schemaName: Option<string>, keyword: string,
                                     database: Database, useProcedureSchema: bool, parse: Tokenizer)
    requires !EqualsIgnoreCase("START", keyword) && !EqualsIgnoreCase(keyword, "PACKAGE")
    requires FirstFrom(parse(text), 0, WordIgnoringCase(keyword)).Some?
    requires PackageBefore(parse(text), FirstFrom(parse(text), 0, WordIgnoringCase(keyword)).value)
    ensures SchemaAppliedText(text, schemaName, keyword, database, useProcedureSchema, parse) == text
  {
  }

  /** Without a keyword clause, or with none after it, the text is left alone. */
  lemma SchemaTextUnchangedWithoutName(text: string, schemaName: Option<string>, keyword: string,
                                       database: Database, useProcedureSchema: bool, parse: Tokenizer)
    requires !EqualsIgnoreCase("START", keyword)
    requires var k := FirstFrom(parse(text), 0, WordIgnoringCase(keyword));
             k.None? || k.value + 1 == |parse(text)|
    ensures SchemaAppliedText(text, schemaName, keyword, database, useProcedureSchema, parse) == text
  {
  }

  /**
   * For a tokenizer whose clauses spell the text, the new text is the old one with just
   * the name clause exchanged for the qualified name, and is the old text when there is none.
   */
  lemma SchemaTextRewritesNameOnly(text: string, schemaName: Option<string>, keyword: string,
                                   database: Database, useProcedureSchema: bool, parse: Tokenizer)
    requires HasText(schemaName) && useProcedureSchema
    requires Concat(parse(text)) == text
    ensures NameClause(parse(text), keyword).None? ==>
              SchemaAppliedText(text, schemaName, keyword, database, useProcedureSchema, parse) == text
    ensures NameClause(parse(text), keyword).Some? ==>
              var cs := parse(text);
              var j := NameClause(cs, keyword).value;
              text == Concat(cs[..j]) + cs[j] + Concat(cs[j + 1..]) &&
              SchemaAppliedText(text, schemaName, keyword, database, useProcedureSchema, parse) ==
                Concat(cs[..j]) + QualifiedName(cs[j], database.escapeObjectName(schemaName, SchemaKind)) +
                Concat(cs[j + 1..])
  {
    var cs := parse(text);
    match NameClause(cs, keyword)
    case None =>
    case Some(j) =>
      ConcatReplace(cs, j, QualifiedName(cs[j], database.escapeObjectName(schemaName, SchemaKind)));
  }

  /**
   * In "create procedure foo" the name clause is the one after PROCEDURE, and with
   * schema `app` it is replaced by `app.foo` (escaping taken as the identity here).
   */
  lemma SchemaTextExample(database: Database, parse: Tokenizer)
    requires database.escapeObjectName(Some("app"), SchemaKind) == "app"
    requires parse("create procedure foo") == ["create", " ", "procedure", " ", "foo"]
    ensures SchemaAppliedText("create procedure foo", Some("app"), "PROCEDURE", database, true, parse)
            == "create procedure app.foo"
  {
    var cs := ["create", " ", "procedure", " ", "foo"];
    assert HasText(Some("app")) by { assert "app"[0] > ' '; }
    ExampleNameSearchStart(cs);
    assert FirstFrom(cs, 3, AnyClause) == Some(4) by {
      assert IsWhitespaceClause(cs[3]);
      assert !IsWhitespaceClause(cs[4]) by { assert cs[4][0] == 'f'; }
    }
    assert QualifiedName("foo", "app") == "app.foo" by {
      assert '.' !in "foo";
    }
    ExampleConcat();
  }

  lemma ExampleConcat()
    ensures Concat(["create", " ", "procedure", " ", "foo"][4 := "app.foo"]) == "create procedure app.foo"
  {
    var r := ["create", " ", "procedure", " ", "app.foo"];
    assert ["create", " ", "procedure", " ", "foo"][4 := "app.foo"] == r;
    assert Concat(r[4..]) == "app.foo" by { assert r[4..][1..] == []; }
    assert Concat(r[3..]) == " app.foo" by { assert r[3..][1..] == r[4..]; }
    assert Concat(r[2..]) == "procedure app.foo" by { assert r[2..][1..] == r[3..]; }
    assert Concat(r[1..]) == " procedure app.foo" by { assert r[1..][1..] == r[2..]; }
    assert r[1..] == r[0..][1..];
  }

  lemma ExampleNameSearchStart(cs: seq<string>)
    requires cs == ["create", " ", "procedure", " ", "foo"]
    ensures NameSearchStart(cs, "PROCEDURE") == Some(3)
  {
    assert !EqualsIgnoreCase("START", "PROCEDURE") by { assert ToLower("START")[0] != ToLower("PROCEDURE")[0]; }
    assert !EqualsIgnoreCase("create", "PROCEDURE") by { assert ToLower("create")[0] != ToLower("PROCEDURE")[0]; }
    assert !EqualsIgnoreCase("create", "PACKAGE") by { assert ToLower("create")[0] != ToLower("PACKAGE")[0]; }
    assert !EqualsIgnoreCase("PROCEDURE", "PACKAGE") by { assert ToLower("PROCEDURE")[1] != ToLower("PACKAGE")[1]; }
    assert EqualsIgnoreCase("procedure", "PROCEDURE");
    assert !EqualsIgnoreCase("procedure", "PACKAGE") by { assert ToLower("procedure")[1] != ToLower("PACKAGE")[1]; }
    assert IsWhitespaceClause(" ");
    assert !IsWhitespaceClause("create") by { assert "create"[0] == 'c'; }
    assert !IsWhitespaceClause("procedure") by { assert "procedure"[0] == 'p'; }
    var t := WordIgnoringCase("PROCEDURE");
    assert FirstFrom(cs, 2, t) == Some(2);
    assert FirstFrom(cs, 1, t) == FirstFrom(cs, 2, t);
    assert FirstFrom(cs, 0, t) == FirstFrom(cs, 1, t);
    assert !PackageBefore(cs, 2);
  }

  // --------------------------------------------------------------- generateSql

  /** The schema generateSql works with: the statement's own, else (when configured) the database default. */
  function EffectiveSchema(statement: CreateProcedureStatement, database: Database, config: Configuration): Option<string> {
    if statement.schemaName.None? && config.alwaysOverrideStoredLogicSchema then database.defaultSchemaName
    else statement.schemaName
  }

  /** The name the replace-if-exists probe uses: the escaped procedure name, schema-prefixed when there is a schema. */
  function ProbeName(procedureName: Option<string>, schemaName: Option<string>, database: Database): string {
    var name := database.escapeObjectName(procedureName, StoredProcedureKind);
    if schemaName.Some? then database.escapeObjectName(schemaName, SchemaKind) + "." + name else name
  }

  /** Creates a placeholder procedure when none of that name exists, so that ALTER always succeeds. */
  function ExistenceProbe(fullyQualifiedName: string): Sql {
    Unparsed("if object_id('" + fullyQualifiedName + "', 'p') is null exec ('create procedure " +
             fullyQualifiedName + " as select 1 a')")
  }

  /**
   * The clauses after the replace-if-exists rewrite: the first `create` or `alter`
   * clause becomes ALTER. Without one, the scan runs to the end and the last clause
   * returned, the last clause of all, is overwritten.
   */
  function AlterRewritten(cs: seq<string>): seq<string> {
    match FirstFrom(cs, 0, CreateOrAlter)
    case Some(k) => cs[k := "ALTER"]
    case None => if cs == [] then cs else cs[|cs| - 1 := "ALTER"]
  }

  method RewriteCreateAsAlter(procedureText: string, parse: Tokenizer) returns (r: string)
    ensures r == Concat(AlterRewritten(parse(procedureText)))
  {
    var parsedSql := new StringClauses(parse(procedureText));
    var clauseIterator := new ClauseIterator(parsedSql);
    ghost var cs := parsedSql.clauses;
    var next: Option<string> := Some("START");
    while next.Some? && !(EqualsIgnoreCase(next.value, "create") || EqualsIgnoreCase(next.value, "alter")) &&
          clauseIterator.HasNext()
      invariant clauseIterator.source == parsedSql && parsedSql.clauses == cs
      invariant clauseIterator.cursor <= |cs|
      invariant clauseIterator.cursor == 0 ==> next == Some("START")
      invariant next.Some? && clauseIterator.cursor > 0 ==>
                  next.value == cs[clauseIterator.cursor - 1] && !IsWhitespaceClause(next.value)
      invariant next.None? ==> clauseIterator.cursor == |cs|
      invariant forall j :: 0 <= j < clauseIterator.cursor - (if next.Some? then 1 else 0) ==>
                  IsWhitespaceClause(cs[j]) || !Passes(CreateOrAlter, cs[j])
      decreases |cs| - clauseIterator.cursor
    {
      next := clauseIterator.NextNonWhitespace();
    }
    AlterScanExit(cs, clauseIterator.cursor, next);
    clauseIterator.Replace("ALTER");
    r := parsedSql.ToString();
  }

  /**
   * Where the create/alter scan of generateSql's replace-if-exists step stops: the clause it returned last
   * (the one at `cursor - 1`) is exactly the one AlterRewritten overwrites.
   */
  lemma AlterScanExit(cs: seq<string>, cursor: nat, next: Option<string>)
    requires cursor <= |cs|
    requires cursor == 0 ==> next == Some("START")
    requires next.Some? && cursor > 0 ==> next.value == cs[cursor - 1] && !IsWhitespaceClause(next.value)
    requires next.None? ==> cursor == |cs|
    requires forall j :: 0 <= j < cursor - (if next.Some? then 1 else 0) ==>
               IsWhitespaceClause(cs[j]) || !Passes(CreateOrAlter, cs[j])
    requires !(next.Some? && !Passes(CreateOrAlter, next.value) && cursor < |cs|)
    ensures AlterRewritten(cs) == if cursor == 0 then cs else cs[cursor - 1 := "ALTER"]
  {
    assert !Passes(CreateOrAlter, "START") by {
      assert ToLower("START")[0] != ToLower("create")[0];
      assert ToLower("START")[0] != ToLower("alter")[0];
    }
    var f := FirstFrom(cs, 0, CreateOrAlter);
    if f.Some? {
      assert f.value == cursor - 1;
    }
  }

  /** ALTER lands on the first create/alter clause and nowhere else; the text around it is kept. */
  lemma AlterRewriteText(text: string, parse: Tokenizer)
    requires Concat(parse(text)) == text
    requires FirstFrom(parse(text), 0, CreateOrAlter).Some?
    ensures var cs := parse(text);
            var k := FirstFrom(cs, 0, CreateOrAlter).value;
            (EqualsIgnoreCase(cs[k], "create") || EqualsIgnoreCase(cs[k], "alter")) &&
            text == Concat(cs[..k]) + cs[k] + Concat(cs[k + 1..]) &&
            Concat(AlterRewritten(cs)) == Concat(cs[..k]) + "ALTER" + Concat(cs[k + 1..])
  {
    var cs := parse(text);
    ConcatReplace(cs, FirstFrom(cs, 0, CreateOrAlter).value, "ALTER");
  }

  /** Without any create/alter clause, the last clause of the body becomes ALTER. */
  lemma AlterRewriteWithoutCreate(cs: seq<string>)
    requires cs != [] && FirstFrom(cs, 0, CreateOrAlter).None?
    ensures AlterRewritten(cs) == cs[..|cs| - 1] + ["ALTER"]
  {
  }

  /** A non-whitespace clause of the parse reads `merge`, ignoring case. */
  predicate HasMergeClause(cs: seq<string>) {
    exists c :: c in cs && !IsWhitespaceClause(c) && EqualsIgnoreCase(c, "merge")
  }

  /** generateSql's merge check: `SqlParser.parse(text)` (whitespace dropped) is walked for a `merge` clause. */
  method IsReallyMerge(procedureText: string, parse: Tokenizer) returns (reallyMerge: bool)
    ensures reallyMerge <==> HasMergeClause(parse(procedureText))
  {
    var parsed := new StringClauses(Significant(parse(procedureText)));
    var clauseIterator := new ClauseIterator(parsed);
    ghost var cs := parsed.clauses;
    reallyMerge := false;
    while clauseIterator.HasNext()
      invariant clauseIterator.source == parsed && parsed.clauses == cs
      invariant clauseIterator.cursor <= |cs|
      invariant reallyMerge <==> exists j :: 0 <= j < clauseIterator.cursor && EqualsIgnoreCase(cs[j], "merge")
      decreases |cs| - clauseIterator.cursor
    {
      assert cs[clauseIterator.cursor] in cs;
      var clause := clauseIterator.NextNonWhitespace();
      assert clause.Some?;    // no whitespace clause is left to step over
      if EqualsIgnoreCase(clause.value, "merge") {
        reallyMerge := true;
      }
    }
    if reallyMerge {
      ghost var j :| 0 <= j < |cs| && EqualsIgnoreCase(cs[j], "merge");
      assert cs[j] in cs;
    }
    if HasMergeClause(parse(procedureText)) {
      ghost var c :| c in parse(procedureText) && !IsWhitespaceClause(c) && EqualsIgnoreCase(c, "merge");
      assert c in cs;
    }
  }

  /** SQL Server "AS MERGE" bodies get a trailing `;` unless they already end with one. */
  function MergeTerminated(text: string, database: Database, parse: Tokenizer): string {
    if database.dialect == MSSQL && Contains(ToLower(text), "merge") && !EndsWith(text, ";") &&
       HasMergeClause(parse(text))
    then text + ";"
    else text
  }

  /** The body text generateSql emits. */
  function ProcedureBody(statement: CreateProcedureStatement, database: Database, config: Configuration,
                         parse: Tokenizer): string
    requires statement.procedureText.Some?
  {
    var schemaName := EffectiveSchema(statement, database, config);
    var withSchema := SchemaAppliedText(statement.procedureText.value, schemaName, "PROCEDURE", database,
                                        config.useProcedureSchema, parse);
    var altered := if statement.replaceIfExists == Some(true) then Concat(AlterRewritten(parse(withSchema)))
                   else withSchema;
    MergeTerminated(DelimiterStripped(altered, statement.endDelimiter), database, parse)
  }

  /** The fragments generateSql returns. */
  function GeneratedSql(statement: CreateProcedureStatement, database: Database, config: Configuration,
                        parse: Tokenizer): seq<Sql>
    requires statement.procedureText.Some?
  {
    var probe :=
      if statement.replaceIfExists == Some(true)
      then [ExistenceProbe(ProbeName(statement.procedureName, EffectiveSchema(statement, database, config), database))]
      else [];
    var body := UnparsedSql(ProcedureBody(statement, database, config, parse), Delimiter(statement.endDelimiter), []);
    Surround(probe + [body], SchemaSets(statement.schemaName, database, config.useProcedureSchema))
  }

  /** Validation rejects a statement without text before any SQL is generated. */
  method GenerateSql(statement: CreateProcedureStatement, database: Database, config: Configuration,
                     parse: Tokenizer) returns (sql: seq<Sql>)
    requires statement.procedureText.Some?
    ensures sql == GeneratedSql(statement, database, config, parse)
  {
    var list := new SqlList();
    var schemaName := statement.schemaName;
    if schemaName.None? && config.alwaysOverrideStoredLogicSchema {
      schemaName := database.defaultSchemaName;
    }
    assert schemaName == EffectiveSchema(statement, database, config);
    var procedureText := AddSchemaToText(statement.procedureText.value, schemaName, "PROCEDURE", database,
                                         config.useProcedureSchema, parse);
    ghost var altered := if statement.replaceIfExists == Some(true) then Concat(AlterRewritten(parse(procedureText)))
                         else procedureText;
    ghost var probe :=
      if statement.replaceIfExists == Some(true)
      then [ExistenceProbe(ProbeName(statement.procedureName, schemaName, database))]
      else [];
    if statement.replaceIfExists.Some? && statement.replaceIfExists.value {
      var fullyQualifiedName := database.escapeObjectName(statement.procedureName, StoredProcedureKind);
      if schemaName.Some? {
        fullyQualifiedName := database.escapeObjectName(schemaName, SchemaKind) + "." + fullyQualifiedName;
      }
      list.Add(ExistenceProbe(fullyQualifiedName));
      procedureText := RewriteCreateAsAlter(procedureText, parse);
    }
    assert list.items == probe && procedureText == altered;
    var stripped := RemoveTrailingDelimiter(Some(procedureText), statement.endDelimiter);
    procedureText := stripped.value;
    ghost var beforeMerge := procedureText;
    if database.dialect == MSSQL && Contains(ToLower(procedureText), "merge") && !EndsWith(procedureText, ";") {
      var reallyMerge := IsReallyMerge(procedureText, parse);
      if reallyMerge {
        procedureText := procedureText + ";";
      }
    }
    assert procedureText == MergeTerminated(beforeMerge, database, parse);
    assert procedureText == ProcedureBody(statement, database, config, parse);
    list.Add(UnparsedSql(procedureText, Delimiter(statement.endDelimiter), []));
    SurroundWithSchemaSets(list, statement.schemaName, database, config.useProcedureSchema);
    sql := list.items;
  }

  /** Only SQL Server bodies ever gain a `;`, and only one, after a bare `merge` clause, when none ends the text. */
  lemma MergeTerminatorRule(text: string, database: Database, parse: Tokenizer)
    ensures var r := MergeTerminated(text, database, parse);
            r == text ||
            (database.dialect == MSSQL && HasMergeClause(parse(text)) && !EndsWith(text, ";") && r == text + ";")
  {
  }

  /**
   * For a tokenizer whose clauses spell the text, a `merge` clause also shows in the
   * lower-cased text, so on SQL Server such a body always ends with `;`.
   */
  lemma MssqlMergeBodyEndsWithSemicolon(text: string, database: Database, parse: Tokenizer)
    requires database.dialect == MSSQL
    requires Concat(parse(text)) == text
    requires HasMergeClause(parse(text))
    ensures EndsWith(MergeTerminated(text, database, parse), ";")
  {
    if !EndsWith(text, ";") {
      var cs := parse(text);
      var c :| c in cs && !IsWhitespaceClause(c) && EqualsIgnoreCase(c, "merge");
      var j :| 0 <= j < |cs| && cs[j] == c;
      ConcatReplace(cs, j, c);
      var pre := Concat(cs[..j]);
      var post := Concat(cs[j + 1..]);
      ToLowerAppend(pre + c, post);
      ToLowerAppend(pre, c);
      assert ToLower(c) == "merge";
      assert ToLower(text)[|pre|..|pre| + 5] == "merge";
      assert OccursAt(ToLower(text), "merge", |pre|);
      var r := text + ";";
      assert r[|r| - 1..] == ";";
    }
  }

  /**
   * With replaceIfExists on a dialect that does not wrap in schema statements, the
   * existence probe comes first and the body, carrying the statement's end delimiter, second.
   */
  lemma ReplaceIfExistsProbeFirst(statement: CreateProcedureStatement, database: Database, config: Configuration,
                                  parse: Tokenizer)
    requires statement.procedureText.Some? && statement.replaceIfExists == Some(true)
    requires database.dialect !in {Oracle, DB2}
    ensures var sql := GeneratedSql(statement, database, config, parse);
            var schemaName := EffectiveSchema(statement, database, config);
            |sql| == 2 &&
            sql[0] == ExistenceProbe(ProbeName(statement.procedureName, schemaName, database)) &&
            sql[1].endDelimiter == Delimiter(statement.endDelimiter)
  {
  }

  /** The probe's name carries the escaped schema exactly when generateSql has a schema to use. */
  lemma ProbeNameSchemaPrefix(procedureName: Option<string>, schemaName: Option<string>, database: Database)
    ensures schemaName.Some? ==>
              ProbeName(procedureName, schemaName, database) ==
              database.escapeObjectName(schemaName, SchemaKind) + "." + database.escapeObjectName(procedureName, StoredProcedureKind)
    ensures schemaName.None? ==>
              ProbeName(procedureName, schemaName, database) == database.escapeObjectName(procedureName, StoredProcedureKind)
  {
  }

  /**
   * The body is the one fragment tagged with the statement's end delimiter; schema
   * statements, when present, stand first and last, and the replace-if-exists probe just before the body.
   */
  lemma GeneratedSqlLayout(statement: CreateProcedureStatement, database: Database, config: Configuration,
                           parse: Tokenizer)
    requires statement.procedureText.Some?
    ensures var sql := GeneratedSql(statement, database, config, parse);
            var sets := SchemaSets(statement.schemaName, database, config.useProcedureSchema);
            var probe := if statement.replaceIfExists == Some(true) then 1 else 0;
            var wrap := if sets.Some? then 1 else 0;
            var b := wrap + probe;
            |sql| == 1 + probe + 2 * wrap &&
            sql[b] == UnparsedSql(ProcedureBody(statement, database, config, parse), Delimiter(statement.endDelimiter), []) &&
            (forall i :: 0 <= i < |sql| && i != b ==> sql[i].endDelimiter == DefaultDelimiter) &&
            (sets.Some? ==> sql[0] == sets.value.0 && sql[|sql| - 1] == sets.value.1) &&
            (probe == 1 ==>
               sql[wrap] == ExistenceProbe(ProbeName(statement.procedureName,
                                                     EffectiveSchema(statement, database, config), database)))
  {
  }

  /**
   * The schema statements follow the statement's own schema: the configured default
   * schema never causes them, though it does qualify the body and the probe.
   */
  lemma SchemaSetsIgnoreDefaultedSchema(statement: CreateProcedureStatement, database: Database, config: Configuration,
                                       parse: Tokenizer)
    requires statement.procedureText.Some? && statement.schemaName.None?
    ensures |GeneratedSql(statement, database, config, parse)| == if statement.replaceIfExists == Some(true) then 2 else 1
  {
  }

  /** The body fragment without replaceIfExists, schema or merge handling is the text with its delimiter stripped. */
  lemma PlainBody(statement: CreateProcedureStatement, database: Database, config: Configuration, parse: Tokenizer)
    requires statement.procedureText.Some? && statement.replaceIfExists != Some(true)
    requires EffectiveSchema(statement, database, config).None? && database.dialect != MSSQL
    ensures ProcedureBody(statement, database, config, parse) ==
            DelimiterStripped(statement.procedureText.value, statement.endDelimiter)
  {
  }

  /** "INSERT INTO t VALUES (1);  \n" with delimiter ";" loses the blanks and the ";". */
  lemma DelimiterStrippedExample()
    ensures DelimiterStripped("INSERT INTO t VALUES (1);  \n", Some(";")) == "INSERT INTO t VALUES (1)"
  {
    assert '\\' !in ";";
    assert forall i :: 0 <= i < |"  \n"| ==> IsTrailingBlank("  \n"[i]);
    DelimiterBeforeBlanksStripped("INSERT INTO t VALUES (1)", ";", "  \n");
    assert "INSERT INTO t VALUES (1)" + ";" + "  \n" == "INSERT INTO t VALUES (1);  \n";
  }
}
