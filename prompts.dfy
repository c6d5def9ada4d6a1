/**
 * The prompts of `MCTSTextToSQL`: the base prompt built from the database
 * schema and the question (`create_base_prompt`), and the five hinted
 * variations of it that the search cycles through
 * (`generate_prompt_variations`).
 */
module Prompts {
  import opened Text

  /** One table of the schema: its name and the names and declared types of
      its columns, in table order. */
  datatype TableInfo = TableInfo(name: string, columns: seq<string>, types: seq<string>)

  /** The schema as the database handler lists it: tables in the order of
      its dictionary. */
  type Schema = seq<TableInfo>

  /** A column name holding a space or an opening parenthesis is written in
      double quotes; any other name is written as it is. */
  function QuoteColumn(col: string): (q: string)
    ensures (exists i :: 0 <= i < |col| && (col[i] == ' ' || col[i] == '(')) ==> q == "\"" + col + "\""
    ensures (forall i :: 0 <= i < |col| ==> col[i] != ' ' && col[i] != '(') ==> q == col
  {
    ContainsChar(col, ' ');
    ContainsChar(col, '(');
    if Contains(col, " ") || Contains(col, "(") then "\"" + col + "\"" else col
  }

  function HeaderLine(table: string): string {
    "Table `" + table + "` has the following columns:"
  }

  function ColumnLine(col: string, typ: string): string {
    " - " + QuoteColumn(col) + " (" + typ + ")"
  }

  function Min(a: int, b: int): int {
    if a < b then a else b
  }

  /** The header of table `t` and the lines of its first `c` columns. */
  function TableLinesUpTo(t: TableInfo, c: nat): seq<string>
    requires c <= |t.columns| && c <= |t.types|
  {
    if c == 0 then [HeaderLine(t.name)]
    else TableLinesUpTo(t, c - 1) + [ColumnLine(t.columns[c - 1], t.types[c - 1])]
  }

  /** The lines of table `t`: its header, then one line per column, pairing
      names and types as `zip` does, so as many column lines as the shorter
      of the two lists. */
  function TableLines(t: TableInfo): seq<string> {
    TableLinesUpTo(t, Min(|t.columns|, |t.types|))
  }

  /** The first line is the header and line `i + 1` describes column `i`. */
  lemma {:induction false} TableLinesAt(t: TableInfo, c: nat)
    requires c <= |t.columns| && c <= |t.types|
    ensures |TableLinesUpTo(t, c)| == c + 1 && TableLinesUpTo(t, c)[0] == HeaderLine(t.name)
    ensures forall i :: 0 <= i < c ==> TableLinesUpTo(t, c)[i + 1] == ColumnLine(t.columns[i], t.types[i])
  {
    if c > 0 {
      TableLinesAt(t, c - 1);
    }
  }

  /** The schema lines: for each table in order, its header and then its
      column lines. */
  function SchemaLines(schema: Schema): seq<string> {
    if schema == [] then []
    else SchemaLines(schema[..|schema| - 1]) + TableLines(schema[|schema| - 1])
  }

  /** The fixed text of the prompt around the schema and the question. */
  const Preamble: string :=
    "\nYou are an expert in generating valid SQLite SQL queries.\n\n"
    + "Instructions:\n"
    + "- Use **only** the tables and columns provided in the schema.\n"
    + "- Use **double quotes** around column names with spaces or special characters.\n"
    + "- End your query with a semicolon.\n"
    + "- Only use valid SQL syntax that works in SQLite.\n\n"
    + "Schema:\n"

  function PromptText(schemaText: string, question: string): string {
    Preamble + schemaText + "\n\nQuestion:\n\"" + question + "\"\n\nSQL Query:\n"
  }

  /** The prompt `create_base_prompt` returns. */
  function BasePrompt(schema: Schema, question: string): string {
    PromptText(Join(SchemaLines(schema), "\n"), question)
  }

  /** `create_base_prompt`: collects the schema lines, joins them with line
      feeds and fills the template. */
  method CreateBasePrompt(schema: Schema, question: string) returns (prompt: string)
    ensures prompt == BasePrompt(schema, question)
  {
    var lines := CollectSchemaLines(schema);
    var schemaText := Join(lines, "\n");
    prompt := PromptText(schemaText, question);
  }

  /** The loops of `create_base_prompt`: table by table, a header, then
      column by column a line for each name paired with a type. */
  method CollectSchemaLines(schema: Schema) returns (lines: seq<string>)
    ensures lines == SchemaLines(schema)
  {
    lines := [];
    for t := 0 to |schema|
      invariant lines == SchemaLines(schema[..t])
    {
      var table := schema[t];
      SchemaLinesStep(schema, t);
      lines := lines + [HeaderLine(table.name)];
      var n := Min(|table.columns|, |table.types|);
      for c := 0 to n
        invariant lines == SchemaLines(schema[..t]) + TableLinesUpTo(table, c)
      {
        var col, typ := table.columns[c], table.types[c];
        var quoted := QuoteColumn(col);
        AppendAssoc(SchemaLines(schema[..t]), TableLinesUpTo(table, c), [" - " + quoted + " (" + typ + ")"]);
        lines := lines + [" - " + quoted + " (" + typ + ")"];
      }
    }
    assert schema[..|schema|] == schema;
  }

  lemma AppendAssoc<T>(a: seq<T>, b: seq<T>, c: seq<T>)
    ensures (a + b) + c == a + (b + c)
  {
  }

  lemma SchemaLinesStep(schema: Schema, t: nat)
    requires t < |schema|
    ensures SchemaLines(schema[..t + 1]) == SchemaLines(schema[..t]) + TableLines(schema[t])
  {
    assert schema[..t + 1][..t] == schema[..t];
  }

  /** The question appears in the prompt in double quotes, right before the
      closing "SQL Query:" line, and the prompt opens with the instructions. */
  lemma PromptFrame(schema: Schema, question: string)
    ensures Preamble <= BasePrompt(schema, question)
    ensures var tail := "\"" + question + "\"\n\nSQL Query:\n";
            var p := BasePrompt(schema, question);
            |tail| <= |p| && p[|p| - |tail|..] == tail
  {
    var p := BasePrompt(schema, question);
    var body := Join(SchemaLines(schema), "\n");
    var tail := "\"" + question + "\"\n\nSQL Query:\n";
    assert p == (Preamble + body + "\n\nQuestion:\n") + tail;
  }

  // ---------------------------------------------------------------------
  // The schema text reads back as the schema lines
  // ---------------------------------------------------------------------

  /** No table name, column name or type holds a line feed. */
  ghost predicate SchemaOnOneLine(schema: Schema) {
    forall t :: 0 <= t < |schema| ==>
      OneLine(schema[t].name)
      && (forall c :: 0 <= c < |schema[t].columns| ==> OneLine(schema[t].columns[c]))
      && (forall c :: 0 <= c < |schema[t].types| ==> OneLine(schema[t].types[c]))
  }

  lemma ConcatOneLine(a: string, b: string)
    requires OneLine(a) && OneLine(b)
    ensures OneLine(a + b)
  {
    assert forall i :: 0 <= i < |a| + |b| ==> (a + b)[i] == if i < |a| then a[i] else b[i - |a|];
  }

  lemma HeaderOneLine(table: string)
    requires OneLine(table)
    ensures OneLine(HeaderLine(table)) && HeaderLine(table) != ""
  {
    ConcatOneLine("Table `", table);
    ConcatOneLine("Table `" + table, "` has the following columns:");
  }

  lemma ColumnOneLine(col: string, typ: string)
    requires OneLine(col) && OneLine(typ)
    ensures OneLine(ColumnLine(col, typ)) && ColumnLine(col, typ) != ""
  {
    ConcatOneLine("\"", col);
    ConcatOneLine("\"" + col, "\"");
    ConcatOneLine(" - ", QuoteColumn(col));
    ConcatOneLine(" - " + QuoteColumn(col), " (");
    ConcatOneLine(" - " + QuoteColumn(col) + " (", typ);
    ConcatOneLine(" - " + QuoteColumn(col) + " (" + typ, ")");
  }

  /** Lines that are each one non-empty line. */
  ghost predicate ProperLines(ls: seq<string>) {
    forall k :: 0 <= k < |ls| ==> OneLine(ls[k]) && ls[k] != ""
  }

  lemma ProperConcat(a: seq<string>, b: seq<string>)
    requires ProperLines(a) && ProperLines(b)
    ensures ProperLines(a + b)
  {
    assert forall k :: 0 <= k < |a| + |b| ==> (a + b)[k] == if k < |a| then a[k] else b[k - |a|];
  }

  lemma {:induction false} TableLinesProper(t: TableInfo, c: nat)
    requires c <= |t.columns| && c <= |t.types|
    requires OneLine(t.name)
    requires forall i :: 0 <= i < c ==> OneLine(t.columns[i]) && OneLine(t.types[i])
    ensures ProperLines(TableLinesUpTo(t, c))
  {
    if c == 0 {
      HeaderOneLine(t.name);
    } else {
      TableLinesProper(t, c - 1);
      ColumnOneLine(t.columns[c - 1], t.types[c - 1]);
      ProperConcat(TableLinesUpTo(t, c - 1), [ColumnLine(t.columns[c - 1], t.types[c - 1])]);
    }
  }

  /** Every schema line is one non-empty line. */
  lemma {:induction false} SchemaLinesProper(schema: Schema)
    requires SchemaOnOneLine(schema)
    ensures ProperLines(SchemaLines(schema))
  {
    if schema != [] {
      var init, t := schema[..|schema| - 1], schema[|schema| - 1];
      assert SchemaOnOneLine(init) by {
        forall i | 0 <= i < |init| ensures init[i] == schema[i] { }
      }
      SchemaLinesProper(init);
      TableLinesProper(t, Min(|t.columns|, |t.types|));
      ProperConcat(SchemaLines(init), TableLines(t));
    }
  }

  /** Splitting the schema text at its line feeds gives back exactly the
      header and column lines, in order, as long as no name or type holds a
      line feed. */
  lemma SchemaTextLines(schema: Schema)
    requires SchemaOnOneLine(schema)
    ensures Lines(Join(SchemaLines(schema), "\n")) == SchemaLines(schema)
  {
    var ls := SchemaLines(schema);
    SchemaLinesProper(schema);
    assert AllOneLine(ls);
    LinesOfJoin(ls);
  }

  /** How many schema lines a schema gives: a header per table and one line
      per column that has a type. */
  function LineCount(schema: Schema): nat {
    if schema == [] then 0
    else LineCount(schema[..|schema| - 1]) + 1
         + Min(|schema[|schema| - 1].columns|, |schema[|schema| - 1].types|)
  }

  lemma {:induction false} SchemaLineCount(schema: Schema)
    ensures |SchemaLines(schema)| == LineCount(schema)
  {
    if schema != [] {
      var t := schema[|schema| - 1];
      SchemaLineCount(schema[..|schema| - 1]);
      TableLinesAt(t, Min(|t.columns|, |t.types|));
    }
  }

  // ---------------------------------------------------------------------
  // Prompt variations
  // ---------------------------------------------------------------------

  /** The hint for each residue of the iteration index modulo 5. */
  function Hint(k: int): string {
    if k == 1 then "\nHint: use GROUP BY if aggregation is required."
    else if k == 2 then "\nHint: use JOIN to combine multiple tables."
    else if k == 3 then "\nHint: consider adding WHERE clause."
    else if k == 4 then "\nHint: use ORDER BY to sort results."
    else ""
  }

  /** `generate_prompt_variations`: the base prompt followed by the hint the
      index selects.  Python's `%` with a positive divisor agrees with
      Dafny's, so negative indexes are covered as well. */
  function Variation(base: string, index: int): (r: string)
    ensures base <= r
    ensures r == base <==> index % 5 == 0
  {
    base + Hint(index % 5)
  }

  /** Variations repeat with period 5. */
  lemma VariationPeriodic(base: string, index: int)
    ensures Variation(base, index + 5) == Variation(base, index)
  {
    assert (index + 5) % 5 == index % 5;
  }
}
