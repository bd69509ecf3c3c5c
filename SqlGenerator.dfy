/** The text handling of `core/sql_generator.py`: rendering the database's
    tables and columns as the schema text of the generation prompt, and
    cleaning the model's reply into a bare SQL statement. The model itself is
    a parameter. */
module SqlGenerator {
  import opened Text

  /** One column as the inspector reports it: its name and its declared type. */
  datatype ColumnInfo = ColumnInfo(name: string, typeName: string)

  /** One table as the inspector reports it, with its columns in declared order. */
  datatype TableInfo = TableInfo(name: string, columns: seq<ColumnInfo>)

  /** "name (TYPE)". */
  function ColumnDescription(c: ColumnInfo): string {
    c.name + " (" + c.typeName + ")"
  }

  /** The descriptions of `cols`, in order. */
  function ColumnDescriptions(cols: seq<ColumnInfo>): (r: seq<string>)
    ensures |r| == |cols|
    ensures forall i :: 0 <= i < |cols| ==> r[i] == ColumnDescription(cols[i])
  {
    seq(|cols|, i requires 0 <= i < |cols| => ColumnDescription(cols[i]))
  }

  /** The "Columns: ..." line of one table. */
  function ColumnsLine(t: TableInfo): string {
    "Columns: " + Join(ColumnDescriptions(t.columns), ", ")
  }

  /** The schema as a list of lines, built table by table in inspector order. */
  function SchemaLines(tables: seq<TableInfo>): seq<string> {
    if tables == [] then []
    else
      var last := tables[|tables| - 1];
      SchemaLines(tables[..|tables| - 1]) + ["Table: " + last.name, ColumnsLine(last), ""]
  }

  /** The schema text handed to the model. */
  function SchemaText(tables: seq<TableInfo>): string {
    Join(SchemaLines(tables), "\n")
  }

  /** Each table contributes exactly three lines, in inspector order: its name,
      its columns, and an empty separator line. */
  lemma {:induction false} SchemaLinesShape(tables: seq<TableInfo>)
    ensures |SchemaLines(tables)| == 3 * |tables|
    ensures forall k :: 0 <= k < |tables| ==>
      && SchemaLines(tables)[3 * k] == "Table: " + tables[k].name
      && SchemaLines(tables)[3 * k + 1] == ColumnsLine(tables[k])
      && SchemaLines(tables)[3 * k + 2] == ""
  {
    if tables != [] {
      var init := tables[..|tables| - 1];
      SchemaLinesShape(init);
      assert forall k :: 0 <= k < |init| ==> tables[k] == init[k];
    }
  }

  /** The text of a single table: its name line, its columns line and an
      empty line, separated by line breaks. */
  lemma SchemaTextSingle(t: TableInfo)
    ensures SchemaText([t]) == ("Table: " + t.name) + "\n" + ColumnsLine(t) + "\n"
  {
    var a, b := "Table: " + t.name, ColumnsLine(t);
    assert [t][..0] == [];
    assert SchemaLines([t]) == [a] + [b] + [""];
    JoinAppend([a], b, "\n");
    JoinAppend([a] + [b], "", "\n");
  }

  /** One more table adds, to the text of the tables before it, a line break,
      its name line, its columns line and an empty line. */
  lemma SchemaTextAppend(tables: seq<TableInfo>, t: TableInfo)
    requires tables != []
    ensures SchemaText(tables + [t])
      == SchemaText(tables) + "\n" + ("Table: " + t.name) + "\n" + ColumnsLine(t) + "\n"
  {
    var all := tables + [t];
    assert all[..|all| - 1] == tables;
    var lines := SchemaLines(tables);
    SchemaLinesShape(tables);
    var a, b := "Table: " + t.name, ColumnsLine(t);
    assert SchemaLines(all) == lines + [a] + [b] + [""];
    JoinAppend(lines, a, "\n");
    JoinAppend(lines + [a], b, "\n");
    JoinAppend(lines + [a] + [b], "", "\n");
  }

  /** The columns line lists the columns in declared order, each as
      "name (TYPE)", separated by ", ". */
  lemma {:induction false} ColumnsLineOrder(first: ColumnInfo, rest: seq<ColumnInfo>)
    ensures ColumnsLine(TableInfo("", [first])) == "Columns: " + ColumnDescription(first)
    ensures rest != [] ==>
      ColumnsLine(TableInfo("", [first] + rest))
      == "Columns: " + ColumnDescription(first) + ", " + Join(ColumnDescriptions(rest), ", ")
  {
    if rest != [] {
      var all := ColumnDescriptions([first] + rest);
      assert all[1..] == ColumnDescriptions(rest);
    }
  }

  /** `get_schema_string`: appends three lines per table, then joins them with
      line breaks. */
  method GetSchemaString(tables: seq<TableInfo>) returns (s: string)
    ensures s == SchemaText(tables)
    ensures tables == [] ==> s == ""
  {
    var schemaLines: seq<string> := [];
    for i := 0 to |tables|
      invariant schemaLines == SchemaLines(tables[..i])
    {
      var t := tables[i];
      var colDesc := ColumnDescriptions(t.columns);
      schemaLines := schemaLines + ["Table: " + t.name];
      schemaLines := schemaLines + ["Columns: " + Join(colDesc, ", ")];
      schemaLines := schemaLines + [""];
      assert tables[..i + 1][..i] == tables[..i];
    }
    assert tables[..|tables|] == tables;
    s := Join(schemaLines, "\n");
  }

  const Fence: string := "```"
  const SqlFence: string := "```sql"

  /** The clean-up of the model's reply: strip, delete every "```sql", then
      every remaining "```", then strip again. */
  function CleanSql(raw: string): (r: string)
    ensures Stripped(r)
    ensures !Occurs(Fence, r)
  {
    var cleaned := RemoveAll(RemoveAll(Strip(raw), SqlFence), Fence);
    NoFenceAfterRemoval(RemoveAll(Strip(raw), SqlFence));
    OccursInStrip(Fence, cleaned);
    Strip(cleaned)
  }

  /** Text that does not start with two backticks keeps that property once
      every "```" is deleted from it. */
  lemma {:induction false} NoDoubleTickAfterRemoval(s: string)
    requires !(|s| >= 2 && s[0] == '`' && s[1] == '`')
    ensures var r := RemoveAll(s, Fence); !(|r| >= 2 && r[0] == '`' && r[1] == '`')
    decreases |s|
  {
    if s != [] {
      assert !(3 <= |s| && s[..3] == Fence);
      var r := RemoveAll(s, Fence);
      assert r == [s[0]] + RemoveAll(s[1..], Fence);
      if s[0] == '`' && |s| >= 2 {
        var t := s[1..];
        assert t[0] != '`';
        assert !(3 <= |t| && t[..3] == Fence);
        assert RemoveAll(t, Fence) == [t[0]] + RemoveAll(t[1..], Fence);
      }
    }
  }

  /** Deleting every "```" leaves no "```" behind, even where the deletion
      joins backticks that were apart. */
  lemma {:induction false} NoFenceAfterRemoval(s: string)
    ensures !Occurs(Fence, RemoveAll(s, Fence))
    decreases |s|
  {
    if s != [] {
      if 3 <= |s| && s[..3] == Fence {
        NoFenceAfterRemoval(s[3..]);
      } else {
        var tail := RemoveAll(s[1..], Fence);
        NoFenceAfterRemoval(s[1..]);
        var r := [s[0]] + tail;
        assert RemoveAll(s, Fence) == r;
        if s[0] == '`' {
          NoDoubleTickAfterRemoval(s[1..]);
        }
        forall i | 0 <= i && i + 3 <= |r|
          ensures !OccursAt(Fence, r, i)
        {
          if i > 0 {
            ConsSlice(s[0], tail, i, i + 3);
            assert !OccursAt(Fence, tail, i - 1);
          } else {
            assert r[0..3] == [s[0]] + tail[0..2];
          }
        }
      }
    }
  }

  /** Cleaning text that is stripped and free of fences changes nothing. */
  lemma CleanSqlFixes(c: string)
    requires Stripped(c) && !Occurs(Fence, c)
    ensures CleanSql(c) == c
  {
    StripStripped(c);
    assert SqlFence == Fence + "sql";
    OccursPrefix(Fence, "sql", c);
    RemoveAllAbsent(c, SqlFence);
    RemoveAllAbsent(c, Fence);
    var once := RemoveAll(RemoveAll(Strip(c), SqlFence), Fence);
    assert once == c;
  }

  /** Cleaning a cleaned statement changes nothing. */
  lemma CleanSqlIdempotent(raw: string)
    ensures CleanSql(CleanSql(raw)) == CleanSql(raw)
  {
    CleanSqlFixes(CleanSql(raw));
  }

  /** Deleting a pattern that opens with a backtick passes over text that
      holds no backtick. */
  lemma {:induction false} RemoveAllSkipsPlain(t: string, tail: string, pat: string)
    requires |pat| > 0 && pat[0] == '`' && '`' !in t
    ensures RemoveAll(t + tail, pat) == t + RemoveAll(tail, pat)
    decreases |t|
  {
    if t == [] {
      assert t + tail == tail;
    } else {
      var s := t + tail;
      assert s[0] == t[0] && t[0] in t;
      assert s[1..] == t[1..] + tail;
      assert t == [t[0]] + t[1..];
      RemoveAllSkipsPlain(t[1..], tail, pat);
    }
  }

  /** A reply without backticks is only stripped. */
  lemma CleanSqlPlain(raw: string)
    requires '`' !in raw
    ensures CleanSql(raw) == Strip(raw)
  {
    var t := Strip(raw);
    forall k | 0 <= k < |t|
      ensures t[k] != '`'
    {
      assert t[k] == raw[StripStart(raw) + k];
      assert raw[StripStart(raw) + k] in raw;
    }
    assert t + [] == t;
    RemoveAllSkipsPlain(t, [], SqlFence);
    RemoveAllSkipsPlain(t, [], Fence);
    StripStripped(t);
  }

  /** Deleting a pattern from text that starts with it drops that occurrence first. */
  lemma DropsLeadingPattern(pat: string, rest: string)
    requires |pat| > 0
    ensures RemoveAll(pat + rest, pat) == RemoveAll(rest, pat)
  {
    assert (pat + rest)[..|pat|] == pat;
    assert (pat + rest)[|pat|..] == rest;
  }

  /** "```sql" cannot occur in a statement free of "```" followed by the
      closing fence: its first three characters would be a "```" inside the
      statement, and it is too long to start any later. */
  lemma NoSqlFenceBeforeClosing(s: string)
    requires !Occurs(Fence, s)
    ensures !Occurs(SqlFence, s + Fence)
  {
    var m := s + Fence;
    forall i | 0 <= i && i + |SqlFence| <= |m|
      ensures !OccursAt(SqlFence, m, i)
    {
      assert i + |Fence| <= |s|;
      assert !OccursAt(Fence, s, i);
      assert s[i..i + |Fence|] == m[i..i + |SqlFence|][..|Fence|];
    }
  }

  /** Deleting "```sql" from a fenced statement leaves the statement and
      the closing fence. */
  lemma OpeningFenceRemoved(s: string)
    requires !Occurs(Fence, s)
    ensures RemoveAll(SqlFence + (s + Fence), SqlFence) == s + Fence
  {
    DropsLeadingPattern(SqlFence, s + Fence);
    NoSqlFenceBeforeClosing(s);
    RemoveAllAbsent(s + Fence, SqlFence);
  }

  /** Deleting "```" from a statement free of "```" and its closing fence
      leaves the statement. Backticks that end the statement run into the
      fence, but the deletion then starts earlier and leaves as many
      backticks after it. */
  lemma {:induction false} ClosingFenceRemoved(s: string)
    requires !Occurs(Fence, s)
    ensures RemoveAll(s + Fence, Fence) == s
    decreases |s|
  {
    var m := s + Fence;
    if s == [] {
      assert m == Fence + [];
      DropsLeadingPattern(Fence, []);
    } else if m[..|Fence|] == Fence {
      // `s` is one or two backticks, which the deletion leaves behind.
      assert |s| < |Fence| by {
        assert !OccursAt(Fence, s, 0);
        PrefixThroughAppend(s, Fence, |Fence|);
      }
      assert m[|Fence|..] == s by {
        forall k | 0 <= k < |s|
          ensures m[|Fence|..][k] == s[k]
        {
          assert s[k] == m[k] == Fence[k] == '`';
        }
      }
      assert !Occurs(Fence, m[|Fence|..]);
      RemoveAllAbsent(m[|Fence|..], Fence);
    } else {
      assert m[1..] == s[1..] + Fence;
      if Occurs(Fence, s[1..]) {
        assert s[1..] == s[1..|s|];
        OccursInSlice(Fence, s, 1, |s|);
      }
      ClosingFenceRemoved(s[1..]);
      assert s == [s[0]] + s[1..];
    }
  }

  /** A statement wrapped in a "```sql" ... "```" fence comes out as the
      statement, stripped, whatever backticks it quotes names with, as long
      as it holds no "```" of its own. */
  lemma FencedReply(s: string)
    requires !Occurs(Fence, s)
    ensures CleanSql(SqlFence + s + Fence) == Strip(s)
  {
    var raw := SqlFence + (s + Fence);
    assert raw == SqlFence + s + Fence;
    assert Stripped(raw) by {
      assert raw[0] == '`' && raw[|raw| - 1] == '`';
    }
    StripStripped(raw);
    OpeningFenceRemoved(s);
    ClosingFenceRemoved(s);
    assert CleanSql(raw) == Strip(RemoveAll(RemoveAll(Strip(raw), SqlFence), Fence));
  }

  /** A reply with no backtick and no white space at either end is returned
      unchanged. */
  lemma CleanSqlKeepsPlainText(raw: string)
    requires '`' !in raw && Stripped(raw)
    ensures CleanSql(raw) == raw
  {
    CharAbsent(Fence, raw, 0);
    CleanSqlFixes(raw);
  }

  /** What the model call gives: the text of its answer, or an exception. */
  datatype AiReply = Reply(text: string) | Raised

  /** `generate_sql`: asks the model (given the schema text and the question)
      and cleans its answer; an exception gives the empty string. */
  function GenerateSql(question: string, tables: seq<TableInfo>, ask: (string, string) -> AiReply): (sql: string)
    ensures Stripped(sql) && !Occurs(Fence, sql)
    ensures ask(SchemaText(tables), question).Raised? ==> sql == ""
    ensures ask(SchemaText(tables), question).Reply? ==> sql == CleanSql(ask(SchemaText(tables), question).text)
  {
    match ask(SchemaText(tables), question)
    case Raised => ""
    case Reply(text) => CleanSql(text)
  }
}
