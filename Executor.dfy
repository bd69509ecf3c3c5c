/** The safety gate and the executor of `sql_executor.py`: a keyword deny-list
    checked before the database is touched, and the shaping of every outcome
    of the read into either a non-empty table or a message string. */
module Executor {
  import opened Text
  import opened Tables

  /** The deny-list, matched against the upper-cased query text. */
  const ForbiddenKeywords: seq<string> :=
    ["DROP TABLE", "DELETE FROM", "INSERT INTO", "UPDATE ", "ALTER TABLE", "TRUNCATE"]

  const RejectedMessage: string := "ERROR: Câu lệnh SQL bị từ chối vì lý do bảo mật."
  const NoDataMessage: string := "Query chạy thành công nhưng không tìm thấy dữ liệu nào."

  /** The driver prefix that marks an SQLite error inside an exception's text. */
  const SqliteMarker: string := "(sqlite3.OperationalError)"
  const SqlErrorPrefix: string := "SQL Error: "
  const SystemErrorPrefix: string := "System Error: "

  /** What reading the query through the database gives: a table, or an
      exception whose `str(e)` is `message`. */
  datatype ReadOutcome = Rows(frame: Frame) | Raised(message: string)

  /** What `execute_sql` returns: a DataFrame or a string. */
  datatype ExecOutcome = Data(frame: Frame) | Message(text: string)

  /** The verdict of the gate: no keyword of the deny-list occurs in the
      upper-cased text. */
  predicate Permitted(sql: string) {
    forall k | k in ForbiddenKeywords :: !Contains(Upper(sql), k)
  }

  /** `is_safe_sql`: walks the deny-list and answers false at the first keyword
      found in the upper-cased query. */
  method IsSafeSql(sql: string) returns (safe: bool)
    ensures safe <==> forall k :: k in ForbiddenKeywords ==> !Occurs(k, Upper(sql))
    ensures safe == Permitted(sql)
  {
    var sqlUpper := Upper(sql);
    for i := 0 to |ForbiddenKeywords|
      invariant forall j :: 0 <= j < i ==> !Occurs(ForbiddenKeywords[j], sqlUpper)
    {
      var keyword := ForbiddenKeywords[i];
      if Contains(sqlUpper, keyword) {
        ContainsIff(sqlUpper, keyword);
        return false;
      }
      ContainsIff(sqlUpper, keyword);
    }
    forall k | k in ForbiddenKeywords
      ensures !Contains(sqlUpper, k)
    {
      ContainsIff(sqlUpper, k);
    }
    return true;
  }

  /** The gate ignores case: any spelling of a keyword, in any mix of upper
      and lower case, anywhere in the text, rejects it. */
  lemma GateIgnoresCase(sql: string, w: string)
    requires Occurs(w, sql) && Upper(w) in ForbiddenKeywords
    ensures !Permitted(sql)
  {
    var i :| OccursAt(w, sql, i);
    UpperSlice(sql, i, i + |w|);
    assert OccursAt(Upper(w), Upper(sql), i);
    ContainsIff(Upper(sql), Upper(w));
  }

  /** The gate's verdict, stated with positions. */
  lemma PermittedIff(sql: string)
    ensures Permitted(sql) <==> forall k :: k in ForbiddenKeywords ==> !Occurs(k, Upper(sql))
  {
    forall k | k in ForbiddenKeywords {
      ContainsIff(Upper(sql), k);
    }
  }

  // The example lemmas below take the upper-cased query as a parameter `u`
  // pinned to its literal by a `requires`, rather than mentioning the literal
  // in their conclusions: the solver then reasons about one variable instead
  // of unfolding the upper-casing and the search on the literal at every use.

  /** INSERT INTO, all of whose letters the read query holds, is absent
      from it: no N is followed by an S there. */
  lemma NoInsertInSelectExample(u: string)
    requires u == "SELECT * FROM MACHINES LIMIT 2"
    ensures !Occurs("INSERT INTO", u)
  {
    PairAbsent("INSERT INTO", u, 1);
  }

  /** No keyword of the deny-list occurs in the upper-cased read query of
      the executor's own test block. */
  lemma NoKeywordInSelectExample(u: string)
    requires u == "SELECT * FROM MACHINES LIMIT 2"
    ensures forall k :: k in ForbiddenKeywords ==> !Occurs(k, u)
  {
    NoInsertInSelectExample(u);
    CharAbsent("DROP TABLE", u, 0);
    CharAbsent("DELETE FROM", u, 0);
    CharAbsent("UPDATE ", u, 0);
    CharAbsent("ALTER TABLE", u, 8);
    CharAbsent("TRUNCATE", u, 2);
  }

  /** The read query of the executor's own test block passes the gate. */
  lemma GateAcceptsSelectExample()
    ensures Permitted("SELECT * FROM machines LIMIT 2")
  {
    var sql := "SELECT * FROM machines LIMIT 2";
    assert Upper(sql) == "SELECT * FROM MACHINES LIMIT 2";
    NoKeywordInSelectExample(Upper(sql));
    PermittedIff(sql);
  }

  /** A text that starts with any spelling of a keyword is rejected. */
  lemma GateRejectsLeadingKeyword(sql: string, w: string)
    requires |w| <= |sql| && sql[..|w|] == w && Upper(w) in ForbiddenKeywords
    ensures !Permitted(sql)
  {
    assert OccursAt(w, sql, 0);
    GateIgnoresCase(sql, w);
  }

  /** The drop query of the executor's own test block is rejected. */
  lemma GateRejectsDropExample()
    ensures !Permitted("DROP TABLE technicians")
  {
    assert Upper("DROP TABLE") == "DROP TABLE";
    GateRejectsLeadingKeyword("DROP TABLE technicians", "DROP TABLE");
  }

  /** The same query in lower case gets the same verdict: rejected. */
  lemma GateRejectsLowerCaseDrop()
    ensures Permitted("drop table technicians") == Permitted("DROP TABLE technicians")
    ensures !Permitted("drop table technicians")
  {
    assert Upper("drop table technicians") == Upper("DROP TABLE technicians");
    GateRejectsDropExample();
  }

  /** The keywords made only of letters that the text holds are still absent
      from it, since no two of their letters are adjacent there. */
  lemma NoDropOrInsertInSplitDrop(u: string)
    requires u == "DROP\nTABLE TECHNICIANS"
    ensures !Occurs("DROP TABLE", u) && !Occurs("INSERT INTO", u)
  {
    PairAbsent("DROP TABLE", u, 3);
    PairAbsent("INSERT INTO", u, 0);
  }

  /** No keyword occurs when the words of DROP TABLE are split by a line break. */
  lemma NoKeywordInSplitDrop(u: string)
    requires u == "DROP\nTABLE TECHNICIANS"
    ensures forall k :: k in ForbiddenKeywords ==> !Occurs(k, u)
  {
    NoDropOrInsertInSplitDrop(u);
    CharAbsent("DELETE FROM", u, 7);
    CharAbsent("UPDATE ", u, 0);
    PairAbsent("ALTER TABLE", u, 0);
    CharAbsent("TRUNCATE", u, 2);
  }

  /** "UPDATE " is absent when UPDATE is followed by a tab: no E is followed
      by a space there. */
  lemma NoSpacedUpdateInTabbedUpdate(u: string)
    requires u == "UPDATE\tMACHINES SET STATUS = 'OK'"
    ensures !Occurs("UPDATE ", u)
  {
    PairAbsent("UPDATE ", u, 5);
  }

  /** No keyword occurs when UPDATE is followed by a tab. */
  lemma NoKeywordInTabbedUpdate(u: string)
    requires u == "UPDATE\tMACHINES SET STATUS = 'OK'"
    ensures forall k :: k in ForbiddenKeywords ==> !Occurs(k, u)
  {
    NoSpacedUpdateInTabbedUpdate(u);
    CharAbsent("DROP TABLE", u, 1);
    CharAbsent("DELETE FROM", u, 2);
    CharAbsent("INSERT INTO", u, 4);
    CharAbsent("ALTER TABLE", u, 1);
    CharAbsent("TRUNCATE", u, 1);
  }

  /** The gate matches literal keywords only: DROP TABLE split by a line
      break passes. */
  lemma GateAcceptsSplitDrop()
    ensures Permitted("DROP\nTABLE technicians")
  {
    var split := "DROP\nTABLE technicians";
    assert Upper(split) == "DROP\nTABLE TECHNICIANS";
    NoKeywordInSplitDrop(Upper(split));
    PermittedIff(split);
  }

  /** UPDATE followed by a tab rather than a space passes. */
  lemma GateAcceptsTabbedUpdate()
    ensures Permitted("update\tmachines set status = 'ok'")
  {
    var tabbed := "update\tmachines set status = 'ok'";
    assert Upper(tabbed) == "UPDATE\tMACHINES SET STATUS = 'OK'";
    NoKeywordInTabbedUpdate(Upper(tabbed));
    PermittedIff(tabbed);
  }

  /** An update whose keyword is followed by a space is rejected, whatever
      follows. */
  lemma GateRejectsSpacedUpdate(rest: string)
    ensures !Permitted("update " + rest)
  {
    var sql := "update " + rest;
    assert sql[..7] == "update ";
    assert Upper("update ") == "UPDATE ";
    GateRejectsLeadingKeyword(sql, "update ");
  }

  /** The message kept from an exception's text: the SQLite part, trimmed, when
      the driver marker is present, else the whole text. */
  function NormaliseError(message: string): (r: string)
    ensures Contains(message, SqliteMarker) ==>
      && |SqlErrorPrefix| <= |r| && r[..|SqlErrorPrefix|] == SqlErrorPrefix
      && !Occurs(SqliteMarker, r[|SqlErrorPrefix|..])
  {
    if Contains(message, SqliteMarker) then
      var kept := Strip(SplitSecond(message, SqliteMarker));
      OccursInStrip(SqliteMarker, SplitSecond(message, SqliteMarker));
      assert (SqlErrorPrefix + kept)[|SqlErrorPrefix|..] == kept;
      SqlErrorPrefix + kept
    else SystemErrorPrefix + message
  }

  /** `execute_sql` with the database read given as `run`. */
  function ExecuteSql(sql: string, run: string -> ReadOutcome): (r: ExecOutcome)
    ensures r.Data? ==> Permitted(sql) && run(sql) == Rows(r.frame) && !IsEmpty(r.frame)
  {
    if !Permitted(sql) then Message(RejectedMessage)
    else match run(sql)
      case Rows(f) => if IsEmpty(f) then Message(NoDataMessage) else Data(f)
      case Raised(m) => Message(NormaliseError(m))
  }

  /** A rejected query gets the fixed rejection string whatever the database
      would have done: the read is never consulted. */
  lemma RejectedNeverReadsDatabase(sql: string, run: string -> ReadOutcome, other: string -> ReadOutcome)
    requires !Permitted(sql)
    ensures ExecuteSql(sql, run) == ExecuteSql(sql, other) == Message(RejectedMessage)
  {
  }

  /** The outcome of a permitted query, case by case: a non-empty table is
      returned as is, an empty one becomes the no-data string, and an
      exception becomes its normalised text. */
  lemma PermittedOutcomes(sql: string, run: string -> ReadOutcome)
    requires Permitted(sql)
    ensures run(sql).Rows? && !IsEmpty(run(sql).frame) ==> ExecuteSql(sql, run) == Data(run(sql).frame)
    ensures run(sql).Rows? && IsEmpty(run(sql).frame) ==> ExecuteSql(sql, run) == Message(NoDataMessage)
    ensures run(sql).Raised? ==> ExecuteSql(sql, run) == Message(NormaliseError(run(sql).message))
  {
  }

  /** '(' opens the marker and appears nowhere else in it, so the marker
      cannot overlap itself. */
  lemma MarkerOpensOnce()
    ensures |SqliteMarker| > 0 && SqliteMarker[0] == '('
    ensures forall i :: 0 < i < |SqliteMarker| ==> SqliteMarker[i] != '('
  {
  }

  /** No occurrence of the marker starts inside marker-free text that the
      marker follows. */
  lemma NoMarkerBefore(x: string, y: string, j: int)
    requires !Occurs(SqliteMarker, x) && 0 <= j < |x|
    ensures !OccursAt(SqliteMarker, x + SqliteMarker + y, j)
  {
    var m := x + SqliteMarker + y;
    var n := |SqliteMarker|;
    if j + n <= |x| {
      assert !OccursAt(SqliteMarker, x, j);
      assert m[j..j + n] == x[j..j + n];
    } else {
      MarkerOpensOnce();
      assert m[|x|] == '(';
      if j + n <= |m| {
        assert m[j..j + n][|x| - j] == m[|x|];
      }
    }
  }

  /** Text free of the marker followed by the marker: the first occurrence is
      right after that text. */
  lemma FindAfterMarkerFree(x: string, y: string)
    requires !Occurs(SqliteMarker, x)
    ensures Find(x + SqliteMarker + y, SqliteMarker) == |x|
  {
    var m := x + SqliteMarker + y;
    assert m[|x|..|x| + |SqliteMarker|] == SqliteMarker;
    assert OccursAt(SqliteMarker, m, |x|);
    forall j | 0 <= j < |x|
      ensures !OccursAt(SqliteMarker, m, j)
    {
      NoMarkerBefore(x, y, j);
    }
  }

  /** `split` on the marker, then `[1]`, gives the text between the first
      marker and the next one, or the end. */
  lemma SplitOnMarker(pre: string, seg: string, rest: string)
    requires !Occurs(SqliteMarker, pre) && !Occurs(SqliteMarker, seg)
    requires rest == [] || (|rest| >= |SqliteMarker| && rest[..|SqliteMarker|] == SqliteMarker)
    ensures Contains(pre + SqliteMarker + seg + rest, SqliteMarker)
    ensures SplitSecond(pre + SqliteMarker + seg + rest, SqliteMarker) == seg
  {
    var m := pre + SqliteMarker + seg + rest;
    assert m == pre + SqliteMarker + (seg + rest);
    FindAfterMarkerFree(pre, seg + rest);
    assert Contains(m, SqliteMarker) && Find(m, SqliteMarker) == |pre|;
    var tail := m[|pre| + |SqliteMarker|..];
    assert tail == seg + rest;
    if rest == [] {
      assert tail == seg;
      assert Find(tail, SqliteMarker) < 0;
    } else {
      var after := rest[|SqliteMarker|..];
      assert rest == SqliteMarker + after;
      assert tail == seg + SqliteMarker + after;
      FindAfterMarkerFree(seg, after);
      assert Find(tail, SqliteMarker) == |seg|;
      assert tail[..|seg|] == seg;
    }
  }

  /** An SQLite error message keeps exactly the stripped text between the
      first marker and the next marker (or the end), after "SQL Error: ". */
  lemma SqliteErrorShape(pre: string, seg: string, rest: string)
    requires !Occurs(SqliteMarker, pre) && !Occurs(SqliteMarker, seg)
    requires rest == [] || (|rest| >= |SqliteMarker| && rest[..|SqliteMarker|] == SqliteMarker)
    ensures NormaliseError(pre + SqliteMarker + seg + rest) == SqlErrorPrefix + Strip(seg)
  {
    SplitOnMarker(pre, seg, rest);
  }

  /** Where a text holding the marker is cut: before its first marker, the
      segment up to the next marker (or the end), and what is left. */
  function MarkerSplit(message: string): (string, string, string)
    requires Contains(message, SqliteMarker)
  {
    var i := Find(message, SqliteMarker);
    var tail := message[i + |SqliteMarker|..];
    var j := Find(tail, SqliteMarker);
    if j < 0 then (message[..i], tail, []) else (message[..i], tail[..j], tail[j..])
  }

  /** The three parts of `MarkerSplit` put back together give the text; the
      first two hold no marker, and the last is empty or opens with one. */
  lemma {:induction false} MarkerSplitParts(message: string)
    requires Contains(message, SqliteMarker)
    ensures var (pre, seg, rest) := MarkerSplit(message);
      && message == pre + SqliteMarker + seg + rest
      && !Occurs(SqliteMarker, pre) && !Occurs(SqliteMarker, seg)
      && (rest == [] || (|rest| >= |SqliteMarker| && rest[..|SqliteMarker|] == SqliteMarker))
  {
    var i := Find(message, SqliteMarker);
    var tail := message[i + |SqliteMarker|..];
    FirstCut(message, SqliteMarker);
    NextCut(tail, SqliteMarker);
  }

  /** Every text that holds the marker has the form `SqliteErrorShape`
      describes, so that lemma covers every SQLite error message. */
  lemma MarkerTextSplits(message: string)
    requires Contains(message, SqliteMarker)
    ensures var (pre, seg, rest) := MarkerSplit(message);
      && message == pre + SqliteMarker + seg + rest
      && NormaliseError(message) == SqlErrorPrefix + Strip(seg)
  {
    var (pre, seg, rest) := MarkerSplit(message);
    MarkerSplitParts(message);
    SqliteErrorShape(pre, seg, rest);
  }

  /** Any other exception text is passed on verbatim after "System Error: ". */
  lemma SystemErrorShape(message: string)
    requires !Occurs(SqliteMarker, message)
    ensures NormaliseError(message) == SystemErrorPrefix + message
  {
    ContainsIff(message, SqliteMarker);
  }
}
