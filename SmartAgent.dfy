/** The self-correcting retry loop of `core/smart_agent.py`: generate a
    statement, execute it, and on a failure string ask for a repair that sees
    the failing statement and its error, for at most `max_retries` attempts.
    The generator, the fixer and the executor are given as functions. */
module SmartAgent {
  import opened Text
  import opened Tables
  import opened Executor

  const CannotGenerateMessage: string := "Không thể tạo câu lệnh SQL."

  const ExhaustedOpening: string := "Đã thử "
  const ExhaustedMiddle: string := " lần nhưng vẫn thất bại. Lỗi cuối cùng: "

  /** The message returned when every attempt failed. */
  function ExhaustedMessage(maxRetries: int, lastError: string): string {
    ExhaustedOpening + IntToString(maxRetries) + ExhaustedMiddle + lastError
  }

  /** Right after any text comes the space that opens the middle. */
  lemma MiddleOpensWithSpace(a: string, x: string)
    ensures |a| < |a + ExhaustedMiddle + x| && (a + ExhaustedMiddle + x)[|a|] == ' '
  {
  }

  /** The number text ends where the middle of the message starts, since the
      middle opens with a space, which no number text holds. */
  lemma NumberThenMiddle(a: string, b: string, x: string, y: string)
    requires forall i :: 0 <= i < |a| ==> a[i] == '-' || '0' <= a[i] <= '9'
    requires forall i :: 0 <= i < |b| ==> b[i] == '-' || '0' <= b[i] <= '9'
    requires a + ExhaustedMiddle + x == b + ExhaustedMiddle + y
    ensures a == b && x == y
  {
    var l, r := a + ExhaustedMiddle + x, b + ExhaustedMiddle + y;
    MiddleOpensWithSpace(a, x);
    MiddleOpensWithSpace(b, y);
    assert a == l[..|a|] && b == r[..|b|];
    assert ExhaustedMiddle + x == l[|a|..] && ExhaustedMiddle + y == r[|b|..];
    assert x == (ExhaustedMiddle + x)[|ExhaustedMiddle|..];
    assert y == (ExhaustedMiddle + y)[|ExhaustedMiddle|..];
  }

  /** The exhaustion message is its opening followed by the rest. */
  lemma ExhaustedMessageSplits(m: int, e: string)
    ensures ExhaustedMessage(m, e) == ExhaustedOpening + (IntToString(m) + ExhaustedMiddle + e)
  {
  }

  /** Two texts after the same opening are equal when the whole texts are. */
  lemma DropOpening(x: string, y: string)
    requires ExhaustedOpening + x == ExhaustedOpening + y
    ensures x == y
  {
    assert x == (ExhaustedOpening + x)[|ExhaustedOpening|..];
  }

  /** The exhaustion message gives back both the budget and the last error:
      different budgets or errors never produce the same message. */
  lemma ExhaustedMessageDetermines(m1: int, e1: string, m2: int, e2: string)
    requires ExhaustedMessage(m1, e1) == ExhaustedMessage(m2, e2)
    ensures m1 == m2 && e1 == e2
  {
    ExhaustedMessageSplits(m1, e1);
    ExhaustedMessageSplits(m2, e2);
    DropOpening(IntToString(m1) + ExhaustedMiddle + e1, IntToString(m2) + ExhaustedMiddle + e2);
    NumberThenMiddle(IntToString(m1), IntToString(m2), e1, e2);
    IntToStringInjective(m1, m2);
  }

  /** What one attempt asks the model for: a fresh statement for the question,
      or a repair of the previous statement given its error. */
  datatype Request = Fresh(question: string) | Repair(question: string, priorSql: string, priorError: string)

  /** One attempt as it happened: the model gave the empty string (nothing was
      executed), or a statement that was executed with the given outcome. */
  datatype Attempt = Abandoned(request: Request) | Ran(request: Request, sql: string, outcome: ExecOutcome)

  /** What the loop returns: the first table, tagged with the statement that
      produced it (`attrs['final_sql']`), or a message. */
  datatype Answer = Found(frame: Frame, finalSql: string) | Failed(message: string)

  /** The collaborators: `generate_sql`, `fix_sql_query` and `execute_sql`. */
  datatype Oracles = Oracles(
    generate: string -> string,
    fix: (string, string, string) -> string,
    execute: string -> ExecOutcome)

  /** The answer together with the attempts made, in order. */
  datatype Run = Run(answer: Answer, attempts: seq<Attempt>)

  /** The call the request stands for. */
  function Generation(o: Oracles, r: Request): string {
    match r
    case Fresh(q) => o.generate(q)
    case Repair(q, s, e) => o.fix(q, s, e)
  }

  /** Attempt 1 generates afresh; every later attempt repairs. */
  function RequestAt(question: string, attempt: int, currentSql: string, lastError: string): Request {
    if attempt == 1 then Fresh(question) else Repair(question, currentSql, lastError)
  }

  /** The loop from attempt `attempt` on, with the statement and error left by
      the attempt before it. */
  function SessionFrom(o: Oracles, question: string, maxRetries: int, attempt: int,
                       currentSql: string, lastError: string): Run
    requires attempt >= 1
    decreases maxRetries + 1 - attempt
  {
    if attempt > maxRetries then Run(Failed(ExhaustedMessage(maxRetries, lastError)), [])
    else
      var request := RequestAt(question, attempt, currentSql, lastError);
      var sql := Generation(o, request);
      if sql == "" then Run(Failed(CannotGenerateMessage), [Abandoned(request)])
      else match o.execute(sql)
        case Data(f) => Run(Found(f, sql), [Ran(request, sql, Data(f))])
        case Message(e) =>
          var rest := SessionFrom(o, question, maxRetries, attempt + 1, sql, e);
          Run(rest.answer, [Ran(request, sql, Message(e))] + rest.attempts)
  }

  /** The whole loop for one question. */
  function Session(o: Oracles, question: string, maxRetries: int): Run {
    SessionFrom(o, question, maxRetries, 1, "", "")
  }

  /** The run `r` after the attempts `done`. */
  function Prepend(done: seq<Attempt>, r: Run): Run {
    Run(r.answer, done + r.attempts)
  }

  /** An attempt within the budget whose request yields the empty statement
      ends the run with the fixed message, executing nothing. */
  lemma EmptyStep(o: Oracles, question: string, maxRetries: int, attempt: int,
                  currentSql: string, lastError: string, done: seq<Attempt>)
    requires 1 <= attempt <= maxRetries
    requires Generation(o, RequestAt(question, attempt, currentSql, lastError)) == ""
    ensures Prepend(done, SessionFrom(o, question, maxRetries, attempt, currentSql, lastError))
      == Run(Failed(CannotGenerateMessage), done + [Abandoned(RequestAt(question, attempt, currentSql, lastError))])
  {
  }

  /** An attempt within the budget whose statement gives a table ends the run
      with that table and that statement. */
  lemma FoundStep(o: Oracles, question: string, maxRetries: int, attempt: int,
                  currentSql: string, lastError: string, done: seq<Attempt>)
    requires 1 <= attempt <= maxRetries
    requires var sql := Generation(o, RequestAt(question, attempt, currentSql, lastError));
      sql != "" && o.execute(sql).Data?
    ensures var request := RequestAt(question, attempt, currentSql, lastError);
      var sql := Generation(o, request);
      var f := o.execute(sql).frame;
      Prepend(done, SessionFrom(o, question, maxRetries, attempt, currentSql, lastError))
        == Run(Found(f, sql), done + [Ran(request, sql, Data(f))])
  {
  }

  /** A failed attempt within the budget: the run is that attempt followed
      by the run from the next attempt. */
  lemma FailedStep(o: Oracles, question: string, maxRetries: int, attempt: int,
                   currentSql: string, lastError: string)
    requires 1 <= attempt <= maxRetries
    requires var sql := Generation(o, RequestAt(question, attempt, currentSql, lastError));
      sql != "" && o.execute(sql).Message?
    ensures var request := RequestAt(question, attempt, currentSql, lastError);
      var sql := Generation(o, request);
      var e := o.execute(sql).text;
      var rest := SessionFrom(o, question, maxRetries, attempt + 1, sql, e);
      SessionFrom(o, question, maxRetries, attempt, currentSql, lastError)
        == Run(rest.answer, [Ran(request, sql, Message(e))] + rest.attempts)
  {
  }

  /** After the attempts `done`, a failed attempt within the budget joins
      them, and the next attempt sees its statement and error. */
  lemma AdvanceStep(o: Oracles, question: string, maxRetries: int, attempt: int,
                   currentSql: string, lastError: string, done: seq<Attempt>)
    requires 1 <= attempt <= maxRetries
    requires var sql := Generation(o, RequestAt(question, attempt, currentSql, lastError));
      sql != "" && o.execute(sql).Message?
    ensures var request := RequestAt(question, attempt, currentSql, lastError);
      var sql := Generation(o, request);
      var e := o.execute(sql).text;
      Prepend(done, SessionFrom(o, question, maxRetries, attempt, currentSql, lastError))
        == Prepend(done + [Ran(request, sql, Message(e))], SessionFrom(o, question, maxRetries, attempt + 1, sql, e))
  {
    var request := RequestAt(question, attempt, currentSql, lastError);
    var sql := Generation(o, request);
    var e := o.execute(sql).text;
    var rest := SessionFrom(o, question, maxRetries, attempt + 1, sql, e);
    FailedStep(o, question, maxRetries, attempt, currentSql, lastError);
    assert done + ([Ran(request, sql, Message(e))] + rest.attempts)
        == (done + [Ran(request, sql, Message(e))]) + rest.attempts;
  }

  /** Past the budget the run ends with the exhaustion message and the last
      error. */
  lemma ExhaustedStep(o: Oracles, question: string, maxRetries: int, attempt: int,
                      currentSql: string, lastError: string, done: seq<Attempt>)
    requires 1 <= attempt && maxRetries < attempt
    ensures Prepend(done, SessionFrom(o, question, maxRetries, attempt, currentSql, lastError))
      == Run(Failed(ExhaustedMessage(maxRetries, lastError)), done)
  {
    assert done + [] == done;
  }

  /** The first half of one attempt: attempt 1 asks the generator, every later
      attempt asks the fixer with the previous statement and error. */
  method Generate(o: Oracles, question: string, attempt: int, currentSql: string, lastError: string)
    returns (request: Request, sql: string)
    ensures request == RequestAt(question, attempt, currentSql, lastError)
    ensures sql == Generation(o, request)
    ensures attempt == 1 ==> sql == o.generate(question)
    ensures attempt != 1 ==> sql == o.fix(question, currentSql, lastError)
  {
    if attempt == 1 {
      request := Fresh(question);
      sql := o.generate(question);
    } else {
      request := Repair(question, currentSql, lastError);
      sql := o.fix(question, currentSql, lastError);
    }
  }

  /** `process_question_with_retry`. */
  method ProcessQuestionWithRetry(o: Oracles, question: string, maxRetries: int)
    returns (answer: Answer, attempts: seq<Attempt>)
    ensures Run(answer, attempts) == Session(o, question, maxRetries)
  {
    var currentSql := "";
    var lastError := "";
    attempts := [];
    var attempt := 1;
    assert Session(o, question, maxRetries) == Prepend([], SessionFrom(o, question, maxRetries, 1, "", ""));
    while attempt <= maxRetries
      invariant 1 <= attempt
      invariant Session(o, question, maxRetries)
        == Prepend(attempts, SessionFrom(o, question, maxRetries, attempt, currentSql, lastError))
      decreases maxRetries - attempt
    {
      var request, sql := Generate(o, question, attempt, currentSql, lastError);
      if sql == "" {
        EmptyStep(o, question, maxRetries, attempt, currentSql, lastError, attempts);
        attempts := attempts + [Abandoned(request)];
        return Failed(CannotGenerateMessage), attempts;
      }
      var result := o.execute(sql);
      if result.Data? {
        FoundStep(o, question, maxRetries, attempt, currentSql, lastError, attempts);
        attempts := attempts + [Ran(request, sql, result)];
        return Found(result.frame, sql), attempts;
      }
      AdvanceStep(o, question, maxRetries, attempt, currentSql, lastError, attempts);
      attempts := attempts + [Ran(request, sql, result)];
      currentSql := sql;
      lastError := result.text;
      attempt := attempt + 1;
    }
    ExhaustedStep(o, question, maxRetries, attempt, currentSql, lastError, attempts);
    answer := Failed(ExhaustedMessage(maxRetries, lastError));
  }

  /** The number of attempts the budget allows: `range(1, max_retries + 1)`. */
  function Budget(maxRetries: int): nat {
    if maxRetries < 0 then 0 else maxRetries
  }

  predicate FailedRun(t: Attempt) {
    t.Ran? && t.outcome.Message?
  }

  /** The attempt agrees with the collaborators: its statement is what the
      request returns, and a non-empty statement was executed. */
  predicate Faithful(o: Oracles, t: Attempt) {
    match t
    case Abandoned(r) => Generation(o, r) == ""
    case Ran(r, s, out) => s == Generation(o, r) && s != "" && out == o.execute(s)
  }

  /** Every attempt but the last failed, and each later attempt repairs the
      statement and the error of the one before it. */
  ghost predicate Chained(question: string, ts: seq<Attempt>) {
    forall k :: 0 <= k < |ts| - 1 ==>
      FailedRun(ts[k]) && ts[k + 1].request == Repair(question, ts[k].sql, ts[k].outcome.text)
  }

  /** How the run ended, read off its last attempt; `remaining` is the number
      of attempts the budget still allowed when it started. */
  ghost predicate Concludes(maxRetries: int, lastError: string, remaining: int, run: Run) {
    var ts := run.attempts;
    if ts == [] then remaining <= 0 && run.answer == Failed(ExhaustedMessage(maxRetries, lastError))
    else match ts[|ts| - 1]
      case Abandoned(_) => run.answer == Failed(CannotGenerateMessage)
      case Ran(_, s, Data(f)) => run.answer == Found(f, s)
      case Ran(_, _, Message(e)) =>
        |ts| == remaining && run.answer == Failed(ExhaustedMessage(maxRetries, e))
  }

  /** From attempt `attempt` on: at most the budget left, and the first
      request is the one that attempt makes. */
  lemma {:induction false} SessionFromBound(o: Oracles, question: string, maxRetries: int, attempt: int,
                                            currentSql: string, lastError: string)
    requires attempt >= 1
    ensures var ts := SessionFrom(o, question, maxRetries, attempt, currentSql, lastError).attempts;
      && |ts| <= Budget(maxRetries + 1 - attempt)
      && (ts != [] ==> ts[0].request == RequestAt(question, attempt, currentSql, lastError))
    decreases maxRetries + 1 - attempt
  {
    if attempt <= maxRetries {
      var sql := Generation(o, RequestAt(question, attempt, currentSql, lastError));
      if sql != "" && o.execute(sql).Message? {
        FailedStep(o, question, maxRetries, attempt, currentSql, lastError);
        SessionFromBound(o, question, maxRetries, attempt + 1, sql, o.execute(sql).text);
      }
    }
  }

  /** From attempt `attempt` on, every attempt matches the collaborators. */
  lemma {:induction false} SessionFromFaithful(o: Oracles, question: string, maxRetries: int, attempt: int,
                                               currentSql: string, lastError: string)
    requires attempt >= 1
    ensures var ts := SessionFrom(o, question, maxRetries, attempt, currentSql, lastError).attempts;
      forall k :: 0 <= k < |ts| ==> Faithful(o, ts[k])
    decreases maxRetries + 1 - attempt
  {
    if attempt <= maxRetries {
      var request := RequestAt(question, attempt, currentSql, lastError);
      var sql := Generation(o, request);
      if sql != "" && o.execute(sql).Message? {
        var e := o.execute(sql).text;
        FailedStep(o, question, maxRetries, attempt, currentSql, lastError);
        SessionFromFaithful(o, question, maxRetries, attempt + 1, sql, e);
        var rest := SessionFrom(o, question, maxRetries, attempt + 1, sql, e).attempts;
        var ts := [Ran(request, sql, Message(e))] + rest;
        assert forall k :: 1 <= k < |ts| ==> ts[k] == rest[k - 1];
      }
    }
  }

  /** From attempt `attempt` on, the attempts are chained. */
  lemma {:induction false} SessionFromChained(o: Oracles, question: string, maxRetries: int, attempt: int,
                                              currentSql: string, lastError: string)
    requires attempt >= 1
    ensures Chained(question, SessionFrom(o, question, maxRetries, attempt, currentSql, lastError).attempts)
    decreases maxRetries + 1 - attempt
  {
    if attempt <= maxRetries {
      var request := RequestAt(question, attempt, currentSql, lastError);
      var sql := Generation(o, request);
      if sql != "" && o.execute(sql).Message? {
        var e := o.execute(sql).text;
        FailedStep(o, question, maxRetries, attempt, currentSql, lastError);
        SessionFromChained(o, question, maxRetries, attempt + 1, sql, e);
        SessionFromBound(o, question, maxRetries, attempt + 1, sql, e);
        var rest := SessionFrom(o, question, maxRetries, attempt + 1, sql, e).attempts;
        var ts := [Ran(request, sql, Message(e))] + rest;
        forall k | 0 <= k < |ts| - 1
          ensures FailedRun(ts[k]) && ts[k + 1].request == Repair(question, ts[k].sql, ts[k].outcome.text)
        {
          assert ts[k + 1] == rest[k];
          if k > 0 {
            assert ts[k] == rest[k - 1];
          }
        }
      }
    }
  }

  /** From attempt `attempt` on, the answer follows from the last attempt. */
  lemma {:induction false} SessionFromConcludes(o: Oracles, question: string, maxRetries: int, attempt: int,
                                                currentSql: string, lastError: string)
    requires attempt >= 1
    ensures Concludes(maxRetries, lastError, maxRetries + 1 - attempt,
                      SessionFrom(o, question, maxRetries, attempt, currentSql, lastError))
    decreases maxRetries + 1 - attempt
  {
    if attempt <= maxRetries {
      var request := RequestAt(question, attempt, currentSql, lastError);
      var sql := Generation(o, request);
      if sql != "" && o.execute(sql).Message? {
        var e := o.execute(sql).text;
        FailedStep(o, question, maxRetries, attempt, currentSql, lastError);
        SessionFromConcludes(o, question, maxRetries, attempt + 1, sql, e);
        var rest := SessionFrom(o, question, maxRetries, attempt + 1, sql, e);
        var ts := [Ran(request, sql, Message(e))] + rest.attempts;
        if rest.attempts == [] {
          assert ts == [Ran(request, sql, Message(e))];
          assert rest.answer == Failed(ExhaustedMessage(maxRetries, e));
        } else {
          assert ts[|ts| - 1] == rest.attempts[|rest.attempts| - 1];
        }
      }
    }
  }

  /** The loop for one question: at most `max_retries` attempts; attempt 1
      generates afresh and attempt k+1 repairs attempt k's statement with
      attempt k's error; every attempt but the last failed; and the answer is
      read off the last attempt: the empty statement gives the fixed message,
      a table is returned with its statement, and a failure on the last
      allowed attempt gives the exhaustion message with that failure. */
  lemma SessionShape(o: Oracles, question: string, maxRetries: int)
    ensures var run := Session(o, question, maxRetries);
      && |run.attempts| <= Budget(maxRetries)
      && (run.attempts != [] ==> run.attempts[0].request == Fresh(question))
      && (forall k :: 0 <= k < |run.attempts| ==> Faithful(o, run.attempts[k]))
      && Chained(question, run.attempts)
      && Concludes(maxRetries, "", maxRetries, run)
  {
    SessionFromBound(o, question, maxRetries, 1, "", "");
    SessionFromFaithful(o, question, maxRetries, 1, "", "");
    SessionFromChained(o, question, maxRetries, 1, "", "");
    SessionFromConcludes(o, question, maxRetries, 1, "", "");
  }

  /** The number of attempts that reached the executor. */
  function Executions(ts: seq<Attempt>): (n: nat)
    ensures n <= |ts|
  {
    if ts == [] then 0 else (if ts[0].Ran? then 1 else 0) + Executions(ts[1..])
  }

  /** Every attempt calls the generator or the fixer once; all of them but an
      abandoned last one also call the executor once. */
  lemma {:induction false} ExecutionsCount(ts: seq<Attempt>)
    requires forall k :: 0 <= k < |ts| - 1 ==> ts[k].Ran?
    ensures Executions(ts) + (if ts != [] && ts[|ts| - 1].Abandoned? then 1 else 0) == |ts|
  {
    if ts != [] {
      ExecutionsCount(ts[1..]);
      if |ts| > 1 {
        assert ts[1..][|ts| - 2] == ts[|ts| - 1];
      }
    }
  }

  /** Call counts: the generator and the fixer are called once per attempt,
      the executor once per attempt except an abandoned last one, and never
      more than `max_retries` times. */
  lemma CallCounts(o: Oracles, question: string, maxRetries: int)
    ensures var ts := Session(o, question, maxRetries).attempts;
      && |ts| <= Budget(maxRetries)
      && Executions(ts) <= Budget(maxRetries)
      && Executions(ts) + (if ts != [] && ts[|ts| - 1].Abandoned? then 1 else 0) == |ts|
  {
    var ts := Session(o, question, maxRetries).attempts;
    SessionShape(o, question, maxRetries);
    ExecutionsCount(ts);
  }

  /** With a budget of zero or less, nothing is generated or executed and the
      exhaustion message carries an empty error. */
  lemma NoBudgetNoCalls(o: Oracles, question: string, maxRetries: int)
    requires maxRetries <= 0
    ensures Session(o, question, maxRetries) == Run(Failed(ExhaustedMessage(maxRetries, "")), [])
  {
  }

  /** A table is returned only from the last attempt, tagged with the statement
      that produced it; every earlier attempt failed. */
  lemma FoundIsFirstSuccess(o: Oracles, question: string, maxRetries: int)
    ensures var run := Session(o, question, maxRetries);
      run.answer.Found? ==>
        && run.attempts != []
        && run.attempts[|run.attempts| - 1] == Ran(run.attempts[|run.attempts| - 1].request,
                                                   run.answer.finalSql, Data(run.answer.frame))
        && run.answer.finalSql != ""
        && o.execute(run.answer.finalSql) == Data(run.answer.frame)
        && forall k :: 0 <= k < |run.attempts| - 1 ==> FailedRun(run.attempts[k])
  {
    SessionShape(o, question, maxRetries);
    var run := Session(o, question, maxRetries);
    if run.answer.Found? {
      var ts := run.attempts;
      assert ts != [];
      assert Faithful(o, ts[|ts| - 1]);
    }
  }

  /** Exhaustion: when the loop ends with neither a table nor an empty
      statement, it made exactly `max_retries` attempts, all failed, and the
      message carries the last attempt's error string. */
  lemma ExhaustionCarriesLastError(o: Oracles, question: string, maxRetries: int)
    ensures var run := Session(o, question, maxRetries);
      var ts := run.attempts;
      ts != [] && FailedRun(ts[|ts| - 1]) ==>
        && |ts| == maxRetries
        && (forall k :: 0 <= k < |ts| ==> FailedRun(ts[k]))
        && run.answer == Failed(ExhaustedMessage(maxRetries, ts[|ts| - 1].outcome.text))
  {
    SessionShape(o, question, maxRetries);
  }

  /** An empty statement from the generator or the fixer ends the loop at
      once with the fixed message, and that attempt executes nothing. */
  lemma EmptyGenerationStops(o: Oracles, question: string, maxRetries: int)
    ensures var run := Session(o, question, maxRetries);
      var ts := run.attempts;
      forall k :: 0 <= k < |ts| && ts[k].Abandoned? ==>
        && k == |ts| - 1
        && Generation(o, ts[k].request) == ""
        && run.answer == Failed(CannotGenerateMessage)
  {
    SessionShape(o, question, maxRetries);
  }

  /** The loop wired to the executor of `sql_executor.py` over a database
      read `db`: a statement the gate rejects is never read, fails with the
      rejection string, and that string is what the next repair sees; an
      empty table fails with the no-data string; and a returned table passed
      the gate and is not empty. */
  lemma WithGateAndExecutor(o: Oracles, db: string -> ReadOutcome, question: string, maxRetries: int)
    requires forall s :: o.execute(s) == ExecuteSql(s, db)
    ensures var run := Session(o, question, maxRetries);
      var ts := run.attempts;
      && (forall k :: 0 <= k < |ts| && ts[k].Ran? && !Permitted(ts[k].sql) ==>
            && ts[k].outcome == Message(RejectedMessage)
            && (k + 1 < |ts| ==> ts[k + 1].request == Repair(question, ts[k].sql, RejectedMessage)))
      && (forall k :: (0 <= k < |ts| && ts[k].Ran? && Permitted(ts[k].sql)
                       && db(ts[k].sql).Rows? && IsEmpty(db(ts[k].sql).frame)) ==>
            ts[k].outcome == Message(NoDataMessage))
      && (run.answer.Found? ==> Permitted(run.answer.finalSql) && !IsEmpty(run.answer.frame))
  {
    SessionShape(o, question, maxRetries);
    FoundIsFirstSuccess(o, question, maxRetries);
    var ts := Session(o, question, maxRetries).attempts;
    forall k | 0 <= k < |ts| && ts[k].Ran? && Permitted(ts[k].sql)
      ensures db(ts[k].sql).Rows? && IsEmpty(db(ts[k].sql).frame) ==> ts[k].outcome == Message(NoDataMessage)
    {
      assert Faithful(o, ts[k]);
      PermittedOutcomes(ts[k].sql, db);
    }
  }
}
