/**
 * The SQL pipeline: a multi-statement SQL string is cut into one pipeline
 * statement per parsed statement, and the pipeline hands out per-statement
 * products (statement strings, parse results, plans, tasks, result tables)
 * through getters that compute them once and cache them.
 *
 * The SQL parser and the per-statement work (translation, optimization,
 * compilation, execution) are outside the model.  The parser is a parameter:
 * the kind and the text length of every statement it found.  What each
 * pipeline statement yields is carried in the statement as opaque handles.
 */
module SqlPipeline {
  import opened Wrappers

  /** The statement types of the SQL parser. */
  datatype StatementType =
    | Error | Select | Import | Insert | Update | Delete | Create | Drop
    | Prepare | Execute | Export | Rename | Alter | Show | Transaction

  /** What the parser reports for one statement. */
  datatype ParsedStatement = ParsedStatement(kind: StatementType, stringLength: nat)

  datatype PipelineStatus = NotExecuted | Success | RolledBack

  /** Opaque handles for what a pipeline statement produces. */
  type LqpHandle = nat
  type PqpHandle = nat
  type TaskHandle = nat
  type TableHandle = nat

  /**
   * One pipeline statement: its own SQL text and parse result, and what its
   * getters yield.  A statement without output has no result table.
   */
  datatype PipelineStatement = PipelineStatement(
    sqlString: string,
    parsed: ParsedStatement,
    unoptimizedPlan: LqpHandle,
    optimizedPlan: LqpHandle,
    physicalPlan: PqpHandle,
    tasks: seq<TaskHandle>,
    resultStatus: PipelineStatus,
    resultTable: Option<TableHandle>)

  /** What a statement yields besides its text and its parse result. */
  datatype StatementOutcome = StatementOutcome(
    unoptimizedPlan: LqpHandle,
    optimizedPlan: LqpHandle,
    physicalPlan: PqpHandle,
    tasks: seq<TaskHandle>,
    resultStatus: PipelineStatus,
    resultTable: Option<TableHandle>)

  /** The getter asserts that refuse to plan ahead of an execution the plans depend on. */
  datatype PipelineError = RequiresExecutionFirst

  // ---------------------------------------------------------------------------
  // Splitting the SQL text

  /** The statements that change the structure of the database for later statements. */
  predicate IsAltering(kind: StatementType)
  {
    kind == Import || kind == Create || kind == Drop || kind == Alter || kind == Rename
  }

  /** The whitespace characters of the C locale. */
  predicate IsSpace(c: char)
  {
    c == ' ' || c == '\t' || c == '\n' || c == '\U{000B}' || c == '\U{000C}' || c == '\r'
  }

  /** s without its leading whitespace. */
  function TrimLeft(s: string): string
  {
    if s != [] && IsSpace(s[0]) then TrimLeft(s[1..]) else s
  }

  /** s without its trailing whitespace. */
  function TrimRight(s: string): string
  {
    if s != [] && IsSpace(s[|s| - 1]) then TrimRight(s[..|s| - 1]) else s
  }

  /** `boost::trim_copy`: s without the whitespace at either end. */
  function Trim(s: string): string
  {
    TrimRight(TrimLeft(s))
  }

  /** TrimLeft drops a prefix of whitespace and stops at the first other character. */
  lemma {:induction false} TrimLeftDropsLeadingSpace(s: string)
    ensures |TrimLeft(s)| <= |s| && TrimLeft(s) == s[|s| - |TrimLeft(s)|..]
    ensures forall k :: 0 <= k < |s| - |TrimLeft(s)| ==> IsSpace(s[k])
    ensures TrimLeft(s) != [] ==> !IsSpace(TrimLeft(s)[0])
  {
    if s != [] && IsSpace(s[0]) {
      var t := s[1..];
      TrimLeftDropsLeadingSpace(t);
      var r := TrimLeft(t);
      assert TrimLeft(s) == r;
      assert t[|t| - |r|..] == s[|s| - |r|..];
      forall k | 0 <= k < |s| - |r| ensures IsSpace(s[k]) {
        if k > 0 {
          assert s[k] == t[k - 1];
        }
      }
    }
  }

  /** TrimRight drops a suffix of whitespace and stops at the last other character. */
  lemma {:induction false} TrimRightDropsTrailingSpace(s: string)
    ensures |TrimRight(s)| <= |s| && TrimRight(s) == s[..|TrimRight(s)|]
    ensures forall k :: |TrimRight(s)| <= k < |s| ==> IsSpace(s[k])
    ensures TrimRight(s) != [] ==> !IsSpace(TrimRight(s)[|TrimRight(s)| - 1])
  {
    if s != [] && IsSpace(s[|s| - 1]) {
      var t := s[..|s| - 1];
      TrimRightDropsTrailingSpace(t);
      var r := TrimRight(t);
      assert TrimRight(s) == r;
      assert t[..|r|] == s[..|r|];
      forall k | |r| <= k < |s| ensures IsSpace(s[k]) {
        if k < |s| - 1 {
          assert s[k] == t[k];
        }
      }
    }
  }

  /**
   * Trim keeps an infix of s: everything it removes is whitespace, and what
   * remains neither starts nor ends with whitespace.
   */
  lemma TrimRemovesOnlyWhitespace(s: string)
    ensures exists lo, hi ::
      0 <= lo <= hi <= |s| && Trim(s) == s[lo..hi] &&
      (forall k :: 0 <= k < lo ==> IsSpace(s[k])) &&
      (forall k :: hi <= k < |s| ==> IsSpace(s[k]))
    ensures Trim(s) != [] ==> !IsSpace(Trim(s)[0]) && !IsSpace(Trim(s)[|Trim(s)| - 1])
  {
    var left := TrimLeft(s);
    TrimLeftDropsLeadingSpace(s);
    TrimRightDropsTrailingSpace(left);
    var r := TrimRight(left);
    var lo := |s| - |left|;
    assert r == s[lo..lo + |r|];
    forall k | lo + |r| <= k < |s| ensures IsSpace(s[k]) {
      assert s[k] == left[k - lo];
    }
  }

  /** Trimming twice is trimming once. */
  lemma TrimIdempotent(s: string)
    ensures Trim(Trim(s)) == Trim(s)
  {
    var t := Trim(s);
    TrimRemovesOnlyWhitespace(s);
    TrimLeftDropsLeadingSpace(t);
    TrimRightDropsTrailingSpace(t);
    assert TrimLeft(t) == t;
    assert TrimRight(t) == t;
  }

  /** Where statement i begins: the sum of the text lengths of the statements before it. */
  function Offset(parsed: seq<ParsedStatement>, i: nat): nat
    requires i <= |parsed|
  {
    if i == 0 then 0 else Offset(parsed, i - 1) + parsed[i - 1].stringLength
  }

  lemma {:induction false} OffsetMonotone(parsed: seq<ParsedStatement>, i: nat, j: nat)
    requires i <= j <= |parsed|
    ensures Offset(parsed, i) <= Offset(parsed, j)
    decreases j
  {
    if i < j {
      OffsetMonotone(parsed, i, j - 1);
    }
  }

  /** The parser's statement texts lie within the SQL string. */
  predicate LengthsFit(sql: string, parsed: seq<ParsedStatement>)
  {
    Offset(parsed, |parsed|) <= |sql|
  }

  /** The untrimmed text of statement i. */
  function RawPiece(sql: string, parsed: seq<ParsedStatement>, i: nat): (r: string)
    requires LengthsFit(sql, parsed) && i < |parsed|
    ensures |r| == parsed[i].stringLength
  {
    OffsetMonotone(parsed, i + 1, |parsed|);
    sql[Offset(parsed, i)..Offset(parsed, i + 1)]
  }

  /** The statement strings the pipeline keeps: each raw piece, trimmed. */
  function StatementStrings(sql: string, parsed: seq<ParsedStatement>): seq<string>
    requires LengthsFit(sql, parsed)
  {
    seq(|parsed|, i requires 0 <= i < |parsed| => Trim(RawPiece(sql, parsed, i)))
  }

  /**
   * Statement string i is its raw piece with whitespace, and only
   * whitespace, removed from either end, so it neither starts nor ends with
   * whitespace.
   */
  lemma StatementStringTrimmed(sql: string, parsed: seq<ParsedStatement>, i: nat)
    requires LengthsFit(sql, parsed) && i < |parsed|
    ensures |StatementStrings(sql, parsed)| == |parsed|
    ensures var piece, s := RawPiece(sql, parsed, i), StatementStrings(sql, parsed)[i];
      exists lo, hi ::
        0 <= lo <= hi <= |piece| && s == piece[lo..hi] &&
        (forall k :: 0 <= k < lo ==> IsSpace(piece[k])) &&
        (forall k :: hi <= k < |piece| ==> IsSpace(piece[k]))
    ensures var s := StatementStrings(sql, parsed)[i];
      s != [] ==> !IsSpace(s[0]) && !IsSpace(s[|s| - 1])
  {
    TrimRemovesOnlyWhitespace(RawPiece(sql, parsed, i));
  }

  /** The untrimmed texts of the first k statements, one after another. */
  function RawPrefix(sql: string, parsed: seq<ParsedStatement>, k: nat): string
    requires LengthsFit(sql, parsed) && k <= |parsed|
  {
    if k == 0 then [] else RawPrefix(sql, parsed, k - 1) + RawPiece(sql, parsed, k - 1)
  }

  /**
   * The raw pieces of the first k statements, one after another, are exactly
   * the SQL text up to the end of statement k - 1: no character is skipped or
   * taken twice.
   */
  lemma {:induction false} PiecesTile(sql: string, parsed: seq<ParsedStatement>, k: nat)
    requires LengthsFit(sql, parsed) && k <= |parsed|
    ensures Offset(parsed, k) <= |sql|
    ensures RawPrefix(sql, parsed, k) == sql[..Offset(parsed, k)]
  {
    OffsetMonotone(parsed, k, |parsed|);
    if k > 0 {
      PiecesTile(sql, parsed, k - 1);
      var before, end := Offset(parsed, k - 1), Offset(parsed, k);
      assert RawPiece(sql, parsed, k - 1) == sql[before..end];
      assert sql[..end] == sql[..before] + sql[before..end];
    }
  }

  /** Whether one of the first n statements alters the schema, scanning them in order. */
  predicate AnyAltering(parsed: seq<ParsedStatement>, n: nat)
    requires n <= |parsed|
  {
    n > 0 && (AnyAltering(parsed, n - 1) || IsAltering(parsed[n - 1].kind))
  }

  lemma {:induction false} AnyAlteringExists(parsed: seq<ParsedStatement>, n: nat)
    requires n <= |parsed|
    ensures AnyAltering(parsed, n) <==> exists k :: 0 <= k < n && IsAltering(parsed[k].kind)
  {
    if n > 0 {
      AnyAlteringExists(parsed, n - 1);
    }
  }

  /** `_requires_execution`: an altering statement among more than one. */
  predicate RequiresExecution(parsed: seq<ParsedStatement>)
  {
    (exists i :: 0 <= i < |parsed| && IsAltering(parsed[i].kind)) && |parsed| > 1
  }

  // ---------------------------------------------------------------------------
  // What the getters collect

  function SqlStrings(statements: seq<PipelineStatement>): seq<string>
  {
    seq(|statements|, i requires 0 <= i < |statements| => statements[i].sqlString)
  }

  function ParsedStatements(statements: seq<PipelineStatement>): seq<ParsedStatement>
  {
    seq(|statements|, i requires 0 <= i < |statements| => statements[i].parsed)
  }

  function UnoptimizedPlans(statements: seq<PipelineStatement>): seq<LqpHandle>
  {
    seq(|statements|, i requires 0 <= i < |statements| => statements[i].unoptimizedPlan)
  }

  function OptimizedPlans(statements: seq<PipelineStatement>): seq<LqpHandle>
  {
    seq(|statements|, i requires 0 <= i < |statements| => statements[i].optimizedPlan)
  }

  function PhysicalPlans(statements: seq<PipelineStatement>): seq<PqpHandle>
  {
    seq(|statements|, i requires 0 <= i < |statements| => statements[i].physicalPlan)
  }

  function Tasks(statements: seq<PipelineStatement>): seq<seq<TaskHandle>>
  {
    seq(|statements|, i requires 0 <= i < |statements| => statements[i].tasks)
  }

  function ResultTables(statements: seq<PipelineStatement>): seq<Option<TableHandle>>
  {
    seq(|statements|, i requires 0 <= i < |statements| => statements[i].resultTable)
  }

  // ---------------------------------------------------------------------------
  // Executing the statements

  /** The first statement that rolled back, if any did. */
  function FirstRolledBack(statements: seq<PipelineStatement>): (r: Option<nat>)
    ensures r.Some? ==>
      r.value < |statements| && statements[r.value].resultStatus == RolledBack &&
      forall k :: 0 <= k < r.value ==> statements[k].resultStatus != RolledBack
    ensures r.None? ==> forall k :: 0 <= k < |statements| ==> statements[k].resultStatus != RolledBack
  {
    if statements == [] then None
    else if statements[0].resultStatus == RolledBack then Some(0)
    else match FirstRolledBack(statements[1..])
      case None => None
      case Some(k) => Some(k + 1)
  }

  /** The outcome of running the statements: status, result tables and the failed statement. */
  datatype Execution = Execution(status: PipelineStatus, tables: seq<Option<TableHandle>>, failed: Option<nat>)

  /**
   * Running the statements in order after `prior` tables were collected: the
   * first statement that rolls back ends the run and is the failed one, and
   * the tables collected so far are dropped when a transaction context spans
   * the statements; a run without rollback adds every statement's table.
   */
  function RunStatements(statements: seq<PipelineStatement>, prior: seq<Option<TableHandle>>, hasTransactionContext: bool): (r: Execution)
    ensures r.status != NotExecuted
    ensures r.status == Success <==> r.failed.None?
    ensures r.failed.Some? ==> r.failed.value < |statements|
    ensures r.status == Success ==> |r.tables| == |prior| + |statements|
  {
    match FirstRolledBack(statements)
    case None => Execution(Success, prior + ResultTables(statements), None)
    case Some(k) =>
      Execution(RolledBack, if hasTransactionContext then [] else prior + ResultTables(statements[..k]), Some(k))
  }

  /**
   * A run that succeeds holds one table per statement, in statement order,
   * after the prior ones, and no statement rolled back.
   */
  lemma SuccessKeepsEveryTable(statements: seq<PipelineStatement>, prior: seq<Option<TableHandle>>, hasTransactionContext: bool)
    requires RunStatements(statements, prior, hasTransactionContext).status == Success
    ensures var tables := RunStatements(statements, prior, hasTransactionContext).tables;
      |tables| == |prior| + |statements| && tables[..|prior|] == prior &&
      forall i :: 0 <= i < |statements| ==> tables[|prior| + i] == statements[i].resultTable
    ensures forall i :: 0 <= i < |statements| ==> statements[i].resultStatus != RolledBack
  {
    var tables := RunStatements(statements, prior, hasTransactionContext).tables;
    assert tables == prior + ResultTables(statements);
  }

  /**
   * A run ends in RolledBack exactly when some statement rolls back; the
   * failed statement is the first such one, and the tables kept are none
   * under a transaction context and otherwise those of the statements before
   * it, after the prior ones.
   */
  lemma RollbackStopsAtFirstFailure(statements: seq<PipelineStatement>, prior: seq<Option<TableHandle>>, hasTransactionContext: bool)
    ensures var run := RunStatements(statements, prior, hasTransactionContext);
      run.status == RolledBack <==> exists i :: 0 <= i < |statements| && statements[i].resultStatus == RolledBack
    ensures var run := RunStatements(statements, prior, hasTransactionContext);
      run.status == RolledBack ==>
        run.failed.Some? && run.failed.value < |statements| &&
        statements[run.failed.value].resultStatus == RolledBack &&
        (forall k :: 0 <= k < run.failed.value ==> statements[k].resultStatus != RolledBack) &&
        (hasTransactionContext ==> run.tables == []) &&
        (!hasTransactionContext ==>
          |run.tables| == |prior| + run.failed.value && run.tables[..|prior|] == prior &&
          forall k :: 0 <= k < run.failed.value ==> run.tables[|prior| + k] == statements[k].resultTable)
  {
    var run := RunStatements(statements, prior, hasTransactionContext);
    match FirstRolledBack(statements)
    case None =>
    case Some(k) =>
      if !hasTransactionContext {
        assert run.tables == prior + ResultTables(statements[..k]);
      }
  }

  /** A pipeline statement for a statement text, its parse result and what it yields. */
  function Attach(sqlString: string, parsed: ParsedStatement, o: StatementOutcome): PipelineStatement
  {
    PipelineStatement(sqlString, parsed, o.unoptimizedPlan, o.optimizedPlan, o.physicalPlan, o.tasks,
      o.resultStatus, o.resultTable)
  }

  /** The pipeline statement made for parsed statement i. */
  function StatementAt(sql: string, parsed: seq<ParsedStatement>, outcomes: seq<StatementOutcome>, i: nat): PipelineStatement
    requires LengthsFit(sql, parsed) && |outcomes| == |parsed| && i < |parsed|
  {
    Attach(Trim(RawPiece(sql, parsed, i)), parsed[i], outcomes[i])
  }

  /** The pipeline statements made for the first n parsed statements. */
  function Statements(sql: string, parsed: seq<ParsedStatement>, outcomes: seq<StatementOutcome>, n: nat): (r: seq<PipelineStatement>)
    requires LengthsFit(sql, parsed) && |outcomes| == |parsed| && n <= |parsed|
    ensures |r| == n
  {
    if n == 0 then [] else Statements(sql, parsed, outcomes, n - 1) + [StatementAt(sql, parsed, outcomes, n - 1)]
  }

  lemma {:induction false} StatementsAt(sql: string, parsed: seq<ParsedStatement>, outcomes: seq<StatementOutcome>, n: nat)
    requires LengthsFit(sql, parsed) && |outcomes| == |parsed| && n <= |parsed|
    ensures forall i :: 0 <= i < n ==> Statements(sql, parsed, outcomes, n)[i] == StatementAt(sql, parsed, outcomes, i)
  {
    if n > 0 {
      StatementsAt(sql, parsed, outcomes, n - 1);
    }
  }

  /**
   * One pipeline statement per parsed statement, in parse order: statement i
   * holds the i-th statement string and the i-th parse result.
   */
  lemma StatementsFollowParse(sql: string, parsed: seq<ParsedStatement>, outcomes: seq<StatementOutcome>)
    requires LengthsFit(sql, parsed) && |outcomes| == |parsed|
    ensures |Statements(sql, parsed, outcomes, |parsed|)| == |parsed|
    ensures SqlStrings(Statements(sql, parsed, outcomes, |parsed|)) == StatementStrings(sql, parsed)
    ensures ParsedStatements(Statements(sql, parsed, outcomes, |parsed|)) == parsed
  {
    StatementsAt(sql, parsed, outcomes, |parsed|);
  }

  /** RequiresExecution read off the parse results that pipeline statements carry. */
  lemma RequiresExecutionOfStatements(statements: seq<PipelineStatement>)
    ensures RequiresExecution(ParsedStatements(statements)) <==>
      |statements| > 1 && exists i :: 0 <= i < |statements| && IsAltering(statements[i].parsed.kind)
  {
    var parsed := ParsedStatements(statements);
    if exists i :: 0 <= i < |statements| && IsAltering(statements[i].parsed.kind) {
      var i :| 0 <= i < |statements| && IsAltering(statements[i].parsed.kind);
      assert IsAltering(parsed[i].kind);
    }
  }

  /**
   * The constructor's splitting loop: the offset advances by each untrimmed
   * statement length, every piece is trimmed, and the loop notes whether any
   * statement alters the schema.
   */
  method SplitStatements(sql: string, parsed: seq<ParsedStatement>, outcomes: seq<StatementOutcome>)
    returns (statements: seq<PipelineStatement>, seenAlteringStatement: bool)
    requires LengthsFit(sql, parsed) && |outcomes| == |parsed|
    ensures statements == Statements(sql, parsed, outcomes, |parsed|)
    ensures seenAlteringStatement <==> exists k :: 0 <= k < |parsed| && IsAltering(parsed[k].kind)
  {
    seenAlteringStatement := false;
    var offset := 0;
    statements := [];
    var i := 0;
    while i < |parsed|
      invariant i <= |parsed|
      invariant offset == Offset(parsed, i)
      invariant statements == Statements(sql, parsed, outcomes, i)
      invariant seenAlteringStatement == AnyAltering(parsed, i)
    {
      if IsAltering(parsed[i].kind) {
        seenAlteringStatement := true;
      }
      var length := parsed[i].stringLength;
      OffsetMonotone(parsed, i + 1, |parsed|);
      var raw := sql[offset..offset + length];
      assert raw == RawPiece(sql, parsed, i);
      var statementString := Trim(raw);
      assert Attach(statementString, parsed[i], outcomes[i]) == StatementAt(sql, parsed, outcomes, i);
      offset := offset + length;
      statements := statements + [Attach(statementString, parsed[i], outcomes[i])];
      i := i + 1;
    }
    AnyAlteringExists(parsed, i);
  }

  /**
   * The loop of `get_result_tables`: each statement's result in turn, until
   * the first rollback.
   */
  method ExecuteStatements(statements: seq<PipelineStatement>, prior: seq<Option<TableHandle>>, hasTransactionContext: bool)
    returns (run: Execution)
    ensures run == RunStatements(statements, prior, hasTransactionContext)
  {
    var tables := prior;
    var i := 0;
    while i < |statements|
      invariant i <= |statements|
      invariant forall k :: 0 <= k < i ==> statements[k].resultStatus != RolledBack
      invariant tables == prior + ResultTables(statements[..i])
    {
      var statement := statements[i];
      if statement.resultStatus == RolledBack {
        if hasTransactionContext {
          tables := [];
        }
        assert FirstRolledBack(statements) == Some(i);
        return Execution(RolledBack, tables, Some(i));
      }
      assert ResultTables(statements[..i + 1]) == ResultTables(statements[..i]) + [statement.resultTable];
      tables := tables + [statement.resultTable];
      i := i + 1;
    }
    assert statements[..i] == statements;
    assert FirstRolledBack(statements) == None;
    return Execution(Success, tables, None);
  }

  // ---------------------------------------------------------------------------
  // The pipeline

  class SQLPipeline {
    const sql: string
    const hasTransactionContext: bool
    const statements: seq<PipelineStatement>
    const requiresExecution: bool

    var sqlStrings: seq<string>
    var parsedStatements: seq<ParsedStatement>
    var unoptimizedPlans: seq<LqpHandle>
    var optimizedPlans: seq<LqpHandle>
    var physicalPlans: seq<PqpHandle>
    var tasks: seq<seq<TaskHandle>>
    var pipelineStatus: PipelineStatus
    var resultTables: seq<Option<TableHandle>>
    /** The index of the statement that rolled back, if one did. */
    var failedStatement: Option<nat>

    /** Every cache is empty or holds what the statements yield. */
    ghost predicate CachesValid()
      reads this`sqlStrings, this`parsedStatements, this`unoptimizedPlans, this`optimizedPlans,
        this`physicalPlans, this`tasks
    {
      (sqlStrings == [] || sqlStrings == SqlStrings(statements)) &&
      (parsedStatements == [] || parsedStatements == ParsedStatements(statements)) &&
      (unoptimizedPlans == [] || unoptimizedPlans == UnoptimizedPlans(statements)) &&
      (optimizedPlans == [] || optimizedPlans == OptimizedPlans(statements)) &&
      (physicalPlans == [] || physicalPlans == PhysicalPlans(statements)) &&
      (tasks == [] || tasks == Tasks(statements))
    }

    /** The status never reads RolledBack, and a pipeline that succeeded holds a table per statement. */
    ghost predicate StatusValid()
      reads this`pipelineStatus, this`resultTables, this`failedStatement
    {
      pipelineStatus != RolledBack &&
      (pipelineStatus == Success ==> |resultTables| >= |statements|) &&
      (failedStatement.Some? ==> failedStatement.value < |statements|)
    }

    /** The execution flag is the one the parse results of the statements call for. */
    ghost predicate FlagValid()
    {
      requiresExecution == RequiresExecution(ParsedStatements(statements))
    }

    ghost predicate Valid()
      reads this
    {
      |statements| > 0 && CachesValid() && StatusValid() && FlagValid()
    }

    /**
     * Cuts the SQL text into one statement per parsed statement, in parse
     * order: statement i is the trimmed text of length stringLength_i at the
     * sum of the earlier lengths.  Execution is required before planning when
     * some statement alters the schema and there is more than one statement.
     */
    constructor (sql: string, parsed: seq<ParsedStatement>, outcomes: seq<StatementOutcome>, hasTransactionContext: bool)
      requires |parsed| > 0
      requires LengthsFit(sql, parsed)
      requires |outcomes| == |parsed|
      ensures Valid()
      ensures this.sql == sql && this.hasTransactionContext == hasTransactionContext
      ensures statements == Statements(sql, parsed, outcomes, |parsed|)
      ensures requiresExecution == RequiresExecution(parsed)
      ensures sqlStrings == [] && parsedStatements == [] && unoptimizedPlans == [] && optimizedPlans == [] &&
        physicalPlans == [] && tasks == [] && resultTables == []
      ensures pipelineStatus == NotExecuted && failedStatement == None
    {
      var pipelineStatements, seenAlteringStatement := SplitStatements(sql, parsed, outcomes);
      StatementsFollowParse(sql, parsed, outcomes);
      this.sql := sql;
      this.hasTransactionContext := hasTransactionContext;
      statements := pipelineStatements;
      requiresExecution := seenAlteringStatement && |pipelineStatements| > 1;
      sqlStrings := [];
      parsedStatements := [];
      unoptimizedPlans := [];
      optimizedPlans := [];
      physicalPlans := [];
      tasks := [];
      pipelineStatus := NotExecuted;
      resultTables := [];
      failedStatement := None;
    }

    /** `statement_count`: a pipeline has a statement, and a single one never requires execution first. */
    function StatementCount(): (r: nat)
      reads this
      ensures Valid() ==> r > 0 && r == |ParsedStatements(statements)|
      ensures Valid() && r == 1 ==> !requiresExecution
    {
      |statements|
    }

    /**
     * `requires_execution`: set exactly when there are several statements
     * and one of them alters the schema.
     */
    function RequiresExecutionFlag(): (r: bool)
      reads this
      ensures Valid() ==>
        (r <==> |statements| > 1 && exists i :: 0 <= i < |statements| && IsAltering(statements[i].parsed.kind))
    {
      RequiresExecutionOfStatements(statements);
      requiresExecution
    }

    /**
     * The plan and task getters refuse to run ahead of an execution the plans
     * depend on: while nothing has run, exactly when there are several
     * statements and one of them alters the schema.
     */
    predicate MustExecuteFirst()
      reads this
      ensures Valid() ==>
        (MustExecuteFirst() <==>
          (pipelineStatus == NotExecuted && |statements| > 1 &&
           exists i :: 0 <= i < |statements| && IsAltering(statements[i].parsed.kind)))
    {
      RequiresExecutionOfStatements(statements);
      requiresExecution && pipelineStatus == NotExecuted
    }

    /** The statement strings, collected once. */
    method GetSqlPerStatement() returns (r: seq<string>)
      requires Valid()
      modifies this`sqlStrings
      ensures Valid()
      ensures r == SqlStrings(statements) && sqlStrings == r
      ensures old(sqlStrings) != [] ==> sqlStrings == old(sqlStrings)
    {
      if sqlStrings != [] {
        return sqlStrings;
      }
      var i := 0;
      while i < |statements|
        invariant i <= |statements|
        invariant sqlStrings == SqlStrings(statements[..i])
      {
        sqlStrings := sqlStrings + [statements[i].sqlString];
        i := i + 1;
      }
      assert statements[..i] == statements;
      r := sqlStrings;
    }

    /** The parse results, collected once. */
    method GetParsedSqlStatements() returns (r: seq<ParsedStatement>)
      requires Valid()
      modifies this`parsedStatements
      ensures Valid()
      ensures r == ParsedStatements(statements) && parsedStatements == r
      ensures old(parsedStatements) != [] ==> parsedStatements == old(parsedStatements)
    {
      if parsedStatements != [] {
        return parsedStatements;
      }
      var i := 0;
      while i < |statements|
        invariant i <= |statements|
        invariant parsedStatements == ParsedStatements(statements[..i])
      {
        parsedStatements := parsedStatements + [statements[i].parsed];
        i := i + 1;
      }
      assert statements[..i] == statements;
      r := parsedStatements;
    }

    /**
     * The unoptimized plans: the cached ones while there are any; otherwise
     * an error when execution must come first, and else every statement's.
     */
    method GetUnoptimizedLogicalPlans() returns (r: Result<seq<LqpHandle>, PipelineError>)
      requires Valid()
      modifies this`unoptimizedPlans
      ensures Valid()
      ensures old(unoptimizedPlans) != [] ==> r == Ok(old(unoptimizedPlans)) && unoptimizedPlans == old(unoptimizedPlans)
      ensures old(unoptimizedPlans) == [] && MustExecuteFirst() ==>
        r == Err(RequiresExecutionFirst) && unoptimizedPlans == []
      ensures old(unoptimizedPlans) == [] && !MustExecuteFirst() ==>
        r == Ok(UnoptimizedPlans(statements)) && unoptimizedPlans == UnoptimizedPlans(statements)
    {
      if unoptimizedPlans != [] {
        return Ok(unoptimizedPlans);
      }
      if MustExecuteFirst() {
        return Err(RequiresExecutionFirst);
      }
      var i := 0;
      while i < |statements|
        invariant i <= |statements|
        invariant unoptimizedPlans == UnoptimizedPlans(statements[..i])
      {
        unoptimizedPlans := unoptimizedPlans + [statements[i].unoptimizedPlan];
        i := i + 1;
      }
      assert statements[..i] == statements;
      r := Ok(unoptimizedPlans);
    }

    /**
     * The optimized plans, cached like the unoptimized ones; computing them
     * empties the unoptimized-plan cache, since the optimizer takes the
     * unoptimized plans over.
     */
    method GetOptimizedLogicalPlans() returns (r: Result<seq<LqpHandle>, PipelineError>)
      requires Valid()
      modifies this`optimizedPlans, this`unoptimizedPlans
      ensures Valid()
      ensures old(optimizedPlans) != [] ==>
        r == Ok(old(optimizedPlans)) && optimizedPlans == old(optimizedPlans) &&
        unoptimizedPlans == old(unoptimizedPlans)
      ensures old(optimizedPlans) == [] && MustExecuteFirst() ==>
        r == Err(RequiresExecutionFirst) && optimizedPlans == [] && unoptimizedPlans == old(unoptimizedPlans)
      ensures old(optimizedPlans) == [] && !MustExecuteFirst() ==>
        r == Ok(OptimizedPlans(statements)) && optimizedPlans == OptimizedPlans(statements) &&
        unoptimizedPlans == []
    {
      if optimizedPlans != [] {
        return Ok(optimizedPlans);
      }
      if MustExecuteFirst() {
        return Err(RequiresExecutionFirst);
      }
      unoptimizedPlans := [];
      var i := 0;
      while i < |statements|
        invariant i <= |statements|
        invariant optimizedPlans == OptimizedPlans(statements[..i])
        invariant unoptimizedPlans == []
      {
        optimizedPlans := optimizedPlans + [statements[i].optimizedPlan];
        i := i + 1;
      }
      assert statements[..i] == statements;
      r := Ok(optimizedPlans);
    }

    /** The physical plans, cached once; an error when execution must come first. */
    method GetPhysicalPlans() returns (r: Result<seq<PqpHandle>, PipelineError>)
      requires Valid()
      modifies this`physicalPlans
      ensures Valid()
      ensures old(physicalPlans) != [] ==> r == Ok(old(physicalPlans)) && physicalPlans == old(physicalPlans)
      ensures old(physicalPlans) == [] && MustExecuteFirst() ==>
        r == Err(RequiresExecutionFirst) && physicalPlans == []
      ensures old(physicalPlans) == [] && !MustExecuteFirst() ==>
        r == Ok(PhysicalPlans(statements)) && physicalPlans == PhysicalPlans(statements)
    {
      if physicalPlans != [] {
        return Ok(physicalPlans);
      }
      if MustExecuteFirst() {
        return Err(RequiresExecutionFirst);
      }
      var i := 0;
      while i < |statements|
        invariant i <= |statements|
        invariant physicalPlans == PhysicalPlans(statements[..i])
      {
        physicalPlans := physicalPlans + [statements[i].physicalPlan];
        i := i + 1;
      }
      assert statements[..i] == statements;
      r := Ok(physicalPlans);
    }

    /** The tasks of every statement, cached once; an error when execution must come first. */
    method GetTasks() returns (r: Result<seq<seq<TaskHandle>>, PipelineError>)
      requires Valid()
      modifies this`tasks
      ensures Valid()
      ensures old(tasks) != [] ==> r == Ok(old(tasks)) && tasks == old(tasks)
      ensures old(tasks) == [] && MustExecuteFirst() ==> r == Err(RequiresExecutionFirst) && tasks == []
      ensures old(tasks) == [] && !MustExecuteFirst() ==> r == Ok(Tasks(statements)) && tasks == Tasks(statements)
    {
      if tasks != [] {
        return Ok(tasks);
      }
      if MustExecuteFirst() {
        return Err(RequiresExecutionFirst);
      }
      var i := 0;
      while i < |statements|
        invariant i <= |statements|
        invariant tasks == Tasks(statements[..i])
      {
        tasks := tasks + [statements[i].tasks];
        i := i + 1;
      }
      assert statements[..i] == statements;
      r := Ok(tasks);
    }

    /**
     * The result tables.  A pipeline that has run returns its stored status
     * and tables.  Otherwise the statements run in order, as `RunStatements`
     * describes: a rollback records the failed statement and reports
     * RolledBack but leaves the pipeline status NotExecuted; a run without
     * rollback makes the status Success.
     */
    method GetResultTables() returns (status: PipelineStatus, tables: seq<Option<TableHandle>>)
      requires Valid()
      modifies this`resultTables, this`pipelineStatus, this`failedStatement
      ensures Valid()
      ensures old(pipelineStatus) != NotExecuted ==>
        status == old(pipelineStatus) && tables == old(resultTables) &&
        resultTables == old(resultTables) && pipelineStatus == old(pipelineStatus) &&
        failedStatement == old(failedStatement)
      ensures old(pipelineStatus) == NotExecuted ==>
        var run := RunStatements(statements, old(resultTables), hasTransactionContext);
        status == run.status && tables == run.tables && resultTables == run.tables &&
        pipelineStatus == (if run.status == Success then Success else NotExecuted) &&
        failedStatement == (if run.failed.Some? then run.failed else old(failedStatement))
    {
      if pipelineStatus != NotExecuted {
        return pipelineStatus, resultTables;
      }
      var run := ExecuteStatements(statements, resultTables, hasTransactionContext);
      resultTables := run.tables;
      if run.failed.Some? {
        failedStatement := run.failed;
      }
      if run.status == Success {
        pipelineStatus := Success;
      }
      return run.status, run.tables;
    }

    /**
     * The last result table when the pipeline succeeds; no table otherwise.
     * On a first successful run that is the last statement's table.
     */
    method GetResultTable() returns (status: PipelineStatus, table: Option<TableHandle>)
      requires Valid()
      modifies this`resultTables, this`pipelineStatus, this`failedStatement
      ensures Valid()
      ensures status == Success <==> pipelineStatus == Success
      ensures status == Success ==> |resultTables| > 0 && table == resultTables[|resultTables| - 1]
      ensures status != Success ==> table == None
      ensures old(pipelineStatus) != NotExecuted ==>
        status == old(pipelineStatus) && resultTables == old(resultTables) &&
        pipelineStatus == old(pipelineStatus) && failedStatement == old(failedStatement)
      ensures old(pipelineStatus) == NotExecuted ==>
        var run := RunStatements(statements, old(resultTables), hasTransactionContext);
        status == run.status && resultTables == run.tables &&
        pipelineStatus == (if run.status == Success then Success else NotExecuted) &&
        failedStatement == (if run.failed.Some? then run.failed else old(failedStatement))
      ensures old(pipelineStatus) == NotExecuted && status == Success ==>
        table == statements[|statements| - 1].resultTable
    {
      var tables;
      status, tables := GetResultTables();
      if status != Success {
        return status, None;
      }
      if old(pipelineStatus) == NotExecuted {
        SuccessKeepsEveryTable(statements, old(resultTables), hasTransactionContext);
      }
      table := tables[|tables| - 1];
    }
  }
}
