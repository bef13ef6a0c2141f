/** The analyzer itself: validation, the path walk with its budget exception, and the report. */
module ReturnPathAnalyzer {

  import opened Wrappers
  import opened VbSyntax
  import opened ControlFlow
  import opened PathEnumeration
  import opened BranchContexts
  import opened Validation

  const MAX_SOURCE_BYTES := 2 * 1024 * 1024
  const MAX_RESPONSE_BYTES := 64 * 1024
  const MAX_PATHS := 64
  const MAX_LISTED_ISSUES := 16

  /** The exception that CheckCount throws. */
  datatype PathBudgetExceeded = PathBudgetExceeded

  /** What the parser and the caller supply about the selected method. Parameter occurrence
      evidence is carried along without being interpreted. */
  datatype Selection = Selection(
    sourceBytes: nat, start: int, end: int, parseErrors: bool, candidates: nat,
    conditionalDirectives: nat, directives: bool, deferredMember: bool, deferredExpressions: seq<int>,
    lambdas: seq<Lines>, body: seq<Stmt>, parameters: string)

  datatype Report = Report(
    available: bool, structuralComplete: bool, paths: seq<ReturnPath>, normalFallthroughPaths: nat,
    unsupported: seq<Issue>, unsupportedOmitted: nat,
    branchContexts: Option<BranchReport>, parameterOccurrences: Option<string>)

  /** Everything that must hold before the walk is tried. */
  ghost predicate Admitted(m: Selection) {
    && m.sourceBytes <= 2 * 1024 * 1024
    && 1 <= m.start <= m.end
    && !m.parseErrors
    && m.candidates == 1
    && m.conditionalDirectives == 0
    && !m.deferredMember
    && m.deferredExpressions == []
    && Interpretable(m.body, 0)
    && |Sites(m.body)| <= 32
  }

  /** The issues about directives, deferred members and deferred expressions. */
  function DeferredIssues(m: Selection): seq<Issue> {
    seq(m.conditionalDirectives, _ => Issue(ConditionalCompilation, m.start))
    + (if m.deferredMember then [Issue(DeferredMember, m.start)] else [])
    + seq(|m.deferredExpressions|, i requires 0 <= i < |m.deferredExpressions| =>
        Issue(DeferredExpression, m.deferredExpressions[i]))
  }

  /** All issues raised before the walk, listed or not; the first four end the analysis. */
  function Objections(m: Selection): seq<Issue> {
    if m.sourceBytes > MAX_SOURCE_BYTES then [Issue(SourceBudget, m.start)]
    else if m.start < 1 || m.end < m.start then [Issue(MethodRange, m.start)]
    else if m.parseErrors then [Issue(ParseError, m.start)]
    else if m.candidates != 1 then [Issue(MethodRange, m.start)]
    else DeferredIssues(m) + Complaints(m.body, 0, m.start, {}).issues
  }

  /** The first sixteen. */
  function Shown(issues: seq<Issue>): seq<Issue> {
    if |issues| > MAX_LISTED_ISSUES then issues[..MAX_LISTED_ISSUES] else issues
  }

  /** Objections are raised exactly against the methods that are not admitted, and none is about paths. */
  lemma ObjectionsAreExact(m: Selection)
    ensures Objections(m) == [] <==> Admitted(m)
    ensures Issue(PathBudget, m.start) !in Objections(m)
  {
    hide Complaints, Interpretable, Sites;
    SilenceIsExact(m.body, 0, m.start, {});
    assert {} + Sites(m.body) == Sites(m.body);
    if Issue(PathBudget, m.start) in Complaints(m.body, 0, m.start, {}).issues {
      ComplaintsAreReal(m.body, 0, m.start, {}, Issue(PathBudget, m.start));
    }
  }

  /** The number of structural traces: those that return and those that fall through. */
  function TraceTotal(body: seq<Stmt>): nat {
    ShapeAll(body).exits + ShapeAll(body).falls
  }

  function CompleteReport(body: seq<Stmt>, contexts: Option<BranchReport>, parameters: Option<string>): Report {
    var w := WalkAll(body, START);
    Report(true, true, w.paths, |w.left|, [], 0, contexts, parameters)
  }

  class Analyzer {
    const methodStart: int
    var available: bool
    var structuralComplete: bool
    var paths: seq<ReturnPath>
    var normalFallthroughPaths: nat
    var unsupported: seq<Issue>
    var unsupportedOmitted: nat
    var branchContexts: Option<BranchReport>
    var parameterOccurrences: Option<string>
    var returnSites: set<int>
    /** Every issue so far, listed or not. */
    ghost var raised: seq<Issue>

    constructor (start: int)
      ensures methodStart == start
      ensures CurrentReport() == Report(false, false, [], 0, [], 0, None, None)
      ensures returnSites == {} && raised == []
    {
      methodStart := start;
      available, structuralComplete := false, false;
      paths, normalFallthroughPaths := [], 0;
      unsupported, unsupportedOmitted := [], 0;
      branchContexts, parameterOccurrences := None, None;
      returnSites, raised := {}, [];
    }

    function CurrentReport(): Report
      reads this
    {
      Report(available, structuralComplete, paths, normalFallthroughPaths,
             unsupported, unsupportedOmitted, branchContexts, parameterOccurrences)
    }

    /** Only the first sixteen issues are listed; the rest are counted. */
    ghost predicate ListsFirst()
      reads this`unsupported, this`unsupportedOmitted, this`raised
    {
      unsupported == Shown(raised) && unsupportedOmitted == |raised| - |unsupported|
    }

    method RaiseIssue(kind: IssueKind, line: int)
      requires ListsFirst()
      modifies this`unsupported, this`unsupportedOmitted, this`raised
      ensures ListsFirst() && raised == old(raised) + [Issue(kind, line)]
    {
      if |unsupported| < MAX_LISTED_ISSUES {
        unsupported := unsupported + [Issue(kind, line)];
      } else {
        unsupportedOmitted := unsupportedOmitted + 1;
      }
      raised := raised + [Issue(kind, line)];
    }

    method ExpressionBudget(bytes: nat, line: int)
      requires ListsFirst()
      modifies this`unsupported, this`unsupportedOmitted, this`raised
      ensures ListsFirst() && raised == old(raised) + TooLong(bytes, line)
    {
      if bytes > MAX_EXPRESSION_BYTES {
        RaiseIssue(ExpressionTooLong, line);
      } else {
        assert raised + [] == raised;
      }
    }

    /** Raises the complaints about the list, in order, and records its return sites. */
    method Validate(statements: seq<Stmt>, depth: nat)
      requires ListsFirst()
      modifies this`unsupported, this`unsupportedOmitted, this`raised, this`returnSites
      ensures ListsFirst()
      ensures Verdict(raised, returnSites)
              == Next(Verdict(old(raised), old(returnSites)), [],
                      Complaints(statements, depth, methodStart, old(returnSites)))
      decreases statements
    {
      if depth > MAX_NESTING {
        RaiseIssue(NestingBudget, if statements == [] then methodStart else LineOf(statements[0]));
        return;
      }
      ghost var start := Verdict(raised, returnSites);
      for k := 0 to |statements|
        invariant ListsFirst()
        invariant Verdict(raised, returnSites)
                  == Next(start, [], ComplaintsFirst(statements, k, depth, methodStart, start.sites))
      {
        ghost var before := ComplaintsFirst(statements, k, depth, methodStart, start.sites);
        ValidateOne(statements[k], depth);
        NextAssociates(start, before, [], ComplaintsOne(statements[k], depth, methodStart, before.sites));
      }
    }

    method ValidateOne(s: Stmt, depth: nat)
      requires ListsFirst() && depth <= MAX_NESTING
      modifies this`unsupported, this`unsupportedOmitted, this`raised, this`returnSites
      ensures ListsFirst()
      ensures Verdict(raised, returnSites)
              == Next(Verdict(old(raised), old(returnSites)), [],
                      ComplaintsOne(s, depth, methodStart, old(returnSites)))
      decreases s, 2, 0
    {
      hide Complaints, ComplaintsArms, ComplaintsCases, Shown;
      match s
      case Return(site, lines, value) =>
        if value.Some? {
          ExpressionBudget(value.value.bytes, value.value.lines.start);
        }
        returnSites := returnSites + {site};
        if |returnSites| > MAX_RETURNS {
          RaiseIssue(ReturnBudget, lines.start);
        }
      case SingleIf(_, _, _) => ValidateSingleIf(s, depth);
      case MultiIf(_, _) => ValidateMultiIf(s, depth);
      case Select(_, _, _) => ValidateSelect(s, depth);
      case Plain(_, _) =>
      case Foreign(_, _) => RaiseIssue(UnsupportedStatement, LineOf(s));
      case ForeignBlock(_, _, _) => RaiseIssue(UnsupportedStatement, LineOf(s));
    }

    method ValidateSingleIf(s: Stmt, depth: nat)
      requires s.SingleIf? && ListsFirst() && depth <= MAX_NESTING
      modifies this`unsupported, this`unsupportedOmitted, this`raised, this`returnSites
      ensures ListsFirst()
      ensures Verdict(raised, returnSites)
              == Next(Verdict(old(raised), old(returnSites)), [],
                      ComplaintsOne(s, depth, methodStart, old(returnSites)))
      decreases s, 1, 0
    {
      hide Complaints, Shown, TooLong;
      ExpressionBudget(s.cond.bytes, s.cond.lines.start);
      Validate(s.thenBody, depth + 1);
      if s.elseClause.SingleElse? {
        Validate(s.elseClause.body, depth + 1);
      }
    }

    method ValidateMultiIf(s: Stmt, depth: nat)
      requires s.MultiIf? && ListsFirst() && depth <= MAX_NESTING
      modifies this`unsupported, this`unsupportedOmitted, this`raised, this`returnSites
      ensures ListsFirst()
      ensures Verdict(raised, returnSites)
              == Next(Verdict(old(raised), old(returnSites)), [],
                      ComplaintsOne(s, depth, methodStart, old(returnSites)))
      decreases s, 1, 0
    {
      hide Complaints, Shown, ConditionComplaints;
      ghost var sites := returnSites;
      ValidateConditions(s.arms);
      ghost var start := Verdict(raised, sites);
      for i := 0 to |s.arms|
        invariant ListsFirst()
        invariant Verdict(raised, returnSites) == Next(start, [], ComplaintsArms(s, i, depth, methodStart, sites))
      {
        ghost var before := ComplaintsArms(s, i, depth, methodStart, sites);
        Validate(s.arms[i].body, depth + 1);
        NextAssociates(start, before, [], Complaints(s.arms[i].body, depth + 1, methodStart, before.sites));
      }
      if s.elseBlock.Else? {
        Validate(s.elseBlock.body, depth + 1);
      }
    }

    /** The conditions of an If block come before its bodies. */
    method ValidateConditions(arms: seq<Arm>)
      requires ListsFirst()
      modifies this`unsupported, this`unsupportedOmitted, this`raised
      ensures ListsFirst() && raised == old(raised) + ConditionComplaints(arms)
    {
      hide Shown, TooLong;
      for i := 0 to |arms|
        invariant ListsFirst() && raised == old(raised) + ConditionComplaints(arms[..i])
      {
        ExpressionBudget(arms[i].cond.bytes, arms[i].cond.lines.start);
        assert arms[..i + 1][..i] == arms[..i];
      }
      assert arms[..|arms|] == arms;
    }

    method ValidateSelect(s: Stmt, depth: nat)
      requires s.Select? && ListsFirst() && depth <= MAX_NESTING
      modifies this`unsupported, this`unsupportedOmitted, this`raised, this`returnSites
      ensures ListsFirst()
      ensures Verdict(raised, returnSites)
              == Next(Verdict(old(raised), old(returnSites)), [],
                      ComplaintsOne(s, depth, methodStart, old(returnSites)))
      decreases s, 1, 0
    {
      hide Complaints, Shown, TooLong, ClauseComplaints;
      ghost var sites := returnSites;
      ExpressionBudget(s.selector.bytes, s.selector.lines.start);
      ghost var start := Verdict(raised, sites);
      for i := 0 to |s.cases|
        invariant ListsFirst()
        invariant Verdict(raised, returnSites) == Next(start, [], ComplaintsCases(s, i, depth, methodStart, sites))
      {
        ghost var before := ComplaintsCases(s, i, depth, methodStart, sites);
        ExpressionBudget(s.cases[i].headerBytes, s.cases[i].header.start);
        ValidateClauses(s.cases[i].clauses);
        Validate(s.cases[i].body, depth + 1);
        NextAssociates(start, before, HeaderComplaints(s.cases[i]),
                       Complaints(s.cases[i].body, depth + 1, methodStart, before.sites));
      }
    }

    method ValidateClauses(clauses: seq<CaseClause>)
      requires ListsFirst()
      modifies this`unsupported, this`unsupportedOmitted, this`raised
      ensures ListsFirst() && raised == old(raised) + ClauseComplaints(clauses)
    {
      hide Shown;
      for i := 0 to |clauses|
        invariant ListsFirst() && raised == old(raised) + ClauseComplaints(clauses[..i])
      {
        assert clauses[..i + 1][..i] == clauses[..i];
        if !ClauseSupported(clauses[i]) {
          RaiseIssue(CasePattern, clauses[i].line);
        }
      }
      assert clauses[..|clauses|] == clauses;
    }

    /** Throws when the histories in hand and the paths already emitted exceed the budget. */
    method CheckCount(active: nat) returns (r: Result<(), PathBudgetExceeded>)
      ensures r.Success? <==> active + |paths| <= MAX_PATHS
    {
      if active + |paths| > MAX_PATHS {
        return Failure(PathBudgetExceeded);
      }
      return Success(());
    }

    /** Without an exception, the enumeration; with one, proof that the whole would exceed the budget. */
    method Walk(statements: seq<Stmt>, initial: seq<History>)
      returns (r: Result<seq<History>, PathBudgetExceeded>)
      modifies this`paths
      ensures r.Success? ==> paths == old(paths) + WalkAll(statements, initial).paths
                             && r.value == WalkAll(statements, initial).left
      ensures r.Failure? ==> |old(paths)| + WalkAll(statements, initial).Total() > MAX_PATHS
      ensures r.Success? && statements != [] && initial != [] ==> |paths| + |r.value| <= MAX_PATHS
      decreases statements
    {
      var active := initial;
      ghost var done := Walked([], initial);
      for i := 0 to |statements|
        invariant paths == old(paths) + done.paths && active == done.left
        invariant WalkAll(statements, initial) == Then(done, WalkAll(statements[i..], active))
        invariant i == 0 ==> active == initial
        invariant i > 0 && initial != [] ==> |paths| + |active| <= MAX_PATHS
      {
        if active == [] {
          break;
        }
        StatementStep(statements, i, initial, done);
        ghost var step := WalkOne(statements[i], active);
        active :- WalkStatement(statements[i], active);
        done := Then(done, step);
        var _ :- CheckCount(|active|);
      }
      return Success(active);
    }

    method WalkStatement(s: Stmt, active: seq<History>) returns (r: Result<seq<History>, PathBudgetExceeded>)
      modifies this`paths
      ensures r.Success? ==> paths == old(paths) + WalkOne(s, active).paths && r.value == WalkOne(s, active).left
      ensures r.Failure? ==> |old(paths)| + WalkOne(s, active).Total() > MAX_PATHS
      decreases s, 2, 0
    {
      hide WalkAll, WalkArms, WalkCases;
      match s
      case Return(_, lines, value) =>
        for k := 0 to |active|
          invariant paths == old(paths) + WalkOne(s, active).paths[..k]
        {
          paths := paths + [ReturnPath(active[k], lines.start, ReturnText(value))];
        }
        return Success([]);
      case SingleIf(cond, thenBody, elseClause) =>
        var yes := Add(active, Condition(IfTest(cond), true));
        var no := Add(active, Condition(IfTest(cond), false));
        var joined :- Walk(thenBody, yes);
        if elseClause.SingleElse? {
          var other :- Walk(elseClause.body, no);
          return Success(joined + other);
        }
        return Success(joined + no);
      case MultiIf(_, _) => r := WalkMultiIf(s, active);
      case Select(_, _, _) => r := WalkSelect(s, active);
      case _ => return Success(active);
    }

    method WalkMultiIf(s: Stmt, active: seq<History>) returns (r: Result<seq<History>, PathBudgetExceeded>)
      requires s.MultiIf?
      modifies this`paths
      ensures r.Success? ==> paths == old(paths) + WalkOne(s, active).paths && r.value == WalkOne(s, active).left
      ensures r.Failure? ==> |old(paths)| + WalkOne(s, active).Total() > MAX_PATHS
      ensures r.Success? && s.arms != [] && s.elseBlock.NoElse? ==> |paths| + |r.value| <= MAX_PATHS
      decreases s, 1, 1
    {
      var branches, done := WalkBranches(s, active);
      if branches.Failure? {
        return Failure(PathBudgetExceeded);
      }
      var (joined, left) := branches.value;
      ElseStep(s, left, active, done);
      if s.elseBlock.Else? {
        var reached :- Walk(s.elseBlock.body, left);
        assert old(paths) + done.paths + WalkElse(s, left).paths == old(paths) + (done.paths + WalkElse(s, left).paths);
        return Success(joined + reached);
      }
      return Success(joined + left);
    }

    /** The If part and the ElseIf parts: the histories past the statement, and those no arm took. */
    method WalkBranches(s: Stmt, active: seq<History>)
      returns (r: Result<(seq<History>, seq<History>), PathBudgetExceeded>, ghost done: Walked)
      requires s.MultiIf?
      modifies this`paths
      ensures r.Success? ==> paths == old(paths) + done.paths && r.value.0 == done.left
                             && WalkArms(s, 0, active) == Join(done, WalkArms(s, |s.arms|, r.value.1))
                             && (s.arms != [] ==> |paths| + |r.value.0| + |r.value.1| <= MAX_PATHS)
      ensures r.Failure? ==> |old(paths)| + WalkArms(s, 0, active).Total() > MAX_PATHS
      decreases s, 1, 0
    {
      var left, joined := active, [];
      done := Walked([], []);
      for i := 0 to |s.arms|
        invariant paths == old(paths) + done.paths && joined == done.left
        invariant i > 0 ==> |paths| + |joined| + |left| <= MAX_PATHS
        invariant WalkArms(s, 0, active) == Join(done, WalkArms(s, i, left))
      {
        ArmStep(s, i, left, active, done);
        var reached := WalkArm(s, i, left, |joined|);
        if reached.Failure? {
          return Failure(PathBudgetExceeded), done;
        }
        ghost var step := WalkAll(s.arms[i].body, Add(left, Condition(IfTest(s.arms[i].cond), true)));
        assert old(paths) + done.paths + step.paths == old(paths) + (done.paths + step.paths);
        done := Join(done, step);
        joined := joined + reached.value;
        left := Add(left, Condition(IfTest(s.arms[i].cond), false));
      }
      r := Success((joined, left));
    }

    /** One arm and the count after it, with `joined` histories already past the statement. */
    method WalkArm(s: Stmt, i: nat, left: seq<History>, joined: nat)
      returns (r: Result<seq<History>, PathBudgetExceeded>)
      requires s.MultiIf? && i < |s.arms|
      modifies this`paths
      ensures var step := WalkAll(s.arms[i].body, Add(left, Condition(IfTest(s.arms[i].cond), true)));
              && (r.Success? ==> paths == old(paths) + step.paths && r.value == step.left
                                 && |paths| + joined + |r.value| + |left| <= MAX_PATHS)
              && (r.Failure? ==> |old(paths)| + joined + step.Total() + |left| > MAX_PATHS)
      decreases s, 0, 0
    {
      var yes := Add(left, Condition(IfTest(s.arms[i].cond), true));
      var reached :- Walk(s.arms[i].body, yes);
      var _ :- CheckCount(joined + |reached| + |Add(left, Condition(IfTest(s.arms[i].cond), false))|);
      return Success(reached);
    }

    method WalkSelect(s: Stmt, active: seq<History>) returns (r: Result<seq<History>, PathBudgetExceeded>)
      requires s.Select?
      modifies this`paths
      ensures r.Success? ==> paths == old(paths) + WalkOne(s, active).paths && r.value == WalkOne(s, active).left
      ensures r.Failure? ==> |old(paths)| + WalkOne(s, active).Total() > MAX_PATHS
      ensures r.Success? && s.cases != [] ==> |paths| + |r.value| <= MAX_PATHS
      decreases s, 1, 0
    {
      hide WalkAll, Add;
      var unmatched, alternatives := active, [];
      ghost var done := Walked([], []);
      for i := 0 to |s.cases|
        invariant paths == old(paths) + done.paths && alternatives == done.left
        invariant i > 0 ==> |paths| + |alternatives| + |unmatched| <= MAX_PATHS
        invariant WalkCases(s, 0, active) == Join(done, WalkCases(s, i, unmatched))
      {
        CaseStep(s, i, unmatched, active, done);
        var matched, rest := unmatched, [];
        if !s.cases[i].IsCaseElse() {
          matched := Add(unmatched, Condition(CaseTestOf(s, i), true));
          rest := Add(unmatched, Condition(CaseTestOf(s, i), false));
        }
        var reached :- Walk(s.cases[i].body, matched);
        done := Join(done, WalkAll(s.cases[i].body, matched));
        alternatives, unmatched := alternatives + reached, rest;
        var _ :- CheckCount(|alternatives| + |unmatched|);
      }
      return Success(alternatives + unmatched);
    }

    /** One report per run: complete or empty, never partial. */
    method Run(m: Selection, size: Report -> nat, inventoryFits: BranchReport -> bool) returns (r: Report)
      requires CurrentReport() == Report(false, false, [], 0, [], 0, None, None) && returnSites == {} && raised == []
      requires methodStart == m.start
      modifies this
      ensures r == CurrentReport()
      ensures r.available ==> Admitted(m) && TraceTotal(m.body) <= 64 && size(r) <= 64 * 1024
      ensures r.available ==> r == CompleteReport(m.body, r.branchContexts, r.parameterOccurrences)
      ensures !r.available ==> !r.structuralComplete && r.paths == [] && r.normalFallthroughPaths == 0
                               && r.unsupported != []
      ensures !Admitted(m) ==> r.unsupported == Shown(Objections(m))
                               && |r.unsupported| + r.unsupportedOmitted == |Objections(m)|
      ensures Admitted(m) && TraceTotal(m.body) > 64 ==>
                r.unsupported == [Issue(PathBudget, m.start)] && r.unsupportedOmitted == 0
      ensures !r.available && Admitted(m) && TraceTotal(m.body) <= 64 ==>
                && r.unsupported == [Issue(ResponseBudget, m.start)] && r.unsupportedOmitted == 0
                && size(CompleteReport(m.body, None, None)) > 64 * 1024
      ensures r.branchContexts.Some? && r.branchContexts.value.Available? ==>
                IsInventory(r.branchContexts.value, m.body, m.lambdas)
    {
      hide Admitted, Complaints, WalkAll, ShapeAll, IsInventory, CompleteReport, DeferredIssues;
      ObjectionsAreExact(m);
      var located := Locate(m);
      if !located {
        return CurrentReport();
      }
      Inspect(m, inventoryFits);
      if |unsupported| != 0 {
        return CurrentReport();
      }
      r := Enumerate(m, size);
    }

    /** The checks that come before anything is read from the method. */
    method Locate(m: Selection) returns (located: bool)
      requires ListsFirst() && raised == []
      modifies this`unsupported, this`unsupportedOmitted, this`raised
      ensures ListsFirst() && located == (raised == [])
      ensures !located ==> raised == Objections(m)
      ensures located ==> Objections(m) == DeferredIssues(m) + Complaints(m.body, 0, m.start, {}).issues
    {
      hide Complaints, DeferredIssues, Shown;
      if m.sourceBytes > MAX_SOURCE_BYTES {
        RaiseIssue(SourceBudget, m.start);
        return false;
      }
      if m.start < 1 || m.end < m.start {
        RaiseIssue(MethodRange, m.start);
        return false;
      }
      if m.parseErrors {
        RaiseIssue(ParseError, m.start);
        return false;
      }
      if m.candidates != 1 {
        RaiseIssue(MethodRange, m.start);
        return false;
      }
      return true;
    }

    /** The optional evidence, and every other issue about the method. */
    method Inspect(m: Selection, inventoryFits: BranchReport -> bool)
      requires ListsFirst() && raised == [] && returnSites == {} && methodStart == m.start
      modifies this`unsupported, this`unsupportedOmitted, this`raised, this`returnSites, this`branchContexts,
               this`parameterOccurrences
      ensures ListsFirst() && raised == DeferredIssues(m) + Complaints(m.body, 0, m.start, {}).issues
      ensures branchContexts.Some?
      ensures branchContexts.value.Available? ==> IsInventory(branchContexts.value, m.body, m.lambdas)
    {
      hide Complaints, IsInventory, WithinLimits, RefusedFor, DeferredIssues, Shown;
      ReportDirectives(m);
      parameterOccurrences := Some(if m.directives then "file_directives" else m.parameters);
      var inventory := InventoryBranches(m.body, m.lambdas, m.directives, inventoryFits);
      branchContexts := Some(inventory);
      ReportDeferred(m);
      Validate(m.body, 0);
    }

    method ReportDirectives(m: Selection)
      requires ListsFirst()
      modifies this`unsupported, this`unsupportedOmitted, this`raised
      ensures ListsFirst()
      ensures raised == old(raised) + seq(m.conditionalDirectives, _ => Issue(ConditionalCompilation, m.start))
    {
      hide Shown;
      for i := 0 to m.conditionalDirectives
        invariant ListsFirst() && raised == old(raised) + seq(i, _ => Issue(ConditionalCompilation, m.start))
      {
        RaiseIssue(ConditionalCompilation, m.start);
      }
    }

    /** The issues about deferred members and expressions. */
    method ReportDeferred(m: Selection)
      requires ListsFirst()
      requires raised == seq(m.conditionalDirectives, _ => Issue(ConditionalCompilation, m.start))
      modifies this`unsupported, this`unsupportedOmitted, this`raised
      ensures ListsFirst() && raised == DeferredIssues(m)
    {
      hide Shown;
      if m.deferredMember {
        RaiseIssue(DeferredMember, m.start);
      }
      ghost var before := raised;
      for i := 0 to |m.deferredExpressions|
        invariant ListsFirst()
        invariant raised
                  == before + seq(i, k requires 0 <= k < i => Issue(DeferredExpression, m.deferredExpressions[k]))
      {
        RaiseIssue(DeferredExpression, m.deferredExpressions[i]);
      }
    }

    /** The guarded part of Run: the walk, its exception handler and the response budget. */
    method Enumerate(m: Selection, size: Report -> nat) returns (r: Report)
      requires !available && !structuralComplete && paths == [] && normalFallthroughPaths == 0
      requires unsupported == [] && raised == [] && ListsFirst()
      modifies this
      ensures r == CurrentReport()
      ensures r.available ==> TraceTotal(m.body) <= 64 && size(r) <= 64 * 1024
      ensures r.available ==> r == CompleteReport(m.body, r.branchContexts, r.parameterOccurrences)
      ensures !r.available ==> !r.structuralComplete && r.paths == [] && r.normalFallthroughPaths == 0
      ensures TraceTotal(m.body) > 64 ==>
                !r.available && r.unsupported == [Issue(PathBudget, m.start)] && r.unsupportedOmitted == 0
      ensures !r.available && TraceTotal(m.body) <= 64 ==>
                && r.unsupported == [Issue(ResponseBudget, m.start)] && r.unsupportedOmitted == 0
                && size(CompleteReport(m.body, None, None)) > 64 * 1024
      ensures r.branchContexts == old(branchContexts) || r.branchContexts == None
    {
      hide WalkAll, ShapeAll;
      TraceCount(m.body);
      var walked := Walk(m.body, START);
      if walked.Success? {
        var counted := CheckCount(|walked.value|);
        if counted.Success? {
          r := Conclude(m, |walked.value|, size);
          return;
        }
      }
      paths, normalFallthroughPaths := [], 0;
      RaiseIssue(PathBudget, m.start);
      return CurrentReport();
    }

    /** The complete report; optional evidence is dropped first, then everything. */
    method Conclude(m: Selection, fallthroughs: nat, size: Report -> nat) returns (r: Report)
      requires !available && !structuralComplete && unsupported == [] && raised == [] && ListsFirst()
      requires paths == WalkAll(m.body, START).paths && fallthroughs == |WalkAll(m.body, START).left|
      modifies this
      ensures r == CurrentReport()
      ensures r.available ==> size(r) <= 64 * 1024
      ensures r.available ==> r == CompleteReport(m.body, r.branchContexts, r.parameterOccurrences)
      ensures !r.available ==> !r.structuralComplete && r.paths == [] && r.normalFallthroughPaths == 0
                               && r.unsupported == [Issue(ResponseBudget, m.start)] && r.unsupportedOmitted == 0
                               && size(CompleteReport(m.body, None, None)) > 64 * 1024
      ensures r.branchContexts == old(branchContexts) || r.branchContexts == None
    {
      hide WalkAll;
      normalFallthroughPaths := fallthroughs;
      structuralComplete, available := true, true;
      if branchContexts.Some? && size(CurrentReport()) > MAX_RESPONSE_BYTES {
        branchContexts := None;
      }
      if parameterOccurrences.Some? && size(CurrentReport()) > MAX_RESPONSE_BYTES {
        parameterOccurrences := None;
      }
      assert CurrentReport() == CompleteReport(m.body, branchContexts, parameterOccurrences);
      if size(CurrentReport()) > MAX_RESPONSE_BYTES {
        paths, normalFallthroughPaths := [], 0;
        available, structuralComplete := false, false;
        RaiseIssue(ResponseBudget, m.start);
      }
      return CurrentReport();
    }
  }

  lemma StatementStep(statements: seq<Stmt>, i: nat, initial: seq<History>, done: Walked)
    requires i < |statements| && done.left != []
    requires WalkAll(statements, initial) == Then(done, WalkAll(statements[i..], done.left))
    ensures var step := WalkOne(statements[i], done.left);
            && WalkAll(statements, initial) == Then(Then(done, step), WalkAll(statements[i + 1..], step.left))
            && WalkAll(statements, initial).Total() >= |done.paths| + step.Total()
  {
    var rest := statements[i..];
    var step := WalkOne(statements[i], done.left);
    assert rest[0] == statements[i] && rest[1..] == statements[i + 1..];
    var last := WalkAll(statements[i + 1..], step.left);
    assert done.paths + (step.paths + last.paths) == done.paths + step.paths + last.paths;
    NeverShrinks(statements[i + 1..], step.left);
  }

  lemma ArmStep(s: Stmt, i: nat, left: seq<History>, active: seq<History>, done: Walked)
    requires s.MultiIf? && i < |s.arms|
    requires WalkArms(s, 0, active) == Join(done, WalkArms(s, i, left))
    ensures var test := IfTest(s.arms[i].cond);
            var step := WalkAll(s.arms[i].body, Add(left, Condition(test, true)));
            var no := Add(left, Condition(test, false));
            && WalkArms(s, 0, active) == Join(Join(done, step), WalkArms(s, i + 1, no))
            && WalkArms(s, 0, active).Total() >= done.Total() + step.Total() + |no|
  {
    var test := IfTest(s.arms[i].cond);
    var no := Add(left, Condition(test, false));
    JoinAssociates(done, WalkAll(s.arms[i].body, Add(left, Condition(test, true))), WalkArms(s, i + 1, no));
    NeverShrinksArms(s, i + 1, no);
  }

  /** What the Else block makes of the histories that no arm took. */
  function WalkElse(s: Stmt, left: seq<History>): Walked
    requires s.MultiIf?
  {
    if s.elseBlock.Else? then WalkAll(s.elseBlock.body, left) else Walked([], left)
  }

  lemma ElseStep(s: Stmt, left: seq<History>, active: seq<History>, done: Walked)
    requires s.MultiIf? && WalkArms(s, 0, active) == Join(done, WalkArms(s, |s.arms|, left))
    ensures WalkOne(s, active) == Join(done, WalkElse(s, left))
    ensures WalkOne(s, active).Total() == done.Total() + WalkElse(s, left).Total()
  {
  }

  lemma CaseStep(s: Stmt, i: nat, unmatched: seq<History>, active: seq<History>, done: Walked)
    requires s.Select? && i < |s.cases|
    requires WalkCases(s, 0, active) == Join(done, WalkCases(s, i, unmatched))
    ensures var otherwise := s.cases[i].IsCaseElse();
            var matched := if otherwise then unmatched else Add(unmatched, Condition(CaseTestOf(s, i), true));
            var rest := if otherwise then [] else Add(unmatched, Condition(CaseTestOf(s, i), false));
            var step := WalkAll(s.cases[i].body, matched);
            && WalkCases(s, 0, active) == Join(Join(done, step), WalkCases(s, i + 1, rest))
            && WalkCases(s, 0, active).Total() >= done.Total() + step.Total() + |rest|
  {
    var otherwise := s.cases[i].IsCaseElse();
    var matched := if otherwise then unmatched else Add(unmatched, Condition(CaseTestOf(s, i), true));
    var rest := if otherwise then [] else Add(unmatched, Condition(CaseTestOf(s, i), false));
    JoinAssociates(done, WalkAll(s.cases[i].body, matched), WalkCases(s, i + 1, rest));
    NeverShrinksCases(s, i + 1, rest);
  }

  lemma JoinAssociates(a: Walked, b: Walked, c: Walked)
    ensures Join(a, Join(b, c)) == Join(Join(a, b), c)
  {
    assert a.paths + (b.paths + c.paths) == a.paths + b.paths + c.paths;
    assert a.left + (b.left + c.left) == a.left + b.left + c.left;
  }

  /** An admitted method whose traces fit is refused only for the size of its response, and an
      accepted one reports exactly one trace for every way of deciding its tests. */
  lemma AvailableReportIsExact(body: seq<Stmt>, r: Report, o: Oracle) returns (i: nat)
    requires r == CompleteReport(body, r.branchContexts, r.parameterOccurrences)
    ensures |r.paths| + r.normalFallthroughPaths == TraceTotal(body)
    ensures match ExecAll(body, [], o)
            case Returned(h, line, e) =>
              && i < |r.paths| && r.paths[i] == ReturnPath(h, line, e)
              && forall j :: 0 <= j < |r.paths| ==> (Agrees(r.paths[j].conditions, o) <==> j == i)
            case FellThrough(_) =>
              forall j :: 0 <= j < |r.paths| ==> !Agrees(r.paths[j].conditions, o)
  {
    TraceCount(body);
    var w := WalkAll(body, START);
    i := OneTracePerOracle(body, o);
    assert forall j :: 0 <= j < |w.paths| ==> Traces(w)[j].history == w.paths[j].conditions;
  }
}
