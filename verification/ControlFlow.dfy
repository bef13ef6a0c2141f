/** What a supported statement list means: the control-flow rules of sections 10.8.1
    (If...Then...Else) and 10.8.2 (Select Case) of the Visual Basic Language Specification,
    driven by an oracle that decides every test from the evaluation history so far. */
module ControlFlow {

  import opened VbSyntax
  import opened Wrappers

  /** One evaluation: an If condition, or one case group matched against the selector. */
  datatype Test =
    | IfTest(cond: Expr)
    | CaseTest(selector: Expr, labels: string, caseLine: int)

  datatype Condition = Condition(test: Test, outcome: bool)

  type History = seq<Condition>

  type Oracle = (History, Test) -> bool

  datatype Trace =
    | Returned(history: History, line: int, expression: string)
    | FellThrough(history: History)

  function Decide(h: History, test: Test, o: Oracle): History {
    h + [Condition(test, o(h, test))]
  }

  function CaseTestOf(s: Stmt, i: nat): Test
    requires s.Select? && i < |s.cases|
  {
    CaseTest(s.selector, s.cases[i].labels, s.cases[i].header.start)
  }

  function ReturnText(value: Option<Expr>): string {
    if value.None? then "" else value.value.text
  }

  function ExecAll(stmts: seq<Stmt>, h: History, o: Oracle): Trace
    decreases stmts
  {
    if stmts == [] then
      FellThrough(h)
    else
      match Exec(stmts[0], h, o)
      case Returned(h', line, e) => Returned(h', line, e)
      case FellThrough(h') => ExecAll(stmts[1..], h', o)
  }

  function Exec(s: Stmt, h: History, o: Oracle): Trace
    decreases s, 1, 0
  {
    match s
    case Return(_, lines, value) => Returned(h, lines.start, ReturnText(value))
    case SingleIf(cond, thenBody, elseClause) =>
      var h' := Decide(h, IfTest(cond), o);
      if o(h, IfTest(cond)) then ExecAll(thenBody, h', o)
      else if elseClause.SingleElse? then ExecAll(elseClause.body, h', o)
      else FellThrough(h')
    case MultiIf(_, _) => ExecArms(s, 0, h, o)
    case Select(_, _, _) => ExecCases(s, 0, h, o)
    case Plain(_, _) => FellThrough(h)
    // outside the supported syntax: no meaning is claimed, control just passes on
    case Foreign(_, _) => FellThrough(h)
    case ForeignBlock(_, _, _) => FellThrough(h)
  }

  /** Arms are tested in order; the first true condition selects its block. */
  function ExecArms(s: Stmt, i: nat, h: History, o: Oracle): Trace
    requires s.MultiIf? && i <= |s.arms|
    decreases s, 0, |s.arms| - i
  {
    if i == |s.arms| then
      if s.elseBlock.Else? then ExecAll(s.elseBlock.body, h, o) else FellThrough(h)
    else
      var test := IfTest(s.arms[i].cond);
      var h' := Decide(h, test, o);
      if o(h, test) then ExecAll(s.arms[i].body, h', o) else ExecArms(s, i + 1, h', o)
  }

  /** Case groups are tested in order; Case Else takes whatever is still unmatched. */
  function ExecCases(s: Stmt, i: nat, h: History, o: Oracle): Trace
    requires s.Select? && i <= |s.cases|
    decreases s, 0, |s.cases| - i
  {
    if i == |s.cases| then
      FellThrough(h)
    else if s.cases[i].IsCaseElse() then
      ExecAll(s.cases[i].body, h, o)
    else
      var test := CaseTestOf(s, i);
      var h' := Decide(h, test, o);
      if o(h, test) then ExecAll(s.cases[i].body, h', o) else ExecCases(s, i + 1, h', o)
  }

  /** How many structural traces end in a Return and how many fall through. */
  datatype Shape = Shape(exits: nat, falls: nat)

  function Either(a: Shape, b: Shape): Shape {
    Shape(a.exits + b.exits, a.falls + b.falls)
  }

  /** The closed form: alternatives add up, sequencing multiplies what falls through. */
  function ShapeAll(stmts: seq<Stmt>): Shape
    decreases stmts
  {
    if stmts == [] then
      Shape(0, 1)
    else
      var a, b := ShapeOf(stmts[0]), ShapeAll(stmts[1..]);
      Shape(a.exits + a.falls * b.exits, a.falls * b.falls)
  }

  function ShapeOf(s: Stmt): Shape
    decreases s, 1, 0
  {
    match s
    case Return(_, _, _) => Shape(1, 0)
    case SingleIf(_, thenBody, elseClause) =>
      Either(ShapeAll(thenBody), if elseClause.SingleElse? then ShapeAll(elseClause.body) else Shape(0, 1))
    case MultiIf(_, _) => ShapeArms(s, 0)
    case Select(_, _, _) => ShapeCases(s, 0)
    case Plain(_, _) => Shape(0, 1)
    case Foreign(_, _) => Shape(0, 1)
    case ForeignBlock(_, _, _) => Shape(0, 1)
  }

  function ShapeArms(s: Stmt, i: nat): Shape
    requires s.MultiIf? && i <= |s.arms|
    decreases s, 0, |s.arms| - i
  {
    if i == |s.arms| then
      if s.elseBlock.Else? then ShapeAll(s.elseBlock.body) else Shape(0, 1)
    else
      Either(ShapeAll(s.arms[i].body), ShapeArms(s, i + 1))
  }

  function ShapeCases(s: Stmt, i: nat): Shape
    requires s.Select? && i <= |s.cases|
    decreases s, 0, |s.cases| - i
  {
    if i == |s.cases| then Shape(0, 1)
    else if s.cases[i].IsCaseElse() then ShapeAll(s.cases[i].body)
    else Either(ShapeAll(s.cases[i].body), ShapeCases(s, i + 1))
  }
}
