/** The statement trees that the return-path analyzer reads: the part of a parsed
    Visual Basic method body that its switch statements distinguish. */
module VbSyntax {

  import opened Wrappers

  /** First and last source line, 1-based and inclusive. */
  datatype LineRange = LineRange(start: int, end: int)

  type Lines = r: LineRange | r.start <= r.end witness LineRange(1, 1)

  /** An expression's exact text, its UTF-8 length and its position. */
  datatype Expr = Expr(text: string, bytes: nat, lines: Lines)

  datatype Label =
    | LiteralLabel
    | IdentifierLabel
    | MemberLabel(receiver: Option<Label>)
    | OtherLabel

  datatype CaseClause =
    | ElseClause
    | SimpleClause(value: Label, line: int)
    | PatternClause(line: int)

  datatype Stmt =
    | Return(site: int, lines: Lines, value: Option<Expr>)
    | SingleIf(cond: Expr, thenBody: seq<Stmt>, elseClause: SingleElse)
      // arms[0] is the If part, the others are the ElseIf parts in order
    | MultiIf(arms: seq<Arm>, elseBlock: ElseBlock)
    | Select(header: Lines, selector: Expr, cases: seq<CaseBlock>)
      // local declaration, assignment, expression, call or empty statement
    | Plain(kind: string, lines: Lines)
      // any other statement: outside the supported syntax
    | Foreign(kind: string, lines: Lines)
      // any other block (loop, Try, Using, ...): its header and nested statement lists
    | ForeignBlock(kind: string, line: int, parts: seq<Part>)

  datatype Arm = Arm(header: Lines, cond: Expr, body: seq<Stmt>)

  datatype SingleElse = NoSingleElse | SingleElse(body: seq<Stmt>)

  datatype ElseBlock = NoElse | Else(header: Lines, body: seq<Stmt>)

  datatype CaseBlock = CaseBlock(
    header: Lines, headerBytes: nat, clauses: seq<CaseClause>, labels: string, body: seq<Stmt>)
  {
    predicate IsCaseElse() {
      ElseClause in clauses
    }
  }

  datatype Part = Part(kind: string, header: Lines, body: seq<Stmt>)

  // ---- Where a statement is ----

  /** The statement lists directly inside a statement, in document order. */
  function Blocks(s: Stmt): seq<seq<Stmt>> {
    match s
    case SingleIf(_, thenBody, elseClause) =>
      [thenBody] + (if elseClause.SingleElse? then [elseClause.body] else [])
    case MultiIf(arms, elseBlock) =>
      seq(|arms|, i requires 0 <= i < |arms| => arms[i].body) + (if elseBlock.Else? then [elseBlock.body] else [])
    case Select(_, _, cases) => seq(|cases|, i requires 0 <= i < |cases| => cases[i].body)
    case ForeignBlock(_, _, parts) => seq(|parts|, i requires 0 <= i < |parts| => parts[i].body)
    case _ => []
  }

  /** One turn on the way down: which statement of the list, and which of its blocks. */
  datatype Turn = Turn(index: nat, block: nat)

  /** The list at the end of the way, if there is one. */
  function ListAt(stmts: seq<Stmt>, way: seq<Turn>): Option<seq<Stmt>>
    decreases |way|
  {
    if way == [] then Some(stmts)
    else if way[0].index < |stmts| && way[0].block < |Blocks(stmts[way[0].index])| then
      ListAt(Blocks(stmts[way[0].index])[way[0].block], way[1..])
    else None
  }

  predicate IsAt(stmts: seq<Stmt>, way: seq<Turn>, x: Stmt) {
    ListAt(stmts, way).Some? && x in ListAt(stmts, way).value
  }

  /** The statement is somewhere in the list, at some depth. */
  ghost predicate Occurs(stmts: seq<Stmt>, x: Stmt) {
    exists way: seq<Turn> :: IsAt(stmts, way, x)
  }

  lemma OccursHere(stmts: seq<Stmt>, x: Stmt)
    requires x in stmts
    ensures Occurs(stmts, x)
  {
    assert IsAt(stmts, [], x);
  }

  lemma OneTurn(stmts: seq<Stmt>, i: nat, b: nat, way: seq<Turn>)
    requires i < |stmts| && b < |Blocks(stmts[i])|
    ensures ListAt(stmts, [Turn(i, b)] + way) == ListAt(Blocks(stmts[i])[b], way)
  {
    assert ([Turn(i, b)] + way)[1..] == way;
  }

  lemma OccursInside(stmts: seq<Stmt>, s: Stmt, b: nat, x: Stmt)
    requires s in stmts && b < |Blocks(s)| && Occurs(Blocks(s)[b], x)
    ensures Occurs(stmts, x)
  {
    var i :| 0 <= i < |stmts| && stmts[i] == s;
    var way: seq<Turn> :| IsAt(Blocks(s)[b], way, x);
    OneTurn(stmts, i, b, way);
    assert IsAt(stmts, [Turn(i, b)] + way, x);
  }
}
