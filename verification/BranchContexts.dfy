/** Which If conditions enclose each statement line: ReturnPathAnalyzer.InventoryBranches. */
module BranchContexts {

  import opened LineOrder
  import opened Sequences
  import opened VbSyntax
  import opened ControlFlow
  import opened Wrappers

  const MAX_CONDITIONS := 16
  const MAX_CONDITION_BYTES := 1024
  const MAX_LINE_SPAN := 1024
  const MAX_ENTRIES := 256
  const MAX_UNAVAILABLE_LINES := 1024

  /** The syntax nodes between a method and one of its statements, as far as they are told apart. */
  datatype Ancestor =
    | IfBlock(block: Stmt)
    | ElseIfPart(block: Stmt, arm: nat)
    | ElsePart(block: Stmt)
    | SingleIfStatement(single: Stmt)
    | SingleElsePart(single: Stmt)
    | OtherAncestor

  datatype NodeKind =
    | ReturnNode
    | SingleIfNode
    | IfHeader
    | ElseIfHeader
    | ElseHeader
    | SelectHeader
    | CaseHeader
    | OtherNode(kind: string)

  /** A statement node with its ancestors, outermost first. */
  datatype Node = Node(kind: NodeKind, lines: Lines, ancestors: seq<Ancestor>)

  datatype Entry = Entry(kind: NodeKind, lines: Lines, conditions: History) {
    predicate Owns(line: int) {
      lines.start <= line <= lines.end
    }
  }

  datatype BranchReport =
    | Unavailable(reason: string)
    | Available(entries: seq<Entry>, unavailableLines: seq<int>)

  // ---- Statement nodes in document order ----

  function Descendants(stmts: seq<Stmt>, above: seq<Ancestor>): seq<Node>
    decreases stmts
  {
    if stmts == [] then [] else NodesOf(stmts[0], above) + Descendants(stmts[1..], above)
  }

  function NodesOf(s: Stmt, above: seq<Ancestor>): seq<Node>
    decreases s, 1, 0
  {
    match s
    case Return(_, lines, _) => [Node(ReturnNode, lines, above)]
    case SingleIf(cond, thenBody, elseClause) =>
      [Node(SingleIfNode, cond.lines, above)]
      + Descendants(thenBody, above + [SingleIfStatement(s)])
      + (if elseClause.SingleElse? then Descendants(elseClause.body, above + [SingleIfStatement(s), SingleElsePart(s)])
         else [])
    case MultiIf(_, _) => NodesOfArms(s, 0, above)
    case Select(header, _, _) => [Node(SelectHeader, header, above + [OtherAncestor])] + NodesOfCases(s, 0, above)
    case Plain(kind, lines) => [Node(OtherNode(kind), lines, above)]
    case Foreign(kind, lines) => [Node(OtherNode(kind), lines, above)]
    case ForeignBlock(_, _, _) => NodesOfParts(s, 0, above)
  }

  /** The first part's header and statements hang directly under the block, the others under their own part. */
  function ArmAncestors(s: Stmt, i: nat): seq<Ancestor> {
    if i == 0 then [IfBlock(s)] else [IfBlock(s), ElseIfPart(s, i)]
  }

  function NodesOfArms(s: Stmt, i: nat, above: seq<Ancestor>): seq<Node>
    requires s.MultiIf? && i <= |s.arms|
    decreases s, 0, |s.arms| - i
  {
    if i == |s.arms| then
      if s.elseBlock.NoElse? then []
      else [Node(ElseHeader, s.elseBlock.header, above + [IfBlock(s), ElsePart(s)])]
           + Descendants(s.elseBlock.body, above + [IfBlock(s), ElsePart(s)])
    else
      NodesOfArm(s, i, above) + NodesOfArms(s, i + 1, above)
  }

  function NodesOfArm(s: Stmt, i: nat, above: seq<Ancestor>): seq<Node>
    requires s.MultiIf? && i < |s.arms|
    decreases s, 0, 0
  {
    [Node(if i == 0 then IfHeader else ElseIfHeader, s.arms[i].header, above + ArmAncestors(s, i))]
    + Descendants(s.arms[i].body, above + ArmAncestors(s, i))
  }

  function NodesOfCases(s: Stmt, i: nat, above: seq<Ancestor>): seq<Node>
    requires s.Select? && i <= |s.cases|
    decreases s, 0, |s.cases| - i
  {
    if i == |s.cases| then []
    else
      [Node(CaseHeader, s.cases[i].header, above + [OtherAncestor])]
      + Descendants(s.cases[i].body, above + [OtherAncestor])
      + NodesOfCases(s, i + 1, above)
  }

  function NodesOfParts(s: Stmt, i: nat, above: seq<Ancestor>): seq<Node>
    requires s.ForeignBlock? && i <= |s.parts|
    decreases s, 0, |s.parts| - i
  {
    if i == |s.parts| then []
    else
      [Node(OtherNode(s.parts[i].kind), s.parts[i].header, above + [OtherAncestor])]
      + Descendants(s.parts[i].body, above + [OtherAncestor])
      + NodesOfParts(s, i + 1, above)
  }

  // ---- The conditions of one node, read off its ancestors ----

  /** The first n conditions of an If block, all false. */
  function Fails(block: Stmt, n: nat): History
    requires block.MultiIf? && n <= |block.arms|
  {
    seq(n, k requires 0 <= k < n => Condition(IfTest(block.arms[k].cond), false))
  }

  function Holds(block: Stmt, n: nat): History
    requires block.MultiIf? && n < |block.arms|
  {
    [Condition(IfTest(block.arms[n].cond), true)]
  }

  /** What an If block contributes, told by its child on the way to the statement (None: the statement
      itself is the child); `inside` if the statement is not the header of the child. */
  function BlockPart(b: Stmt, child: Option<Ancestor>, inside: bool): History {
    if !b.MultiIf? || b.arms == [] then []
    else
      match child
      case Some(ElseIfPart(_, arm)) =>
        if arm >= |b.arms| then [] else if inside then Fails(b, arm) + Holds(b, arm) else Fails(b, arm)
      case Some(ElsePart(_)) => Fails(b, |b.arms|)
      case Some(_) => Holds(b, 0)
      case None => if inside then Holds(b, 0) else []
  }

  /** The child of the outermost ancestor on the way to the statement. */
  function Child(ancestors: seq<Ancestor>): Option<Ancestor> {
    if |ancestors| > 1 then Some(ancestors[1]) else None
  }

  /** What the outermost of some ancestors contributes. */
  function Contributed(ancestors: seq<Ancestor>, header: bool): History
    requires ancestors != []
  {
    match ancestors[0]
    case IfBlock(b) => BlockPart(b, Child(ancestors), !header || |ancestors| > 2)
    case SingleIfStatement(s) =>
      var inElse := Child(ancestors).Some? && Child(ancestors).value.SingleElsePart?;
      if s.SingleIf? then [Condition(IfTest(s.cond), !inElse)]
      else []
    case _ => []
  }

  function ConditionsOf(ancestors: seq<Ancestor>, header: bool): History {
    if ancestors == [] then [] else Contributed(ancestors, header) + ConditionsOf(ancestors[1..], header)
  }

  /** If and ElseIf headers are evaluated before their own outcome. */
  predicate IsIfHeader(kind: NodeKind) {
    kind.IfHeader? || kind.ElseIfHeader?
  }

  function EntryOf(n: Node): Entry {
    Entry(n.kind, n.lines, ConditionsOf(n.ancestors, IsIfHeader(n.kind)))
  }

  function AllEntries(nodes: seq<Node>): seq<Entry> {
    seq(|nodes|, i requires 0 <= i < |nodes| => EntryOf(nodes[i]))
  }

  // ---- The same entries on the way down ----

  /** Every statement with the enclosing If conditions, accumulated from the outside. */
  function Contexts(stmts: seq<Stmt>, context: History): seq<Entry>
    decreases stmts
  {
    if stmts == [] then [] else ContextsOf(stmts[0], context) + Contexts(stmts[1..], context)
  }

  function ContextsOf(s: Stmt, context: History): seq<Entry>
    decreases s, 1, 0
  {
    match s
    case Return(_, lines, _) => [Entry(ReturnNode, lines, context)]
    case SingleIf(cond, thenBody, elseClause) =>
      [Entry(SingleIfNode, cond.lines, context)]
      + Contexts(thenBody, context + [Condition(IfTest(cond), true)])
      + (if elseClause.SingleElse? then Contexts(elseClause.body, context + [Condition(IfTest(cond), false)]) else [])
    case MultiIf(_, _) => ContextsOfArms(s, 0, context)
    case Select(header, _, _) => [Entry(SelectHeader, header, context)] + ContextsOfCases(s, 0, context)
    case Plain(kind, lines) => [Entry(OtherNode(kind), lines, context)]
    case Foreign(kind, lines) => [Entry(OtherNode(kind), lines, context)]
    case ForeignBlock(_, _, _) => ContextsOfParts(s, 0, context)
  }

  function ContextsOfArm(s: Stmt, i: nat, context: History): seq<Entry>
    requires s.MultiIf? && i < |s.arms|
    decreases s, 0, 0
  {
    [ArmHeader(s, i, context)] + Contexts(s.arms[i].body, context + Fails(s, i) + Holds(s, i))
  }

  function ArmHeader(s: Stmt, i: nat, context: History): Entry
    requires s.MultiIf? && i < |s.arms|
  {
    Entry(if i == 0 then IfHeader else ElseIfHeader, s.arms[i].header, context + Fails(s, i))
  }

  function ContextsOfArms(s: Stmt, i: nat, context: History): seq<Entry>
    requires s.MultiIf? && i <= |s.arms|
    decreases s, 0, |s.arms| - i
  {
    if i == |s.arms| then
      if s.elseBlock.NoElse? then []
      else [Entry(ElseHeader, s.elseBlock.header, context + Fails(s, i))]
           + Contexts(s.elseBlock.body, context + Fails(s, i))
    else
      ContextsOfArm(s, i, context) + ContextsOfArms(s, i + 1, context)
  }

  function ContextsOfCases(s: Stmt, i: nat, context: History): seq<Entry>
    requires s.Select? && i <= |s.cases|
    decreases s, 0, |s.cases| - i
  {
    if i == |s.cases| then []
    else
      [Entry(CaseHeader, s.cases[i].header, context)] + Contexts(s.cases[i].body, context)
      + ContextsOfCases(s, i + 1, context)
  }

  function ContextsOfParts(s: Stmt, i: nat, context: History): seq<Entry>
    requires s.ForeignBlock? && i <= |s.parts|
    decreases s, 0, |s.parts| - i
  {
    if i == |s.parts| then []
    else
      [Entry(OtherNode(s.parts[i].kind), s.parts[i].header, context)] + Contexts(s.parts[i].body, context)
      + ContextsOfParts(s, i + 1, context)
  }

  /** An ancestor that does not belong to the one above it. */
  predicate Fresh(slot: seq<Ancestor>) {
    slot != [] && !slot[0].ElseIfPart? && !slot[0].ElsePart? && !slot[0].SingleElsePart?
  }

  lemma ContributedBelow(above: seq<Ancestor>, slot: seq<Ancestor>, header: bool)
    requires Fresh(slot) && above != []
    ensures Contributed(above + slot, header) == Contributed(above, false)
  {
    var all := above + slot;
    assert all[0] == above[0] && |all| == |above| + |slot|;
    if |above| > 1 {
      assert all[1] == above[1];
    } else {
      assert all[1] == slot[0];
    }
  }

  lemma {:induction false} Below(above: seq<Ancestor>, slot: seq<Ancestor>, header: bool)
    requires Fresh(slot)
    ensures ConditionsOf(above + slot, header) == ConditionsOf(above, false) + ConditionsOf(slot, header)
  {
    hide Contributed, Fresh;
    if above == [] {
      assert above + slot == slot;
    } else {
      assert (above + slot)[1..] == above[1..] + slot;
      Below(above[1..], slot, header);
      ContributedBelow(above, slot, header);
      Assoc(Contributed(above, false), ConditionsOf(above[1..], false), ConditionsOf(slot, header));
    }
  }

  lemma OneAncestor(x: Ancestor, header: bool)
    ensures ConditionsOf([x], header) == Contributed([x], header)
  {
    assert [x][1..] == [];
  }

  lemma TwoAncestors(x: Ancestor, y: Ancestor, header: bool)
    requires y.ElseIfPart? || y.ElsePart? || y.SingleElsePart?
    ensures ConditionsOf([x, y], header) == Contributed([x, y], header)
  {
    OneAncestor(y, header);
    assert [x, y][1..] == [y];
  }

  /** What each place in the tree adds. */
  lemma SlotConditions(s: Stmt, i: nat, header: bool)
    requires s.MultiIf? && i < |s.arms|
    ensures ConditionsOf(ArmAncestors(s, i), header) == if header then Fails(s, i) else Fails(s, i) + Holds(s, i)
  {
    if i == 0 {
      OneAncestor(IfBlock(s), header);
    } else {
      TwoAncestors(IfBlock(s), ElseIfPart(s, i), header);
    }
  }

  lemma ElseConditions(s: Stmt)
    requires s.MultiIf?
    ensures ConditionsOf([IfBlock(s), ElsePart(s)], false) == Fails(s, |s.arms|)
  {
    TwoAncestors(IfBlock(s), ElsePart(s), false);
  }

  lemma SingleConditions(s: Stmt)
    requires s.SingleIf?
    ensures ConditionsOf([SingleIfStatement(s)], false) == [Condition(IfTest(s.cond), true)]
    ensures ConditionsOf([SingleIfStatement(s), SingleElsePart(s)], false) == [Condition(IfTest(s.cond), false)]
  {
    OneAncestor(SingleIfStatement(s), false);
    TwoAncestors(SingleIfStatement(s), SingleElsePart(s), false);
  }

  lemma OtherConditions(above: seq<Ancestor>)
    ensures ConditionsOf(above + [OtherAncestor], false) == ConditionsOf(above, false)
  {
    Below(above, [OtherAncestor], false);
    assert [OtherAncestor][1..] == [];
  }

  lemma EntriesAppend(a: seq<Node>, b: seq<Node>)
    ensures AllEntries(a + b) == AllEntries(a) + AllEntries(b)
  {
  }

  lemma EntriesOne(n: Node)
    ensures AllEntries([n]) == [EntryOf(n)]
  {
  }

  /** Reading the ancestors gives what is accumulated on the way down. */
  lemma {:induction false} AncestorsTell(stmts: seq<Stmt>, above: seq<Ancestor>)
    ensures AllEntries(Descendants(stmts, above)) == Contexts(stmts, ConditionsOf(above, false))
    decreases stmts
  {
    if stmts != [] {
      AncestorsTellOne(stmts[0], above);
      AncestorsTell(stmts[1..], above);
      EntriesAppend(NodesOf(stmts[0], above), Descendants(stmts[1..], above));
    }
  }

  lemma {:induction false} AncestorsTellOne(s: Stmt, above: seq<Ancestor>)
    ensures AllEntries(NodesOf(s, above)) == ContextsOf(s, ConditionsOf(above, false))
    decreases s, 1, 0
  {
    match s
    case SingleIf(cond, thenBody, elseClause) => AncestorsTellSingle(s, above);
    case MultiIf(_, _) =>
      AncestorsTellArms(s, 0, above);
    case Select(header, _, _) =>
      AncestorsTellCases(s, 0, above);
      OtherConditions(above);
      EntriesAppend([Node(SelectHeader, header, above + [OtherAncestor])], NodesOfCases(s, 0, above));
      EntriesOne(Node(SelectHeader, header, above + [OtherAncestor]));
    case ForeignBlock(_, _, _) =>
      AncestorsTellParts(s, 0, above);
    case _ =>
      EntriesOne(NodesOf(s, above)[0]);
  }

  lemma {:induction false} AncestorsTellSingle(s: Stmt, above: seq<Ancestor>)
    requires s.SingleIf?
    ensures AllEntries(NodesOf(s, above)) == ContextsOf(s, ConditionsOf(above, false))
    decreases s, 0, 0
  {
    var node := Node(SingleIfNode, s.cond.lines, above);
    var thenNodes := Descendants(s.thenBody, above + [SingleIfStatement(s)]);
    SingleConditions(s);
    Below(above, [SingleIfStatement(s)], false);
    AncestorsTell(s.thenBody, above + [SingleIfStatement(s)]);
    EntriesOne(node);
    EntriesAppend([node], thenNodes);
    if s.elseClause.SingleElse? {
      var slot := [SingleIfStatement(s), SingleElsePart(s)];
      Below(above, slot, false);
      AncestorsTell(s.elseClause.body, above + slot);
      EntriesAppend([node] + thenNodes, Descendants(s.elseClause.body, above + slot));
    } else {
      EntriesAppend([node] + thenNodes, []);
    }
  }

  lemma {:induction false} AncestorsTellArms(s: Stmt, i: nat, above: seq<Ancestor>)
    requires s.MultiIf? && i <= |s.arms|
    ensures AllEntries(NodesOfArms(s, i, above)) == ContextsOfArms(s, i, ConditionsOf(above, false))
    decreases s, 0, |s.arms| - i
  {
    if i < |s.arms| {
      AncestorsTellArm(s, i, above);
      AncestorsTellArms(s, i + 1, above);
      EntriesAppend(NodesOfArm(s, i, above), NodesOfArms(s, i + 1, above));
    } else if s.elseBlock.Else? {
      var slot := [IfBlock(s), ElsePart(s)];
      var node := Node(ElseHeader, s.elseBlock.header, above + slot);
      ElseConditions(s);
      Below(above, slot, false);
      AncestorsTell(s.elseBlock.body, above + slot);
      EntriesOne(node);
      EntriesAppend([node], Descendants(s.elseBlock.body, above + slot));
    }
  }

  lemma {:induction false} AncestorsTellArm(s: Stmt, i: nat, above: seq<Ancestor>)
    requires s.MultiIf? && i < |s.arms|
    ensures AllEntries(NodesOfArm(s, i, above)) == ContextsOfArm(s, i, ConditionsOf(above, false))
    decreases s, 0, 0
  {
    hide Contributed, ConditionsOf, Fails, Holds;
    var context, slot := ConditionsOf(above, false), ArmAncestors(s, i);
    var node := NodesOfArm(s, i, above)[0];
    SlotConditions(s, i, true);
    SlotConditions(s, i, false);
    Below(above, slot, true);
    Below(above, slot, false);
    Assoc(context, Fails(s, i), Holds(s, i));
    AncestorsTell(s.arms[i].body, above + slot);
    EntriesOne(node);
    EntriesAppend([node], Descendants(s.arms[i].body, above + slot));
  }

  lemma {:induction false} AncestorsTellCases(s: Stmt, i: nat, above: seq<Ancestor>)
    requires s.Select? && i <= |s.cases|
    ensures AllEntries(NodesOfCases(s, i, above)) == ContextsOfCases(s, i, ConditionsOf(above, false))
    decreases s, 0, |s.cases| - i
  {
    if i < |s.cases| {
      var below := above + [OtherAncestor];
      var node := Node(CaseHeader, s.cases[i].header, below);
      OtherConditions(above);
      AncestorsTell(s.cases[i].body, below);
      AncestorsTellCases(s, i + 1, above);
      EntriesOne(node);
      EntriesAppend([node], Descendants(s.cases[i].body, below));
      EntriesAppend([node] + Descendants(s.cases[i].body, below), NodesOfCases(s, i + 1, above));
    }
  }

  lemma {:induction false} AncestorsTellParts(s: Stmt, i: nat, above: seq<Ancestor>)
    requires s.ForeignBlock? && i <= |s.parts|
    ensures AllEntries(NodesOfParts(s, i, above)) == ContextsOfParts(s, i, ConditionsOf(above, false))
    decreases s, 0, |s.parts| - i
  {
    if i < |s.parts| {
      var below := above + [OtherAncestor];
      var node := Node(OtherNode(s.parts[i].kind), s.parts[i].header, below);
      OtherConditions(above);
      AncestorsTell(s.parts[i].body, below);
      AncestorsTellParts(s, i + 1, above);
      EntriesOne(node);
      EntriesAppend([node], Descendants(s.parts[i].body, below));
      EntriesAppend([node] + Descendants(s.parts[i].body, below), NodesOfParts(s, i + 1, above));
    }
  }

  // ---- Line ownership, declaratively ----

  ghost predicate SharedLine(entries: seq<Entry>, line: int) {
    exists i, j :: 0 <= i < j < |entries| && entries[i].Owns(line) && entries[j].Owns(line)
  }

  ghost predicate InLambda(lambdas: seq<Lines>, line: int) {
    exists k :: 0 <= k < |lambdas| && lambdas[k].start <= line <= lambdas[k].end
  }

  /** The lines that no entry may own in the report. */
  ghost predicate Excludes(excluded: set<int>, entries: seq<Entry>, lambdas: seq<Lines>) {
    forall line :: line in excluded <==> SharedLine(entries, line) || InLambda(lambdas, line)
  }

  predicate Survives(e: Entry, excluded: set<int>) {
    forall line :: e.lines.start <= line <= e.lines.end ==> line !in excluded
  }

  function Surviving(entries: seq<Entry>, excluded: set<int>): seq<Entry> {
    if entries == [] then []
    else (if Survives(entries[0], excluded) then [entries[0]] else []) + Surviving(entries[1..], excluded)
  }

  function LineSet(lines: seq<int>): set<int> {
    set x | x in lines
  }

  predicate ConditionsFit(conditions: History) {
    && |conditions| <= MAX_CONDITIONS
    && (forall c :: c in conditions ==> ConditionBytes(c) <= MAX_CONDITION_BYTES)
  }

  predicate EntryFits(e: Entry) {
    && ConditionsFit(e.conditions)
    && e.lines.end - e.lines.start <= MAX_LINE_SPAN
  }

  function ConditionBytes(c: Condition): nat {
    match c.test
    case IfTest(cond) => cond.bytes
    case CaseTest(selector, _, _) => selector.bytes
  }

  /** What an available inventory contains, for a method body and its lambda ranges. */
  ghost predicate IsInventory(r: BranchReport, body: seq<Stmt>, lambdas: seq<Lines>) {
    var all := Contexts(body, []);
    && r.Available?
    && StrictlyIncreasing(r.unavailableLines)
    && Excludes(LineSet(r.unavailableLines), all, lambdas)
    && r.entries == Surviving(all, LineSet(r.unavailableLines))
  }

  /** Every size limit that does not depend on serialisation. */
  ghost predicate WithinLimits(body: seq<Stmt>, lambdas: seq<Lines>) {
    var all := Contexts(body, []);
    && (forall k :: 0 <= k < |lambdas| ==> lambdas[k].end - lambdas[k].start <= 1024)
    && (forall i :: 0 <= i < |all| ==>
          && |all[i].conditions| <= 16 && !HasLongCondition(all[i].conditions)
          && all[i].lines.end - all[i].lines.start <= 1024)
    && |all| <= 256
    && (exists excluded :: Excludes(excluded, all, lambdas) && |excluded| <= 1024)
  }

  predicate HasLongCondition(conditions: History) {
    exists c :: c in conditions && ConditionBytes(c) > 1024
  }

  /** Why an entry list is refused: too many or too long conditions, too many lines, too many entries. */
  ghost predicate EntryProblem(reason: string, all: seq<Entry>) {
    || (reason == "condition_budget"
        && exists i :: 0 <= i < |all| && (|all[i].conditions| > 16 || HasLongCondition(all[i].conditions)))
    || (reason == "statement_line_budget" && exists i :: 0 <= i < |all| && all[i].lines.end - all[i].lines.start > 1024)
    || (reason == "entry_budget" && |all| > 256)
  }

  /** The reason given for an unavailable inventory is true. */
  ghost predicate RefusedFor(reason: string, body: seq<Stmt>, lambdas: seq<Lines>, directives: bool,
                             fits: BranchReport -> bool) {
    || (reason == "file_directives" && directives)
    || (reason == "unavailable_line_budget"
        && (|| (exists k :: 0 <= k < |lambdas| && lambdas[k].end - lambdas[k].start > 1024)
            || (forall lines :: Excludes(lines, Contexts(body, []), lambdas) ==> |lines| > 1024)))
    || EntryProblem(reason, Contexts(body, []))
    || (reason == "inventory_response_budget" && exists full :: IsInventory(full, body, lambdas) && !fits(full))
  }

  // ---- The method ----

  method InventoryBranches(body: seq<Stmt>, lambdas: seq<Lines>, directives: bool, fits: BranchReport -> bool)
    returns (r: BranchReport)
    ensures r.Available? ==> IsInventory(r, body, lambdas)
    ensures r.Available? ==> !directives && WithinLimits(body, lambdas) && fits(r)
    ensures !directives && WithinLimits(body, lambdas) && r.Unavailable? ==>
              exists full :: IsInventory(full, body, lambdas) && !fits(full)
    ensures r.Unavailable? ==> RefusedFor(r.reason, body, lambdas, directives, fits)
  {
    if directives {
      return Unavailable("file_directives");
    }
    ghost var all := Contexts(body, []);
    var excluded: set<int> := {};
    for k := 0 to |lambdas|
      invariant forall j :: 0 <= j < k ==> lambdas[j].end - lambdas[j].start <= MAX_LINE_SPAN
      invariant forall line :: line in excluded <==> InLambda(lambdas[..k], line)
    {
      if lambdas[k].end - lambdas[k].start > MAX_LINE_SPAN {
        return Unavailable("unavailable_line_budget");
      }
      ghost var before := excluded;
      for line := lambdas[k].start to lambdas[k].end + 1
        invariant forall l :: l in excluded <==> l in before || lambdas[k].start <= l < line
      {
        excluded := excluded + {line};
      }
      LambdaStep(lambdas, k);
    }
    assert lambdas[..|lambdas|] == lambdas;
    AncestorsTell(body, []);
    var entries, problem := CollectEntries(Descendants(body, []));
    if problem != "" {
      return Unavailable(problem);
    }
    ghost var inLambda := excluded;
    var shared := SharedLines(entries);
    excluded := excluded + shared;
    assert Excludes(excluded, all, lambdas);
    if |excluded| > MAX_UNAVAILABLE_LINES {
      ExcludesUnique(all, lambdas, excluded);
      return Unavailable("unavailable_line_budget");
    }
    var lines := OrderLines(excluded);
    assert forall x :: x in LineSet(lines) <==> x in excluded;
    assert LineSet(lines) == excluded;
    r := Available(Surviving(entries, excluded), lines);
    assert IsInventory(r, body, lambdas);
    if !fits(r) {
      return Unavailable("inventory_response_budget");
    }
  }

  lemma LambdaStep(lambdas: seq<Lines>, k: nat)
    requires k < |lambdas|
    ensures forall line :: InLambda(lambdas[..k + 1], line) <==>
                           InLambda(lambdas[..k], line) || lambdas[k].start <= line <= lambdas[k].end
  {
    var now, before := lambdas[..k + 1], lambdas[..k];
    assert now == before + [lambdas[k]];
    forall line | InLambda(before, line)
      ensures InLambda(now, line)
    {
      var j :| 0 <= j < k && before[j].start <= line <= before[j].end;
      assert now[j] == before[j];
    }
    forall line | lambdas[k].start <= line <= lambdas[k].end
      ensures InLambda(now, line)
    {
      assert now[k] == lambdas[k];
    }
    forall line | InLambda(now, line) && !(lambdas[k].start <= line <= lambdas[k].end)
      ensures InLambda(before, line)
    {
      var j :| 0 <= j < k + 1 && now[j].start <= line <= now[j].end;
      assert now[j] == before[j];
    }
  }

  lemma ExcludesUnique(entries: seq<Entry>, lambdas: seq<Lines>, excluded: set<int>)
    requires Excludes(excluded, entries, lambdas)
    ensures forall other :: Excludes(other, entries, lambdas) ==> other == excluded
  {
    forall other | Excludes(other, entries, lambdas)
      ensures other == excluded
    {
      assert forall line :: line in other <==> line in excluded;
    }
  }

  /** Walks the ancestors of one statement, outermost first; in an If block, the child on the way to the
      statement is the next ancestor, or the statement itself. */
  method CollectConditions(ancestors: seq<Ancestor>, header: bool) returns (conditions: History)
    ensures conditions == ConditionsOf(ancestors, header)
  {
    hide BlockPart;
    conditions := [];
    for k := 0 to |ancestors|
      invariant ConditionsOf(ancestors, header) == conditions + ConditionsOf(ancestors[k..], header)
    {
      ghost var rest := ancestors[k..];
      assert rest[0] == ancestors[k] && rest[1..] == ancestors[k + 1..];
      var child := if k + 1 < |ancestors| then Some(ancestors[k + 1]) else None;
      assert child == Child(rest);
      var more: History := [];
      match ancestors[k] {
        case IfBlock(block) => more := CollectBlock(block, child, !header || k + 2 < |ancestors|);
        case SingleIfStatement(single) =>
          if single.SingleIf? {
            var inElse := child.Some? && child.value.SingleElsePart?;
            more := [Condition(IfTest(single.cond), !inElse)];
          }
        case _ =>
      }
      assert more == Contributed(rest, header);
      Assoc(conditions, more, ConditionsOf(ancestors[k + 1..], header));
      conditions := conditions + more;
    }
  }

  /** One If block and its child on the way to the statement. */
  method CollectBlock(block: Stmt, child: Option<Ancestor>, inside: bool) returns (more: History)
    ensures more == BlockPart(block, child, inside)
  {
    more := [];
    if !block.MultiIf? || block.arms == [] || (child.None? && !inside) {
      return;
    }
    if child.Some? && child.value.ElseIfPart? {
      if child.value.arm < |block.arms| {
        more := CollectFails(block, child.value.arm);
        if inside {
          more := more + [Condition(IfTest(block.arms[child.value.arm].cond), true)];
        }
      }
    } else if child.Some? && child.value.ElsePart? {
      more := CollectFails(block, |block.arms|);
    } else {
      more := [Condition(IfTest(block.arms[0].cond), true)];
    }
  }

  method CollectFails(block: Stmt, n: nat) returns (more: History)
    requires block.MultiIf? && n <= |block.arms|
    ensures more == Fails(block, n)
  {
    more := [];
    for k := 0 to n
      invariant more == Fails(block, k)
    {
      more := more + [Condition(IfTest(block.arms[k].cond), false)];
    }
  }

  /** Reads every node's conditions off its ancestors and applies the per-entry limits. */
  method CollectEntries(nodes: seq<Node>) returns (entries: seq<Entry>, problem: string)
    ensures problem == "" <==>
              |nodes| <= MAX_ENTRIES && forall i :: 0 <= i < |nodes| ==> EntryFits(AllEntries(nodes)[i])
    ensures problem == "" ==> entries == AllEntries(nodes)
    ensures problem != "" ==> EntryProblem(problem, AllEntries(nodes))
  {
    entries := [];
    for i := 0 to |nodes|
      invariant |entries| == i <= MAX_ENTRIES
      invariant forall j :: 0 <= j < i ==> entries[j] == AllEntries(nodes)[j] && EntryFits(entries[j])
    {
      var conditions := CollectConditions(nodes[i].ancestors, IsIfHeader(nodes[i].kind));
      var entry := Entry(nodes[i].kind, nodes[i].lines, conditions);
      assert entry == AllEntries(nodes)[i];
      if !ConditionsFit(conditions) {
        return [], "condition_budget";
      }
      if entry.lines.end - entry.lines.start > MAX_LINE_SPAN {
        return [], "statement_line_budget";
      }
      entries := entries + [entry];
      if |entries| > MAX_ENTRIES {
        return [], "entry_budget";
      }
    }
    problem := "";
  }

  function CountOwners(entries: seq<Entry>, line: int): nat {
    if entries == [] then 0
    else CountOwners(entries[..|entries| - 1], line) + (if entries[|entries| - 1].Owns(line) then 1 else 0)
  }

  lemma {:induction false} OwnerExists(entries: seq<Entry>, line: int)
    ensures CountOwners(entries, line) >= 1 <==> exists i :: 0 <= i < |entries| && entries[i].Owns(line)
  {
    if entries != [] {
      var init := entries[..|entries| - 1];
      OwnerExists(init, line);
      if i :| 0 <= i < |entries| && entries[i].Owns(line) {
        if i < |init| {
          assert init[i].Owns(line);
        }
      }
    }
  }

  lemma {:induction false} TwoOwners(entries: seq<Entry>, line: int)
    ensures CountOwners(entries, line) >= 2 <==> SharedLine(entries, line)
  {
    if entries != [] {
      var init := entries[..|entries| - 1];
      TwoOwners(init, line);
      OwnerExists(init, line);
      if SharedLine(entries, line) {
        var i, j :| 0 <= i < j < |entries| && entries[i].Owns(line) && entries[j].Owns(line);
        assert init[i].Owns(line);
        if j < |init| {
          assert init[j].Owns(line);
        }
      }
      if SharedLine(init, line) {
        var i, j :| 0 <= i < j < |init| && init[i].Owns(line) && init[j].Owns(line);
        assert entries[i].Owns(line) && entries[j].Owns(line);
      }
    }
  }

  function Get(owners: map<int, nat>, line: int): nat {
    if line in owners then owners[line] else 0
  }

  /** Counts owners per line and keeps the lines with more than one. */
  method SharedLines(entries: seq<Entry>) returns (shared: set<int>)
    ensures forall line :: line in shared <==> SharedLine(entries, line)
  {
    var owners: map<int, nat> := map[];
    for i := 0 to |entries|
      invariant forall line :: Get(owners, line) == CountOwners(entries[..i], line)
    {
      var e := entries[i];
      ghost var before := owners;
      for line := e.lines.start to e.lines.end + 1
        invariant forall l :: Get(owners, l) == Get(before, l) + (if e.lines.start <= l < line then 1 else 0)
      {
        owners := owners[line := Get(owners, line) + 1];
      }
      assert entries[..i + 1][..i] == entries[..i];
    }
    assert entries[..|entries|] == entries;
    shared := set line | line in owners && owners[line] > 1;
    forall line
      ensures line in shared <==> SharedLine(entries, line)
    {
      TwoOwners(entries, line);
      assert Get(owners, line) == CountOwners(entries, line);
    }
  }

  // ---- What the inventory guarantees ----

  lemma {:induction false} SurvivorIndex(entries: seq<Entry>, excluded: set<int>, k: nat) returns (i: nat)
    requires k < |Surviving(entries, excluded)|
    ensures i < |entries| && entries[i] == Surviving(entries, excluded)[k] && Survives(entries[i], excluded)
  {
    if Survives(entries[0], excluded) && k == 0 {
      i := 0;
    } else {
      var rest := SurvivorIndex(entries[1..], excluded, if Survives(entries[0], excluded) then k - 1 else k);
      i := rest + 1;
    }
  }

  lemma {:induction false} TwoSurvivors(entries: seq<Entry>, excluded: set<int>, j: nat, k: nat)
    returns (a: nat, b: nat)
    requires j < k < |Surviving(entries, excluded)|
    ensures a < b < |entries|
    ensures entries[a] == Surviving(entries, excluded)[j] && entries[b] == Surviving(entries, excluded)[k]
  {
    hide Survives;
    var kept := Survives(entries[0], excluded);
    if kept && j == 0 {
      b := SurvivorIndex(entries[1..], excluded, k - 1);
      a, b := 0, b + 1;
    } else {
      a, b := TwoSurvivors(entries[1..], excluded, if kept then j - 1 else j, if kept then k - 1 else k);
      a, b := a + 1, b + 1;
    }
  }

  /** Surviving entries own disjoint lines, none of them unavailable; a line with two owners
      or inside a lambda is unavailable. */
  lemma LinesHaveOneOwner(r: BranchReport, body: seq<Stmt>, lambdas: seq<Lines>)
    requires IsInventory(r, body, lambdas)
    ensures forall i, j, line :: 0 <= i < j < |r.entries| && r.entries[i].Owns(line) ==> !r.entries[j].Owns(line)
    ensures forall i, line :: 0 <= i < |r.entries| && r.entries[i].Owns(line) ==> line !in r.unavailableLines
    ensures forall line :: SharedLine(Contexts(body, []), line) || InLambda(lambdas, line)
                           <==> line in r.unavailableLines
  {
    var all := Contexts(body, []);
    var excluded := LineSet(r.unavailableLines);
    forall i, line | 0 <= i < |r.entries| && r.entries[i].Owns(line)
      ensures line !in r.unavailableLines
    {
      var k := SurvivorIndex(all, excluded, i);
      assert line !in excluded;
    }
    forall i, j, line | 0 <= i < j < |r.entries| && r.entries[i].Owns(line)
      ensures !r.entries[j].Owns(line)
    {
      var a, b := TwoSurvivors(all, excluded, i, j);
      assert line !in excluded;
      assert !SharedLine(all, line);
    }
    forall line
      ensures SharedLine(all, line) || InLambda(lambdas, line) <==> line in r.unavailableLines
    {
      assert line in excluded <==> line in r.unavailableLines;
    }
  }

  lemma {:induction false} SurvivingMembers(entries: seq<Entry>, excluded: set<int>, e: Entry)
    ensures e in Surviving(entries, excluded) <==> e in entries && Survives(e, excluded)
  {
    if entries != [] {
      SurvivingMembers(entries[1..], excluded, e);
    }
  }

  /** An entry is reported exactly if it is a statement's or header's and none of its lines is
      unavailable, that is, shared or in a lambda. */
  lemma SurvivorsAreExact(r: BranchReport, body: seq<Stmt>, lambdas: seq<Lines>, e: Entry)
    requires IsInventory(r, body, lambdas)
    ensures e in r.entries <==>
              && e in Contexts(body, [])
              && forall line :: e.lines.start <= line <= e.lines.end ==> line !in r.unavailableLines
  {
    SurvivingMembers(Contexts(body, []), LineSet(r.unavailableLines), e);
    assert forall line :: line in LineSet(r.unavailableLines) <==> line in r.unavailableLines;
  }
}
