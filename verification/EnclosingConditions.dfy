/** Which entries a method's inventory has, told statement by statement: each statement and header with
    the outcomes of the If conditions around it, no more and no less. */
module EnclosingConditions {

  import opened Wrappers
  import opened VbSyntax
  import opened ControlFlow
  import opened BranchContexts

  /** What is known inside the b-th block of a statement: in an If block, that the conditions before it
      are false and its own is true, and in the Else that all are false. */
  function Guard(s: Stmt, b: nat): History
    requires b < |Blocks(s)|
  {
    match s
    case SingleIf(cond, _, _) => [Condition(IfTest(cond), b == 0)]
    case MultiIf(arms, _) =>
      seq(b, j requires 0 <= j < b => Condition(IfTest(arms[j].cond), false))
      + (if b < |arms| then [Condition(IfTest(arms[b].cond), true)] else [])
    case _ => []
  }

  /** What is known at the end of the way, outermost first. */
  function Guards(stmts: seq<Stmt>, way: seq<Turn>): History
    requires ListAt(stmts, way).Some?
    decreases |way|
  {
    if way == [] then []
    else
      var s := stmts[way[0].index];
      Guard(s, way[0].block) + Guards(Blocks(s)[way[0].block], way[1..])
  }

  /** The entries of a statement itself and of the headers of its parts. An If or ElseIf header comes
      before its own outcome. */
  function Own(x: Stmt, context: History): seq<Entry> {
    match x
    case Return(_, lines, _) => [Entry(ReturnNode, lines, context)]
    case SingleIf(cond, _, _) => [Entry(SingleIfNode, cond.lines, context)]
    case MultiIf(arms, elseBlock) =>
      seq(|arms|, i requires 0 <= i < |arms| =>
        Entry(if i == 0 then IfHeader else ElseIfHeader, arms[i].header,
              context + seq(i, j requires 0 <= j < i => Condition(IfTest(arms[j].cond), false))))
      + (if elseBlock.NoElse? then []
         else [Entry(ElseHeader, elseBlock.header,
                     context + seq(|arms|, j requires 0 <= j < |arms| => Condition(IfTest(arms[j].cond), false)))])
    case Select(header, _, cases) =>
      [Entry(SelectHeader, header, context)]
      + seq(|cases|, i requires 0 <= i < |cases| => Entry(CaseHeader, cases[i].header, context))
    case Plain(kind, lines) => [Entry(OtherNode(kind), lines, context)]
    case Foreign(kind, lines) => [Entry(OtherNode(kind), lines, context)]
    case ForeignBlock(_, _, parts) =>
      seq(|parts|, i requires 0 <= i < |parts| => Entry(OtherNode(parts[i].kind), parts[i].header, context))
  }

  /** The entry is a statement's at the end of the way. */
  ghost predicate Told(stmts: seq<Stmt>, way: seq<Turn>, context: History, e: Entry) {
    ListAt(stmts, way).Some? && exists x :: x in ListAt(stmts, way).value && e in Own(x, context + Guards(stmts, way))
  }

  ghost predicate Inside(s: Stmt, context: History, e: Entry) {
    e in Own(s, context) || exists b :: 0 <= b < |Blocks(s)| && e in Contexts(Blocks(s)[b], context + Guard(s, b))
  }

  lemma {:induction false} OfSome(stmts: seq<Stmt>, context: History, e: Entry)
    ensures e in Contexts(stmts, context) <==> exists i :: 0 <= i < |stmts| && e in ContextsOf(stmts[i], context)
  {
    if stmts != [] {
      OfSome(stmts[1..], context, e);
      assert forall i :: 1 <= i < |stmts| ==> stmts[i] == stmts[1..][i - 1];
    }
  }

  /** Blocks with headers of their own. */
  predicate HasParts(s: Stmt) {
    s.MultiIf? || s.Select? || s.ForeignBlock?
  }

  /** An entry of the k-th block, its header included. */
  ghost predicate FromBlock(s: Stmt, k: nat, context: History, e: Entry)
    requires HasParts(s)
  {
    && k < |Blocks(s)|
    && (|| e == Own(s, context)[if s.Select? then k + 1 else k]
        || e in Contexts(Blocks(s)[k], context + Guard(s, k)))
  }

  ghost predicate FromBlocks(s: Stmt, i: nat, context: History, e: Entry)
    requires HasParts(s)
  {
    exists k: nat :: i <= k && FromBlock(s, k, context, e)
  }

  lemma NextBlock(s: Stmt, i: nat, context: History, e: Entry)
    requires HasParts(s)
    ensures FromBlocks(s, i, context, e) <==> FromBlock(s, i, context, e) || FromBlocks(s, i + 1, context, e)
  {
    hide FromBlock;
  }

  lemma NoBlock(s: Stmt, i: nat, context: History, e: Entry)
    requires HasParts(s) && i >= |Blocks(s)|
    ensures !FromBlocks(s, i, context, e)
  {
    hide Own, Contexts, Guard;
  }

  lemma FromOneArm(s: Stmt, i: nat, context: History, e: Entry)
    requires s.MultiIf? && i < |s.arms|
    ensures FromBlock(s, i, context, e) <==> e in ContextsOfArm(s, i, context)
  {
    hide Contexts;
    assert Guard(s, i) == Fails(s, i) + Holds(s, i);
    assert context + (Fails(s, i) + Holds(s, i)) == context + Fails(s, i) + Holds(s, i);
    assert Own(s, context)[i] == ArmHeader(s, i, context);
  }

  lemma FromElse(s: Stmt, context: History, e: Entry)
    requires s.MultiIf?
    ensures FromBlock(s, |s.arms|, context, e) <==> e in ContextsOfArms(s, |s.arms|, context)
  {
    hide Contexts;
    if s.elseBlock.Else? {
      assert Guard(s, |s.arms|) == Fails(s, |s.arms|);
    }
  }

  lemma {:induction false} FromArms(s: Stmt, i: nat, context: History, e: Entry)
    requires s.MultiIf? && i <= |s.arms|
    ensures e in ContextsOfArms(s, i, context) <==> FromBlocks(s, i, context, e)
    decreases |s.arms| - i
  {
    hide Contexts, FromBlocks, FromBlock;
    NextBlock(s, i, context, e);
    if i < |s.arms| {
      FromOneArm(s, i, context, e);
      FromArms(s, i + 1, context, e);
    } else {
      FromElse(s, context, e);
      NoBlock(s, i + 1, context, e);
    }
  }

  lemma FromOneCase(s: Stmt, i: nat, context: History, e: Entry)
    requires s.Select? && i < |s.cases|
    ensures FromBlock(s, i, context, e)
            <==> e == Entry(CaseHeader, s.cases[i].header, context) || e in Contexts(s.cases[i].body, context)
  {
    hide Contexts;
    assert Own(s, context)[i + 1] == Entry(CaseHeader, s.cases[i].header, context);
    assert context + Guard(s, i) == context;
  }

  lemma {:induction false} FromCases(s: Stmt, i: nat, context: History, e: Entry)
    requires s.Select? && i <= |s.cases|
    ensures e in ContextsOfCases(s, i, context) <==> FromBlocks(s, i, context, e)
    decreases |s.cases| - i
  {
    hide Contexts, FromBlocks, FromBlock;
    NextBlock(s, i, context, e);
    if i < |s.cases| {
      FromOneCase(s, i, context, e);
      FromCases(s, i + 1, context, e);
    } else {
      NoBlock(s, i, context, e);
    }
  }

  lemma {:induction false} FromParts(s: Stmt, i: nat, context: History, e: Entry)
    requires s.ForeignBlock? && i <= |s.parts|
    ensures e in ContextsOfParts(s, i, context) <==> FromBlocks(s, i, context, e)
    decreases |s.parts| - i
  {
    hide Contexts, FromBlocks;
    NextBlock(s, i, context, e);
    assert context + [] == context;
    if i < |s.parts| {
      FromParts(s, i + 1, context, e);
    } else {
      NoBlock(s, i, context, e);
    }
  }

  lemma OwnSize(s: Stmt, context: History)
    requires HasParts(s)
    ensures |Own(s, context)| == |Blocks(s)| + if s.Select? then 1 else 0
  {
  }

  lemma PartsInside(s: Stmt, context: History, e: Entry)
    requires HasParts(s)
    ensures Inside(s, context, e) <==> (s.Select? && e == Own(s, context)[0]) || FromBlocks(s, 0, context, e)
  {
    hide Contexts, Guard, Own, Blocks;
    OwnSize(s, context);
    var own, first := Own(s, context), if s.Select? then 1 else 0;
    if e in own {
      var k :| 0 <= k < |own| && own[k] == e;
      if k >= first {
        assert FromBlock(s, k - first, context, e);
      }
    }
    if b :| 0 <= b < |Blocks(s)| && e in Contexts(Blocks(s)[b], context + Guard(s, b)) {
      assert FromBlock(s, b, context, e);
    }
    if FromBlocks(s, 0, context, e) {
      var k: nat :| FromBlock(s, k, context, e);
      assert own[k + first] in own;
    }
  }

  lemma OfOne(s: Stmt, context: History, e: Entry)
    ensures e in ContextsOf(s, context) <==> Inside(s, context, e)
  {
    hide Contexts, FromBlocks;
    match s
    case SingleIf(cond, thenBody, elseClause) =>
      assert Blocks(s)[0] == thenBody;
      if elseClause.SingleElse? {
        assert Blocks(s)[1] == elseClause.body;
      }
    case MultiIf(_, _) =>
      FromArms(s, 0, context, e);
      PartsInside(s, context, e);
    case Select(_, _, _) =>
      FromCases(s, 0, context, e);
      PartsInside(s, context, e);
    case ForeignBlock(_, _, _) =>
      FromParts(s, 0, context, e);
      PartsInside(s, context, e);
    case _ =>
  }

  lemma ToldOneTurn(stmts: seq<Stmt>, i: nat, b: nat, way: seq<Turn>, context: History, e: Entry)
    requires i < |stmts| && b < |Blocks(stmts[i])|
    ensures Told(stmts, [Turn(i, b)] + way, context, e)
            <==> Told(Blocks(stmts[i])[b], way, context + Guard(stmts[i], b), e)
  {
    var longer := [Turn(i, b)] + way;
    OneTurn(stmts, i, b, way);
    assert longer[1..] == way;
    if ListAt(stmts, longer).Some? {
      var inner := Guards(Blocks(stmts[i])[b], way);
      assert context + (Guard(stmts[i], b) + inner) == context + Guard(stmts[i], b) + inner;
    }
  }

  /** A statement that is told of has its entry. */
  lemma {:induction false} ToldIsListed(stmts: seq<Stmt>, way: seq<Turn>, context: History, e: Entry)
    requires Told(stmts, way, context, e)
    ensures e in Contexts(stmts, context)
    decreases |way|
  {
    OfSome(stmts, context, e);
    if way == [] {
      var x :| x in stmts && e in Own(x, context + []);
      assert context + [] == context;
      OfOne(x, context, e);
    } else {
      var i, b := way[0].index, way[0].block;
      assert [Turn(i, b)] + way[1..] == way;
      ToldOneTurn(stmts, i, b, way[1..], context, e);
      ToldIsListed(Blocks(stmts[i])[b], way[1..], context + Guard(stmts[i], b), e);
      OfOne(stmts[i], context, e);
    }
  }

  /** An entry is a statement's that is told of. */
  lemma {:induction false} ListedIsTold(stmts: seq<Stmt>, context: History, e: Entry) returns (way: seq<Turn>)
    requires e in Contexts(stmts, context)
    ensures Told(stmts, way, context, e)
    decreases stmts, 1
  {
    OfSome(stmts, context, e);
    var i :| 0 <= i < |stmts| && e in ContextsOf(stmts[i], context);
    OfOne(stmts[i], context, e);
    if e in Own(stmts[i], context) {
      way := [];
      assert context + Guards(stmts, way) == context;
      assert stmts[i] in ListAt(stmts, way).value;
    } else {
      var b, inner := ListedInside(stmts[i], context, e);
      ToldOneTurn(stmts, i, b, inner, context, e);
      way := [Turn(i, b)] + inner;
    }
  }

  lemma {:induction false} ListedInside(s: Stmt, context: History, e: Entry) returns (b: nat, way: seq<Turn>)
    requires exists b :: 0 <= b < |Blocks(s)| && e in Contexts(Blocks(s)[b], context + Guard(s, b))
    ensures b < |Blocks(s)| && Told(Blocks(s)[b], way, context + Guard(s, b), e)
    decreases s, 0
  {
    b :| 0 <= b < |Blocks(s)| && e in Contexts(Blocks(s)[b], context + Guard(s, b));
    var inside := context + Guard(s, b);
    match s
    case SingleIf(_, thenBody, elseClause) =>
      if b == 0 {
        way := ListedIsTold(thenBody, inside, e);
      } else {
        way := ListedIsTold(elseClause.body, inside, e);
      }
    case MultiIf(arms, elseBlock) =>
      if b < |arms| {
        way := ListedIsTold(arms[b].body, inside, e);
      } else {
        way := ListedIsTold(elseBlock.body, inside, e);
      }
    case Select(_, _, cases) => way := ListedIsTold(cases[b].body, inside, e);
    case ForeignBlock(_, _, parts) => way := ListedIsTold(parts[b].body, inside, e);
  }

  /** The entries of a method, before any line is excluded, are exactly the statements and headers at
      all places in it, each with exactly the outcomes of the If conditions around that place. */
  lemma EntriesAreStatements(body: seq<Stmt>, e: Entry)
    ensures e in Contexts(body, []) <==> exists way: seq<Turn> :: Told(body, way, [], e)
  {
    if e in Contexts(body, []) {
      var way := ListedIsTold(body, [], e);
    }
    if way: seq<Turn> :| Told(body, way, [], e) {
      ToldIsListed(body, way, [], e);
    }
  }
}
