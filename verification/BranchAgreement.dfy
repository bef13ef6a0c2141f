/** The branch inventory agrees with execution and with the path walk: the conditions it lists for a
    statement have been evaluated, with these outcomes and in this order, whenever control gets there. */
module BranchAgreement {

  import opened LineOrder
  import opened VbSyntax
  import opened ControlFlow
  import opened PathEnumeration
  import opened BranchContexts

  /** a is a subsequence of b. */
  ghost predicate Subsequence(a: History, b: History) {
    || a == []
    || (&& b != []
        && (|| (a[|a| - 1] == b[|b| - 1] && Subsequence(a[..|a| - 1], b[..|b| - 1]))
            || Subsequence(a, b[..|b| - 1])))
  }

  lemma ExtendBoth(a: History, b: History, c: Condition)
    requires Subsequence(a, b)
    ensures Subsequence(a + [c], b + [c])
  {
    assert (a + [c])[..|a|] == a && (b + [c])[..|b|] == b;
  }

  lemma ExtendRight(a: History, b: History, c: Condition)
    requires Subsequence(a, b)
    ensures Subsequence(a, b + [c])
  {
    assert (b + [c])[..|b|] == b;
  }

  lemma {:induction false} DropLast(a: History, c: Condition, b: History)
    requires Subsequence(a + [c], b)
    ensures Subsequence(a, b)
  {
    assert (a + [c])[..|a|] == a;
    var b' := b[..|b| - 1];
    assert b == b' + [b[|b| - 1]];
    if Subsequence(a + [c], b') {
      DropLast(a, c, b');
    }
    ExtendRight(a, b', b[|b| - 1]);
  }

  lemma {:induction false} DropTail(a: History, tail: History, b: History)
    requires Subsequence(a + tail, b)
    ensures Subsequence(a, b)
  {
    if tail == [] {
      assert a + tail == a;
    } else {
      var init := tail[..|tail| - 1];
      assert a + tail == (a + init) + [tail[|tail| - 1]];
      DropLast(a + init, tail[|tail| - 1], b);
      DropTail(a, init, b);
    }
  }

  // ---- Executions ----

  /** Control reaches a statement or a header: the evaluations of the If conditions that it is inside of
      or past, and all evaluations so far. */
  datatype Visit = Visit(kind: NodeKind, lines: Lines, around: History, history: History)

  /** The statements that execution reaches, in order; `around` is what the surrounding Ifs evaluated. */
  function Visits(stmts: seq<Stmt>, around: History, h: History, o: Oracle): seq<Visit>
    decreases stmts
  {
    if stmts == [] then []
    else
      VisitsOf(stmts[0], around, h, o)
      + match Exec(stmts[0], h, o)
        case Returned(_, _, _) => []
        case FellThrough(h') => Visits(stmts[1..], around, h', o)
  }

  function VisitsOf(s: Stmt, around: History, h: History, o: Oracle): seq<Visit>
    decreases s, 1, 0
  {
    match s
    case Return(_, lines, _) => [Visit(ReturnNode, lines, around, h)]
    case SingleIf(cond, thenBody, elseClause) =>
      var outcome := o(h, IfTest(cond));
      var evaluated := [Condition(IfTest(cond), outcome)];
      [Visit(SingleIfNode, cond.lines, around, h)]
      + (if outcome then Visits(thenBody, around + evaluated, h + evaluated, o)
         else if elseClause.SingleElse? then Visits(elseClause.body, around + evaluated, h + evaluated, o)
         else [])
    case MultiIf(_, _) => VisitsOfArms(s, 0, around, h, o)
    case Select(header, _, _) => [Visit(SelectHeader, header, around, h)] + VisitsOfCases(s, 0, around, h, o)
    case Plain(kind, lines) => [Visit(OtherNode(kind), lines, around, h)]
    case Foreign(kind, lines) => [Visit(OtherNode(kind), lines, around, h)]
    case ForeignBlock(_, _, _) => []
  }

  /** From the i-th arm on; the evaluations of the arms before it belong to what is around. */
  function VisitsOfArms(s: Stmt, i: nat, around: History, h: History, o: Oracle): seq<Visit>
    requires s.MultiIf? && i <= |s.arms|
    decreases s, 0, |s.arms| - i
  {
    if i == |s.arms| then
      if s.elseBlock.NoElse? then []
      else [Visit(ElseHeader, s.elseBlock.header, around, h)] + Visits(s.elseBlock.body, around, h, o)
    else
      var outcome := o(h, IfTest(s.arms[i].cond));
      var evaluated := [Condition(IfTest(s.arms[i].cond), outcome)];
      [HeaderVisit(s, i, around, h)]
      + (if outcome then Visits(s.arms[i].body, around + evaluated, h + evaluated, o)
         else VisitsOfArms(s, i + 1, around + evaluated, h + evaluated, o))
  }

  function HeaderVisit(s: Stmt, i: nat, around: History, h: History): Visit
    requires s.MultiIf? && i < |s.arms|
  {
    Visit(if i == 0 then IfHeader else ElseIfHeader, s.arms[i].header, around, h)
  }

  function VisitsOfCases(s: Stmt, i: nat, around: History, h: History, o: Oracle): seq<Visit>
    requires s.Select? && i <= |s.cases|
    decreases s, 0, |s.cases| - i
  {
    if i == |s.cases| then []
    else
      [Visit(CaseHeader, s.cases[i].header, around, h)]
      + (if s.cases[i].IsCaseElse() then Visits(s.cases[i].body, around, h, o)
         else
           var test := CaseTestOf(s, i);
           if o(h, test) then Visits(s.cases[i].body, around, Decide(h, test, o), o)
           else VisitsOfCases(s, i + 1, around, Decide(h, test, o), o))
  }

  /** Every visit is to an entry that lists just what the Ifs around it evaluated. */
  ghost predicate Accounted(visits: seq<Visit>, entries: seq<Entry>) {
    forall v :: v in visits ==> Entry(v.kind, v.lines, v.around) in entries && Subsequence(v.around, v.history)
  }

  /** What execution leaves behind still contains the enclosing conditions. */
  ghost predicate Carries(t: Trace, context: History) {
    t.FellThrough? ==> Subsequence(context, t.history)
  }

  lemma AccountBoth(a: seq<Visit>, m: seq<Entry>, b: seq<Visit>, n: seq<Entry>)
    requires Accounted(a, m) && Accounted(b, n)
    ensures Accounted(a + b, m + n)
  {
  }

  lemma AccountIn(a: seq<Visit>, m: seq<Entry>, n: seq<Entry>)
    requires Accounted(a, m) && forall e :: e in m ==> e in n
    ensures Accounted(a, n)
  {
  }

  lemma Loosen(context: History, tail: History, t: Trace)
    requires Carries(t, context + tail)
    ensures Carries(t, context)
  {
    if t.FellThrough? {
      DropTail(context, tail, t.history);
    }
  }

  lemma {:induction false} ReachAll(stmts: seq<Stmt>, context: History, h: History, o: Oracle)
    requires Subsequence(context, h)
    ensures Accounted(Visits(stmts, context, h, o), Contexts(stmts, context))
    ensures Carries(ExecAll(stmts, h, o), context)
    decreases stmts
  {
    if stmts != [] {
      ReachOne(stmts[0], context, h, o);
      match Exec(stmts[0], h, o) {
        case Returned(_, _, _) =>
          AccountBoth(VisitsOf(stmts[0], context, h, o), ContextsOf(stmts[0], context),
                      [], Contexts(stmts[1..], context));
        case FellThrough(h') =>
          ReachAll(stmts[1..], context, h', o);
          AccountBoth(VisitsOf(stmts[0], context, h, o), ContextsOf(stmts[0], context),
                      Visits(stmts[1..], context, h', o), Contexts(stmts[1..], context));
      }
    }
  }

  lemma {:induction false} ReachOne(s: Stmt, context: History, h: History, o: Oracle)
    requires Subsequence(context, h)
    ensures Accounted(VisitsOf(s, context, h, o), ContextsOf(s, context))
    ensures Carries(Exec(s, h, o), context)
    decreases s, 1, 0
  {
    match s
    case SingleIf(_, _, _) => ReachSingle(s, context, h, o);
    case MultiIf(_, _) =>
      assert context + Fails(s, 0) == context;
      ReachArms(s, 0, context, h, o);
    case Select(header, _, _) =>
      ReachCases(s, 0, context, h, o);
      AccountBoth([Visit(SelectHeader, header, context, h)], [Entry(SelectHeader, header, context)],
                  VisitsOfCases(s, 0, context, h, o), ContextsOfCases(s, 0, context));
    case _ =>
  }

  lemma {:induction false} ReachSingle(s: Stmt, context: History, h: History, o: Oracle)
    requires s.SingleIf? && Subsequence(context, h)
    ensures Accounted(VisitsOf(s, context, h, o), ContextsOf(s, context))
    ensures Carries(Exec(s, h, o), context)
    decreases s, 0, 0
  {
    var test := IfTest(s.cond);
    var outcome := Condition(test, o(h, test));
    ExtendBoth(context, h, outcome);
    ExtendRight(context, h, outcome);
    var header, visit := Entry(SingleIfNode, s.cond.lines, context), Visit(SingleIfNode, s.cond.lines, context, h);
    if o(h, test) {
      ReachAll(s.thenBody, context + [outcome], Decide(h, test, o), o);
      Loosen(context, [outcome], Exec(s, h, o));
      AccountBoth([visit], [header], Visits(s.thenBody, context + [outcome], Decide(h, test, o), o),
                  Contexts(s.thenBody, context + [outcome]));
    } else if s.elseClause.SingleElse? {
      ReachAll(s.elseClause.body, context + [outcome], Decide(h, test, o), o);
      Loosen(context, [outcome], Exec(s, h, o));
      AccountBoth([visit], [header], Visits(s.elseClause.body, context + [outcome], Decide(h, test, o), o),
                  Contexts(s.elseClause.body, context + [outcome]));
    }
  }

  lemma {:induction false} ReachArms(s: Stmt, i: nat, context: History, h: History, o: Oracle)
    requires s.MultiIf? && i <= |s.arms| && Subsequence(context + Fails(s, i), h)
    ensures Accounted(VisitsOfArms(s, i, context + Fails(s, i), h, o), ContextsOfArms(s, i, context))
    ensures Carries(ExecArms(s, i, h, o), context)
    decreases s, 0, |s.arms| - i
  {
    hide Subsequence, Carries;
    var around := context + Fails(s, i);
    if i < |s.arms| {
      var test := IfTest(s.arms[i].cond);
      var outcome := Condition(test, o(h, test));
      var header := [HeaderVisit(s, i, around, h)];
      ExtendBoth(around, h, outcome);
      if o(h, test) {
        assert around + [outcome] == around + Holds(s, i) == context + (Fails(s, i) + Holds(s, i));
        ReachAll(s.arms[i].body, around + [outcome], h + [outcome], o);
        Loosen(context, Fails(s, i) + Holds(s, i), ExecArms(s, i, h, o));
        AccountBoth(header, [ArmHeader(s, i, context)],
                    Visits(s.arms[i].body, around + [outcome], h + [outcome], o),
                    Contexts(s.arms[i].body, around + Holds(s, i)));
        AccountIn(VisitsOfArms(s, i, around, h, o), ContextsOfArm(s, i, context), ContextsOfArms(s, i, context));
      } else {
        FailsStep(s, i);
        assert around + [outcome] == context + Fails(s, i + 1);
        ReachArms(s, i + 1, context, h + [outcome], o);
        AccountIn(header, [ArmHeader(s, i, context)], ContextsOfArm(s, i, context));
        AccountBoth(header, ContextsOfArm(s, i, context),
                    VisitsOfArms(s, i + 1, around + [outcome], h + [outcome], o), ContextsOfArms(s, i + 1, context));
      }
    } else if s.elseBlock.Else? {
      ReachAll(s.elseBlock.body, around, h, o);
      Loosen(context, Fails(s, i), ExecArms(s, i, h, o));
      AccountBoth([Visit(ElseHeader, s.elseBlock.header, around, h)], [Entry(ElseHeader, s.elseBlock.header, around)],
                  Visits(s.elseBlock.body, around, h, o), Contexts(s.elseBlock.body, around));
    } else {
      Loosen(context, Fails(s, i), FellThrough(h));
    }
  }

  lemma {:induction false} ReachCases(s: Stmt, i: nat, context: History, h: History, o: Oracle)
    requires s.Select? && i <= |s.cases| && Subsequence(context, h)
    ensures Accounted(VisitsOfCases(s, i, context, h, o), ContextsOfCases(s, i, context))
    ensures Carries(ExecCases(s, i, h, o), context)
    decreases s, 0, |s.cases| - i
  {
    if i < |s.cases| {
      var header, body := Entry(CaseHeader, s.cases[i].header, context), s.cases[i].body;
      var visit := Visit(CaseHeader, s.cases[i].header, context, h);
      var entries := [header] + Contexts(body, context);
      if s.cases[i].IsCaseElse() {
        ReachAll(body, context, h, o);
        AccountBoth([visit], [header], Visits(body, context, h, o), Contexts(body, context));
        AccountIn(VisitsOfCases(s, i, context, h, o), entries, ContextsOfCases(s, i, context));
      } else {
        var test := CaseTestOf(s, i);
        var h' := Decide(h, test, o);
        ExtendRight(context, h, Condition(test, o(h, test)));
        if o(h, test) {
          ReachAll(body, context, h', o);
          AccountBoth([visit], [header], Visits(body, context, h', o), Contexts(body, context));
          AccountIn(VisitsOfCases(s, i, context, h, o), entries, ContextsOfCases(s, i, context));
        } else {
          ReachCases(s, i + 1, context, h', o);
          AccountIn([visit], [header], entries);
          AccountBoth([visit], entries,
                      VisitsOfCases(s, i + 1, context, h', o), ContextsOfCases(s, i + 1, context));
        }
      }
    }
  }

  lemma FailsStep(s: Stmt, i: nat)
    requires s.MultiIf? && i < |s.arms|
    ensures Fails(s, i + 1) == Fails(s, i) + [Condition(IfTest(s.arms[i].cond), false)]
  {
  }

  /** Two entries of the whole method that own a line which is not excluded are the same one. */
  lemma OneOwner(r: BranchReport, body: seq<Stmt>, lambdas: seq<Lines>, e: Entry, x: Entry, line: int)
    requires IsInventory(r, body, lambdas) && e in r.entries && x in Contexts(body, [])
    requires e.Owns(line) && x.Owns(line)
    ensures e == x
  {
    var all := Contexts(body, []);
    var j :| 0 <= j < |all| && all[j] == x;
    var k :| 0 <= k < |r.entries| && r.entries[k] == e;
    var i := SurvivorIndex(all, LineSet(r.unavailableLines), k);
    assert all[i].Owns(line) && line !in LineSet(r.unavailableLines);
    assert !SharedLine(all, line);
    assert i == j;
  }

  /** Whatever decides the tests: when control reaches a statement on a line that the inventory gives to
      an entry, the entry is the statement's, its conditions are exactly what the Ifs around the
      statement evaluated, and these are, in order, among the evaluations so far. */
  lemma {:induction false} ReachedContextsHold(
      body: seq<Stmt>, lambdas: seq<Lines>, r: BranchReport, e: Entry, o: Oracle, v: Visit)
    requires IsInventory(r, body, lambdas) && e in r.entries
    requires v in Visits(body, [], [], o) && e.Owns(v.lines.start)
    ensures e == Entry(v.kind, v.lines, v.around) && Subsequence(e.conditions, v.history)
  {
    ReachAll(body, [], [], o);
    OneOwner(r, body, lambdas, e, Entry(v.kind, v.lines, v.around), v.lines.start);
  }

  // ---- What the walk keeps: histories contain the enclosing conditions ----

  ghost predicate Enclosed(hs: seq<History>, context: History) {
    forall h :: h in hs ==> Subsequence(context, h)
  }

  /** Every path ends at a return entry whose own conditions the path contains. */
  ghost predicate Rooted(paths: seq<ReturnPath>, entries: seq<Entry>) {
    forall p :: p in paths ==> exists e :: e in entries && IsOrigin(e, p)
  }

  ghost predicate IsOrigin(e: Entry, p: ReturnPath) {
    e.kind == ReturnNode && e.lines.start == p.line && Subsequence(e.conditions, p.conditions)
  }

  ghost predicate Keeps(w: Walked, entries: seq<Entry>, context: History) {
    Rooted(w.paths, entries) && Enclosed(w.left, context)
  }

  lemma KeepJoin(a: Walked, m: seq<Entry>, b: Walked, n: seq<Entry>, header: seq<Entry>, context: History)
    requires Keeps(a, m, context) && Keeps(b, n, context)
    ensures Keeps(Join(a, b), header + m + n, context)
    ensures Keeps(Then(a, b), m + n, context)
  {
    RootedIn(a.paths, m, header + m + n);
    RootedIn(b.paths, n, header + m + n);
    RootedIn(a.paths, m, m + n);
    RootedIn(b.paths, n, m + n);
  }

  lemma RootedIn(paths: seq<ReturnPath>, entries: seq<Entry>, more: seq<Entry>)
    requires Rooted(paths, entries)
    requires forall e :: e in entries ==> e in more
    ensures Rooted(paths, more)
  {
    forall p | p in paths
      ensures exists e :: e in more && IsOrigin(e, p)
    {
      var e :| e in entries && IsOrigin(e, p);
      assert e in more;
    }
  }

  lemma AddEncloses(hs: seq<History>, context: History, c: Condition)
    requires Enclosed(hs, context)
    ensures Enclosed(Add(hs, c), context + [c])
    ensures Enclosed(Add(hs, c), context)
  {
    forall h' | h' in Add(hs, c)
      ensures Subsequence(context + [c], h') && Subsequence(context, h')
    {
      var i :| 0 <= i < |hs| && Add(hs, c)[i] == h';
      ExtendBoth(context, hs[i], c);
      ExtendRight(context, hs[i], c);
    }
  }

  lemma LoosenEnclosed(hs: seq<History>, context: History, tail: History)
    requires Enclosed(hs, context + tail)
    ensures Enclosed(hs, context)
  {
    forall h | h in hs
      ensures Subsequence(context, h)
    {
      DropTail(context, tail, h);
    }
  }

  lemma {:induction false} KeepAll(stmts: seq<Stmt>, context: History, active: seq<History>)
    requires Enclosed(active, context)
    ensures Keeps(WalkAll(stmts, active), Contexts(stmts, context), context)
    decreases stmts, 0
  {
    if stmts != [] && active != [] {
      KeepOne(stmts[0], context, active);
      var a := WalkOne(stmts[0], active);
      KeepAll(stmts[1..], context, a.left);
      KeepJoin(a, ContextsOf(stmts[0], context), WalkAll(stmts[1..], a.left), Contexts(stmts[1..], context),
               [], context);
    }
  }

  /** A body entered with more conditions. */
  lemma {:induction false} KeepBody(body: seq<Stmt>, context: History, more: History, active: seq<History>)
    requires Enclosed(active, context + more)
    ensures Keeps(WalkAll(body, active), Contexts(body, context + more), context)
    decreases body, 1
  {
    KeepAll(body, context + more, active);
    LoosenEnclosed(WalkAll(body, active).left, context, more);
  }

  lemma KeepReturn(s: Stmt, context: History, active: seq<History>)
    requires s.Return? && Enclosed(active, context)
    ensures Keeps(WalkOne(s, active), ContextsOf(s, context), context)
  {
    forall p | p in WalkOne(s, active).paths
      ensures exists e :: e in ContextsOf(s, context) && IsOrigin(e, p)
    {
      assert p.conditions in active;
      assert IsOrigin(ContextsOf(s, context)[0], p);
    }
  }

  lemma {:induction false} KeepOne(s: Stmt, context: History, active: seq<History>)
    requires Enclosed(active, context)
    ensures Keeps(WalkOne(s, active), ContextsOf(s, context), context)
    decreases s, 1, 0
  {
    match s
    case Return(_, lines, value) =>
      KeepReturn(s, context, active);
    case SingleIf(cond, thenBody, elseClause) =>
      var yes, no := Condition(IfTest(cond), true), Condition(IfTest(cond), false);
      AddEncloses(active, context, yes);
      AddEncloses(active, context, no);
      KeepBody(thenBody, context, [yes], Add(active, yes));
      var taken, thenEntries := WalkAll(thenBody, Add(active, yes)), Contexts(thenBody, context + [yes]);
      var header := [Entry(SingleIfNode, cond.lines, context)];
      if elseClause.SingleElse? {
        KeepBody(elseClause.body, context, [no], Add(active, no));
        KeepJoin(taken, thenEntries, WalkAll(elseClause.body, Add(active, no)),
                 Contexts(elseClause.body, context + [no]), header, context);
      } else {
        KeepJoin(taken, thenEntries, Walked([], Add(active, no)), [], header, context);
      }
    case MultiIf(_, _) =>
      assert context + Fails(s, 0) == context;
      KeepArms(s, 0, context, active);
    case Select(_, _, _) =>
      KeepCases(s, 0, context, active);
      RootedIn(WalkOne(s, active).paths, ContextsOfCases(s, 0, context), ContextsOf(s, context));
    case _ =>
  }

  lemma {:induction false} KeepArms(s: Stmt, i: nat, context: History, left: seq<History>)
    requires s.MultiIf? && i <= |s.arms|
    requires Enclosed(left, context + Fails(s, i))
    ensures Keeps(WalkArms(s, i, left), ContextsOfArms(s, i, context), context)
    decreases s, 0, |s.arms| - i
  {
    var tested := context + Fails(s, i);
    if i < |s.arms| {
      var test := IfTest(s.arms[i].cond);
      var yes, no := Condition(test, true), Condition(test, false);
      AddEncloses(left, tested, yes);
      AddEncloses(left, tested, no);
      FailsStep(s, i);
      assert tested + [no] == context + Fails(s, i + 1);
      assert tested + Holds(s, i) == context + (Fails(s, i) + Holds(s, i));
      KeepBody(s.arms[i].body, context, Fails(s, i) + Holds(s, i), Add(left, yes));
      KeepArms(s, i + 1, context, Add(left, no));
      KeepJoin(WalkAll(s.arms[i].body, Add(left, yes)), Contexts(s.arms[i].body, tested + Holds(s, i)),
               WalkArms(s, i + 1, Add(left, no)), ContextsOfArms(s, i + 1, context),
               [ArmHeader(s, i, context)], context);
    } else if s.elseBlock.Else? {
      KeepBody(s.elseBlock.body, context, Fails(s, i), left);
      RootedIn(WalkArms(s, i, left).paths, Contexts(s.elseBlock.body, tested), ContextsOfArms(s, i, context));
    } else {
      LoosenEnclosed(left, context, Fails(s, i));
    }
  }

  lemma {:induction false} KeepCases(s: Stmt, i: nat, context: History, unmatched: seq<History>)
    requires s.Select? && i <= |s.cases|
    requires Enclosed(unmatched, context)
    ensures Keeps(WalkCases(s, i, unmatched), ContextsOfCases(s, i, context), context)
    decreases s, 0, |s.cases| - i
  {
    if i < |s.cases| {
      var body, header := s.cases[i].body, [Entry(CaseHeader, s.cases[i].header, context)];
      assert context + [] == context;
      if s.cases[i].IsCaseElse() {
        KeepBody(body, context, [], unmatched);
        KeepCases(s, i + 1, context, []);
        KeepJoin(WalkAll(body, unmatched), Contexts(body, context),
                 WalkCases(s, i + 1, []), ContextsOfCases(s, i + 1, context), header, context);
      } else {
        var yes, no := Condition(CaseTestOf(s, i), true), Condition(CaseTestOf(s, i), false);
        AddEncloses(unmatched, context, yes);
        AddEncloses(unmatched, context, no);
        KeepBody(body, context, [], Add(unmatched, yes));
        KeepCases(s, i + 1, context, Add(unmatched, no));
        KeepJoin(WalkAll(body, Add(unmatched, yes)), Contexts(body, context),
                 WalkCases(s, i + 1, Add(unmatched, no)), ContextsOfCases(s, i + 1, context), header, context);
      }
    }
  }

  /** The inventory's conditions for a return are, in order, among the conditions of every path
      reported for that return: line ownership makes the source line identify the return. */
  lemma ReturnContextsAgree(body: seq<Stmt>, lambdas: seq<Lines>, r: BranchReport, e: Entry, p: ReturnPath)
    requires IsInventory(r, body, lambdas)
    requires e in r.entries && e.kind == ReturnNode
    requires p in WalkAll(body, START).paths && p.line == e.lines.start
    ensures Subsequence(e.conditions, p.conditions)
  {
    KeepAll(body, [], START);
    var x :| x in Contexts(body, []) && IsOrigin(x, p);
    OneOwner(r, body, lambdas, e, x, p.line);
  }
}
