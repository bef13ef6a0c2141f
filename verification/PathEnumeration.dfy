/** The path enumeration that ReturnPathAnalyzer.Walk performs on lists of condition histories,
    as a function, and the proof that it lists exactly the program's traces. */
module PathEnumeration {

  import opened VbSyntax
  import opened ControlFlow

  datatype ReturnPath = ReturnPath(conditions: History, line: int, expression: string)

  /** Paths emitted by returns, and the histories that reach the end of the list. */
  datatype Walked = Walked(paths: seq<ReturnPath>, left: seq<History>) {
    function Total(): nat {
      |paths| + |left|
    }
  }

  function Join(a: Walked, b: Walked): Walked {
    Walked(a.paths + b.paths, a.left + b.left)
  }

  /** What a statement list does after `a`: it continues a's remaining histories. */
  function Then(a: Walked, b: Walked): Walked {
    Walked(a.paths + b.paths, b.left)
  }

  function Add(hs: seq<History>, c: Condition): seq<History> {
    seq(|hs|, i requires 0 <= i < |hs| => hs[i] + [c])
  }

  function Emit(hs: seq<History>, line: int, expression: string): seq<ReturnPath> {
    seq(|hs|, i requires 0 <= i < |hs| => ReturnPath(hs[i], line, expression))
  }

  function WalkAll(stmts: seq<Stmt>, active: seq<History>): Walked
    decreases stmts
  {
    if stmts == [] || active == [] then
      Walked([], active)
    else
      var a := WalkOne(stmts[0], active);
      Then(a, WalkAll(stmts[1..], a.left))
  }

  function WalkOne(s: Stmt, active: seq<History>): Walked
    decreases s, 1, 0
  {
    match s
    case Return(_, lines, value) => Walked(Emit(active, lines.start, ReturnText(value)), [])
    case SingleIf(cond, thenBody, elseClause) =>
      var no := Add(active, Condition(IfTest(cond), false));
      Join(WalkAll(thenBody, Add(active, Condition(IfTest(cond), true))),
           if elseClause.SingleElse? then WalkAll(elseClause.body, no) else Walked([], no))
    case MultiIf(_, _) => WalkArms(s, 0, active)
    case Select(_, _, _) => WalkCases(s, 0, active)
    case Plain(_, _) => Walked([], active)
    case Foreign(_, _) => Walked([], active)
    case ForeignBlock(_, _, _) => Walked([], active)
  }

  function WalkArms(s: Stmt, i: nat, left: seq<History>): Walked
    requires s.MultiIf? && i <= |s.arms|
    decreases s, 0, |s.arms| - i
  {
    if i == |s.arms| then
      if s.elseBlock.Else? then WalkAll(s.elseBlock.body, left) else Walked([], left)
    else
      var test := IfTest(s.arms[i].cond);
      Join(WalkAll(s.arms[i].body, Add(left, Condition(test, true))),
           WalkArms(s, i + 1, Add(left, Condition(test, false))))
  }

  function WalkCases(s: Stmt, i: nat, unmatched: seq<History>): Walked
    requires s.Select? && i <= |s.cases|
    decreases s, 0, |s.cases| - i
  {
    if i == |s.cases| then
      Walked([], unmatched)
    else if s.cases[i].IsCaseElse() then
      Join(WalkAll(s.cases[i].body, unmatched), WalkCases(s, i + 1, []))
    else
      var test := CaseTestOf(s, i);
      Join(WalkAll(s.cases[i].body, Add(unmatched, Condition(test, true))),
           WalkCases(s, i + 1, Add(unmatched, Condition(test, false))))
  }

  // ---- Sizes: the closed form of ControlFlow.ShapeAll, per active history ----

  ghost predicate Sized(w: Walked, active: seq<History>, shape: Shape) {
    && |w.paths| == |active| * shape.exits
    && |w.left| == |active| * shape.falls
  }

  lemma Sequencing(n: int, exits: int, falls: int, exits': int, falls': int)
    ensures n * exits + (n * falls) * exits' == n * (exits + falls * exits')
    ensures (n * falls) * falls' == n * (falls * falls')
  {
  }

  lemma Alternatives(n: int, a: int, b: int)
    ensures n * a + n * b == n * (a + b)
  {
  }

  lemma {:induction false} SizeAll(stmts: seq<Stmt>, active: seq<History>)
    ensures Sized(WalkAll(stmts, active), active, ShapeAll(stmts))
    decreases stmts
  {
    if stmts != [] && active != [] {
      var a := WalkOne(stmts[0], active);
      SizeOne(stmts[0], active);
      SizeAll(stmts[1..], a.left);
      var x, y := ShapeOf(stmts[0]), ShapeAll(stmts[1..]);
      Sequencing(|active|, x.exits, x.falls, y.exits, y.falls);
    }
  }

  lemma {:induction false} SizeOne(s: Stmt, active: seq<History>)
    ensures Sized(WalkOne(s, active), active, ShapeOf(s))
    decreases s, 1, 0
  {
    match s
    case SingleIf(cond, thenBody, elseClause) =>
      var yes := Add(active, Condition(IfTest(cond), true));
      var no := Add(active, Condition(IfTest(cond), false));
      SizeAll(thenBody, yes);
      var y := ShapeAll(thenBody);
      if elseClause.SingleElse? {
        SizeAll(elseClause.body, no);
        var n := ShapeAll(elseClause.body);
        Alternatives(|active|, y.exits, n.exits);
        Alternatives(|active|, y.falls, n.falls);
      } else {
        Alternatives(|active|, y.falls, 1);
      }
    case MultiIf(_, _) => SizeArms(s, 0, active);
    case Select(_, _, _) => SizeCases(s, 0, active);
    case _ =>
  }

  lemma {:induction false} SizeArms(s: Stmt, i: nat, left: seq<History>)
    requires s.MultiIf? && i <= |s.arms|
    ensures Sized(WalkArms(s, i, left), left, ShapeArms(s, i))
    decreases s, 0, |s.arms| - i
  {
    if i < |s.arms| {
      var test := IfTest(s.arms[i].cond);
      SizeAll(s.arms[i].body, Add(left, Condition(test, true)));
      SizeArms(s, i + 1, Add(left, Condition(test, false)));
      var y, n := ShapeAll(s.arms[i].body), ShapeArms(s, i + 1);
      Alternatives(|left|, y.exits, n.exits);
      Alternatives(|left|, y.falls, n.falls);
    } else if s.elseBlock.Else? {
      SizeAll(s.elseBlock.body, left);
    }
  }

  lemma {:induction false} SizeCases(s: Stmt, i: nat, unmatched: seq<History>)
    requires s.Select? && i <= |s.cases|
    ensures Sized(WalkCases(s, i, unmatched), unmatched, ShapeCases(s, i))
    decreases s, 0, |s.cases| - i
  {
    if i < |s.cases| {
      var body := s.cases[i].body;
      if s.cases[i].IsCaseElse() {
        SizeAll(body, unmatched);
        SizeCases(s, i + 1, []);
      } else {
        SizeAll(body, Add(unmatched, Condition(CaseTestOf(s, i), true)));
        SizeCases(s, i + 1, Add(unmatched, Condition(CaseTestOf(s, i), false)));
        var y, n := ShapeAll(body), ShapeCases(s, i + 1);
        Alternatives(|unmatched|, y.exits, n.exits);
        Alternatives(|unmatched|, y.falls, n.falls);
      }
    }
  }

  /** No history is ever lost, so partial counts never exceed the final one. */
  lemma {:induction false} NeverShrinks(stmts: seq<Stmt>, active: seq<History>)
    ensures WalkAll(stmts, active).Total() >= |active|
    decreases stmts
  {
    if stmts != [] && active != [] {
      var a := WalkOne(stmts[0], active);
      NeverShrinksOne(stmts[0], active);
      NeverShrinks(stmts[1..], a.left);
    }
  }

  lemma {:induction false} NeverShrinksOne(s: Stmt, active: seq<History>)
    ensures WalkOne(s, active).Total() >= |active|
    decreases s, 1, 0
  {
    match s
    case SingleIf(cond, thenBody, _) =>
      NeverShrinks(thenBody, Add(active, Condition(IfTest(cond), true)));
    case MultiIf(_, _) => NeverShrinksArms(s, 0, active);
    case Select(_, _, _) => NeverShrinksCases(s, 0, active);
    case _ =>
  }

  lemma {:induction false} NeverShrinksArms(s: Stmt, i: nat, left: seq<History>)
    requires s.MultiIf? && i <= |s.arms|
    ensures WalkArms(s, i, left).Total() >= |left|
    decreases s, 0, |s.arms| - i
  {
    if i < |s.arms| {
      NeverShrinksArms(s, i + 1, Add(left, Condition(IfTest(s.arms[i].cond), false)));
    } else if s.elseBlock.Else? {
      NeverShrinks(s.elseBlock.body, left);
    }
  }

  lemma {:induction false} NeverShrinksCases(s: Stmt, i: nat, unmatched: seq<History>)
    requires s.Select? && i <= |s.cases|
    ensures WalkCases(s, i, unmatched).Total() >= |unmatched|
    decreases s, 0, |s.cases| - i
  {
    if i < |s.cases| {
      if s.cases[i].IsCaseElse() {
        NeverShrinks(s.cases[i].body, unmatched);
      } else {
        NeverShrinksCases(s, i + 1, Add(unmatched, Condition(CaseTestOf(s, i), false)));
      }
    }
  }

  // ---- Conservation: each oracle agrees with as many results as it did starts ----

  ghost predicate Agrees(h: History, o: Oracle) {
    forall k :: 0 <= k < |h| ==> h[k].outcome == o(h[..k], h[k].test)
  }

  ghost function CountAgreeing(hs: seq<History>, o: Oracle): nat {
    if hs == [] then 0 else (if Agrees(hs[0], o) then 1 else 0) + CountAgreeing(hs[1..], o)
  }

  function Conditions(paths: seq<ReturnPath>): seq<History> {
    seq(|paths|, i requires 0 <= i < |paths| => paths[i].conditions)
  }

  function Histories(w: Walked): seq<History> {
    Conditions(w.paths) + w.left
  }

  lemma {:induction false} CountAppend(a: seq<History>, b: seq<History>, o: Oracle)
    ensures CountAgreeing(a + b, o) == CountAgreeing(a, o) + CountAgreeing(b, o)
  {
    if a == [] {
      assert a + b == b;
    } else {
      assert (a + b)[1..] == a[1..] + b;
      CountAppend(a[1..], b, o);
    }
  }

  /** A history that grows by one decision keeps agreeing with an oracle on one side only. */
  lemma AgreesStep(h: History, c: Condition, o: Oracle)
    ensures Agrees(h + [c], o) <==> Agrees(h, o) && c.outcome == o(h, c.test)
  {
    var h' := h + [c];
    assert h'[..|h|] == h;
    assert forall k :: 0 <= k < |h| ==> h'[k] == h[k] && h'[..k] == h[..k];
    if Agrees(h', o) {
      assert h'[|h|].outcome == o(h'[..|h|], h'[|h|].test);
    }
  }

  lemma {:induction false} ForkConserves(hs: seq<History>, test: Test, o: Oracle)
    ensures CountAgreeing(Add(hs, Condition(test, true)), o) + CountAgreeing(Add(hs, Condition(test, false)), o)
            == CountAgreeing(hs, o)
  {
    if hs != [] {
      var yes, no := Add(hs, Condition(test, true)), Add(hs, Condition(test, false));
      assert yes[1..] == Add(hs[1..], Condition(test, true));
      assert no[1..] == Add(hs[1..], Condition(test, false));
      AgreesStep(hs[0], Condition(test, true), o);
      AgreesStep(hs[0], Condition(test, false), o);
      ForkConserves(hs[1..], test, o);
    }
  }

  lemma CountJoin(a: Walked, b: Walked, o: Oracle)
    ensures CountAgreeing(Histories(Join(a, b)), o)
            == CountAgreeing(Histories(a), o) + CountAgreeing(Histories(b), o)
  {
    assert Conditions(a.paths + b.paths) == Conditions(a.paths) + Conditions(b.paths);
    CountAppend(Conditions(a.paths), Conditions(b.paths), o);
    CountAppend(a.left, b.left, o);
    CountAppend(Conditions(a.paths), a.left, o);
    CountAppend(Conditions(b.paths), b.left, o);
    CountAppend(Conditions(a.paths + b.paths), a.left + b.left, o);
  }

  lemma CountThen(a: Walked, b: Walked, o: Oracle)
    requires CountAgreeing(Histories(b), o) == CountAgreeing(a.left, o)
    ensures CountAgreeing(Histories(Then(a, b)), o) == CountAgreeing(Histories(a), o)
  {
    assert Conditions(a.paths + b.paths) == Conditions(a.paths) + Conditions(b.paths);
    CountAppend(Conditions(a.paths), Conditions(b.paths), o);
    CountAppend(Conditions(a.paths), a.left, o);
    CountAppend(Conditions(b.paths), b.left, o);
    CountAppend(Conditions(a.paths + b.paths), b.left, o);
  }

  lemma CountNoPaths(hs: seq<History>, o: Oracle)
    ensures CountAgreeing(Histories(Walked([], hs)), o) == CountAgreeing(hs, o)
  {
    assert Histories(Walked([], hs)) == hs;
  }

  lemma {:induction false} ConserveAll(stmts: seq<Stmt>, active: seq<History>, o: Oracle)
    ensures CountAgreeing(Histories(WalkAll(stmts, active)), o) == CountAgreeing(active, o)
    decreases stmts
  {
    if stmts == [] || active == [] {
      CountNoPaths(active, o);
    } else {
      var a := WalkOne(stmts[0], active);
      ConserveOne(stmts[0], active, o);
      ConserveAll(stmts[1..], a.left, o);
      CountThen(a, WalkAll(stmts[1..], a.left), o);
    }
  }

  lemma {:induction false} ConserveOne(s: Stmt, active: seq<History>, o: Oracle)
    ensures CountAgreeing(Histories(WalkOne(s, active)), o) == CountAgreeing(active, o)
    decreases s, 1, 0
  {
    match s
    case Return(_, lines, value) =>
      assert Histories(WalkOne(s, active)) == active;
    case SingleIf(cond, thenBody, elseClause) =>
      var yes := Add(active, Condition(IfTest(cond), true));
      var no := Add(active, Condition(IfTest(cond), false));
      ForkConserves(active, IfTest(cond), o);
      ConserveAll(thenBody, yes, o);
      if elseClause.SingleElse? {
        ConserveAll(elseClause.body, no, o);
        CountJoin(WalkAll(thenBody, yes), WalkAll(elseClause.body, no), o);
      } else {
        CountNoPaths(no, o);
        CountJoin(WalkAll(thenBody, yes), Walked([], no), o);
      }
    case MultiIf(_, _) => ConserveArms(s, 0, active, o);
    case Select(_, _, _) => ConserveCases(s, 0, active, o);
    case _ => CountNoPaths(active, o);
  }

  lemma {:induction false} ConserveArms(s: Stmt, i: nat, left: seq<History>, o: Oracle)
    requires s.MultiIf? && i <= |s.arms|
    ensures CountAgreeing(Histories(WalkArms(s, i, left)), o) == CountAgreeing(left, o)
    decreases s, 0, |s.arms| - i
  {
    if i < |s.arms| {
      var test, body := IfTest(s.arms[i].cond), s.arms[i].body;
      var yes, no := Add(left, Condition(test, true)), Add(left, Condition(test, false));
      ForkConserves(left, test, o);
      ConserveAll(body, yes, o);
      ConserveArms(s, i + 1, no, o);
      CountJoin(WalkAll(body, yes), WalkArms(s, i + 1, no), o);
    } else if s.elseBlock.Else? {
      ConserveAll(s.elseBlock.body, left, o);
    } else {
      CountNoPaths(left, o);
    }
  }

  lemma {:induction false} ConserveCases(s: Stmt, i: nat, unmatched: seq<History>, o: Oracle)
    requires s.Select? && i <= |s.cases|
    ensures CountAgreeing(Histories(WalkCases(s, i, unmatched)), o) == CountAgreeing(unmatched, o)
    decreases s, 0, |s.cases| - i
  {
    if i == |s.cases| {
      CountNoPaths(unmatched, o);
    } else if s.cases[i].IsCaseElse() {
      ConserveAll(s.cases[i].body, unmatched, o);
      ConserveCases(s, i + 1, [], o);
      CountJoin(WalkAll(s.cases[i].body, unmatched), WalkCases(s, i + 1, []), o);
    } else {
      var test, body := CaseTestOf(s, i), s.cases[i].body;
      var yes, no := Add(unmatched, Condition(test, true)), Add(unmatched, Condition(test, false));
      ForkConserves(unmatched, test, o);
      ConserveAll(body, yes, o);
      ConserveCases(s, i + 1, no, o);
      CountJoin(WalkAll(body, yes), WalkCases(s, i + 1, no), o);
    }
  }

  // ---- Coverage: every execution from an active history is among the results ----

  ghost predicate Listed(t: Trace, w: Walked) {
    match t
    case Returned(h, line, e) => ReturnPath(h, line, e) in w.paths
    case FellThrough(h) => h in w.left
  }

  lemma AddMember(hs: seq<History>, h: History, c: Condition)
    requires h in hs
    ensures h + [c] in Add(hs, c)
  {
    var i :| 0 <= i < |hs| && hs[i] == h;
    assert Add(hs, c)[i] == h + [c];
  }

  lemma {:induction false} CoverAll(stmts: seq<Stmt>, active: seq<History>, h: History, o: Oracle)
    requires h in active
    ensures Listed(ExecAll(stmts, h, o), WalkAll(stmts, active))
    decreases stmts
  {
    if stmts != [] {
      CoverOne(stmts[0], active, h, o);
      var t := Exec(stmts[0], h, o);
      if t.FellThrough? {
        CoverAll(stmts[1..], WalkOne(stmts[0], active).left, t.history, o);
      }
    }
  }

  lemma {:induction false} CoverOne(s: Stmt, active: seq<History>, h: History, o: Oracle)
    requires h in active
    ensures Listed(Exec(s, h, o), WalkOne(s, active))
    decreases s, 1, 0
  {
    match s
    case Return(_, lines, value) =>
      var i :| 0 <= i < |active| && active[i] == h;
      assert Emit(active, lines.start, ReturnText(value))[i] == ReturnPath(h, lines.start, ReturnText(value));
    case SingleIf(cond, thenBody, elseClause) =>
      var c := Condition(IfTest(cond), o(h, IfTest(cond)));
      AddMember(active, h, c);
      if c.outcome {
        CoverAll(thenBody, Add(active, c), h + [c], o);
      } else if elseClause.SingleElse? {
        CoverAll(elseClause.body, Add(active, c), h + [c], o);
      }
    case MultiIf(_, _) => CoverArms(s, 0, active, h, o);
    case Select(_, _, _) => CoverCases(s, 0, active, h, o);
    case _ =>
  }

  lemma {:induction false} CoverArms(s: Stmt, i: nat, left: seq<History>, h: History, o: Oracle)
    requires s.MultiIf? && i <= |s.arms|
    requires h in left
    ensures Listed(ExecArms(s, i, h, o), WalkArms(s, i, left))
    decreases s, 0, |s.arms| - i
  {
    if i < |s.arms| {
      var test := IfTest(s.arms[i].cond);
      var c := Condition(test, o(h, test));
      AddMember(left, h, c);
      if c.outcome {
        CoverAll(s.arms[i].body, Add(left, c), h + [c], o);
      } else {
        CoverArms(s, i + 1, Add(left, c), h + [c], o);
      }
    } else if s.elseBlock.Else? {
      CoverAll(s.elseBlock.body, left, h, o);
    }
  }

  lemma {:induction false} CoverCases(s: Stmt, i: nat, unmatched: seq<History>, h: History, o: Oracle)
    requires s.Select? && i <= |s.cases|
    requires h in unmatched
    ensures Listed(ExecCases(s, i, h, o), WalkCases(s, i, unmatched))
    decreases s, 0, |s.cases| - i
  {
    if i < |s.cases| {
      if s.cases[i].IsCaseElse() {
        CoverAll(s.cases[i].body, unmatched, h, o);
      } else {
        var test := CaseTestOf(s, i);
        var c := Condition(test, o(h, test));
        AddMember(unmatched, h, c);
        if c.outcome {
          CoverAll(s.cases[i].body, Add(unmatched, c), h + [c], o);
        } else {
          CoverCases(s, i + 1, Add(unmatched, c), h + [c], o);
        }
      }
    }
  }

  // ---- Exactness ----

  /** All traces a finished walk reports: returned paths first, then fallthroughs. */
  function Traces(w: Walked): (ts: seq<Trace>)
    ensures |ts| == w.Total()
  {
    seq(w.Total(), i requires 0 <= i < w.Total() =>
      if i < |w.paths| then Returned(w.paths[i].conditions, w.paths[i].line, w.paths[i].expression)
      else FellThrough(w.left[i - |w.paths|]))
  }

  lemma TraceHistories(w: Walked, i: nat)
    requires i < w.Total()
    ensures Traces(w)[i].history == Histories(w)[i]
  {
  }

  lemma ListedIndex(t: Trace, w: Walked) returns (i: nat)
    requires Listed(t, w)
    ensures i < w.Total() && Traces(w)[i] == t
  {
    match t
    case Returned(h, line, e) =>
      i :| 0 <= i < |w.paths| && w.paths[i] == ReturnPath(h, line, e);
    case FellThrough(h) =>
      var k :| 0 <= k < |w.left| && w.left[k] == h;
      i := |w.paths| + k;
      assert Traces(w)[i] == FellThrough(w.left[k]);
  }

  lemma {:induction false} TwoAgreeing(hs: seq<History>, i: nat, j: nat, o: Oracle)
    requires i < j < |hs| && Agrees(hs[i], o) && Agrees(hs[j], o)
    ensures CountAgreeing(hs, o) >= 2
  {
    CountAppend(hs[..j], hs[j..], o);
    assert hs[..j] + hs[j..] == hs;
    CountAppend(hs[..i], hs[..j][i..], o);
    assert hs[..i] + hs[..j][i..] == hs[..j];
  }

  /** The oracle that replays a history. */
  function Follow(h: History): Oracle {
    (past: History, test: Test) => |past| < |h| && h[|past|].outcome
  }

  lemma FollowAgrees(h: History)
    ensures Agrees(h, Follow(h))
  {
  }

  lemma {:induction false} ExecutionAgreesAll(stmts: seq<Stmt>, h: History, o: Oracle)
    requires Agrees(h, o)
    ensures Agrees(ExecAll(stmts, h, o).history, o)
    decreases stmts
  {
    if stmts != [] {
      ExecutionAgrees(stmts[0], h, o);
      var t := Exec(stmts[0], h, o);
      if t.FellThrough? {
        ExecutionAgreesAll(stmts[1..], t.history, o);
      }
    }
  }

  lemma {:induction false} ExecutionAgrees(s: Stmt, h: History, o: Oracle)
    requires Agrees(h, o)
    ensures Agrees(Exec(s, h, o).history, o)
    decreases s, 1, 0
  {
    match s
    case SingleIf(cond, thenBody, elseClause) =>
      AgreesStep(h, Condition(IfTest(cond), o(h, IfTest(cond))), o);
      var h' := Decide(h, IfTest(cond), o);
      if o(h, IfTest(cond)) {
        ExecutionAgreesAll(thenBody, h', o);
      } else if elseClause.SingleElse? {
        ExecutionAgreesAll(elseClause.body, h', o);
      }
    case MultiIf(_, _) => ExecutionAgreesArms(s, 0, h, o);
    case Select(_, _, _) => ExecutionAgreesCases(s, 0, h, o);
    case _ =>
  }

  lemma {:induction false} ExecutionAgreesArms(s: Stmt, i: nat, h: History, o: Oracle)
    requires s.MultiIf? && i <= |s.arms|
    requires Agrees(h, o)
    ensures Agrees(ExecArms(s, i, h, o).history, o)
    decreases s, 0, |s.arms| - i
  {
    if i < |s.arms| {
      var test := IfTest(s.arms[i].cond);
      AgreesStep(h, Condition(test, o(h, test)), o);
      if o(h, test) {
        ExecutionAgreesAll(s.arms[i].body, Decide(h, test, o), o);
      } else {
        ExecutionAgreesArms(s, i + 1, Decide(h, test, o), o);
      }
    } else if s.elseBlock.Else? {
      ExecutionAgreesAll(s.elseBlock.body, h, o);
    }
  }

  lemma {:induction false} ExecutionAgreesCases(s: Stmt, i: nat, h: History, o: Oracle)
    requires s.Select? && i <= |s.cases|
    requires Agrees(h, o)
    ensures Agrees(ExecCases(s, i, h, o).history, o)
    decreases s, 0, |s.cases| - i
  {
    if i < |s.cases| {
      if s.cases[i].IsCaseElse() {
        ExecutionAgreesAll(s.cases[i].body, h, o);
      } else {
        var test := CaseTestOf(s, i);
        AgreesStep(h, Condition(test, o(h, test)), o);
        if o(h, test) {
          ExecutionAgreesAll(s.cases[i].body, Decide(h, test, o), o);
        } else {
          ExecutionAgreesCases(s, i + 1, Decide(h, test, o), o);
        }
      }
    }
  }

  const START: seq<History> := [[]]

  /** Whatever decides the tests, exactly one reported trace is consistent with it,
      and that one is the program's execution under those decisions. */
  lemma OneTracePerOracle(body: seq<Stmt>, o: Oracle) returns (i: nat)
    ensures var ts := Traces(WalkAll(body, START));
            && i < |ts|
            && ts[i] == ExecAll(body, [], o)
            && (forall j :: 0 <= j < |ts| ==> (Agrees(ts[j].history, o) <==> j == i))
  {
    var w := WalkAll(body, START);
    CoverAll(body, START, [], o);
    i := ListedIndex(ExecAll(body, [], o), w);
    ExecutionAgreesAll(body, [], o);
    ConserveAll(body, START, o);
    forall j | 0 <= j < w.Total() && Agrees(Traces(w)[j].history, o)
      ensures j == i
    {
      TraceHistories(w, i);
      TraceHistories(w, j);
      if i < j {
        TwoAgreeing(Histories(w), i, j, o);
      } else if j < i {
        TwoAgreeing(Histories(w), j, i, o);
      }
    }
  }

  /** Every reported trace is an execution, and no history is reported twice. */
  lemma TracesAreExecutions(body: seq<Stmt>)
    ensures var ts := Traces(WalkAll(body, START));
            && (forall i :: 0 <= i < |ts| ==> ExecAll(body, [], Follow(ts[i].history)) == ts[i])
            && (forall i, j :: 0 <= i < j < |ts| ==> ts[i].history != ts[j].history)
  {
    var ts := Traces(WalkAll(body, START));
    forall i | 0 <= i < |ts|
      ensures ExecAll(body, [], Follow(ts[i].history)) == ts[i]
      ensures forall j :: 0 <= j < |ts| && j != i ==> ts[j].history != ts[i].history
    {
      FollowAgrees(ts[i].history);
      var k := OneTracePerOracle(body, Follow(ts[i].history));
    }
  }

  /** The number of reported traces is the closed form, whatever the histories are. */
  lemma TraceCount(body: seq<Stmt>)
    ensures |WalkAll(body, START).paths| == ShapeAll(body).exits
    ensures |WalkAll(body, START).left| == ShapeAll(body).falls
  {
    SizeAll(body, START);
  }
}
