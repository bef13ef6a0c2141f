/** What taking one branch of a block records, told from the syntax alone: in an execution, and in the
    paths of the walk. */
module TakenBranches {

  import opened Wrappers
  import opened VbSyntax
  import opened ControlFlow
  import opened PathEnumeration

  /** Each history goes on with some more conditions. */
  function Continue(hs: seq<History>, more: History): seq<History> {
    seq(|hs|, i requires 0 <= i < |hs| => hs[i] + more)
  }

  lemma ContinueTwice(hs: seq<History>, more: History, c: Condition)
    ensures Add(Continue(hs, more), c) == Continue(hs, more + [c])
  {
    forall i | 0 <= i < |hs| ensures Add(Continue(hs, more), c)[i] == hs[i] + (more + [c]) {
      assert hs[i] + more + [c] == hs[i] + (more + [c]);
    }
  }

  lemma ContinueNothing(hs: seq<History>)
    ensures Continue(hs, []) == hs
  {
    assert forall i :: 0 <= i < |hs| ==> hs[i] + [] == hs[i];
  }

  // ---- Select Case ----

  /** A case group is matched as a whole: by its own labels, at its own line. */
  function Matching(s: Stmt, k: nat, outcome: bool): Condition
    requires s.Select? && k < |s.cases|
  {
    Condition(CaseTest(s.selector, s.cases[k].labels, s.cases[k].header.start), outcome)
  }

  /** The first n groups do not match. */
  function Refused(s: Stmt, n: nat): History
    requires s.Select? && n <= |s.cases|
  {
    seq(n, j requires 0 <= j < n => Matching(s, j, false))
  }

  /** What has been evaluated when control enters the k-th group; Case Else adds nothing. */
  function Entered(s: Stmt, k: nat): History
    requires s.Select? && k < |s.cases|
  {
    Refused(s, k) + (if ElseClause in s.cases[k].clauses then [] else [Matching(s, k, true)])
  }

  /** No Case Else stands before the k-th group. */
  predicate OpenTo(s: Stmt, k: nat) {
    s.Select? && k <= |s.cases| && forall j :: 0 <= j < k ==> ElseClause !in s.cases[j].clauses
  }

  /** The oracle refuses the first k groups, from a history on. */
  predicate Refuses(s: Stmt, k: nat, h: History, o: Oracle)
    requires s.Select? && k <= |s.cases|
  {
    forall j :: 0 <= j < k ==> !o(h + Refused(s, j), Matching(s, j, false).test)
  }

  lemma {:induction false} CasesRefused(s: Stmt, k: nat, h: History, o: Oracle)
    requires OpenTo(s, k) && Refuses(s, k, h, o)
    ensures ExecCases(s, 0, h, o) == ExecCases(s, k, h + Refused(s, k), o)
    decreases k
  {
    if k == 0 {
      assert h + Refused(s, 0) == h;
    } else {
      CasesRefused(s, k - 1, h, o);
      assert h + Refused(s, k - 1) + [Matching(s, k - 1, false)] == h + Refused(s, k);
    }
  }

  /** If the groups before the k-th are refused and the k-th is taken, its body runs with exactly these
      evaluations added; if none is taken, control falls through with all of them refused. */
  lemma TakenCase(s: Stmt, k: nat, h: History, o: Oracle)
    requires OpenTo(s, k) && Refuses(s, k, h, o)
    ensures k < |s.cases| && (ElseClause in s.cases[k].clauses || o(h + Refused(s, k), Matching(s, k, true).test)) ==>
              Exec(s, h, o) == ExecAll(s.cases[k].body, h + Entered(s, k), o)
    ensures k == |s.cases| ==> Exec(s, h, o) == FellThrough(h + Refused(s, k))
  {
    CasesRefused(s, k, h, o);
    if k < |s.cases| {
      assert h + Refused(s, k) + [Matching(s, k, true)] == h + (Refused(s, k) + [Matching(s, k, true)]);
      assert Refused(s, k) + [] == Refused(s, k);
    }
  }

  /** A result of walking the k-th group from the histories that get there. */
  predicate FromCase(s: Stmt, k: nat, active: seq<History>, p: ReturnPath)
    requires s.Select?
  {
    && k < |s.cases| && OpenTo(s, k)
    && p in WalkAll(s.cases[k].body, Continue(active, Entered(s, k))).paths
  }

  lemma {:induction false} NoCase(s: Stmt, i: nat)
    requires s.Select? && i <= |s.cases|
    ensures WalkCases(s, i, []) == Walked([], [])
    decreases |s.cases| - i
  {
    if i < |s.cases| {
      NoCase(s, i + 1);
      assert forall c: Condition :: Add([], c) == [];
    }
  }

  lemma {:induction false} CasePathsFrom(s: Stmt, i: nat, active: seq<History>, p: ReturnPath)
    requires s.Select? && i <= |s.cases| && OpenTo(s, i)
    ensures p in WalkCases(s, i, Continue(active, Refused(s, i))).paths
            <==> exists k: nat :: i <= k && FromCase(s, k, active, p)
    decreases |s.cases| - i
  {
    if i < |s.cases| {
      var unmatched := Continue(active, Refused(s, i));
      if ElseClause in s.cases[i].clauses {
        NoCase(s, i + 1);
        assert Refused(s, i) + [] == Refused(s, i);
        assert p in WalkCases(s, i, unmatched).paths <==> FromCase(s, i, active, p);
      } else {
        ContinueTwice(active, Refused(s, i), Matching(s, i, true));
        ContinueTwice(active, Refused(s, i), Matching(s, i, false));
        assert Refused(s, i) + [Matching(s, i, false)] == Refused(s, i + 1);
        CasePathsFrom(s, i + 1, active, p);
        assert p in WalkCases(s, i, unmatched).paths
               <==> FromCase(s, i, active, p) || exists k: nat :: i + 1 <= k && FromCase(s, k, active, p);
      }
    }
  }

  /** A Select reports exactly the paths of its groups' bodies, each entered from every active history
      with exactly those evaluations added, and nothing behind a Case Else. */
  lemma CasePaths(s: Stmt, active: seq<History>, p: ReturnPath)
    requires s.Select?
    ensures p in WalkOne(s, active).paths <==> exists k: nat :: FromCase(s, k, active, p)
  {
    ContinueNothing(active);
    assert Refused(s, 0) == [];
    CasePathsFrom(s, 0, active, p);
  }

  // ---- If ... ElseIf ... Else ----

  function Testing(s: Stmt, i: nat, outcome: bool): Condition
    requires s.MultiIf? && i < |s.arms|
  {
    Condition(IfTest(s.arms[i].cond), outcome)
  }

  /** The first n conditions are false. */
  function Failed(s: Stmt, n: nat): History
    requires s.MultiIf? && n <= |s.arms|
  {
    seq(n, j requires 0 <= j < n => Testing(s, j, false))
  }

  predicate Fails(s: Stmt, n: nat, h: History, o: Oracle)
    requires s.MultiIf? && n <= |s.arms|
  {
    forall j :: 0 <= j < n ==> !o(h + Failed(s, j), IfTest(s.arms[j].cond))
  }

  lemma {:induction false} ArmsFailed(s: Stmt, n: nat, h: History, o: Oracle)
    requires s.MultiIf? && n <= |s.arms| && Fails(s, n, h, o)
    ensures ExecArms(s, 0, h, o) == ExecArms(s, n, h + Failed(s, n), o)
    decreases n
  {
    if n == 0 {
      assert h + Failed(s, 0) == h;
    } else {
      ArmsFailed(s, n - 1, h, o);
      assert h + Failed(s, n - 1) + [Testing(s, n - 1, false)] == h + Failed(s, n);
    }
  }

  /** The same for the arms of an If block; its Else runs with all conditions false. */
  lemma TakenArm(s: Stmt, n: nat, h: History, o: Oracle)
    requires s.MultiIf? && n <= |s.arms| && Fails(s, n, h, o)
    ensures n < |s.arms| && o(h + Failed(s, n), IfTest(s.arms[n].cond)) ==>
              Exec(s, h, o) == ExecAll(s.arms[n].body, h + (Failed(s, n) + [Testing(s, n, true)]), o)
    ensures n == |s.arms| ==>
              Exec(s, h, o) == if s.elseBlock.Else? then ExecAll(s.elseBlock.body, h + Failed(s, n), o)
                               else FellThrough(h + Failed(s, n))
  {
    ArmsFailed(s, n, h, o);
    if n < |s.arms| {
      assert h + Failed(s, n) + [Testing(s, n, true)] == h + (Failed(s, n) + [Testing(s, n, true)]);
    }
  }

  /** A result of walking the i-th arm, or the Else block, from the histories that get there. */
  predicate FromArm(s: Stmt, i: nat, active: seq<History>, p: ReturnPath)
    requires s.MultiIf?
  {
    if i < |s.arms| then p in WalkAll(s.arms[i].body, Continue(active, Failed(s, i) + [Testing(s, i, true)])).paths
    else i == |s.arms| && s.elseBlock.Else? && p in WalkAll(s.elseBlock.body, Continue(active, Failed(s, i))).paths
  }

  lemma {:induction false} ArmPathsFrom(s: Stmt, i: nat, active: seq<History>, p: ReturnPath)
    requires s.MultiIf? && i <= |s.arms|
    ensures p in WalkArms(s, i, Continue(active, Failed(s, i))).paths
            <==> exists k: nat :: i <= k && FromArm(s, k, active, p)
    decreases |s.arms| - i
  {
    var left := Continue(active, Failed(s, i));
    if i < |s.arms| {
      ContinueTwice(active, Failed(s, i), Testing(s, i, true));
      ContinueTwice(active, Failed(s, i), Testing(s, i, false));
      assert Failed(s, i) + [Testing(s, i, false)] == Failed(s, i + 1);
      ArmPathsFrom(s, i + 1, active, p);
      assert p in WalkArms(s, i, left).paths
             <==> FromArm(s, i, active, p) || exists k: nat :: i + 1 <= k && FromArm(s, k, active, p);
    } else {
      assert p in WalkArms(s, i, left).paths <==> FromArm(s, i, active, p);
    }
  }

  /** An If block reports exactly the paths of its arms and its Else, entered likewise. */
  lemma ArmPaths(s: Stmt, active: seq<History>, p: ReturnPath)
    requires s.MultiIf?
    ensures p in WalkOne(s, active).paths <==> exists i: nat :: FromArm(s, i, active, p)
  {
    ContinueNothing(active);
    assert Failed(s, 0) == [];
    ArmPathsFrom(s, 0, active, p);
  }

  // ---- Return ----

  /** The path ends at this return: at its line, with its expression's exact text. */
  predicate EndsAt(p: ReturnPath, x: Stmt) {
    x.Return? && p.line == x.lines.start && p.expression == (match x.value case Some(e) => e.text case None => "")
  }

  /** Every reported path ends at a return of the method. */
  lemma {:induction false} PathsEndAtReturns(stmts: seq<Stmt>, active: seq<History>, p: ReturnPath)
    requires p in WalkAll(stmts, active).paths
    ensures exists x :: Occurs(stmts, x) && EndsAt(p, x)
    decreases stmts
  {
    var a := WalkOne(stmts[0], active);
    if p in a.paths {
      var x := PathEndsInside(stmts[0], active, p);
      if x == stmts[0] {
        OccursHere(stmts, x);
      } else {
        var b: nat :| b < |Blocks(stmts[0])| && Occurs(Blocks(stmts[0])[b], x);
        OccursInside(stmts, stmts[0], b, x);
      }
    } else {
      PathsEndAtReturns(stmts[1..], a.left, p);
      var x :| Occurs(stmts[1..], x) && EndsAt(p, x);
      OccursLater(stmts, x);
    }
  }

  lemma OccursLater(stmts: seq<Stmt>, x: Stmt)
    requires stmts != [] && Occurs(stmts[1..], x)
    ensures Occurs(stmts, x)
  {
    var way: seq<Turn> :| IsAt(stmts[1..], way, x);
    if way == [] {
      OccursHere(stmts, x);
    } else {
      var s := stmts[1..][way[0].index];
      assert IsAt(Blocks(s)[way[0].block], way[1..], x);
      OccursInside(stmts, s, way[0].block, x);
    }
  }

  /** The return is the statement itself or inside one of its blocks. */
  lemma {:induction false} PathEndsInside(s: Stmt, active: seq<History>, p: ReturnPath) returns (x: Stmt)
    requires p in WalkOne(s, active).paths
    ensures EndsAt(p, x)
    ensures x == s || exists b: nat :: b < |Blocks(s)| && Occurs(Blocks(s)[b], x)
    decreases s
  {
    match s
    case Return(_, _, _) =>
      x := s;
    case SingleIf(cond, thenBody, elseClause) =>
      var yes := Add(active, Condition(IfTest(cond), true));
      if p in WalkAll(thenBody, yes).paths {
        PathsEndAtReturns(thenBody, yes, p);
        x :| Occurs(Blocks(s)[0], x) && EndsAt(p, x);
      } else {
        PathsEndAtReturns(elseClause.body, Add(active, Condition(IfTest(cond), false)), p);
        x :| Occurs(Blocks(s)[1], x) && EndsAt(p, x);
      }
    case MultiIf(arms, elseBlock) =>
      ArmPaths(s, active, p);
      var i: nat :| FromArm(s, i, active, p);
      if i < |arms| {
        PathsEndAtReturns(arms[i].body, Continue(active, Failed(s, i) + [Testing(s, i, true)]), p);
      } else {
        PathsEndAtReturns(elseBlock.body, Continue(active, Failed(s, i)), p);
      }
      x :| Occurs(Blocks(s)[i], x) && EndsAt(p, x);
    case Select(_, _, cases) =>
      CasePaths(s, active, p);
      var k: nat :| FromCase(s, k, active, p);
      PathsEndAtReturns(cases[k].body, Continue(active, Entered(s, k)), p);
      x :| Occurs(Blocks(s)[k], x) && EndsAt(p, x);
  }
}
