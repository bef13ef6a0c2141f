/** Which method bodies the walk may trust: the complaints of ReturnPathAnalyzer.Validate, and what it
    means that there are none. */
module Validation {

  import opened Wrappers
  import opened VbSyntax

  const MAX_EXPRESSION_BYTES := 1024
  const MAX_RETURNS := 32
  const MAX_NESTING := 16

  datatype IssueKind =
    | SourceBudget
    | ParseError
    | MethodRange
    | ConditionalCompilation
    | DeferredMember
    | DeferredExpression
    | NestingBudget
    | ExpressionTooLong
    | CasePattern
    | ReturnBudget
    | UnsupportedStatement
    | PathBudget
    | ResponseBudget

  datatype Issue = Issue(kind: IssueKind, line: int)

  // ---- The complaints, in the order in which they are raised ----

  /** What has been raised, and the return sites recorded so far. */
  datatype Verdict = Verdict(issues: seq<Issue>, sites: set<int>)

  predicate SimpleLabel(value: Label) {
    || value.LiteralLabel?
    || value.IdentifierLabel?
    || (value.MemberLabel? && value.receiver.Some? && SimpleLabel(value.receiver.value))
  }

  predicate ClauseSupported(clause: CaseClause) {
    clause.ElseClause? || (clause.SimpleClause? && SimpleLabel(clause.value))
  }

  /** The line that an issue about a statement names. */
  function LineOf(s: Stmt): int {
    match s
    case Return(_, lines, _) => lines.start
    case SingleIf(cond, _, _) => cond.lines.start
    case MultiIf(arms, _) => if arms == [] then 0 else arms[0].header.start
    case Select(header, _, _) => header.start
    case Plain(_, lines) => lines.start
    case Foreign(_, lines) => lines.start
    case ForeignBlock(_, line, _) => line
  }

  function TooLong(bytes: nat, line: int): seq<Issue> {
    if bytes > MAX_EXPRESSION_BYTES then [Issue(ExpressionTooLong, line)] else []
  }

  function ClauseComplaints(clauses: seq<CaseClause>): seq<Issue> {
    if clauses == [] then []
    else
      var last := clauses[|clauses| - 1];
      ClauseComplaints(clauses[..|clauses| - 1])
      + (if ClauseSupported(last) then [] else [Issue(CasePattern, last.line)])
  }

  function ConditionComplaints(arms: seq<Arm>): seq<Issue> {
    if arms == [] then []
    else
      var cond := arms[|arms| - 1].cond;
      ConditionComplaints(arms[..|arms| - 1]) + TooLong(cond.bytes, cond.lines.start)
  }

  function HeaderComplaints(c: CaseBlock): seq<Issue> {
    TooLong(c.headerBytes, c.header.start) + ClauseComplaints(c.clauses)
  }

  /** One thing after another. */
  function Next(a: Verdict, more: seq<Issue>, b: Verdict): Verdict {
    Verdict(a.issues + more + b.issues, b.sites)
  }

  lemma NextAssociates(a: Verdict, b: Verdict, more: seq<Issue>, c: Verdict)
    ensures Next(Next(a, [], b), more, c) == Next(a, [], Next(b, more, c))
  {
    assert a.issues + [] + b.issues + more + c.issues == a.issues + [] + (b.issues + more + c.issues);
  }

  /** About a list inside `depth` blocks of a method that starts at the line. */
  function Complaints(stmts: seq<Stmt>, depth: nat, start: int, sites: set<int>): Verdict
    decreases stmts, 1, 0
  {
    if depth > MAX_NESTING then
      Verdict([Issue(NestingBudget, if stmts == [] then start else LineOf(stmts[0]))], sites)
    else ComplaintsFirst(stmts, |stmts|, depth, start, sites)
  }

  function ComplaintsFirst(stmts: seq<Stmt>, n: nat, depth: nat, start: int, sites: set<int>): Verdict
    requires n <= |stmts|
    decreases stmts, 0, n
  {
    if n == 0 then Verdict([], sites)
    else
      var before := ComplaintsFirst(stmts, n - 1, depth, start, sites);
      Next(before, [], ComplaintsOne(stmts[n - 1], depth, start, before.sites))
  }

  function ComplaintsOne(s: Stmt, depth: nat, start: int, sites: set<int>): Verdict
    decreases s, 1, 0
  {
    match s
    case Return(site, lines, value) =>
      Verdict((if value.Some? then TooLong(value.value.bytes, value.value.lines.start) else [])
              + (if |sites + {site}| > MAX_RETURNS then [Issue(ReturnBudget, lines.start)] else []),
              sites + {site})
    case SingleIf(cond, thenBody, elseClause) =>
      var taken := Complaints(thenBody, depth + 1, start, sites);
      Next(Verdict(TooLong(cond.bytes, cond.lines.start), sites), [],
           if elseClause.SingleElse? then
             Next(taken, [], Complaints(elseClause.body, depth + 1, start, taken.sites))
           else taken)
    case MultiIf(arms, elseBlock) =>
      var taken := ComplaintsArms(s, |arms|, depth, start, sites);
      Next(Verdict(ConditionComplaints(arms), sites), [],
           if elseBlock.Else? then Next(taken, [], Complaints(elseBlock.body, depth + 1, start, taken.sites))
           else taken)
    case Select(_, selector, cases) =>
      Next(Verdict(TooLong(selector.bytes, selector.lines.start), sites), [],
           ComplaintsCases(s, |cases|, depth, start, sites))
    case Plain(_, _) => Verdict([], sites)
    case Foreign(_, _) => Verdict([Issue(UnsupportedStatement, LineOf(s))], sites)
    case ForeignBlock(_, _, _) => Verdict([Issue(UnsupportedStatement, LineOf(s))], sites)
  }

  function ComplaintsArms(s: Stmt, n: nat, depth: nat, start: int, sites: set<int>): Verdict
    requires s.MultiIf? && n <= |s.arms|
    decreases s, 0, n
  {
    if n == 0 then Verdict([], sites)
    else
      var before := ComplaintsArms(s, n - 1, depth, start, sites);
      Next(before, [], Complaints(s.arms[n - 1].body, depth + 1, start, before.sites))
  }

  function ComplaintsCases(s: Stmt, n: nat, depth: nat, start: int, sites: set<int>): Verdict
    requires s.Select? && n <= |s.cases|
    decreases s, 0, n
  {
    if n == 0 then Verdict([], sites)
    else
      var before := ComplaintsCases(s, n - 1, depth, start, sites);
      Next(before, HeaderComplaints(s.cases[n - 1]),
           Complaints(s.cases[n - 1].body, depth + 1, start, before.sites))
  }

  // ---- What the walk interprets, told of every statement on its own ----

  /** A literal or an identifier, followed by any number of member names. */
  function Chain(root: Label, members: nat): Label {
    if members == 0 then root else MemberLabel(Some(Chain(root, members - 1)))
  }

  predicate IsRoot(value: Label) {
    value.LiteralLabel? || value.IdentifierLabel?
  }

  ghost predicate IsChain(value: Label) {
    exists root: Label, members: nat :: IsRoot(root) && value == Chain(root, members)
  }

  lemma {:induction false} SimpleIsChain(value: Label)
    ensures SimpleLabel(value) <==> IsChain(value)
    decreases value
  {
    if value.LiteralLabel? || value.IdentifierLabel? {
      assert value == Chain(value, 0);
    } else if value.MemberLabel? && value.receiver.Some? {
      var receiver := value.receiver.value;
      SimpleIsChain(receiver);
      if IsChain(receiver) {
        var root: Label, members: nat :| IsRoot(root) && receiver == Chain(root, members);
        assert value == Chain(root, members + 1);
      }
      if IsChain(value) {
        var root: Label, members: nat :| IsRoot(root) && value == Chain(root, members);
        assert receiver == Chain(root, members - 1);
      }
    }
  }

  ghost predicate ClauseInterpreted(c: CaseClause) {
    c.ElseClause? || (c.SimpleClause? && IsChain(c.value))
  }

  /** The statement itself is interpreted, and what it evaluates is at most 1024 bytes long. */
  ghost predicate Interpreted(x: Stmt) {
    && !x.Foreign? && !x.ForeignBlock?
    && (x.Return? && x.value.Some? ==> x.value.value.bytes <= 1024)
    && (x.SingleIf? ==> x.cond.bytes <= 1024)
    && (x.MultiIf? ==> forall i :: 0 <= i < |x.arms| ==> x.arms[i].cond.bytes <= 1024)
    && (x.Select? ==>
          && x.selector.bytes <= 1024
          && (forall i :: 0 <= i < |x.cases| ==> x.cases[i].headerBytes <= 1024)
          && (forall i, c :: 0 <= i < |x.cases| && c in x.cases[i].clauses ==> ClauseInterpreted(c)))
  }

  /** Every statement at any depth is interpreted, and no list is inside more than sixteen blocks. */
  ghost predicate Interpretable(stmts: seq<Stmt>, depth: nat) {
    forall way: seq<Turn> :: ListAt(stmts, way).Some? ==>
      depth + |way| <= 16 && forall x :: x in ListAt(stmts, way).value ==> Interpreted(x)
  }

  /** One statement with all that is inside it. */
  ghost predicate Whole(s: Stmt, depth: nat) {
    Interpreted(s) && forall b :: 0 <= b < |Blocks(s)| ==> Interpretable(Blocks(s)[b], depth + 1)
  }

  lemma InterpretableUnfolds(stmts: seq<Stmt>, depth: nat)
    ensures Interpretable(stmts, depth) <==> depth <= 16 && forall i :: 0 <= i < |stmts| ==> Whole(stmts[i], depth)
  {
    hide Interpreted;
    if Interpretable(stmts, depth) {
      assert ListAt(stmts, []) == Some(stmts);
      forall i, b | 0 <= i < |stmts| && 0 <= b < |Blocks(stmts[i])|
        ensures Interpretable(Blocks(stmts[i])[b], depth + 1)
      {
        forall way: seq<Turn> | ListAt(Blocks(stmts[i])[b], way).Some?
          ensures depth + 1 + |way| <= 16
          ensures forall x :: x in ListAt(Blocks(stmts[i])[b], way).value ==> Interpreted(x)
        {
          OneTurn(stmts, i, b, way);
          assert ListAt(stmts, [Turn(i, b)] + way).Some?;
        }
      }
    }
    if depth <= 16 && forall i :: 0 <= i < |stmts| ==> Whole(stmts[i], depth) {
      forall way: seq<Turn> | ListAt(stmts, way).Some?
        ensures depth + |way| <= 16 && forall x :: x in ListAt(stmts, way).value ==> Interpreted(x)
      {
        if way != [] {
          assert Whole(stmts[way[0].index], depth);
          assert Interpretable(Blocks(stmts[way[0].index])[way[0].block], depth + 1);
          assert ListAt(Blocks(stmts[way[0].index])[way[0].block], way[1..]).Some?;
        }
      }
    }
  }

  // ---- The return sites ----

  function Sites(stmts: seq<Stmt>): set<int>
    decreases stmts, 1, 0
  {
    SitesFirst(stmts, |stmts|)
  }

  function SitesFirst(stmts: seq<Stmt>, n: nat): set<int>
    requires n <= |stmts|
    decreases stmts, 0, n
  {
    if n == 0 then {} else SitesFirst(stmts, n - 1) + SitesOne(stmts[n - 1])
  }

  function SitesOne(s: Stmt): set<int>
    decreases s, 1, 0
  {
    match s
    case Return(site, _, _) => {site}
    case SingleIf(_, thenBody, elseClause) =>
      Sites(thenBody) + (if elseClause.SingleElse? then Sites(elseClause.body) else {})
    case MultiIf(arms, elseBlock) =>
      SitesArms(s, |arms|) + (if elseBlock.Else? then Sites(elseBlock.body) else {})
    case Select(_, _, cases) => SitesCases(s, |cases|)
    case _ => {}
  }

  function SitesArms(s: Stmt, n: nat): set<int>
    requires s.MultiIf? && n <= |s.arms|
    decreases s, 0, n
  {
    if n == 0 then {} else SitesArms(s, n - 1) + Sites(s.arms[n - 1].body)
  }

  function SitesCases(s: Stmt, n: nat): set<int>
    requires s.Select? && n <= |s.cases|
    decreases s, 0, n
  {
    if n == 0 then {} else SitesCases(s, n - 1) + Sites(s.cases[n - 1].body)
  }

  ghost predicate HasReturn(stmts: seq<Stmt>, site: int) {
    exists x :: Occurs(stmts, x) && x.Return? && x.site == site
  }

  ghost predicate HasReturnInside(s: Stmt, site: int) {
    (s.Return? && s.site == site) || exists b :: 0 <= b < |Blocks(s)| && HasReturn(Blocks(s)[b], site)
  }

  lemma HasReturnUnfolds(stmts: seq<Stmt>, site: int)
    ensures HasReturn(stmts, site) <==> exists i :: 0 <= i < |stmts| && HasReturnInside(stmts[i], site)
  {
    if HasReturn(stmts, site) {
      var x :| Occurs(stmts, x) && x.Return? && x.site == site;
      var way: seq<Turn> :| IsAt(stmts, way, x);
      if way != [] {
        var s := stmts[way[0].index];
        assert IsAt(Blocks(s)[way[0].block], way[1..], x);
        assert HasReturn(Blocks(s)[way[0].block], site);
        assert HasReturnInside(s, site);
      } else {
        assert HasReturnInside(x, site);
      }
    }
    if i :| 0 <= i < |stmts| && HasReturnInside(stmts[i], site) {
      if stmts[i].Return? && stmts[i].site == site {
        OccursHere(stmts, stmts[i]);
      } else {
        var b :| 0 <= b < |Blocks(stmts[i])| && HasReturn(Blocks(stmts[i])[b], site);
        var x :| Occurs(Blocks(stmts[i])[b], x) && x.Return? && x.site == site;
        OccursInside(stmts, stmts[i], b, x);
      }
    }
  }

  /** In an interpretable list the sites are those of all its returns, at any depth. */
  lemma {:induction false} SitesAreReturns(stmts: seq<Stmt>, depth: nat, site: int)
    requires Interpretable(stmts, depth)
    ensures site in Sites(stmts) <==> HasReturn(stmts, site)
    decreases stmts, 1, 0
  {
    InterpretableUnfolds(stmts, depth);
    HasReturnUnfolds(stmts, site);
    SitesOfFirst(stmts, |stmts|, depth, site);
  }

  lemma {:induction false} SitesOfFirst(stmts: seq<Stmt>, n: nat, depth: nat, site: int)
    requires n <= |stmts| && forall i :: 0 <= i < n ==> Whole(stmts[i], depth)
    ensures site in SitesFirst(stmts, n) <==> exists i :: 0 <= i < n && HasReturnInside(stmts[i], site)
    decreases stmts, 0, n
  {
    hide HasReturnInside, Whole;
    if n > 0 {
      SitesOfFirst(stmts, n - 1, depth, site);
      SitesOfOne(stmts[n - 1], depth, site);
    }
  }

  lemma {:induction false} SitesOfOne(s: Stmt, depth: nat, site: int)
    requires Whole(s, depth)
    ensures site in SitesOne(s) <==> HasReturnInside(s, site)
    decreases s, 1, 0
  {
    hide Interpretable, HasReturn, Sites;
    match s
    case SingleIf(_, thenBody, elseClause) =>
      assert Interpretable(Blocks(s)[0], depth + 1);
      SitesAreReturns(thenBody, depth + 1, site);
      if elseClause.SingleElse? {
        assert Interpretable(Blocks(s)[1], depth + 1);
        SitesAreReturns(elseClause.body, depth + 1, site);
      }
    case MultiIf(arms, elseBlock) =>
      SitesOfArms(s, |arms|, depth, site);
      if elseBlock.Else? {
        assert Interpretable(Blocks(s)[|arms|], depth + 1);
        SitesAreReturns(elseBlock.body, depth + 1, site);
      }
    case Select(_, _, cases) =>
      SitesOfCases(s, |cases|, depth, site);
    case _ =>
  }

  lemma {:induction false} SitesOfArms(s: Stmt, n: nat, depth: nat, site: int)
    requires s.MultiIf? && n <= |s.arms| && Whole(s, depth)
    ensures site in SitesArms(s, n) <==> exists b :: 0 <= b < n && HasReturn(Blocks(s)[b], site)
    decreases s, 0, n
  {
    hide Interpretable, HasReturn, Sites;
    if n > 0 {
      SitesOfArms(s, n - 1, depth, site);
      assert Interpretable(Blocks(s)[n - 1], depth + 1);
      SitesAreReturns(s.arms[n - 1].body, depth + 1, site);
    }
  }

  lemma {:induction false} SitesOfCases(s: Stmt, n: nat, depth: nat, site: int)
    requires s.Select? && n <= |s.cases| && Whole(s, depth)
    ensures site in SitesCases(s, n) <==> exists b :: 0 <= b < n && HasReturn(Blocks(s)[b], site)
    decreases s, 0, n
  {
    hide Interpretable, HasReturn, Sites;
    if n > 0 {
      SitesOfCases(s, n - 1, depth, site);
      assert Interpretable(Blocks(s)[n - 1], depth + 1);
      SitesAreReturns(s.cases[n - 1].body, depth + 1, site);
    }
  }

  // ---- What silence means ----

  /** From `before` to `after` return sites, nothing is raised exactly when `ok` holds and the recorded
      sites stay within budget. */
  ghost predicate Checked(before: set<int>, v: Verdict, ok: bool, sites: set<int>) {
    |before| <= 32 ==>
      && (v.issues == [] <==> ok && |before + sites| <= 32)
      && (v.issues == [] ==> v.sites == before + sites)
  }

  lemma LargerUnion(a: set<int>, b: set<int>)
    ensures |a| <= |a + b|
  {
    assert a + b == a + (b - a);
    assert a * (b - a) == {};
  }

  lemma Compose(before: set<int>, v: Verdict, ok: bool, sites: set<int>, more: seq<Issue>, fits: bool,
                w: Verdict, ok': bool, sites': set<int>)
    requires Checked(before, v, ok, sites) && Checked(v.sites, w, ok', sites')
    requires fits <==> more == []
    ensures Checked(before, Next(v, more, w), ok && fits && ok', sites + sites')
  {
    assert before + (sites + sites') == (before + sites) + sites';
    LargerUnion(before + sites, sites');
  }

  /** Before anything is looked at. */
  lemma Untouched(sites: set<int>, issues: seq<Issue>)
    ensures Checked(sites, Verdict(issues, sites), issues == [], {})
  {
    assert sites + {} == sites;
  }

  lemma {:induction false} ClausesSilent(clauses: seq<CaseClause>)
    ensures ClauseComplaints(clauses) == [] <==> forall c :: c in clauses ==> ClauseInterpreted(c)
  {
    hide IsChain;
    if clauses != [] {
      var init, last := clauses[..|clauses| - 1], clauses[|clauses| - 1];
      ClausesSilent(init);
      assert clauses == init + [last];
      assert ClauseSupported(last) <==> ClauseInterpreted(last) by {
        if last.SimpleClause? {
          SimpleIsChain(last.value);
        }
      }
    }
  }

  lemma {:induction false} ConditionsSilent(arms: seq<Arm>)
    ensures ConditionComplaints(arms) == [] <==> forall i :: 0 <= i < |arms| ==> arms[i].cond.bytes <= 1024
  {
    if arms != [] {
      ConditionsSilent(arms[..|arms| - 1]);
    }
  }

  /** Nothing is raised about a list exactly when it is interpretable and stays within the budget of
      thirty-two return sites; then just its sites have been recorded. */
  lemma {:induction false} SilenceIsExact(stmts: seq<Stmt>, depth: nat, start: int, sites: set<int>)
    ensures Checked(sites, Complaints(stmts, depth, start, sites), Interpretable(stmts, depth), Sites(stmts))
    decreases stmts, 1, 0
  {
    hide Interpretable, Whole;
    InterpretableUnfolds(stmts, depth);
    if depth <= MAX_NESTING {
      SilentFirst(stmts, |stmts|, depth, start, sites);
    }
  }

  lemma {:induction false} SilentFirst(stmts: seq<Stmt>, n: nat, depth: nat, start: int, sites: set<int>)
    requires n <= |stmts| && depth <= MAX_NESTING
    ensures Checked(sites, ComplaintsFirst(stmts, n, depth, start, sites),
                    forall i :: 0 <= i < n ==> Whole(stmts[i], depth), SitesFirst(stmts, n))
    decreases stmts, 0, n
  {
    hide Whole, Checked;
    if n == 0 {
      Untouched(sites, []);
    } else {
      var before := ComplaintsFirst(stmts, n - 1, depth, start, sites);
      SilentFirst(stmts, n - 1, depth, start, sites);
      SilentOne(stmts[n - 1], depth, start, before.sites);
      Compose(sites, before, forall i :: 0 <= i < n - 1 ==> Whole(stmts[i], depth), SitesFirst(stmts, n - 1),
              [], true, ComplaintsOne(stmts[n - 1], depth, start, before.sites),
              Whole(stmts[n - 1], depth), SitesOne(stmts[n - 1]));
    }
  }

  lemma {:induction false} SilentOne(s: Stmt, depth: nat, start: int, sites: set<int>)
    requires depth <= MAX_NESTING
    ensures Checked(sites, ComplaintsOne(s, depth, start, sites), Whole(s, depth), SitesOne(s))
    decreases s, 1, 0
  {
    hide Interpretable;
    match s
    case Return(_, _, _) =>
    case SingleIf(_, _, _) => SilentSingle(s, depth, start, sites);
    case MultiIf(_, _) => SilentMulti(s, depth, start, sites);
    case Select(_, _, _) => SilentSelect(s, depth, start, sites);
    case Plain(_, _) => assert sites + {} == sites;
    case _ =>
  }

  lemma SingleWhole(s: Stmt, depth: nat)
    requires s.SingleIf?
    ensures Whole(s, depth) <==>
              && TooLong(s.cond.bytes, s.cond.lines.start) == []
              && Interpretable(s.thenBody, depth + 1)
              && (s.elseClause.SingleElse? ==> Interpretable(s.elseClause.body, depth + 1))
  {
    hide Interpretable;
    assert Blocks(s)[0] == s.thenBody;
    if s.elseClause.SingleElse? {
      assert Blocks(s)[1] == s.elseClause.body;
    }
  }

  lemma MultiWhole(s: Stmt, depth: nat)
    requires s.MultiIf?
    ensures Whole(s, depth) <==>
              && ConditionComplaints(s.arms) == []
              && (forall i :: 0 <= i < |s.arms| ==> Interpretable(s.arms[i].body, depth + 1))
              && (s.elseBlock.Else? ==> Interpretable(s.elseBlock.body, depth + 1))
  {
    hide Interpretable;
    ConditionsSilent(s.arms);
    assert forall i :: 0 <= i < |s.arms| ==> Blocks(s)[i] == s.arms[i].body;
    if s.elseBlock.Else? {
      assert Blocks(s)[|s.arms|] == s.elseBlock.body;
    }
  }

  lemma {:induction false} SilentSingle(s: Stmt, depth: nat, start: int, sites: set<int>)
    requires s.SingleIf? && depth <= MAX_NESTING
    ensures Checked(sites, ComplaintsOne(s, depth, start, sites), Whole(s, depth), SitesOne(s))
    decreases s, 0, 0
  {
    hide Interpretable, Checked, Whole, Blocks, Complaints, Sites, TooLong;
    SingleWhole(s, depth);
    var first := TooLong(s.cond.bytes, s.cond.lines.start);
    var taken := Complaints(s.thenBody, depth + 1, start, sites);
    var thenOk, thenSites := Interpretable(s.thenBody, depth + 1), Sites(s.thenBody);
    SilenceIsExact(s.thenBody, depth + 1, start, sites);
    Untouched(sites, first);
    if s.elseClause.SingleElse? {
      var body := s.elseClause.body;
      SilenceIsExact(body, depth + 1, start, taken.sites);
      Compose(sites, taken, thenOk, thenSites, [], true,
              Complaints(body, depth + 1, start, taken.sites), Interpretable(body, depth + 1), Sites(body));
      Compose(sites, Verdict(first, sites), first == [], {}, [], true,
              Next(taken, [], Complaints(body, depth + 1, start, taken.sites)),
              thenOk && Interpretable(body, depth + 1), thenSites + Sites(body));
    } else {
      Compose(sites, Verdict(first, sites), first == [], {}, [], true, taken, thenOk, thenSites);
      assert thenSites + {} == thenSites;
    }
    assert {} + SitesOne(s) == SitesOne(s);
  }

  lemma {:induction false} SilentMulti(s: Stmt, depth: nat, start: int, sites: set<int>)
    requires s.MultiIf? && depth <= MAX_NESTING
    ensures Checked(sites, ComplaintsOne(s, depth, start, sites), Whole(s, depth), SitesOne(s))
    decreases s, 0, |s.arms| + 1
  {
    hide Interpretable, Checked, Whole, Blocks, Complaints, Sites, ComplaintsArms, SitesArms, ConditionComplaints;
    MultiWhole(s, depth);
    var n, first := |s.arms|, ConditionComplaints(s.arms);
    var taken := ComplaintsArms(s, n, depth, start, sites);
    var armsOk := forall i :: 0 <= i < n ==> Interpretable(s.arms[i].body, depth + 1);
    SilentArms(s, n, depth, start, sites);
    Untouched(sites, first);
    if s.elseBlock.Else? {
      var body := s.elseBlock.body;
      SilenceIsExact(body, depth + 1, start, taken.sites);
      Compose(sites, taken, armsOk, SitesArms(s, n), [], true,
              Complaints(body, depth + 1, start, taken.sites), Interpretable(body, depth + 1), Sites(body));
      Compose(sites, Verdict(first, sites), first == [], {}, [], true,
              Next(taken, [], Complaints(body, depth + 1, start, taken.sites)),
              armsOk && Interpretable(body, depth + 1), SitesArms(s, n) + Sites(body));
    } else {
      Compose(sites, Verdict(first, sites), first == [], {}, [], true, taken, armsOk, SitesArms(s, n));
      assert SitesArms(s, n) + {} == SitesArms(s, n);
    }
    assert {} + SitesOne(s) == SitesOne(s);
  }

  lemma {:induction false} SilentArms(s: Stmt, n: nat, depth: nat, start: int, sites: set<int>)
    requires s.MultiIf? && n <= |s.arms| && depth <= MAX_NESTING
    ensures Checked(sites, ComplaintsArms(s, n, depth, start, sites),
                    forall i :: 0 <= i < n ==> Interpretable(s.arms[i].body, depth + 1), SitesArms(s, n))
    decreases s, 0, n
  {
    hide Interpretable, Checked;
    if n == 0 {
      Untouched(sites, []);
    } else {
      var before, body := ComplaintsArms(s, n - 1, depth, start, sites), s.arms[n - 1].body;
      SilentArms(s, n - 1, depth, start, sites);
      SilenceIsExact(body, depth + 1, start, before.sites);
      Compose(sites, before, forall i :: 0 <= i < n - 1 ==> Interpretable(s.arms[i].body, depth + 1),
              SitesArms(s, n - 1), [], true, Complaints(body, depth + 1, start, before.sites),
              Interpretable(body, depth + 1), Sites(body));
    }
  }

  /** The header of one case group and its body. */
  ghost predicate CaseWhole(c: CaseBlock, depth: nat) {
    && c.headerBytes <= 1024
    && (forall x :: x in c.clauses ==> ClauseInterpreted(x))
    && Interpretable(c.body, depth + 1)
  }

  lemma HeaderSilent(c: CaseBlock)
    ensures HeaderComplaints(c) == [] <==> c.headerBytes <= 1024 && forall x :: x in c.clauses ==> ClauseInterpreted(x)
  {
    hide ClauseInterpreted;
    ClausesSilent(c.clauses);
  }

  lemma {:induction false} SilentSelect(s: Stmt, depth: nat, start: int, sites: set<int>)
    requires s.Select? && depth <= MAX_NESTING
    ensures Checked(sites, ComplaintsOne(s, depth, start, sites), Whole(s, depth), SitesOne(s))
    decreases s, 0, |s.cases| + 1
  {
    hide Interpretable, Checked, ClauseInterpreted;
    var n, first := |s.cases|, TooLong(s.selector.bytes, s.selector.lines.start);
    var casesOk := forall i :: 0 <= i < n ==> CaseWhole(s.cases[i], depth);
    SilentCases(s, n, depth, start, sites);
    Untouched(sites, first);
    Compose(sites, Verdict(first, sites), first == [], {}, [], true,
            ComplaintsCases(s, n, depth, start, sites), casesOk, SitesCases(s, n));
    assert forall i :: 0 <= i < n ==> Blocks(s)[i] == s.cases[i].body;
    assert Whole(s, depth) <==> first == [] && casesOk;
    assert {} + SitesOne(s) == SitesOne(s);
  }

  lemma {:induction false} SilentCases(s: Stmt, n: nat, depth: nat, start: int, sites: set<int>)
    requires s.Select? && n <= |s.cases| && depth <= MAX_NESTING
    ensures Checked(sites, ComplaintsCases(s, n, depth, start, sites),
                    forall i :: 0 <= i < n ==> CaseWhole(s.cases[i], depth), SitesCases(s, n))
    decreases s, 0, n
  {
    hide Interpretable, Checked, ClauseInterpreted, Complaints, Sites, TooLong, ClauseComplaints;
    if n == 0 {
      Untouched(sites, []);
    } else {
      var before, c := ComplaintsCases(s, n - 1, depth, start, sites), s.cases[n - 1];
      SilentCases(s, n - 1, depth, start, sites);
      SilenceIsExact(c.body, depth + 1, start, before.sites);
      HeaderSilent(c);
      Compose(sites, before, forall i :: 0 <= i < n - 1 ==> CaseWhole(s.cases[i], depth), SitesCases(s, n - 1),
              HeaderComplaints(c), HeaderComplaints(c) == [], Complaints(c.body, depth + 1, start, before.sites),
              Interpretable(c.body, depth + 1), Sites(c.body));
    }
  }

  // ---- No complaint without a cause ----

  predicate IsLong(e: Expr, line: int) {
    e.bytes > 1024 && e.lines.start == line
  }

  ghost predicate HasLong(x: Stmt, line: int) {
    match x
    case Return(_, _, value) => value.Some? && IsLong(value.value, line)
    case SingleIf(cond, _, _) => IsLong(cond, line)
    case MultiIf(arms, _) => exists i :: 0 <= i < |arms| && IsLong(arms[i].cond, line)
    case Select(_, selector, cases) =>
      || IsLong(selector, line)
      || exists i :: 0 <= i < |cases| && cases[i].headerBytes > 1024 && cases[i].header.start == line
    case _ => false
  }

  ghost predicate Uninterpreted(c: CaseClause, line: int) {
    !c.ElseClause? && c.line == line && !ClauseInterpreted(c)
  }

  /** The statement has the fault that the issue is about, on the issue's line. */
  ghost predicate Blames(issue: Issue, x: Stmt) {
    match issue.kind
    case UnsupportedStatement =>
      (x.Foreign? && x.lines.start == issue.line) || (x.ForeignBlock? && x.line == issue.line)
    case ExpressionTooLong => HasLong(x, issue.line)
    case CasePattern =>
      x.Select? && exists i, c :: 0 <= i < |x.cases| && c in x.cases[i].clauses && Uninterpreted(c, issue.line)
    case ReturnBudget => x.Return? && x.lines.start == issue.line
    case _ => false
  }

  /** The issue names the first statement of a list inside seventeen blocks, or the method if it is empty. */
  ghost predicate TooDeep(issue: Issue, stmts: seq<Stmt>, depth: nat, start: int) {
    issue.kind == NestingBudget
    && exists way: seq<Turn> :: DeepList(stmts, way, depth) && issue.line == DeepLine(ListAt(stmts, way).value, start)
  }

  predicate DeepList(stmts: seq<Stmt>, way: seq<Turn>, depth: nat) {
    ListAt(stmts, way).Some? && depth + |way| == 17
  }

  function DeepLine(stmts: seq<Stmt>, start: int): int {
    if stmts == [] then start else LineOf(stmts[0])
  }

  ghost predicate Justified(issue: Issue, stmts: seq<Stmt>, depth: nat, start: int) {
    (exists x :: Occurs(stmts, x) && Blames(issue, x)) || TooDeep(issue, stmts, depth, start)
  }

  ghost predicate JustifiedInside(issue: Issue, s: Stmt, depth: nat, start: int) {
    Blames(issue, s) || exists b :: 0 <= b < |Blocks(s)| && Justified(issue, Blocks(s)[b], depth + 1, start)
  }

  lemma JustifiedAbove(issue: Issue, stmts: seq<Stmt>, i: nat, depth: nat, start: int)
    requires i < |stmts| && JustifiedInside(issue, stmts[i], depth, start)
    ensures Justified(issue, stmts, depth, start)
  {
    hide Blames, Occurs;
    if Blames(issue, stmts[i]) {
      OccursHere(stmts, stmts[i]);
    } else {
      var b :| 0 <= b < |Blocks(stmts[i])| && Justified(issue, Blocks(stmts[i])[b], depth + 1, start);
      var body := Blocks(stmts[i])[b];
      if x :| Occurs(body, x) && Blames(issue, x) {
        OccursInside(stmts, stmts[i], b, x);
      } else {
        var way: seq<Turn> :| DeepList(body, way, depth + 1) && issue.line == DeepLine(ListAt(body, way).value, start);
        OneTurn(stmts, i, b, way);
        assert DeepList(stmts, [Turn(i, b)] + way, depth);
      }
    }
  }

  /** Every issue names a statement with just that fault, or a list that is too deep. */
  lemma {:induction false} ComplaintsAreReal(stmts: seq<Stmt>, depth: nat, start: int, sites: set<int>, issue: Issue)
    requires depth <= 17 && issue in Complaints(stmts, depth, start, sites).issues
    ensures Justified(issue, stmts, depth, start)
    decreases stmts, 1, 0
  {
    hide Occurs, Blames;
    if depth > MAX_NESTING {
      assert DeepList(stmts, [], depth);
    } else {
      var i := RealFirst(stmts, |stmts|, depth, start, sites, issue);
      JustifiedAbove(issue, stmts, i, depth, start);
    }
  }

  lemma {:induction false} RealFirst(stmts: seq<Stmt>, n: nat, depth: nat, start: int, sites: set<int>, issue: Issue)
    returns (i: nat)
    requires n <= |stmts| && depth <= MAX_NESTING
    requires issue in ComplaintsFirst(stmts, n, depth, start, sites).issues
    ensures i < n && JustifiedInside(issue, stmts[i], depth, start)
    decreases stmts, 0, n
  {
    hide JustifiedInside, ComplaintsOne;
    if issue in ComplaintsFirst(stmts, n - 1, depth, start, sites).issues {
      i := RealFirst(stmts, n - 1, depth, start, sites, issue);
    } else {
      i := n - 1;
      RealOne(stmts[i], depth, start, ComplaintsFirst(stmts, n - 1, depth, start, sites).sites, issue);
    }
  }

  lemma {:induction false} ClausesReal(clauses: seq<CaseClause>, issue: Issue) returns (c: CaseClause)
    requires issue in ClauseComplaints(clauses)
    ensures issue.kind == CasePattern && c in clauses && Uninterpreted(c, issue.line)
  {
    hide IsChain;
    c := clauses[|clauses| - 1];
    if issue in ClauseComplaints(clauses[..|clauses| - 1]) {
      c := ClausesReal(clauses[..|clauses| - 1], issue);
    } else if c.SimpleClause? {
      SimpleIsChain(c.value);
    }
  }

  lemma {:induction false} ConditionsReal(arms: seq<Arm>, issue: Issue)
    requires issue in ConditionComplaints(arms)
    ensures issue.kind == ExpressionTooLong && exists i :: 0 <= i < |arms| && IsLong(arms[i].cond, issue.line)
  {
    if issue in ConditionComplaints(arms[..|arms| - 1]) {
      ConditionsReal(arms[..|arms| - 1], issue);
    }
  }

  lemma {:induction false} RealOne(s: Stmt, depth: nat, start: int, sites: set<int>, issue: Issue)
    requires depth <= MAX_NESTING && issue in ComplaintsOne(s, depth, start, sites).issues
    ensures JustifiedInside(issue, s, depth, start)
    decreases s, 1, 0
  {
    hide Justified;
    match s
    case SingleIf(cond, thenBody, elseClause) =>
      var taken := Complaints(thenBody, depth + 1, start, sites);
      if issue in taken.issues {
        ComplaintsAreReal(thenBody, depth + 1, start, sites, issue);
        assert Justified(issue, Blocks(s)[0], depth + 1, start);
      } else if elseClause.SingleElse? && issue in Complaints(elseClause.body, depth + 1, start, taken.sites).issues {
        ComplaintsAreReal(elseClause.body, depth + 1, start, taken.sites, issue);
        assert Justified(issue, Blocks(s)[1], depth + 1, start);
      }
    case MultiIf(_, _) => RealMulti(s, depth, start, sites, issue);
    case Select(_, _, _) =>
      if issue in ComplaintsCases(s, |s.cases|, depth, start, sites).issues {
        RealCases(s, |s.cases|, depth, start, sites, issue);
      }
    case _ =>
  }

  lemma {:induction false} RealMulti(s: Stmt, depth: nat, start: int, sites: set<int>, issue: Issue)
    requires s.MultiIf? && depth <= MAX_NESTING && issue in ComplaintsOne(s, depth, start, sites).issues
    ensures JustifiedInside(issue, s, depth, start)
    decreases s, 0, |s.arms| + 1
  {
    hide Justified, Complaints, ComplaintsArms, ConditionComplaints;
    var taken := ComplaintsArms(s, |s.arms|, depth, start, sites);
    if issue in ConditionComplaints(s.arms) {
      ConditionsReal(s.arms, issue);
    } else if issue in taken.issues {
      RealArms(s, |s.arms|, depth, start, sites, issue);
    } else {
      ComplaintsAreReal(s.elseBlock.body, depth + 1, start, taken.sites, issue);
      assert Justified(issue, Blocks(s)[|s.arms|], depth + 1, start);
    }
  }

  lemma {:induction false} RealArms(s: Stmt, n: nat, depth: nat, start: int, sites: set<int>, issue: Issue)
    requires s.MultiIf? && n <= |s.arms| && depth <= MAX_NESTING
    requires issue in ComplaintsArms(s, n, depth, start, sites).issues
    ensures JustifiedInside(issue, s, depth, start)
    decreases s, 0, n
  {
    hide Justified, Complaints;
    if issue in ComplaintsArms(s, n - 1, depth, start, sites).issues {
      RealArms(s, n - 1, depth, start, sites, issue);
    } else {
      var before := ComplaintsArms(s, n - 1, depth, start, sites);
      ComplaintsAreReal(s.arms[n - 1].body, depth + 1, start, before.sites, issue);
      assert Justified(issue, Blocks(s)[n - 1], depth + 1, start);
    }
  }

  lemma HeaderReal(s: Stmt, k: nat, issue: Issue)
    requires s.Select? && k < |s.cases| && issue in HeaderComplaints(s.cases[k])
    ensures Blames(issue, s)
  {
    hide Uninterpreted;
    if issue in ClauseComplaints(s.cases[k].clauses) {
      var clause := ClausesReal(s.cases[k].clauses, issue);
      assert clause in s.cases[k].clauses;
    }
  }

  lemma {:induction false} RealCases(s: Stmt, n: nat, depth: nat, start: int, sites: set<int>, issue: Issue)
    requires s.Select? && n <= |s.cases| && depth <= MAX_NESTING
    requires issue in ComplaintsCases(s, n, depth, start, sites).issues
    ensures JustifiedInside(issue, s, depth, start)
    decreases s, 0, n
  {
    hide Justified, Complaints, HeaderComplaints, Blames, Occurs;
    var c, before := s.cases[n - 1], ComplaintsCases(s, n - 1, depth, start, sites);
    if issue in before.issues {
      RealCases(s, n - 1, depth, start, sites, issue);
    } else if issue in HeaderComplaints(c) {
      HeaderReal(s, n - 1, issue);
    } else {
      ComplaintsAreReal(c.body, depth + 1, start, before.sites, issue);
      assert Justified(issue, Blocks(s)[n - 1], depth + 1, start);
    }
  }
}
