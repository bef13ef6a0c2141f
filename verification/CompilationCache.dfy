/** The compilation cache as a state machine: AstEmitter's fields and the effect of every command
    that Program dispatches to it. */
module CompilationCache {

  import opened Wrappers
  import opened SourceNaming
  import opened MapSums
  import opened PropertyIndex

  /** Counters are unsigned 64-bit and every increment is checked. */
  const MAX_ULONG: nat := 0xFFFF_FFFF_FFFF_FFFF

  datatype Policy = Policy(maxTotal: int, maxFile: int, maxTrees: int, multiplier: int, overhead: int) {
    predicate Valid() {
      && 0 < maxTotal <= 32 * 1024 * 1024
      && 0 < maxFile <= 10 * 1024 * 1024
      && 0 < maxTrees <= 250_000
      && multiplier == 32
      && overhead == 8192
    }
  }

  datatype Receipt = Receipt(
    id: nat, totalSourceBytes: int, treeCount: nat, changedSourceBytes: nat, changedTreeCount: nat,
    maxChangedFileBytes: nat, full: bool, policy: Policy)

  datatype Source = Source(path: string, bytes: nat)

  datatype Plan = Plan(receipt: Receipt, root: string, sources: seq<Source>, epoch: nat)

  datatype Cache = Cache(
    compilation: Option<multiset<SyntaxTree>>, root: Option<string>,
    trees: map<string, SyntaxTree>, index: Index, bytes: map<string, nat>,
    policy: Option<Policy>, pending: Option<Plan>, epoch: nat, nextPlan: nat)

  const INITIAL := Cache(None, None, map[], map[], map[], None, None, 0, 0)

  /** A file as the refresh reads it: the length when opened, the bytes that can be read, whether the
      sentinel read hits the end, the length afterwards, and the decoded text. */
  datatype Opened = Opened(length: nat, available: nat, atEnd: bool, lengthAfter: nat, text: string)

  datatype Input = Input(path: string, text: Option<string>)

  datatype PlanRequest = PlanRequest(
    root: string, rootExists: bool, files: Option<seq<string>>, changed: seq<string>,
    policy: Option<Policy>, lengths: map<string, nat>)

  datatype Command =
      // root is None when it is blank or does not exist
    | Begin(root: Option<string>, inputs: seq<Input>)
    | PlanRefresh(request: PlanRequest)
    | Refresh(planId: Option<nat>, disk: map<string, Opened>)
    | Invalidate(paths: seq<string>)
    | Parse(projectRoot: Option<string>, path: string, source: string, standalone: bool)

  datatype PlanError =
    | MissingPolicy
    | UnsupportedPolicy
    | RootMissing
    | ColdInventory
    | TreeLimit
    | OutsideRoot
    | AbsentChange
    | UnknownSize
    | SourceUnavailable
    | FileLimit
    | TotalLimit
    | CountLimit
    | CounterOverflow

  datatype RefreshOutcome = Stale | Failed | Installed

  /** A leading byte order mark is replaced so that spans keep their offsets. */
  function SourceForParsing(source: string): string {
    if source != [] && source[0] == '\U{FEFF}' then " " + source[1..] else source
  }

  // ---- begin_project ----

  function ReadableTrees(inputs: seq<Input>): seq<SyntaxTree> {
    if inputs == [] then []
    else
      var last := inputs[|inputs| - 1];
      ReadableTrees(inputs[..|inputs| - 1])
      + (if last.text.Some? then [SyntaxTree(last.path, SourceForParsing(last.text.value))] else [])
  }

  function BeginStep(fe: Frontend, s: Cache, root: Option<string>, inputs: seq<Input>): Cache {
    if s.epoch >= MAX_ULONG then
      s.(pending := None)
    else if root.None? then
      INITIAL.(epoch := s.epoch + 1, nextPlan := s.nextPlan)
    else
      var trees := ReadableTrees(inputs);
      Cache(Some(multiset(trees)), root, PutTrees(map[], trees), AddTrees(fe, map[], trees), map[],
            None, None, s.epoch + 1, s.nextPlan)
  }

  // ---- plan_refresh ----

  function Requested(r: PlanRequest): seq<string> {
    if r.files.Some? then r.files.value else r.changed
  }

  function FullPaths(fe: Frontend, paths: seq<string>): seq<string> {
    seq(|paths|, i requires 0 <= i < |paths| => fe.fullPath(paths[i]))
  }

  function Distinct(paths: seq<string>): seq<string> {
    if paths == [] then []
    else
      var init := Distinct(paths[..|paths| - 1]);
      if paths[|paths| - 1] in init then init else init + [paths[|paths| - 1]]
  }

  function SumLengths(paths: seq<string>, lengths: map<string, nat>): nat
    requires forall p :: p in paths ==> p in lengths
  {
    if paths == [] then 0 else SumLengths(paths[..|paths| - 1], lengths) + lengths[paths[|paths| - 1]]
  }

  function MaxLength(paths: seq<string>, lengths: map<string, nat>): nat
    requires forall p :: p in paths ==> p in lengths
  {
    if paths == [] then 0
    else
      var m, l := MaxLength(paths[..|paths| - 1], lengths), lengths[paths[|paths| - 1]];
      if l > m then l else m
  }

  /** The admission loop: stops at the first source that breaks a limit. */
  function Measure(paths: seq<string>, lengths: map<string, nat>, policy: Policy, total: int)
    : (r: Result<int, PlanError>)
    ensures r.Failure? ==> r.error.SourceUnavailable? || r.error.FileLimit? || r.error.TotalLimit?
  {
    if paths == [] then Success(total)
    else if paths[0] !in lengths then Failure(SourceUnavailable)
    else if lengths[paths[0]] > policy.maxFile then Failure(FileLimit)
    else if total + lengths[paths[0]] > policy.maxTotal then Failure(TotalLimit)
    else Measure(paths[1..], lengths, policy, total + lengths[paths[0]])
  }

  ghost function PlanOutcome(fe: Frontend, s: Cache, r: PlanRequest): Result<Plan, PlanError> {
    if r.policy.None? then Failure(MissingPolicy)
    else if !r.policy.value.Valid() then Failure(UnsupportedPolicy)
    else if !r.rootExists then Failure(RootMissing)
    else if r.files.None? && (|| s.root != Some(r.root) || s.compilation.None? || s.policy != r.policy
                              || |s.bytes| != |s.trees|) then Failure(ColdInventory)
    else if |Requested(r)| > r.policy.value.maxTrees then Failure(TreeLimit)
    else
      var full := FullPaths(fe, Requested(r));
      if exists p :: p in full && !fe.inside(r.root, p) then Failure(OutsideRoot)
      else PlanDistinct(s, r, Distinct(full))
  }

  ghost function PlanDistinct(s: Cache, r: PlanRequest, paths: seq<string>): Result<Plan, PlanError>
    requires r.policy.Some?
  {
    var policy := r.policy.value;
    if r.files.None? && exists p :: p in paths && p !in s.trees then Failure(AbsentChange)
    else if r.files.None? && exists p :: p in paths && p !in s.bytes then Failure(UnknownSize)
    else
      var base := if r.files.None? then Sum(s.bytes) - SumLengths(paths, s.bytes) else 0;
      match Measure(paths, r.lengths, policy, base)
      case Failure(e) => Failure(e)
      case Success(total) =>
        var count := if r.files.None? then |s.trees| else |paths|;
        if count > policy.maxTrees || total > policy.maxTotal then Failure(CountLimit)
        else if s.nextPlan >= MAX_ULONG then Failure(CounterOverflow)
        else if exists p :: p in paths && p !in r.lengths then Failure(SourceUnavailable)
        else
          Success(Plan(Receipt(s.nextPlan + 1, total, count, SumLengths(paths, r.lengths), |paths|,
                               MaxLength(paths, r.lengths), r.files.Some?, policy),
                       r.root, Sources(paths, r.lengths), s.epoch))
  }

  function Sources(paths: seq<string>, lengths: map<string, nat>): seq<Source>
    requires forall p :: p in paths ==> p in lengths
  {
    seq(|paths|, i requires 0 <= i < |paths| => Source(paths[i], lengths[paths[i]]))
  }

  /** Revoking the pending plan does not influence the new one. */
  lemma PendingIsIrrelevant(s: Cache, r: PlanRequest, paths: seq<string>)
    requires r.policy.Some?
    ensures PlanDistinct(s.(pending := None), r, paths) == PlanDistinct(s, r, paths)
  {
  }

  /** A request without a policy never reaches the emitter; any other attempt revokes first. */
  ghost function PlanStep(fe: Frontend, s: Cache, r: PlanRequest): Cache {
    match PlanOutcome(fe, s, r)
    case Failure(MissingPolicy) => s
    case Failure(_) => s.(pending := None)
    case Success(plan) => s.(pending := Some(plan), nextPlan := s.nextPlan + 1)
  }

  // ---- refresh_project ----

  predicate Consumes(s: Cache, planId: Option<nat>) {
    planId.Some? && s.pending.Some? && s.pending.value.receipt.id == planId.value && s.pending.value.epoch == s.epoch
  }

  predicate ReadMatches(o: Opened, bytes: nat) {
    o.length == bytes && o.available >= bytes && o.atEnd && o.lengthAfter == bytes
  }

  predicate ReadsMatch(sources: seq<Source>, disk: map<string, Opened>) {
    forall i :: 0 <= i < |sources| ==>
      sources[i].path in disk && ReadMatches(disk[sources[i].path], sources[i].bytes)
  }

  function Refreshed(sources: seq<Source>, disk: map<string, Opened>): seq<SyntaxTree>
    requires ReadsMatch(sources, disk)
  {
    seq(|sources|, i requires 0 <= i < |sources| =>
      SyntaxTree(sources[i].path, SourceForParsing(disk[sources[i].path].text)))
  }

  function Paths(sources: seq<Source>): seq<string> {
    seq(|sources|, i requires 0 <= i < |sources| => sources[i].path)
  }

  predicate AllCached(trees: map<string, SyntaxTree>, sources: seq<Source>) {
    forall i :: 0 <= i < |sources| ==> sources[i].path in trees
  }

  function Replaced(trees: map<string, SyntaxTree>, sources: seq<Source>): seq<SyntaxTree>
    requires AllCached(trees, sources)
  {
    seq(|sources|, i requires 0 <= i < |sources| => trees[sources[i].path])
  }

  /** Nothing in the guarded part of the refresh throws. */
  predicate CanInstall(s: Cache, plan: Plan, disk: map<string, Opened>) {
    && ReadsMatch(plan.sources, disk)
    && (plan.receipt.full
        || (s.compilation.Some? && AllCached(s.trees, plan.sources)
            && multiset(Replaced(s.trees, plan.sources)) <= s.compilation.value))
    && s.epoch < MAX_ULONG
  }

  function PutBytes(bytes: map<string, nat>, sources: seq<Source>): map<string, nat> {
    if sources == [] then bytes
    else PutBytes(bytes, sources[..|sources| - 1])[sources[|sources| - 1].path := sources[|sources| - 1].bytes]
  }

  function InstallFull(fe: Frontend, s: Cache, plan: Plan, added: seq<SyntaxTree>): Cache {
    Cache(Some(multiset(added)), Some(plan.root), PutTrees(map[], added), AddTrees(fe, map[], added),
          PutBytes(map[], plan.sources), Some(plan.receipt.policy), None, s.epoch + 1, s.nextPlan)
  }

  function InstallPatch(fe: Frontend, s: Cache, plan: Plan, added: seq<SyntaxTree>): Cache
    requires s.compilation.Some? && AllCached(s.trees, plan.sources)
  {
    Cache(Some(s.compilation.value - multiset(Replaced(s.trees, plan.sources)) + multiset(added)), Some(plan.root),
          PutTrees(s.trees, added), AddTrees(fe, RemovePaths(s.index, Paths(plan.sources)), added),
          PutBytes(s.bytes, plan.sources), Some(plan.receipt.policy), None, s.epoch + 1, s.nextPlan)
  }

  function Install(fe: Frontend, s: Cache, plan: Plan, disk: map<string, Opened>): Cache
    requires CanInstall(s, plan, disk)
  {
    if plan.receipt.full then InstallFull(fe, s, plan, Refreshed(plan.sources, disk))
    else InstallPatch(fe, s, plan, Refreshed(plan.sources, disk))
  }

  function Cleared(s: Cache): Cache {
    INITIAL.(epoch := if s.epoch < MAX_ULONG then s.epoch + 1 else s.epoch, nextPlan := s.nextPlan)
  }

  function RefreshStep(fe: Frontend, s: Cache, planId: Option<nat>, disk: map<string, Opened>)
    : (Cache, RefreshOutcome)
  {
    if !Consumes(s, planId) then (s, Stale)
    else if CanInstall(s, s.pending.value, disk) then (Install(fe, s, s.pending.value, disk), Installed)
    else (Cleared(s), Failed)
  }

  // ---- invalidate ----

  /** The cached paths that the command drops, in order, each once. */
  function StalePaths(trees: map<string, SyntaxTree>, paths: seq<string>): seq<string> {
    if paths == [] then []
    else
      var init, last := StalePaths(trees, paths[..|paths| - 1]), paths[|paths| - 1];
      if !Blank(last) && last in trees && last !in init then init + [last] else init
  }

  lemma {:induction false} StalePathsCached(trees: map<string, SyntaxTree>, paths: seq<string>)
    ensures forall p :: p in StalePaths(trees, paths) ==> p in trees
    ensures forall i, j :: 0 <= i < j < |StalePaths(trees, paths)| ==>
              StalePaths(trees, paths)[i] != StalePaths(trees, paths)[j]
  {
    if paths != [] {
      StalePathsCached(trees, paths[..|paths| - 1]);
    }
  }

  function TreesAt(trees: map<string, SyntaxTree>, paths: seq<string>): seq<SyntaxTree>
    requires forall p :: p in paths ==> p in trees
  {
    seq(|paths|, i requires 0 <= i < |paths| => trees[paths[i]])
  }

  function InvalidateStep(s: Cache, paths: seq<string>): (Cache, nat) {
    if s.epoch >= MAX_ULONG then
      (s.(pending := None), 0)
    else if s.compilation.None? then
      (s.(pending := None, epoch := s.epoch + 1), 0)
    else
      var stale := StalePaths(s.trees, paths);
      StalePathsCached(s.trees, paths);
      (s.(compilation := Some(s.compilation.value - multiset(TreesAt(s.trees, stale))),
          trees := s.trees - PathSet(stale), bytes := s.bytes - PathSet(stale),
          index := RemovePaths(s.index, stale), pending := None, epoch := s.epoch + 1), |stale|)
  }

  // ---- parse ----

  predicate IsPreparedSource(fe: Frontend, s: Cache, path: string, source: string) {
    && s.policy.Some?
    && s.compilation.Some?
    && fe.fullPath(path) in s.trees
    && s.trees[fe.fullPath(path)].text == SourceForParsing(source)
  }

  /** The part of Extract that touches the cache. */
  function ExtractStep(fe: Frontend, s: Cache, path: string, source: string): Cache {
    var tree := SyntaxTree(path, SourceForParsing(source));
    if s.compilation.None? then s.(index := AddTree(fe, map[], tree))
    else if path in s.trees && s.trees[path].text == tree.text then s
    else s.(index := AddTree(fe, RemovePath(s.index, path), tree))
  }

  /** A parse that names its project is refused unless root and text are the prepared ones. */
  function ParseStep(fe: Frontend, s: Cache, projectRoot: Option<string>, path: string, source: string,
                     standalone: bool): Cache {
    if standalone then s
    else if projectRoot.Some? && (s.root != projectRoot || !IsPreparedSource(fe, s, path, source)) then s
    else ExtractStep(fe, s, path, source)
  }

  // ---- Runs ----

  ghost function Step(fe: Frontend, s: Cache, c: Command): Cache {
    match c
    case Begin(root, inputs) => BeginStep(fe, s, root, inputs)
    case PlanRefresh(request) => PlanStep(fe, s, request)
    case Refresh(planId, disk) => RefreshStep(fe, s, planId, disk).0
    case Invalidate(paths) => InvalidateStep(s, paths).0
    case Parse(projectRoot, path, source, standalone) => ParseStep(fe, s, projectRoot, path, source, standalone)
  }

  ghost function Run(fe: Frontend, commands: seq<Command>): Cache {
    if commands == [] then INITIAL
    else Step(fe, Run(fe, commands[..|commands| - 1]), commands[|commands| - 1])
  }
}
