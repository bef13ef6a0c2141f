/** The emitter's cache fields and the methods that update them in place, each proved against the
    state machine of CompilationCache. */
module AstEmitter {

  import opened Wrappers
  import opened Sets
  import opened SourceNaming
  import opened MapSums
  import opened PropertyIndex
  import opened CompilationCache

  class Emitter {
    const fe: Frontend
    var projectCompilation: Option<multiset<SyntaxTree>>
    var projectRoot: Option<string>
    var treesByPath: map<string, SyntaxTree>
    var sourcePropertiesByName: Index
    var sourceBytesByPath: map<string, nat>
    var trustedPolicy: Option<Policy>
    var pendingPlan: Option<Plan>
    var cacheEpoch: nat
    var planCounter: nat

    constructor (frontend: Frontend)
      ensures fe == frontend && State() == INITIAL
    {
      fe := frontend;
      projectCompilation, projectRoot := None, None;
      treesByPath, sourcePropertiesByName, sourceBytesByPath := map[], map[], map[];
      trustedPolicy, pendingPlan := None, None;
      cacheEpoch, planCounter := 0, 0;
    }

    function State(): Cache
      reads this
    {
      Cache(projectCompilation, projectRoot, treesByPath, sourcePropertiesByName, sourceBytesByPath,
            trustedPolicy, pendingPlan, cacheEpoch, planCounter)
    }

    method AddProperty(d: Declared)
      modifies this`sourcePropertiesByName
      ensures sourcePropertiesByName == AddOne(old(sourcePropertiesByName), d)
    {
      if d.name in sourcePropertiesByName {
        sourcePropertiesByName := sourcePropertiesByName[d.name := sourcePropertiesByName[d.name] + [d.info]];
      } else {
        assert [] + [d.info] == [d.info];
        sourcePropertiesByName := sourcePropertiesByName[d.name := [d.info]];
      }
    }

    method AddSourceProperties(tree: SyntaxTree)
      modifies this`sourcePropertiesByName
      ensures sourcePropertiesByName == AddTree(fe, old(sourcePropertiesByName), tree)
    {
      var nodes := PropertyNodes(fe.parse(tree.text), []);
      for i := 0 to |nodes|
        invariant sourcePropertiesByName == AddAll(old(sourcePropertiesByName), DeclaredBy(fe, nodes[..i], tree.path))
      {
        DeclaredSnoc(fe, nodes, i, tree.path);
        ghost var declared := DeclaredBy(fe, nodes[..i], tree.path);
        if Indexed(nodes[i]) {
          AddAllSnoc(old(sourcePropertiesByName), declared, DeclaredOne(fe, nodes[i], tree.path));
          AddProperty(DeclaredOne(fe, nodes[i], tree.path));
        } else {
          assert declared + [] == declared;
        }
      }
      assert nodes[..|nodes|] == nodes;
    }

    /** Filters every bucket and drops the ones that become empty. */
    method RemoveSourceProperties(path: string)
      modifies this`sourcePropertiesByName
      ensures sourcePropertiesByName == RemovePath(old(sourcePropertiesByName), path)
    {
      ghost var before := sourcePropertiesByName;
      var todo := sourcePropertiesByName.Keys;
      while todo != {}
        invariant todo <= before.Keys
        invariant forall n :: n in sourcePropertiesByName <==>
                              n in before && (n in todo || Without(before[n], path) != [])
        invariant forall n :: n in sourcePropertiesByName ==>
                              sourcePropertiesByName[n] == if n in todo then before[n] else Without(before[n], path)
      {
        var name := Pick(todo);
        var kept := Without(sourcePropertiesByName[name], path);
        if kept == [] {
          sourcePropertiesByName := sourcePropertiesByName - {name};
        } else {
          sourcePropertiesByName := sourcePropertiesByName[name := kept];
        }
        todo := todo - {name};
      }
      assert sourcePropertiesByName.Keys == RemovePath(before, path).Keys;
    }

    method Clear()
      modifies this`projectCompilation, this`projectRoot, this`treesByPath, this`sourcePropertiesByName,
               this`sourceBytesByPath, this`trustedPolicy
      ensures State() == INITIAL.(pending := old(pendingPlan), epoch := old(cacheEpoch), nextPlan := old(planCounter))
    {
      projectCompilation, projectRoot := None, None;
      treesByPath, sourcePropertiesByName, sourceBytesByPath := map[], map[], map[];
      trustedPolicy := None;
    }

    /** False stands for the overflow exception of the checked epoch. */
    method BeginProject(root: Option<string>, inputs: seq<Input>) returns (ok: bool)
      modifies this
      ensures State() == BeginStep(fe, old(State()), root, inputs)
      ensures ok <==> old(cacheEpoch) < MAX_ULONG
    {
      pendingPlan := None;
      if cacheEpoch >= MAX_ULONG {
        return false;
      }
      cacheEpoch := cacheEpoch + 1;
      Clear();
      if root.None? {
        return true;
      }
      var trees := ReadInputs(inputs);
      projectCompilation := Some(multiset(trees));
      projectRoot := root;
      return true;
    }

    /** Parses every readable input; unreadable ones are skipped. */
    method ReadInputs(inputs: seq<Input>) returns (trees: seq<SyntaxTree>)
      modifies this`treesByPath, this`sourcePropertiesByName
      ensures trees == ReadableTrees(inputs)
      ensures treesByPath == PutTrees(old(treesByPath), trees)
      ensures sourcePropertiesByName == AddTrees(fe, old(sourcePropertiesByName), trees)
    {
      trees := [];
      for i := 0 to |inputs|
        invariant trees == ReadableTrees(inputs[..i])
        invariant treesByPath == PutTrees(old(treesByPath), trees)
        invariant sourcePropertiesByName == AddTrees(fe, old(sourcePropertiesByName), trees)
      {
        assert inputs[..i + 1][..i] == inputs[..i];
        if inputs[i].text.Some? {
          var tree := SyntaxTree(inputs[i].path, SourceForParsing(inputs[i].text.value));
          PutTreesSnoc(old(treesByPath), trees, tree);
          AddTreesSnoc(fe, old(sourcePropertiesByName), trees, tree);
          trees := trees + [tree];
          treesByPath := treesByPath[tree.path := tree];
          AddSourceProperties(tree);
        }
      }
      assert inputs[..|inputs|] == inputs;
    }

    /** Exposes the refreshed trees and their properties. */
    method ExposeTrees(refreshed: seq<SyntaxTree>)
      modifies this`treesByPath, this`sourcePropertiesByName
      ensures treesByPath == PutTrees(old(treesByPath), refreshed)
      ensures sourcePropertiesByName == AddTrees(fe, old(sourcePropertiesByName), refreshed)
    {
      for i := 0 to |refreshed|
        invariant treesByPath == PutTrees(old(treesByPath), refreshed[..i])
        invariant sourcePropertiesByName == AddTrees(fe, old(sourcePropertiesByName), refreshed[..i])
      {
        assert refreshed[..i + 1][..i] == refreshed[..i];
        treesByPath := treesByPath[refreshed[i].path := refreshed[i]];
        AddSourceProperties(refreshed[i]);
      }
      assert refreshed[..|refreshed|] == refreshed;
    }

    method RecordBytes(sources: seq<Source>)
      modifies this`sourceBytesByPath
      ensures sourceBytesByPath == PutBytes(old(sourceBytesByPath), sources)
    {
      for i := 0 to |sources|
        invariant sourceBytesByPath == PutBytes(old(sourceBytesByPath), sources[..i])
      {
        assert sources[..i + 1][..i] == sources[..i];
        sourceBytesByPath := sourceBytesByPath[sources[i].path := sources[i].bytes];
      }
      assert sources[..|sources|] == sources;
    }

    method RemoveAllProperties(paths: seq<string>)
      modifies this`sourcePropertiesByName
      ensures sourcePropertiesByName == RemovePaths(old(sourcePropertiesByName), paths)
    {
      for i := 0 to |paths|
        invariant sourcePropertiesByName == RemovePaths(old(sourcePropertiesByName), paths[..i])
      {
        assert paths[..i + 1][..i] == paths[..i];
        RemoveSourceProperties(paths[i]);
      }
      assert paths[..|paths|] == paths;
    }

    method SumValues(m: map<string, nat>) returns (total: nat)
      ensures total == Sum(m)
    {
      total := 0;
      var todo := m;
      while todo.Keys != {}
        invariant total + Sum(todo) == Sum(m)
        decreases |todo|
      {
        var path := Pick(todo.Keys);
        SumRemove(todo, path);
        total := total + todo[path];
        todo := todo - {path};
      }
      assert todo == map[];
    }

    /** What stays cached when the given distinct paths are replaced. */
    method RemainingBytes(paths: seq<string>) returns (total: int)
      requires forall p :: p in paths ==> p in sourceBytesByPath
      ensures total == Sum(sourceBytesByPath) - SumLengths(paths, sourceBytesByPath)
    {
      total := SumValues(sourceBytesByPath);
      for i := 0 to |paths|
        invariant total == Sum(sourceBytesByPath) - SumLengths(paths[..i], sourceBytesByPath)
      {
        assert paths[..i + 1][..i] == paths[..i];
        total := total - sourceBytesByPath[paths[i]];
      }
      assert paths[..|paths|] == paths;
    }

    /** The admission loop over the metadata of the planned sources. */
    method MeasureSources(paths: seq<string>, lengths: map<string, nat>, policy: Policy, base: int)
      returns (r: Result<(int, nat, nat, seq<Source>), PlanError>)
      ensures r.Failure? ==> Measure(paths, lengths, policy, base) == Failure(r.error)
      ensures r.Success? ==>
                && Measure(paths, lengths, policy, base) == Success(r.value.0)
                && (forall p :: p in paths ==> p in lengths)
                && r.value.1 == SumLengths(paths, lengths)
                && r.value.2 == MaxLength(paths, lengths)
                && r.value.3 == Sources(paths, lengths)
    {
      var total, changed, maximum, sources := base, 0, 0, [];
      for i := 0 to |paths|
        invariant Measure(paths, lengths, policy, base) == Measure(paths[i..], lengths, policy, total)
        invariant forall p :: p in paths[..i] ==> p in lengths
        invariant changed == SumLengths(paths[..i], lengths) && maximum == MaxLength(paths[..i], lengths)
        invariant sources == Sources(paths[..i], lengths)
      {
        assert paths[i..][0] == paths[i] && paths[i..][1..] == paths[i + 1..];
        if paths[i] !in lengths {
          return Failure(SourceUnavailable);
        }
        var bytes := lengths[paths[i]];
        if bytes > policy.maxFile {
          return Failure(FileLimit);
        }
        assert paths[..i + 1] == paths[..i] + [paths[i]] && paths[..i + 1][..i] == paths[..i];
        total, changed := total + bytes, changed + bytes;
        maximum := if bytes > maximum then bytes else maximum;
        if total > policy.maxTotal {
          return Failure(TotalLimit);
        }
        sources := sources + [Source(paths[i], bytes)];
      }
      assert paths[..|paths|] == paths;
      return Success((total, changed, maximum, sources));
    }

    method PlanRefresh(r: PlanRequest) returns (result: Result<Receipt, PlanError>)
      modifies this`pendingPlan, this`planCounter
      ensures State() == PlanStep(fe, old(State()), r)
      ensures result == match PlanOutcome(fe, old(State()), r)
                        case Success(plan) => Success(plan.receipt)
                        case Failure(e) => Failure(e)
    {
      if r.policy.None? {
        return Failure(MissingPolicy);
      }
      ghost var before := State();
      pendingPlan := None;
      var refused := CheckRequest(r);
      if refused.Some? {
        return Failure(refused.value);
      }
      PendingIsIrrelevant(before, r, Distinct(FullPaths(fe, Requested(r))));
      result := PlanSources(r, Distinct(FullPaths(fe, Requested(r))));
    }

    /** The checks that need no file: policy, root, warm project, count, containment. */
    method CheckRequest(r: PlanRequest) returns (refused: Option<PlanError>)
      requires r.policy.Some?
      ensures refused.Some? ==> refused.value != MissingPolicy
      ensures forall pending ::
                PlanOutcome(fe, State().(pending := pending), r)
                == if refused.Some? then Failure(refused.value)
                   else PlanDistinct(State().(pending := pending), r, Distinct(FullPaths(fe, Requested(r))))
    {
      var policy := r.policy.value;
      if !policy.Valid() {
        return Some(UnsupportedPolicy);
      }
      if !r.rootExists {
        return Some(RootMissing);
      }
      if r.files.None? && (|| projectRoot != Some(r.root) || projectCompilation.None? || trustedPolicy != r.policy
                           || |sourceBytesByPath| != |treesByPath|) {
        return Some(ColdInventory);
      }
      if |Requested(r)| > policy.maxTrees {
        return Some(TreeLimit);
      }
      var full := FullPaths(fe, Requested(r));
      if exists p :: p in full && !fe.inside(r.root, p) {
        return Some(OutsideRoot);
      }
      return None;
    }

    /** The part of planning that looks at the cache and at the files. */
    method PlanSources(r: PlanRequest, paths: seq<string>) returns (result: Result<Receipt, PlanError>)
      requires r.policy.Some? && pendingPlan.None?
      modifies this`pendingPlan, this`planCounter
      ensures match PlanDistinct(old(State()), r, paths)
              case Failure(e) => result == Failure(e) && State() == old(State())
              case Success(plan) =>
                && result == Success(plan.receipt)
                && State() == old(State()).(pending := Some(plan), nextPlan := old(planCounter) + 1)
    {
      hide Measure, SumLengths, MaxLength;
      var policy := r.policy.value;
      if r.files.None? && exists p :: p in paths && p !in treesByPath {
        return Failure(AbsentChange);
      }
      if r.files.None? && exists p :: p in paths && p !in sourceBytesByPath {
        return Failure(UnknownSize);
      }
      var base: int := 0;
      if r.files.None? {
        base := RemainingBytes(paths);
      }
      var measured := MeasureSources(paths, r.lengths, policy, base);
      if measured.Failure? {
        return Failure(measured.error);
      }
      var (total, changed, maximum, sources) := measured.value;
      var count := if r.files.None? then |treesByPath| else |paths|;
      if count > policy.maxTrees || total > policy.maxTotal {
        return Failure(CountLimit);
      }
      if planCounter >= MAX_ULONG {
        return Failure(CounterOverflow);
      }
      planCounter := planCounter + 1;
      var receipt := Receipt(planCounter, total, count, changed, |paths|, maximum, r.files.Some?, policy);
      pendingPlan := Some(Plan(receipt, r.root, sources, cacheEpoch));
      return Success(receipt);
    }

    method RefreshProject(planId: Option<nat>, disk: map<string, Opened>) returns (outcome: RefreshOutcome)
      modifies this
      ensures (State(), outcome) == RefreshStep(fe, old(State()), planId, disk)
    {
      if planId.None? || pendingPlan.None? || pendingPlan.value.receipt.id != planId.value
         || pendingPlan.value.epoch != cacheEpoch {
        return Stale;
      }
      var plan := pendingPlan.value;
      pendingPlan := None;
      var refreshed := ReadSources(plan.sources, disk);
      if refreshed.None? || cacheEpoch >= MAX_ULONG || !(plan.receipt.full || CanReplace(plan.sources)) {
        Revoke();
        return Failed;
      }
      if plan.receipt.full {
        InstallAll(plan, refreshed.value);
      } else {
        InstallPlanned(plan, refreshed.value);
      }
      return Installed;
    }

    /** Everything cached is dropped; the handler of a failed refresh. */
    method Revoke()
      modifies this
      ensures State() == Cleared(old(State()))
    {
      Clear();
      pendingPlan := None;
      cacheEpoch := if cacheEpoch < MAX_ULONG then cacheEpoch + 1 else cacheEpoch;
    }

    /** Reads every planned source before any tree is exposed; None stands for a failed read. */
    method ReadSources(sources: seq<Source>, disk: map<string, Opened>) returns (r: Option<seq<SyntaxTree>>)
      ensures r.Some? <==> ReadsMatch(sources, disk)
      ensures r.Some? ==> r.value == Refreshed(sources, disk)
    {
      hide ReadMatches, SourceForParsing;
      var refreshed: seq<SyntaxTree> := [];
      for i := 0 to |sources|
        invariant |refreshed| == i && ReadsMatch(sources[..i], disk)
        invariant forall k :: 0 <= k < i ==>
                    refreshed[k] == SyntaxTree(sources[k].path, SourceForParsing(disk[sources[k].path].text))
      {
        NextMatches(sources, disk, i);
        if sources[i].path !in disk || !ReadMatches(disk[sources[i].path], sources[i].bytes) {
          return None;
        }
        var tree := SyntaxTree(sources[i].path, SourceForParsing(disk[sources[i].path].text));
        refreshed := refreshed + [tree];
      }
      assert sources[..|sources|] == sources;
      return Some(refreshed);
    }

    /** The compilation can give up the trees that the plan replaces. */
    predicate CanReplace(sources: seq<Source>)
      reads this`projectCompilation, this`treesByPath
    {
      && projectCompilation.Some?
      && AllCached(treesByPath, sources)
      && multiset(Replaced(treesByPath, sources)) <= projectCompilation.value
    }

    /** A full plan replaces everything. */
    method ReplaceAll(sources: seq<Source>, refreshed: seq<SyntaxTree>)
      modifies this`projectCompilation, this`treesByPath, this`sourcePropertiesByName, this`sourceBytesByPath
      ensures projectCompilation == Some(multiset(refreshed))
      ensures treesByPath == PutTrees(map[], refreshed)
      ensures sourcePropertiesByName == AddTrees(fe, map[], refreshed)
      ensures sourceBytesByPath == PutBytes(map[], sources)
    {
      treesByPath, sourcePropertiesByName, sourceBytesByPath := map[], map[], map[];
      ExposeTrees(refreshed);
      RecordBytes(sources);
      projectCompilation := Some(multiset(refreshed));
    }

    method InstallAll(plan: Plan, refreshed: seq<SyntaxTree>)
      requires pendingPlan.None?
      modifies this
      ensures State() == InstallFull(fe, old(State()), plan, refreshed)
    {
      ReplaceAll(plan.sources, refreshed);
      projectRoot, trustedPolicy := Some(plan.root), Some(plan.receipt.policy);
      cacheEpoch := cacheEpoch + 1;
    }

    /** An incremental plan replaces the planned trees and keeps the others. */
    method ReplacePlanned(sources: seq<Source>, refreshed: seq<SyntaxTree>)
      requires CanReplace(sources)
      modifies this`projectCompilation, this`treesByPath, this`sourcePropertiesByName, this`sourceBytesByPath
      ensures projectCompilation == Some(old(projectCompilation).value - multiset(Replaced(old(treesByPath), sources))
                                         + multiset(refreshed))
      ensures treesByPath == PutTrees(old(treesByPath), refreshed)
      ensures sourcePropertiesByName
              == AddTrees(fe, RemovePaths(old(sourcePropertiesByName), Paths(sources)), refreshed)
      ensures sourceBytesByPath == PutBytes(old(sourceBytesByPath), sources)
    {
      var replaced := Replaced(treesByPath, sources);
      projectCompilation := Some(projectCompilation.value - multiset(replaced) + multiset(refreshed));
      RemoveAllProperties(Paths(sources));
      ExposeTrees(refreshed);
      RecordBytes(sources);
    }

    method InstallPlanned(plan: Plan, refreshed: seq<SyntaxTree>)
      requires pendingPlan.None? && CanReplace(plan.sources)
      modifies this
      ensures State() == InstallPatch(fe, old(State()), plan, refreshed)
    {
      hide PutTrees, AddTrees, RemovePaths, PutBytes, Replaced;
      ReplacePlanned(plan.sources, refreshed);
      projectRoot, trustedPolicy := Some(plan.root), Some(plan.receipt.policy);
      cacheEpoch := cacheEpoch + 1;
    }

    /** None stands for the overflow exception of the checked epoch. */
    method InvalidateFiles(paths: seq<string>) returns (removed: Option<nat>)
      modifies this
      ensures State() == InvalidateStep(old(State()), paths).0
      ensures removed == if old(cacheEpoch) >= MAX_ULONG then None else Some(InvalidateStep(old(State()), paths).1)
    {
      pendingPlan := None;
      if cacheEpoch >= MAX_ULONG {
        return None;
      }
      cacheEpoch := cacheEpoch + 1;
      if projectCompilation.None? {
        return Some(0);
      }
      var count := InvalidateCached(paths);
      return Some(count);
    }

    method InvalidateCached(paths: seq<string>) returns (count: nat)
      requires projectCompilation.Some?
      modifies this`projectCompilation, this`treesByPath, this`sourceBytesByPath, this`sourcePropertiesByName
      ensures var stale := StalePaths(old(treesByPath), paths);
              && (forall p :: p in stale ==> p in old(treesByPath))
              && count == |stale|
              && projectCompilation == Some(old(projectCompilation).value - multiset(TreesAt(old(treesByPath), stale)))
              && treesByPath == old(treesByPath) - PathSet(stale)
              && sourceBytesByPath == old(sourceBytesByPath) - PathSet(stale)
              && sourcePropertiesByName == RemovePaths(old(sourcePropertiesByName), stale)
    {
      var stale, gone := DropTrees(paths);
      projectCompilation := Some(projectCompilation.value - multiset(gone));
      return |stale|;
    }

    /** Drops each cached path once, with its size and its properties. */
    method DropTrees(paths: seq<string>) returns (stale: seq<string>, gone: seq<SyntaxTree>)
      modifies this`treesByPath, this`sourceBytesByPath, this`sourcePropertiesByName
      ensures stale == StalePaths(old(treesByPath), paths)
      ensures (forall p :: p in stale ==> p in old(treesByPath)) && gone == TreesAt(old(treesByPath), stale)
      ensures treesByPath == old(treesByPath) - PathSet(stale)
      ensures sourceBytesByPath == old(sourceBytesByPath) - PathSet(stale)
      ensures sourcePropertiesByName == RemovePaths(old(sourcePropertiesByName), stale)
    {
      hide RemovePaths;
      RemoveNothing(sourcePropertiesByName);
      stale, gone := [], [];
      for i := 0 to |paths|
        invariant stale == StalePaths(old(treesByPath), paths[..i])
        invariant (forall p :: p in stale ==> p in old(treesByPath)) && gone == TreesAt(old(treesByPath), stale)
        invariant treesByPath == old(treesByPath) - PathSet(stale)
        invariant sourceBytesByPath == old(sourceBytesByPath) - PathSet(stale)
        invariant sourcePropertiesByName == RemovePaths(old(sourcePropertiesByName), stale)
      {
        assert paths[..i + 1][..i] == paths[..i];
        if !Blank(paths[i]) && paths[i] in treesByPath {
          PathSetSnoc(stale, paths[i]);
          RemoveOneMore(old(sourcePropertiesByName), stale, paths[i]);
          gone := gone + [treesByPath[paths[i]]];
          treesByPath := treesByPath - {paths[i]};
          sourceBytesByPath := sourceBytesByPath - {paths[i]};
          RemoveSourceProperties(paths[i]);
          stale := stale + [paths[i]];
        }
      }
      assert paths[..|paths|] == paths;
    }

    /** The cache branches of extraction. */
    method Extract(path: string, source: string)
      modifies this`sourcePropertiesByName
      ensures State() == ExtractStep(fe, old(State()), path, source)
    {
      var requested := SourceForParsing(source);
      if projectCompilation.Some? && path in treesByPath && treesByPath[path].text == requested {
        return;
      }
      var tree := SyntaxTree(path, requested);
      if projectCompilation.Some? {
        RemoveSourceProperties(path);
      } else {
        sourcePropertiesByName := map[];
      }
      AddSourceProperties(tree);
    }

    /** The command loop's dispatch: every command has the state machine's effect. */
    method Dispatch(c: Command)
      modifies this
      ensures State() == Step(fe, old(State()), c)
    {
      match c
      case Begin(root, inputs) => var _ := BeginProject(root, inputs);
      case PlanRefresh(request) => var _ := PlanRefresh(request);
      case Refresh(planId, disk) => var _ := RefreshProject(planId, disk);
      case Invalidate(paths) => var _ := InvalidateFiles(paths);
      case Parse(root, path, source, standalone) =>
        if standalone {
          return;
        }
        if root.Some? && (projectRoot != root || !IsPreparedSource(fe, State(), path, source)) {
          return;
        }
        Extract(path, source);
    }

    /** The read loop: a session ends in the state of its run. */
    method Serve(commands: seq<Command>)
      requires State() == INITIAL
      modifies this
      ensures State() == Run(fe, commands)
    {
      for i := 0 to |commands|
        invariant State() == Run(fe, commands[..i])
      {
        assert commands[..i + 1][..i] == commands[..i];
        Dispatch(commands[i]);
      }
      assert commands[..|commands|] == commands;
    }
  }

  lemma NextMatches(sources: seq<Source>, disk: map<string, Opened>, i: nat)
    requires i < |sources| && ReadsMatch(sources[..i], disk)
    ensures ReadsMatch(sources[..i + 1], disk)
            <==> sources[i].path in disk && ReadMatches(disk[sources[i].path], sources[i].bytes)
    ensures ReadsMatch(sources, disk) ==> ReadsMatch(sources[..i + 1], disk)
  {
    hide ReadMatches;
    assert sources[..i + 1] == sources[..i] + [sources[i]];
    assert sources[..i + 1][i] == sources[i];
    assert forall k :: 0 <= k < i ==> sources[..i + 1][k] == sources[..i][k];
    assert forall k :: 0 <= k <= i ==> sources[..i + 1][k] == sources[k];
  }

  lemma RemoveNothing(index: Index)
    ensures RemovePaths(index, []) == index
  {
  }

  lemma RemoveOneMore(index: Index, paths: seq<string>, path: string)
    ensures RemovePaths(index, paths + [path]) == RemovePath(RemovePaths(index, paths), path)
  {
    assert (paths + [path])[..|paths|] == paths;
  }

  lemma PathSetSnoc(paths: seq<string>, path: string)
    ensures PathSet(paths + [path]) == PathSet(paths) + {path}
    ensures (paths + [path])[..|paths|] == paths
  {
  }
}
