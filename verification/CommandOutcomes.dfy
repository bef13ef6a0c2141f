/** What each command of the sidecar does to the cache, told in the fields of its own arguments. */
module CommandOutcomes {

  import opened Wrappers
  import opened SourceNaming
  import opened MapSums
  import opened PropertyIndex
  import opened CompilationCache
  import opened CacheProperties

  // ---- Texts ----

  /** The text with a leading byte order mark blanked. */
  ghost predicate Blanked(source: string, text: string) {
    && |text| == |source|
    && forall i :: 0 <= i < |text| ==> text[i] == if i == 0 && source[0] == '\U{FEFF}' then ' ' else source[i]
  }

  lemma ParsedText(source: string)
    ensures forall text :: Blanked(source, text) <==> text == SourceForParsing(source)
  {
    var parsed := SourceForParsing(source);
    assert Blanked(source, parsed);
    forall text | Blanked(source, text)
      ensures text == parsed
    {
      assert |text| == |parsed| && forall i :: 0 <= i < |text| ==> text[i] == parsed[i];
    }
  }

  // ---- plan_refresh ----

  /** The request is about the path: it lists it among the files or, without files, among the changes. */
  ghost predicate Asks(fe: Frontend, r: PlanRequest, path: string) {
    match r.files
    case Some(files) => exists i :: 0 <= i < |files| && fe.fullPath(files[i]) == path
    case None => exists i :: 0 <= i < |r.changed| && fe.fullPath(r.changed[i]) == path
  }

  predicate Plans(plan: Plan, path: string) {
    exists i :: 0 <= i < |plan.sources| && plan.sources[i].path == path
  }

  lemma AsksRequested(fe: Frontend, r: PlanRequest, path: string)
    ensures Asks(fe, r, path) <==> path in RequestPaths(fe, r)
  {
    var paths := Requested(r);
    DistinctIsDistinct(FullPaths(fe, paths));
    if path in FullPaths(fe, paths) {
      var i :| 0 <= i < |paths| && FullPaths(fe, paths)[i] == path;
      assert fe.fullPath(paths[i]) == path;
    }
    if i :| 0 <= i < |paths| && fe.fullPath(paths[i]) == path {
      assert FullPaths(fe, paths)[i] == path;
    }
  }

  /** The largest size among some sources; 0 for none. */
  ghost predicate IsLargest(sources: seq<Source>, largest: nat) {
    && (forall i :: 0 <= i < |sources| ==> sources[i].bytes <= largest)
    && (largest > 0 ==> exists i :: 0 <= i < |sources| && sources[i].bytes == largest)
  }

  lemma {:induction false} LargestLength(paths: seq<string>, lengths: map<string, nat>)
    requires forall p :: p in paths ==> p in lengths
    ensures IsLargest(Sources(paths, lengths), MaxLength(paths, lengths))
  {
    var sources := Sources(paths, lengths);
    if paths != [] {
      var n := |paths| - 1;
      LargestLength(paths[..n], lengths);
      var init := Sources(paths[..n], lengths);
      assert forall i :: 0 <= i < n ==> sources[i] == init[i];
      assert sources[n].bytes == lengths[paths[n]];
      if MaxLength(paths, lengths) > 0 {
        var i := n;
        if lengths[paths[n]] <= MaxLength(paths[..n], lengths) {
          i :| 0 <= i < n && init[i].bytes == MaxLength(paths[..n], lengths);
        }
        assert sources[i].bytes == MaxLength(paths, lengths);
      }
    }
  }

  /** A plan is about exactly the files that the request lists (or, without a list, the changed ones),
      each once and with its size on disk, under the request's own root and policy, and its receipt
      counts just these. */
  lemma PlanCoversRequest(fe: Frontend, s: Cache, r: PlanRequest)
    requires PlanOutcome(fe, s, r).Success?
    ensures var plan := PlanOutcome(fe, s, r).value;
            && (forall path :: Plans(plan, path) <==> Asks(fe, r, path))
            && DistinctSources(plan.sources)
            && (forall i :: 0 <= i < |plan.sources| ==>
                  plan.sources[i].path in r.lengths && plan.sources[i].bytes == r.lengths[plan.sources[i].path])
            && plan.root == r.root && Some(plan.receipt.policy) == r.policy
            && (plan.receipt.full <==> r.files.Some?)
            && plan.receipt.changedTreeCount == |plan.sources|
            && plan.receipt.changedSourceBytes == SumSources(plan.sources)
            && IsLargest(plan.sources, plan.receipt.maxChangedFileBytes)
  {
    hide Measure, SumLengths, MaxLength, Distinct;
    var plan, paths := PlanOutcome(fe, s, r).value, RequestPaths(fe, r);
    assert plan.sources == Sources(paths, r.lengths);
    forall path
      ensures Plans(plan, path) <==> Asks(fe, r, path)
    {
      AsksRequested(fe, r, path);
      if path in paths {
        var i :| 0 <= i < |paths| && paths[i] == path;
        assert plan.sources[i].path == path;
      }
    }
    DistinctIsDistinct(FullPaths(fe, Requested(r)));
    assert forall i :: 0 <= i < |paths| ==> paths[i] in paths;
    SourcesSum(paths, r.lengths);
    LargestLength(paths, r.lengths);
  }

  /** Which fault of a request an error stands for. */
  ghost predicate Faulty(fe: Frontend, s: Cache, r: PlanRequest, error: PlanError) {
    match error
    case MissingPolicy => r.policy.None?
    case UnsupportedPolicy => r.policy.Some? && !Supported(r.policy.value)
    case RootMissing => !r.rootExists
    case ColdInventory => r.files.None? && (s.root != Some(r.root) || s.policy != r.policy || s.compilation.None?)
    case TreeLimit =>
      r.policy.Some? && (match r.files case Some(fs) => |fs| case None => |r.changed|) > r.policy.value.maxTrees
    case OutsideRoot => exists path :: Asks(fe, r, path) && !fe.inside(r.root, path)
    case AbsentChange => r.files.None? && exists path :: Asks(fe, r, path) && path !in s.trees
    case SourceUnavailable => exists path :: Asks(fe, r, path) && path !in r.lengths
    case FileLimit =>
      && r.policy.Some?
      && exists path :: Asks(fe, r, path) && path in r.lengths && r.lengths[path] > r.policy.value.maxFile
    case TotalLimit => r.policy.Some? && !Fits(s, r, RequestPaths(fe, r))
    case CounterOverflow => s.nextPlan >= 0xFFFF_FFFF_FFFF_FFFF
    case _ => false
  }

  predicate Supported(policy: Policy) {
    && 0 < policy.maxTotal <= 33_554_432 && 0 < policy.maxFile <= 10_485_760 && 0 < policy.maxTrees <= 250_000
    && policy.multiplier == 32 && policy.overhead == 8192
  }

  lemma {:induction false} MeasureBlames(paths: seq<string>, lengths: map<string, nat>, policy: Policy, total: int)
    requires Measure(paths, lengths, policy, total).Failure?
    ensures Measure(paths, lengths, policy, total).error == SourceUnavailable ==>
              exists p :: p in paths && p !in lengths
    ensures Measure(paths, lengths, policy, total).error == FileLimit ==>
              exists p :: p in paths && p in lengths && lengths[p] > policy.maxFile
  {
    if paths[0] in lengths && lengths[paths[0]] <= policy.maxFile && total + lengths[paths[0]] <= policy.maxTotal {
      MeasureBlames(paths[1..], lengths, policy, total + lengths[paths[0]]);
    }
  }

  lemma RefusedSizes(fe: Frontend, s: Cache, r: PlanRequest, paths: seq<string>)
    requires Inv(fe, s) && r.policy.Some? && r.policy.value.Valid() && paths == RequestPaths(fe, r)
    requires r.files.None? ==> s.policy == r.policy && forall p :: p in paths ==> p in s.trees
    ensures r.files.None? ==> forall p :: p in paths ==> p in s.bytes
    ensures Measure(paths, r.lengths, r.policy.value, Base(s, r, paths)).Failure? ==>
              Faulty(fe, s, r, Measure(paths, r.lengths, r.policy.value, Base(s, r, paths)).error)
  {
    hide Inv, Measure, SumLengths, RequestPaths, Asks;
    forall path ensures Asks(fe, r, path) <==> path in paths {
      AsksRequested(fe, r, path);
    }
    RequestPathsDistinct(fe, r);
    BaseWithin(fe, s, r, paths);
    MeasureIsExact(paths, r.lengths, r.policy.value, Base(s, r, paths));
    if Measure(paths, r.lengths, r.policy.value, Base(s, r, paths)).Failure? {
      MeasureBlames(paths, r.lengths, r.policy.value, Base(s, r, paths));
    }
  }

  lemma RefusedSources(fe: Frontend, s: Cache, r: PlanRequest, paths: seq<string>)
    requires Inv(fe, s) && r.policy.Some? && r.policy.value.Valid()
    requires r.files.None? ==> s.policy == r.policy
    requires paths == RequestPaths(fe, r) && |paths| <= r.policy.value.maxTrees
    requires PlanDistinct(s, r, paths).Failure?
    ensures Faulty(fe, s, r, PlanDistinct(s, r, paths).error)
  {
    hide Inv, Measure, SumLengths, MaxLength, RequestPaths, Asks, Fits;
    RequestPathsDistinct(fe, r);
    PlanDistinctOutcome(fe, s, r, paths);
    if r.files.None? && exists p :: p in paths && p !in s.trees {
      var p :| p in paths && p !in s.trees;
      AsksRequested(fe, r, p);
    } else {
      RefusedSizes(fe, s, r, paths);
      if p :| p in paths && p !in r.lengths {
        AsksRequested(fe, r, p);
      }
    }
  }

  lemma RequestPathsDistinct(fe: Frontend, r: PlanRequest)
    ensures forall i, j :: 0 <= i < j < |RequestPaths(fe, r)| ==> RequestPaths(fe, r)[i] != RequestPaths(fe, r)[j]
    ensures |RequestPaths(fe, r)| <= |Requested(r)|
  {
    DistinctIsDistinct(FullPaths(fe, Requested(r)));
  }

  lemma WarmCounts(fe: Frontend, s: Cache)
    requires Inv(fe, s) && s.policy.Some?
    ensures s.compilation.Some? && |s.bytes| == |s.trees|
  {
    assert |s.bytes| == |s.bytes.Keys| && |s.trees| == |s.trees.Keys|;
  }

  /** In every state a run can reach, a refused request has the fault that it is refused for. */
  lemma RefusalIsJust(fe: Frontend, s: Cache, r: PlanRequest)
    requires Inv(fe, s) && PlanOutcome(fe, s, r).Failure?
    ensures Faulty(fe, s, r, PlanOutcome(fe, s, r).error)
  {
    hide Inv, Fits, PlanDistinct, Asks;
    if s.policy.Some? {
      WarmCounts(fe, s);
    }
    var full := FullPaths(fe, Requested(r));
    if p :| p in full && !fe.inside(r.root, p) {
      DistinctIsDistinct(full);
      AsksRequested(fe, r, p);
    }
    RequestPathsDistinct(fe, r);
    if r.policy.Some? && r.policy.value.Valid() && (r.files.None? ==> s.policy == r.policy)
       && |Requested(r)| <= r.policy.value.maxTrees && PlanDistinct(s, r, RequestPaths(fe, r)).Failure? {
      RefusedSources(fe, s, r, RequestPaths(fe, r));
    }
  }

  // ---- refresh_project ----

  /** A plan that is asked for by its number is installed exactly when every source is on disk with the
      planned length, can be read to that length, ends there and still has that length afterwards, and
      the epoch is not spent. Then each source is cached with its text and its size; otherwise nothing
      stays cached. */
  lemma RefreshReadsExactly(fe: Frontend, s: Cache, id: nat, disk: map<string, Opened>)
    requires Inv(fe, s) && s.pending.Some? && s.pending.value.receipt.id == id
    ensures var (sources, after) := (s.pending.value.sources, RefreshStep(fe, s, Some(id), disk));
            && (after.1 == Installed <==>
                  && s.epoch < 0xFFFF_FFFF_FFFF_FFFF
                  && forall i :: 0 <= i < |sources| ==>
                       && sources[i].path in disk
                       && disk[sources[i].path].length == sources[i].bytes
                       && disk[sources[i].path].available >= sources[i].bytes
                       && disk[sources[i].path].atEnd
                       && disk[sources[i].path].lengthAfter == sources[i].bytes)
            && (after.1 == Installed ==>
                  && after.0.epoch == s.epoch + 1
                  && forall i :: 0 <= i < |sources| ==>
                       && sources[i].path in disk
                       && sources[i].path in after.0.trees && sources[i].path in after.0.bytes
                       && Blanked(disk[sources[i].path].text, after.0.trees[sources[i].path].text)
                       && after.0.bytes[sources[i].path] == sources[i].bytes)
            && (after.1 != Installed ==>
                  && after.1 == Failed && NothingCached(after.0) && after.0.pending.None?
                  && after.0.epoch == (if s.epoch < 0xFFFF_FFFF_FFFF_FFFF then s.epoch + 1 else s.epoch))
            && after.0.nextPlan == s.nextPlan
  {
    hide Inv, PlanFits, InstallFull, InstallPatch, NothingCached;
    RefreshOutcomeIsExact(fe, s, Some(id), disk);
    PendingConsumes(fe, s, id);
    RefreshIsAllOrNothing(fe, s, Some(id), disk);
    var sources, after := s.pending.value.sources, RefreshStep(fe, s, Some(id), disk);
    if after.1 == Installed {
      InstalledEpoch(fe, s, s.pending.value, disk);
      forall i | 0 <= i < |sources|
        ensures Blanked(disk[sources[i].path].text, after.0.trees[sources[i].path].text)
        ensures sources[i].path in after.0.bytes && after.0.bytes[sources[i].path] == sources[i].bytes
      {
        ParsedText(disk[sources[i].path].text);
        InstalledSize(fe, s, s.pending.value, disk, i);
      }
    }
  }

  lemma PendingConsumes(fe: Frontend, s: Cache, id: nat)
    requires Inv(fe, s) && s.pending.Some? && s.pending.value.receipt.id == id
    ensures Consumes(s, Some(id)) && DistinctSources(s.pending.value.sources)
  {
  }

  lemma InstalledEpoch(fe: Frontend, s: Cache, plan: Plan, disk: map<string, Opened>)
    requires CanInstall(s, plan, disk)
    ensures Install(fe, s, plan, disk).epoch == s.epoch + 1 && Install(fe, s, plan, disk).nextPlan == s.nextPlan
  {
  }

  lemma InstalledSize(fe: Frontend, s: Cache, plan: Plan, disk: map<string, Opened>, i: nat)
    requires DistinctSources(plan.sources) && CanInstall(s, plan, disk) && i < |plan.sources|
    ensures plan.sources[i].path in Install(fe, s, plan, disk).bytes
    ensures Install(fe, s, plan, disk).bytes[plan.sources[i].path] == plan.sources[i].bytes
  {
    var path := plan.sources[i].path;
    PutBytesLookup(map[], plan.sources, path);
    PutBytesLookup(s.bytes, plan.sources, path);
    SizeInMember(plan.sources, path);
    assert Paths(plan.sources)[i] == path;
    assert forall j :: 0 <= j < |plan.sources| && plan.sources[j].path == path ==> j == i;
  }

  // ---- begin_project ----

  /** The i-th input is the last readable one with the path. */
  predicate LastReadable(inputs: seq<Input>, path: string, i: nat) {
    && i < |inputs| && inputs[i].path == path && inputs[i].text.Some?
    && forall j :: i < j < |inputs| && inputs[j].path == path ==> inputs[j].text.None?
  }

  lemma LastInSnoc(trees: seq<SyntaxTree>, t: SyntaxTree, path: string)
    ensures LastIn(trees + [t], path) == if t.path == path then Some(t) else LastIn(trees, path)
  {
    assert (trees + [t])[..|trees|] == trees;
  }

  lemma {:induction false} LastReadableTree(inputs: seq<Input>, path: string) returns (last: Option<nat>)
    ensures last.Some? ==>
              && LastReadable(inputs, path, last.value)
              && LastIn(ReadableTrees(inputs), path)
                 == Some(SyntaxTree(path, SourceForParsing(inputs[last.value].text.value)))
    ensures last.None? ==> LastIn(ReadableTrees(inputs), path).None? && forall i: nat :: !LastReadable(inputs, path, i)
    decreases |inputs|
  {
    last := None;
    if inputs != [] {
      hide SourceForParsing, LastIn;
      var n := |inputs| - 1;
      var before := ReadableTrees(inputs[..n]);
      last := LastReadableTree(inputs[..n], path);
      assert forall i :: 0 <= i < n ==> inputs[i] == inputs[..n][i];
      if inputs[n].text.Some? {
        LastInSnoc(before, SyntaxTree(inputs[n].path, SourceForParsing(inputs[n].text.value)), path);
        if inputs[n].path == path {
          last := Some(n);
        }
      } else {
        assert before + [] == before;
      }
      if last.None? {
        assert forall i: nat :: i < n && LastReadable(inputs, path, i) ==> LastReadable(inputs[..n], path, i);
      }
    }
  }

  /** Once the epoch is spent, a begin or an invalidation only revokes the plan; without a project an
      invalidation counts nothing. */
  lemma SpentEpochOnlyRevokes(fe: Frontend, s: Cache, root: Option<string>, inputs: seq<Input>, paths: seq<string>)
    ensures s.epoch >= 0xFFFF_FFFF_FFFF_FFFF ==>
              BeginStep(fe, s, root, inputs) == s.(pending := None) && InvalidateStep(s, paths).0 == s.(pending := None)
    ensures s.epoch < 0xFFFF_FFFF_FFFF_FFFF && s.compilation.None? ==>
              InvalidateStep(s, paths) == (s.(pending := None, epoch := s.epoch + 1), 0)
  {
  }

  /** A begun project caches, for each path, the last readable input, and is trusted with nothing. */
  lemma BeginCachesReadable(fe: Frontend, s: Cache, root: Option<string>, inputs: seq<Input>, path: string)
    requires s.epoch < 0xFFFF_FFFF_FFFF_FFFF
    ensures var s' := BeginStep(fe, s, root, inputs);
            && s'.epoch == s.epoch + 1 && s'.root == root
            && s'.policy.None? && s'.pending.None? && s'.bytes == map[]
            && (root.None? ==> NothingCached(s'))
            && (root.Some? ==> (path in s'.trees <==> exists i: nat :: LastReadable(inputs, path, i)))
            && (forall i: nat :: root.Some? && LastReadable(inputs, path, i) ==>
                  path in s'.trees && Blanked(inputs[i].text.value, s'.trees[path].text))
  {
    hide AddTrees, PutTrees;
    var last := LastReadableTree(inputs, path);
    PutTreesLookup(map[], ReadableTrees(inputs), path);
    if last.Some? {
      ParsedText(inputs[last.value].text.value);
      assert forall i: nat :: LastReadable(inputs, path, i) ==> i == last.value;
    }
  }

  // ---- invalidate ----

  /** The command names the path, which is cached and not blank. */
  predicate Dropped(s: Cache, paths: seq<string>, path: string) {
    path in s.trees && path in paths && exists k :: 0 <= k < |path| && !IsWhite(path[k])
  }

  lemma {:induction false} RemovePathsEffect(index: Index, gone: seq<string>, name: string, path: string)
    ensures OfPath(Bucket(RemovePaths(index, gone), name), path)
            == if path in gone then [] else OfPath(Bucket(index, name), path)
  {
    if gone != [] {
      var init, last := gone[..|gone| - 1], gone[|gone| - 1];
      assert gone == init + [last];
      RemovePathsEffect(index, init, name, path);
      RemovePathEffect(RemovePaths(index, init), last, name, path);
    }
  }

  /** Exactly the cached paths that are named and not blank lose their tree, their size and their
      properties; the count is of trees, not of names. */
  lemma InvalidateDropsNamed(s: Cache, paths: seq<string>, path: string, name: string)
    requires s.epoch < 0xFFFF_FFFF_FFFF_FFFF && s.compilation.Some?
    ensures var (s', removed) := InvalidateStep(s, paths);
            && s'.epoch == s.epoch + 1 && s'.pending.None? && s'.root == s.root && s'.policy == s.policy
            && |s'.trees| == |s.trees| - removed
            && Lookup(s'.trees, path) == (if Dropped(s, paths, path) then None else Lookup(s.trees, path))
            && (path in s'.bytes <==> path in s.bytes && !Dropped(s, paths, path))
            && (path in s'.bytes ==> s'.bytes[path] == s.bytes[path])
            && OfPath(Bucket(s'.index, name), path)
               == (if Dropped(s, paths, path) then [] else OfPath(Bucket(s.index, name), path))
  {
    hide RemovePaths, OfPath, Bucket, StalePaths;
    var stale := StalePaths(s.trees, paths);
    StalePathsCached(s.trees, paths);
    StalePathsExact(s.trees, paths);
    RemovePathsEffect(s.index, stale, name, path);
    assert Blank(path) <==> !exists k :: 0 <= k < |path| && !IsWhite(path[k]);
    DistinctSize(stale);
    var s' := InvalidateStep(s, paths).0;
    assert s'.trees.Keys == s.trees.Keys - PathSet(stale) && PathSet(stale) <= s.trees.Keys;
    assert |s'.trees| == |s'.trees.Keys| && |s.trees| == |s.trees.Keys|;
  }

  lemma {:induction false} DistinctSize(paths: seq<string>)
    requires forall i, j :: 0 <= i < j < |paths| ==> paths[i] != paths[j]
    ensures |PathSet(paths)| == |paths|
  {
    if paths != [] {
      var init, last := paths[..|paths| - 1], paths[|paths| - 1];
      DistinctSize(init);
      assert paths == init + [last];
      assert PathSet(paths) == PathSet(init) + {last};
      assert last !in PathSet(init);
    }
  }

  // ---- parse ----

  /** The path's tree is cached and has the text. */
  ghost predicate Caches(s: Cache, path: string, source: string) {
    path in s.trees && Blanked(source, s.trees[path].text)
  }

  /** A parse changes nothing but the index, and not even that if it is standalone, if the tree is
      reused, or if it names a project and root, trust or text are not the prepared ones. Otherwise the
      path's properties are those of the new text; the other paths keep theirs if anything is compiled. */
  lemma ParseChangesIndex(fe: Frontend, s: Cache, projectRoot: Option<string>, path: string, source: string,
                          standalone: bool, name: string, p: string)
    requires NoEmptyBuckets(s.index)
    ensures var s' := ParseStep(fe, s, projectRoot, path, source, standalone);
            var refused := projectRoot.Some? && !(&& s.root == projectRoot && s.policy.Some? && s.compilation.Some?
                                                  && Caches(s, fe.fullPath(path), source));
            var reused := s.compilation.Some? && Caches(s, path, source);
            && s' == s.(index := s'.index)
            && (standalone || refused || reused ==> s' == s)
            && (!standalone && !refused && !reused ==>
                  OfPath(Bucket(s'.index, name), p)
                  == if p == path then Named(Properties(fe, SyntaxTree(path, SourceForParsing(source))), name)
                     else if s.compilation.Some? then OfPath(Bucket(s.index, name), p) else [])
  {
    hide AddTree, RemovePath, OfPath, Named, Properties;
    ParsedText(source);
    var tree := SyntaxTree(path, SourceForParsing(source));
    RemoveBuckets(s.index, path);
    AddTreeEffect(fe, RemovePath(s.index, path), tree, name, p);
    AddTreeEffect(fe, map[], tree, name, p);
    RemovePathEffect(s.index, path, name, p);
    NothingOfPath(p);
  }

  lemma NothingOfPath(path: string)
    ensures OfPath([], path) == []
  {
  }

  // ---- Every run ----

  /** The entry is the node's: under its folded name, with the names around it joined by dots. */
  predicate EntryOfNode(fe: Frontend, node: PropertyNode, name: string, x: SourceProperty) {
    && NamespaceNames(node.ancestors) + TypeNames(node.ancestors) != []
    && fe.fold(node.terminal) == name
    && x.containingType == Join(NamespaceNames(node.ancestors) + TypeNames(node.ancestors))
    && x.fqn == x.containingType + "." + node.terminal
  }

  lemma NodeEntry(fe: Frontend, node: PropertyNode, path: string, name: string, x: SourceProperty)
    ensures Indexed(node) && DeclaredOne(fe, node, path) == Declared(name, x)
            <==> x.path == path && EntryOfNode(fe, node, name, x)
  {
  }

  lemma NamedSnoc(ds: seq<Declared>, d: Declared, name: string)
    ensures Named(ds + [d], name) == Named(ds, name) + (if d.name == name then [d.info] else [])
  {
    assert (ds + [d])[..|ds|] == ds;
  }

  lemma {:induction false} NamedAreNodes(fe: Frontend, nodes: seq<PropertyNode>, path: string, name: string,
                                         x: SourceProperty)
    ensures x in Named(DeclaredBy(fe, nodes, path), name)
            <==> x.path == path && exists k :: 0 <= k < |nodes| && EntryOfNode(fe, nodes[k], name, x)
  {
    hide EntryOfNode, DeclaredOne, Indexed, Named;
    if nodes != [] {
      var n := |nodes| - 1;
      NamedAreNodes(fe, nodes[..n], path, name, x);
      NodeEntry(fe, nodes[n], path, name, x);
      assert forall k :: 0 <= k < n ==> nodes[k] == nodes[..n][k];
      var before := DeclaredBy(fe, nodes[..n], path);
      if Indexed(nodes[n]) {
        NamedSnoc(before, DeclaredOne(fe, nodes[n], path), name);
      } else {
        assert before + [] == before;
      }
    } else {
      NothingNamed(name);
    }
  }

  lemma NothingNamed(name: string)
    ensures Named([], name) == []
  {
  }

  lemma {:induction false} InOfPath(ps: seq<SourceProperty>, x: SourceProperty)
    ensures x in OfPath(ps, x.path) <==> x in ps
  {
    OfPathCount(ps, x);
    assert x in OfPath(ps, x.path) <==> multiset(OfPath(ps, x.path))[x] > 0;
    assert x in ps <==> multiset(ps)[x] > 0;
  }

  /** After any run that was guarded since the last reset, a trusted cache's index lists under a name
      exactly the properties with that name in the trees that are cached. */
  lemma IndexListsProperties(fe: Frontend, commands: seq<Command>, k: nat, name: string, x: SourceProperty)
    requires fe.Sound() && GuardedSince(fe, commands, k) && Run(fe, commands).policy.Some?
    ensures var s := Run(fe, commands);
            (name in s.index && x in s.index[name])
            <==> x.path in s.trees
                 && var nodes := PropertyNodes(fe.parse(s.trees[x.path].text), []);
                    exists i :: 0 <= i < |nodes| && EntryOfNode(fe, nodes[i], name, x)
  {
    hide Run, GuardedSince, Named, DeclaredBy, EntryOfNode, OfPath;
    GuardedRunsAgree(fe, commands, k);
    EveryRunKeeps(fe, commands);
    var s := Run(fe, commands);
    InOfPath(Bucket(s.index, name), x);
    assert OfPath(Bucket(s.index, name), x.path) == Expected(fe, s.trees, x.path, name);
    if x.path in s.trees {
      NamedAreNodes(fe, PropertyNodes(fe.parse(s.trees[x.path].text), []), s.trees[x.path].path, name, x);
    }
  }

  /** Whatever is commanded, a trusted cache never holds more than 32 MiB, a file of more than 10 MiB or
      more than 250000 trees, and knows the size of exactly the files it holds. */
  lemma TrustIsBounded(fe: Frontend, commands: seq<Command>)
    requires fe.Sound() && Run(fe, commands).policy.Some?
    ensures var s := Run(fe, commands);
            && Supported(s.policy.value)
            && s.bytes.Keys == s.trees.Keys
            && Sum(s.bytes) <= s.policy.value.maxTotal <= 33_554_432
            && |s.trees| <= s.policy.value.maxTrees <= 250_000
            && forall p :: p in s.bytes ==> s.bytes[p] <= s.policy.value.maxFile <= 10_485_760
  {
    hide Run;
    EveryRunKeeps(fe, commands);
  }
}
