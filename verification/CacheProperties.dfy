/** What every run of the compilation cache keeps: the admission ledger, agreement of the
    incremental index with a full rebuild, and the plan protocol. */
module CacheProperties {

  import opened Wrappers
  import opened SourceNaming
  import opened MapSums
  import opened PropertyIndex
  import opened CompilationCache

  // ---- The invariant ----

  /** The compilation holds each cached tree once and nothing else. */
  ghost predicate Holds(compilation: multiset<SyntaxTree>, trees: map<string, SyntaxTree>) {
    forall t :: compilation[t] == if t.path in trees && trees[t.path] == t then 1 else 0
  }

  ghost predicate Ledger(bytes: map<string, nat>, trees: map<string, SyntaxTree>, policy: Policy) {
    && policy.Valid()
    && bytes.Keys == trees.Keys
    && |trees| <= policy.maxTrees
    && Sum(bytes) <= policy.maxTotal
    && forall p :: p in bytes ==> bytes[p] <= policy.maxFile
  }

  ghost predicate Trusted(fe: Frontend, s: Cache) {
    && s.policy.Some?
    && s.compilation.Some? && s.root.Some?
    && Holds(s.compilation.value, s.trees)
    && Ledger(s.bytes, s.trees, s.policy.value)
    && forall p :: p in s.trees ==> fe.fullPath(p) == p
  }

  function SumSources(sources: seq<Source>): nat {
    if sources == [] then 0 else SumSources(sources[..|sources| - 1]) + sources[|sources| - 1].bytes
  }

  ghost predicate DistinctSources(sources: seq<Source>) {
    forall i, j :: 0 <= i < j < |sources| ==> sources[i].path != sources[j].path
  }

  /** A pending plan belongs to the current state and its totals are already exact for it. */
  ghost predicate PlanFits(fe: Frontend, s: Cache, plan: Plan) {
    && plan.epoch == s.epoch
    && plan.receipt.id == s.nextPlan
    && plan.receipt.policy.Valid()
    && DistinctSources(plan.sources)
    && (forall i :: 0 <= i < |plan.sources| ==> plan.sources[i].bytes <= plan.receipt.policy.maxFile)
    && (forall i :: 0 <= i < |plan.sources| ==> fe.fullPath(plan.sources[i].path) == plan.sources[i].path)
    && plan.receipt.totalSourceBytes <= plan.receipt.policy.maxTotal
    && plan.receipt.treeCount <= plan.receipt.policy.maxTrees
    && (plan.receipt.full ==>
          && plan.receipt.totalSourceBytes == SumSources(plan.sources)
          && plan.receipt.treeCount == |plan.sources|)
    && (!plan.receipt.full ==>
          && s.policy == Some(plan.receipt.policy)
          && AllCached(s.trees, plan.sources)
          && plan.receipt.totalSourceBytes
             == Sum(s.bytes - PathSet(Paths(plan.sources))) + SumSources(plan.sources)
          && plan.receipt.treeCount == |s.trees|)
  }

  ghost predicate Inv(fe: Frontend, s: Cache) {
    && NoEmptyBuckets(s.index)
    && Filed(s.trees)
    && s.epoch <= MAX_ULONG && s.nextPlan <= MAX_ULONG
    && (s.policy.Some? ==> Trusted(fe, s))
    && (s.pending.Some? ==> PlanFits(fe, s, s.pending.value))
  }

  // ---- Sums and distinctness ----

  lemma {:induction false} DistinctIsDistinct(paths: seq<string>)
    ensures forall i, j :: 0 <= i < j < |Distinct(paths)| ==> Distinct(paths)[i] != Distinct(paths)[j]
    ensures forall p :: p in Distinct(paths) <==> p in paths
    ensures |Distinct(paths)| <= |paths|
  {
    if paths != [] {
      var init, last := paths[..|paths| - 1], paths[|paths| - 1];
      DistinctIsDistinct(init);
      assert paths == init + [last];
    }
  }

  lemma {:induction false} SourcesSum(paths: seq<string>, lengths: map<string, nat>)
    requires forall p :: p in paths ==> p in lengths
    ensures SumSources(Sources(paths, lengths)) == SumLengths(paths, lengths)
  {
    if paths != [] {
      var init := paths[..|paths| - 1];
      SourcesSum(init, lengths);
      assert Sources(paths, lengths)[..|paths| - 1] == Sources(init, lengths);
    }
  }

  lemma {:induction false} SumLengthsCons(paths: seq<string>, lengths: map<string, nat>)
    requires paths != [] && forall p :: p in paths ==> p in lengths
    ensures SumLengths(paths, lengths) == lengths[paths[0]] + SumLengths(paths[1..], lengths)
  {
    if |paths| > 1 {
      var init := paths[..|paths| - 1];
      SumLengthsCons(init, lengths);
      assert init[1..] == paths[1..][..|paths| - 2];
    }
  }

  /** Stopping at the first offender decides the same as checking the final total. */
  lemma {:induction false} MeasureIsExact(paths: seq<string>, lengths: map<string, nat>, policy: Policy, total: int)
    requires total <= policy.maxTotal
    ensures Measure(paths, lengths, policy, total).Success? <==>
              && (forall p :: p in paths ==> p in lengths && lengths[p] <= policy.maxFile)
              && total + SumLengths(paths, lengths) <= policy.maxTotal
    ensures Measure(paths, lengths, policy, total).Success? ==>
              Measure(paths, lengths, policy, total).value == total + SumLengths(paths, lengths)
  {
    if paths != [] && paths[0] in lengths {
      var next := total + lengths[paths[0]];
      assert paths == [paths[0]] + paths[1..];
      if lengths[paths[0]] <= policy.maxFile && next <= policy.maxTotal {
        MeasureIsExact(paths[1..], lengths, policy, next);
      }
      if forall p :: p in paths ==> p in lengths {
        SumLengthsCons(paths, lengths);
      }
    }
  }

  /** Taking distinct keys out of a map takes their values out of its sum. */
  lemma {:induction false} SumWithout(m: map<string, nat>, paths: seq<string>)
    requires forall p :: p in paths ==> p in m
    requires forall i, j :: 0 <= i < j < |paths| ==> paths[i] != paths[j]
    ensures Sum(m) - SumLengths(paths, m) == Sum(m - PathSet(paths))
  {
    if paths == [] {
      assert m - PathSet(paths) == m;
    } else {
      var init, last := paths[..|paths| - 1], paths[|paths| - 1];
      SumWithout(m, init);
      assert paths == init + [last];
      assert PathSet(paths) == PathSet(init) + {last};
      assert last !in PathSet(init);
      SumRemove(m - PathSet(init), last);
      assert m - PathSet(init) - {last} == m - PathSet(paths);
    }
  }

  /** The size that a list of sources gives a path, if any. */
  function SizeIn(sources: seq<Source>, path: string): Option<nat> {
    if sources == [] then None
    else if sources[|sources| - 1].path == path then Some(sources[|sources| - 1].bytes)
    else SizeIn(sources[..|sources| - 1], path)
  }

  lemma {:induction false} PutBytesLookup(bytes: map<string, nat>, sources: seq<Source>, path: string)
    ensures path in PutBytes(bytes, sources) <==> SizeIn(sources, path).Some? || path in bytes
    ensures path in PutBytes(bytes, sources) ==>
              PutBytes(bytes, sources)[path]
              == if SizeIn(sources, path).Some? then SizeIn(sources, path).value else bytes[path]
  {
    if sources != [] {
      PutBytesLookup(bytes, sources[..|sources| - 1], path);
    }
  }

  lemma {:induction false} SizeInMember(sources: seq<Source>, path: string)
    ensures SizeIn(sources, path).Some? <==> path in Paths(sources)
    ensures SizeIn(sources, path).Some? ==> Source(path, SizeIn(sources, path).value) in sources
  {
    if sources != [] {
      var init, last := sources[..|sources| - 1], sources[|sources| - 1];
      SizeInMember(init, path);
      assert Paths(sources) == Paths(init) + [last.path];
      assert sources == init + [last];
    }
  }

  lemma {:induction false} PutBytesSum(bytes: map<string, nat>, sources: seq<Source>)
    requires DistinctSources(sources)
    ensures Sum(PutBytes(bytes, sources)) == Sum(bytes - PathSet(Paths(sources))) + SumSources(sources)
  {
    if sources == [] {
      assert bytes - PathSet(Paths(sources)) == bytes;
    } else {
      var init, last := sources[..|sources| - 1], sources[|sources| - 1];
      assert Paths(sources) == Paths(init) + [last.path];
      SumUpdate(PutBytes(bytes, init), last.path, last.bytes);
      PutBytesWithout(bytes, init, last.path);
      PutBytesSum(bytes - {last.path}, init);
      assert PathSet(Paths(sources)) == PathSet(Paths(init)) + {last.path};
      assert bytes - {last.path} - PathSet(Paths(init)) == bytes - PathSet(Paths(sources));
    }
  }

  lemma {:induction false} PutBytesWithout(bytes: map<string, nat>, sources: seq<Source>, path: string)
    requires forall i :: 0 <= i < |sources| ==> sources[i].path != path
    ensures PutBytes(bytes, sources) - {path} == PutBytes(bytes - {path}, sources)
  {
    if sources != [] {
      PutBytesWithout(bytes, sources[..|sources| - 1], path);
    }
  }

  // ---- Trees and compilation ----

  lemma {:induction false} DistinctTreesOnce(trees: seq<SyntaxTree>)
    requires DistinctPaths(trees)
    ensures forall t :: multiset(trees)[t] == if t in trees then 1 else 0
  {
    if trees != [] {
      var init, last := trees[..|trees| - 1], trees[|trees| - 1];
      DistinctTreesOnce(init);
      assert trees == init + [last];
      assert last !in init;
    }
  }

  /** The last tree that a list gives a path, if any. */
  function LastIn(added: seq<SyntaxTree>, path: string): Option<SyntaxTree> {
    if added == [] then None
    else if added[|added| - 1].path == path then Some(added[|added| - 1])
    else LastIn(added[..|added| - 1], path)
  }

  lemma {:induction false} PutTreesLookup(trees: map<string, SyntaxTree>, added: seq<SyntaxTree>, path: string)
    ensures path in PutTrees(trees, added) <==> LastIn(added, path).Some? || path in trees
    ensures path in PutTrees(trees, added) ==>
              PutTrees(trees, added)[path]
              == if LastIn(added, path).Some? then LastIn(added, path).value else trees[path]
  {
    if added != [] {
      PutTreesLookup(trees, added[..|added| - 1], path);
    }
  }

  lemma {:induction false} LastInMember(added: seq<SyntaxTree>, path: string)
    ensures LastIn(added, path).Some? ==> LastIn(added, path).value in added && LastIn(added, path).value.path == path
    ensures LastIn(added, path).None? ==> forall t :: t in added ==> t.path != path
    ensures DistinctPaths(added) ==> forall t :: t in added && t.path == path ==> LastIn(added, path) == Some(t)
  {
    if added != [] {
      var init, last := added[..|added| - 1], added[|added| - 1];
      LastInMember(init, path);
      assert added == init + [last];
    }
  }

  lemma HoldsAdd(compilation: multiset<SyntaxTree>, trees: map<string, SyntaxTree>, added: seq<SyntaxTree>)
    requires Holds(compilation, trees) && DistinctPaths(added)
    requires forall i :: 0 <= i < |added| ==> added[i].path !in trees
    ensures Holds(compilation + multiset(added), PutTrees(trees, added))
  {
    DistinctTreesOnce(added);
    forall t
      ensures (compilation + multiset(added))[t]
              == if t.path in PutTrees(trees, added) && PutTrees(trees, added)[t.path] == t then 1 else 0
    {
      PutTreesLookup(trees, added, t.path);
      LastInMember(added, t.path);
    }
  }

  lemma HoldsRemove(compilation: multiset<SyntaxTree>, trees: map<string, SyntaxTree>, paths: seq<string>)
    requires Holds(compilation, trees) && Filed(trees)
    requires forall p :: p in paths ==> p in trees
    requires forall i, j :: 0 <= i < j < |paths| ==> paths[i] != paths[j]
    ensures Holds(compilation - multiset(TreesAt(trees, paths)), trees - PathSet(paths))
    ensures multiset(TreesAt(trees, paths)) <= compilation
  {
    var gone := TreesAt(trees, paths);
    assert forall i :: 0 <= i < |paths| ==> gone[i].path == paths[i] by {
      assert forall i :: 0 <= i < |paths| ==> paths[i] in paths;
    }
    DistinctTreesOnce(gone);
    forall t
      ensures multiset(gone)[t] <= compilation[t]
      ensures (compilation - multiset(gone))[t]
              == if t.path in trees - PathSet(paths) && (trees - PathSet(paths))[t.path] == t then 1 else 0
    {
      if t in gone {
        var i :| 0 <= i < |gone| && gone[i] == t;
        assert paths[i] == t.path && t.path in PathSet(paths);
      } else if t.path in paths {
        var i :| 0 <= i < |paths| && paths[i] == t.path;
        assert gone[i] == trees[t.path];
      }
    }
  }

  lemma PutOverwrites(trees: map<string, SyntaxTree>, added: seq<SyntaxTree>, gone: set<string>)
    requires forall p :: p in gone ==> LastIn(added, p).Some?
    ensures PutTrees(trees - gone, added) == PutTrees(trees, added)
  {
    var a, b := PutTrees(trees - gone, added), PutTrees(trees, added);
    forall p
      ensures p in a <==> p in b
      ensures p in a ==> a[p] == b[p]
    {
      PutTreesLookup(trees, added, p);
      PutTreesLookup(trees - gone, added, p);
    }
    assert a.Keys == b.Keys;
  }

  lemma {:induction false} PutTreesSize(trees: map<string, SyntaxTree>, added: seq<SyntaxTree>)
    requires DistinctPaths(added) && forall i :: 0 <= i < |added| ==> added[i].path !in trees
    ensures |PutTrees(trees, added)| == |trees| + |added|
  {
    if added != [] {
      var init, last := added[..|added| - 1], added[|added| - 1];
      PutTreesSize(trees, init);
      PutTreesKeys(trees, init);
      assert last.path !in PutTrees(trees, init);
    }
  }

  lemma SubsetSize<T>(a: set<T>, b: set<T>)
    requires a <= b
    ensures |a| <= |b|
  {
    assert b == a + (b - a);
  }

  lemma {:induction false} AddTreesNoEmpty(fe: Frontend, index: Index, added: seq<SyntaxTree>)
    requires NoEmptyBuckets(index)
    ensures NoEmptyBuckets(AddTrees(fe, index, added))
  {
    if added != [] {
      AddTreesNoEmpty(fe, index, added[..|added| - 1]);
      AddAllBuckets(AddTrees(fe, index, added[..|added| - 1]), Properties(fe, added[|added| - 1]));
    }
  }

  lemma RemovePathsNoEmpty(index: Index, paths: seq<string>)
    requires NoEmptyBuckets(index)
    ensures NoEmptyBuckets(RemovePaths(index, paths))
  {
    if paths != [] {
      RemoveBuckets(RemovePaths(index, paths[..|paths| - 1]), paths[|paths| - 1]);
    }
  }

  // ---- Planning ----

  /** The running total the loop starts from: what stays cached. */
  ghost function Base(s: Cache, r: PlanRequest, paths: seq<string>): int
    requires r.files.None? ==> forall p :: p in paths ==> p in s.bytes
  {
    if r.files.None? then Sum(s.bytes) - SumLengths(paths, s.bytes) else 0
  }

  /** The cached and requested sizes that a request would leave behind fit the policy. */
  ghost predicate Fits(s: Cache, r: PlanRequest, paths: seq<string>) {
    && r.policy.Some?
    && (forall p :: p in paths ==> p in r.lengths && r.lengths[p] <= r.policy.value.maxFile)
    && (r.files.None? ==> forall p :: p in paths ==> p in s.bytes)
    && Base(s, r, paths) + SumLengths(paths, r.lengths) <= r.policy.value.maxTotal
  }

  lemma BaseWithin(fe: Frontend, s: Cache, r: PlanRequest, paths: seq<string>)
    requires Inv(fe, s) && r.policy.Some? && r.policy.value.Valid()
    requires r.files.None? ==> s.policy == r.policy
    requires forall i, j :: 0 <= i < j < |paths| ==> paths[i] != paths[j]
    requires r.files.None? ==> forall p :: p in paths ==> p in s.trees
    ensures r.files.None? ==> forall p :: p in paths ==> p in s.bytes
    ensures Base(s, r, paths) <= r.policy.value.maxTotal
    ensures r.files.None? ==> Base(s, r, paths) == Sum(s.bytes - PathSet(paths))
  {
    if r.files.None? {
      SumWithout(s.bytes, paths);
    }
  }

  lemma PlanDistinctOutcome(fe: Frontend, s: Cache, r: PlanRequest, paths: seq<string>)
    requires Inv(fe, s) && r.policy.Some? && r.policy.value.Valid()
    requires r.files.None? ==> s.policy == r.policy
    requires forall i, j :: 0 <= i < j < |paths| ==> paths[i] != paths[j]
    requires |paths| <= r.policy.value.maxTrees
    ensures PlanDistinct(s, r, paths).Success? <==>
              && (r.files.None? ==> forall p :: p in paths ==> p in s.trees)
              && Fits(s, r, paths)
              && s.nextPlan < MAX_ULONG
    ensures PlanDistinct(s, r, paths) != Failure(CountLimit) && PlanDistinct(s, r, paths) != Failure(UnknownSize)
  {
    if r.files.None? ==> forall p :: p in paths ==> p in s.trees {
      BaseWithin(fe, s, r, paths);
      MeasureIsExact(paths, r.lengths, r.policy.value, Base(s, r, paths));
    }
  }

  /** The plan that an admitted request yields. */
  ghost function MadePlan(s: Cache, r: PlanRequest, paths: seq<string>): Plan
    requires r.policy.Some? && Fits(s, r, paths)
  {
    Plan(Receipt(s.nextPlan + 1, Base(s, r, paths) + SumLengths(paths, r.lengths),
                 if r.files.None? then |s.trees| else |paths|, SumLengths(paths, r.lengths), |paths|,
                 MaxLength(paths, r.lengths), r.files.Some?, r.policy.value),
         r.root, Sources(paths, r.lengths), s.epoch)
  }

  lemma PlanDistinctValue(fe: Frontend, s: Cache, r: PlanRequest, paths: seq<string>)
    requires Inv(fe, s) && r.policy.Some? && r.policy.value.Valid()
    requires r.files.None? ==> s.policy == r.policy
    requires forall i, j :: 0 <= i < j < |paths| ==> paths[i] != paths[j]
    requires |paths| <= r.policy.value.maxTrees
    requires PlanDistinct(s, r, paths).Success?
    ensures Fits(s, r, paths) && PlanDistinct(s, r, paths).value == MadePlan(s, r, paths)
  {
    PlanDistinctOutcome(fe, s, r, paths);
    BaseWithin(fe, s, r, paths);
    MeasureIsExact(paths, r.lengths, r.policy.value, Base(s, r, paths));
  }

  lemma MadePlanFits(fe: Frontend, s: Cache, r: PlanRequest, paths: seq<string>)
    requires r.policy.Some? && r.policy.value.Valid() && Fits(s, r, paths)
    requires r.files.None? ==> s.policy == r.policy && |s.trees| <= r.policy.value.maxTrees
    requires r.files.None? ==> Base(s, r, paths) == Sum(s.bytes - PathSet(paths))
    requires r.files.None? ==> forall p :: p in paths ==> p in s.trees
    requires forall i, j :: 0 <= i < j < |paths| ==> paths[i] != paths[j]
    requires forall p :: p in paths ==> fe.fullPath(p) == p
    requires |paths| <= r.policy.value.maxTrees
    ensures PlanFits(fe, s.(nextPlan := s.nextPlan + 1), MadePlan(s, r, paths))
  {
    SourcesSum(paths, r.lengths);
    assert Paths(Sources(paths, r.lengths)) == paths;
    assert forall i :: 0 <= i < |paths| ==> paths[i] in paths;
  }

  /** The paths a request is about, canonical and each once. */
  function RequestPaths(fe: Frontend, r: PlanRequest): seq<string> {
    Distinct(FullPaths(fe, Requested(r)))
  }

  lemma RequestPathsCanonical(fe: Frontend, r: PlanRequest)
    requires fe.Sound()
    ensures forall p :: p in RequestPaths(fe, r) ==> fe.fullPath(p) == p
    ensures forall i, j :: 0 <= i < j < |RequestPaths(fe, r)| ==> RequestPaths(fe, r)[i] != RequestPaths(fe, r)[j]
    ensures |RequestPaths(fe, r)| <= |Requested(r)|
  {
    DistinctIsDistinct(FullPaths(fe, Requested(r)));
    forall p | p in FullPaths(fe, Requested(r))
      ensures fe.fullPath(p) == p
    {
      var i :| 0 <= i < |Requested(r)| && FullPaths(fe, Requested(r))[i] == p;
      assert fe.fullPath(fe.fullPath(Requested(r)[i])) == fe.fullPath(Requested(r)[i]);
    }
  }

  /** In every state a run can reach, a request is admitted exactly when its policy is supported,
      its root exists, an incremental one continues the trusted project, its paths are inside and
      (if incremental) cached, and what it leaves behind fits; the count comparison and the final
      total check of the source never decide. */
  lemma PlanIsExact(fe: Frontend, s: Cache, r: PlanRequest)
    requires fe.Sound() && Inv(fe, s)
    ensures PlanOutcome(fe, s, r).Success? <==>
              && r.policy.Some? && r.policy.value.Valid()
              && r.rootExists
              && (r.files.None? ==> s.root == Some(r.root) && s.policy == r.policy)
              && |Requested(r)| <= r.policy.value.maxTrees
              && (forall p :: p in FullPaths(fe, Requested(r)) ==> fe.inside(r.root, p))
              && (r.files.None? ==> forall p :: p in RequestPaths(fe, r) ==> p in s.trees)
              && Fits(s, r, RequestPaths(fe, r))
              && s.nextPlan < MAX_ULONG
    ensures PlanOutcome(fe, s, r) != Failure(CountLimit) && PlanOutcome(fe, s, r) != Failure(UnknownSize)
    ensures PlanOutcome(fe, s, r).Success? ==>
              PlanFits(fe, s.(nextPlan := s.nextPlan + 1), PlanOutcome(fe, s, r).value)
  {
    if r.policy.Some? && r.policy.value.Valid() && (r.files.None? ==> s.policy == r.policy)
       && |Requested(r)| <= r.policy.value.maxTrees {
      RequestPathsCanonical(fe, r);
      PlanDistinctOutcome(fe, s, r, RequestPaths(fe, r));
      if PlanDistinct(s, r, RequestPaths(fe, r)).Success? {
        PlanDistinctValue(fe, s, r, RequestPaths(fe, r));
        BaseWithin(fe, s, r, RequestPaths(fe, r));
        MadePlanFits(fe, s, r, RequestPaths(fe, r));
      }
      if r.files.None? {
        assert |s.bytes| == |s.bytes.Keys| && |s.trees| == |s.trees.Keys|;
      }
    }
  }

  lemma PlanKeeps(fe: Frontend, s: Cache, r: PlanRequest)
    requires fe.Sound() && Inv(fe, s)
    ensures Inv(fe, PlanStep(fe, s, r))
  {
    PlanIsExact(fe, s, r);
    if PlanOutcome(fe, s, r).Success? {
      var plan := PlanOutcome(fe, s, r).value;
      var s' := PlanStep(fe, s, r);
      assert PlanFits(fe, s.(nextPlan := s.nextPlan + 1), plan);
      assert s'.pending == Some(plan);
    }
  }

  // ---- Refreshing ----

  lemma RefreshedPaths(sources: seq<Source>, disk: map<string, Opened>)
    requires ReadsMatch(sources, disk) && DistinctSources(sources)
    ensures DistinctPaths(Refreshed(sources, disk))
    ensures forall p :: LastIn(Refreshed(sources, disk), p).Some? <==> p in Paths(sources)
    ensures forall i, j :: 0 <= i < j < |sources| ==> Paths(sources)[i] != Paths(sources)[j]
  {
    var added := Refreshed(sources, disk);
    forall p
      ensures LastIn(added, p).Some? <==> p in Paths(sources)
    {
      LastInMember(added, p);
      if p in Paths(sources) {
        var i :| 0 <= i < |sources| && Paths(sources)[i] == p;
        assert added[i].path == p && added[i] in added;
      }
      if LastIn(added, p).Some? {
        var i :| 0 <= i < |added| && added[i] == LastIn(added, p).value;
        assert Paths(sources)[i] == p;
      }
    }
  }

  /** After an installed refresh the receipt's total and count are those of the new cache. */
  ghost predicate ReceiptHolds(s: Cache, receipt: Receipt) {
    && Sum(s.bytes) == receipt.totalSourceBytes
    && |s.trees| == receipt.treeCount
    && s.policy == Some(receipt.policy)
  }

  lemma InstalledBytes(bytes: map<string, nat>, trees: map<string, SyntaxTree>, sources: seq<Source>,
                       disk: map<string, Opened>, limit: int)
    requires ReadsMatch(sources, disk) && DistinctSources(sources)
    requires bytes.Keys == trees.Keys && forall p :: p in bytes ==> bytes[p] <= limit
    requires forall i :: 0 <= i < |sources| ==> sources[i].bytes <= limit
    ensures PutBytes(bytes, sources).Keys == PutTrees(trees, Refreshed(sources, disk)).Keys
    ensures forall p :: p in PutBytes(bytes, sources) ==> PutBytes(bytes, sources)[p] <= limit
  {
    var a, b := PutBytes(bytes, sources), PutTrees(trees, Refreshed(sources, disk));
    RefreshedPaths(sources, disk);
    forall p
      ensures p in a <==> p in b
      ensures p in a ==> a[p] <= limit
    {
      PutBytesLookup(bytes, sources, p);
      PutTreesLookup(trees, Refreshed(sources, disk), p);
      SizeInMember(sources, p);
    }
    assert a.Keys == b.Keys;
  }

  lemma FullTrees(fe: Frontend, s: Cache, plan: Plan, disk: map<string, Opened>)
    requires PlanFits(fe, s, plan) && plan.receipt.full && ReadsMatch(plan.sources, disk)
    ensures var added := Refreshed(plan.sources, disk);
            var trees := PutTrees(map[], added);
            && Holds(multiset(added), trees) && Filed(trees) && |trees| == plan.receipt.treeCount
            && forall p :: p in trees ==> fe.fullPath(p) == p
  {
    var added := Refreshed(plan.sources, disk);
    RefreshedPaths(plan.sources, disk);
    PutTreesKeys(map[], added);
    PutTreesSize(map[], added);
    HoldsAdd(multiset{}, map[], added);
    assert multiset{} + multiset(added) == multiset(added);
  }

  lemma FullBytes(fe: Frontend, s: Cache, plan: Plan, disk: map<string, Opened>)
    requires PlanFits(fe, s, plan) && plan.receipt.full && ReadsMatch(plan.sources, disk)
    ensures var bytes := PutBytes(map[], plan.sources);
            && bytes.Keys == PutTrees(map[], Refreshed(plan.sources, disk)).Keys
            && (forall p :: p in bytes ==> bytes[p] <= plan.receipt.policy.maxFile)
            && Sum(bytes) == plan.receipt.totalSourceBytes
  {
    InstalledBytes(map[], map[], plan.sources, disk, plan.receipt.policy.maxFile);
    PutBytesSum(map[], plan.sources);
    var none: map<string, nat> := map[];
    assert none - PathSet(Paths(plan.sources)) == none;
  }

  lemma FullInstallKeeps(fe: Frontend, s: Cache, plan: Plan, disk: map<string, Opened>)
    requires Inv(fe, s) && PlanFits(fe, s, plan) && plan.receipt.full && CanInstall(s, plan, disk)
    ensures Inv(fe, Install(fe, s, plan, disk))
    ensures ReceiptHolds(Install(fe, s, plan, disk), plan.receipt)
    ensures Agrees(fe, Install(fe, s, plan, disk).index, Install(fe, s, plan, disk).trees)
  {
    FullTrees(fe, s, plan, disk);
    FullBytes(fe, s, plan, disk);
    RefreshedPaths(plan.sources, disk);
    RebuiltIndexAgrees(fe, Refreshed(plan.sources, disk));
  }

  lemma PatchTrees(s: Cache, plan: Plan, disk: map<string, Opened>)
    requires Filed(s.trees) && DistinctSources(plan.sources) && AllCached(s.trees, plan.sources)
    requires ReadsMatch(plan.sources, disk)
    ensures var added, gone := Refreshed(plan.sources, disk), PathSet(Paths(plan.sources));
            && PutTrees(s.trees, added) == PutTrees(s.trees - gone, added)
            && PutTrees(s.trees, added).Keys == s.trees.Keys
            && Filed(PutTrees(s.trees, added))
            && (forall i :: 0 <= i < |added| ==> added[i].path !in s.trees - gone)
  {
    var added, gone := Refreshed(plan.sources, disk), PathSet(Paths(plan.sources));
    RefreshedPaths(plan.sources, disk);
    PutOverwrites(s.trees, added, gone);
    PutTreesKeys(s.trees, added);
    assert forall i :: 0 <= i < |added| ==> added[i].path == Paths(plan.sources)[i];
    assert PutTrees(s.trees, added).Keys == s.trees.Keys;
  }

  lemma HoldsReplace(compilation: multiset<SyntaxTree>, trees: map<string, SyntaxTree>, paths: seq<string>,
                     added: seq<SyntaxTree>)
    requires Holds(compilation, trees) && Filed(trees)
    requires forall p :: p in paths ==> p in trees
    requires forall i, j :: 0 <= i < j < |paths| ==> paths[i] != paths[j]
    requires DistinctPaths(added) && forall i :: 0 <= i < |added| ==> added[i].path !in trees - PathSet(paths)
    requires PutTrees(trees, added) == PutTrees(trees - PathSet(paths), added)
    ensures Holds(compilation - multiset(TreesAt(trees, paths)) + multiset(added), PutTrees(trees, added))
  {
    HoldsRemove(compilation, trees, paths);
    HoldsAdd(compilation - multiset(TreesAt(trees, paths)), trees - PathSet(paths), added);
  }

  lemma PatchHolds(s: Cache, plan: Plan, disk: map<string, Opened>)
    requires s.compilation.Some? && Holds(s.compilation.value, s.trees) && Filed(s.trees)
    requires DistinctSources(plan.sources) && AllCached(s.trees, plan.sources) && ReadsMatch(plan.sources, disk)
    ensures var added := Refreshed(plan.sources, disk);
            Holds(s.compilation.value - multiset(Replaced(s.trees, plan.sources)) + multiset(added),
                  PutTrees(s.trees, added))
  {
    var paths := Paths(plan.sources);
    RefreshedPaths(plan.sources, disk);
    PatchTrees(s, plan, disk);
    assert Replaced(s.trees, plan.sources) == TreesAt(s.trees, paths) && forall p :: p in paths ==> p in s.trees;
    HoldsReplace(s.compilation.value, s.trees, paths, Refreshed(plan.sources, disk));
  }

  lemma PatchBytes(fe: Frontend, s: Cache, plan: Plan, disk: map<string, Opened>)
    requires Inv(fe, s) && PlanFits(fe, s, plan) && !plan.receipt.full && CanInstall(s, plan, disk)
    ensures var bytes, trees := PutBytes(s.bytes, plan.sources), PutTrees(s.trees, Refreshed(plan.sources, disk));
            && bytes.Keys == trees.Keys == s.trees.Keys && |trees| == |s.trees|
            && (forall p :: p in bytes ==> bytes[p] <= plan.receipt.policy.maxFile)
            && Sum(bytes) == plan.receipt.totalSourceBytes
            && Filed(trees)
  {
    hide PutBytes, PutTrees, Sum;
    PatchTrees(s, plan, disk);
    InstalledBytes(s.bytes, s.trees, plan.sources, disk, plan.receipt.policy.maxFile);
    PutBytesSum(s.bytes, plan.sources);
    var trees := PutTrees(s.trees, Refreshed(plan.sources, disk));
    assert |trees| == |trees.Keys| && |s.trees| == |s.trees.Keys|;
  }

  lemma PatchInstallKeeps(fe: Frontend, s: Cache, plan: Plan, disk: map<string, Opened>)
    requires Inv(fe, s) && PlanFits(fe, s, plan) && !plan.receipt.full && CanInstall(s, plan, disk)
    ensures Inv(fe, Install(fe, s, plan, disk))
    ensures ReceiptHolds(Install(fe, s, plan, disk), plan.receipt)
  {
    PatchHolds(s, plan, disk);
    PatchBytes(fe, s, plan, disk);
    RemovePathsNoEmpty(s.index, Paths(plan.sources));
    AddTreesNoEmpty(fe, RemovePaths(s.index, Paths(plan.sources)), Refreshed(plan.sources, disk));
  }

  lemma PatchInstallAgrees(fe: Frontend, s: Cache, plan: Plan, disk: map<string, Opened>)
    requires Inv(fe, s) && PlanFits(fe, s, plan) && !plan.receipt.full && CanInstall(s, plan, disk)
    requires Agrees(fe, s.index, s.trees)
    ensures Agrees(fe, Install(fe, s, plan, disk).index, Install(fe, s, plan, disk).trees)
  {
    var paths := Paths(plan.sources);
    RefreshedPaths(plan.sources, disk);
    PatchTrees(s, plan, disk);
    RemovePathsAgrees(fe, s.index, s.trees, paths);
    AddTreesAgrees(fe, RemovePaths(s.index, paths), s.trees - PathSet(paths), Refreshed(plan.sources, disk));
  }

  /** The token decides alone whether a plan is consumed (a pending plan is never of an older epoch);
      with any other token nothing changes. A consumed plan fails only on reads or a spent counter:
      the compilation always accepts the replacement. */
  lemma RefreshOutcomeIsExact(fe: Frontend, s: Cache, planId: Option<nat>, disk: map<string, Opened>)
    requires Inv(fe, s)
    ensures var mine := planId.Some? && s.pending.Some? && s.pending.value.receipt.id == planId.value;
            && (!mine ==> RefreshStep(fe, s, planId, disk) == (s, Stale))
            && (mine ==> (RefreshStep(fe, s, planId, disk).1 == Installed <==>
                          ReadsMatch(s.pending.value.sources, disk) && s.epoch < MAX_ULONG))
            && (mine ==> RefreshStep(fe, s, planId, disk).1 != Stale)
  {
    hide AddTrees, RemovePaths, PutTrees, PutBytes, NoEmptyBuckets, Ledger;
    if Consumes(s, planId) && !s.pending.value.receipt.full {
      var plan := s.pending.value;
      assert Replaced(s.trees, plan.sources) == TreesAt(s.trees, Paths(plan.sources));
      assert forall p :: p in Paths(plan.sources) ==> p in s.trees;
      HoldsRemove(s.compilation.value, s.trees, Paths(plan.sources));
    }
  }

  /** The plan's receipt and sources are exactly what the installed cache holds; other trees survive
      only an incremental plan. */
  ghost predicate InstalledExactly(s: Cache, s': Cache, plan: Plan, disk: map<string, Opened>) {
    && ReceiptHolds(s', plan.receipt)
    && s'.root == Some(plan.root)
    && (forall i :: 0 <= i < |plan.sources| ==>
          && plan.sources[i].path in disk && plan.sources[i].path in s'.trees
          && s'.trees[plan.sources[i].path]
             == SyntaxTree(plan.sources[i].path, SourceForParsing(disk[plan.sources[i].path].text)))
    && (forall p :: p in s'.trees && p !in Paths(plan.sources) ==>
          !plan.receipt.full && p in s.trees && s'.trees[p] == s.trees[p])
  }

  ghost predicate NothingCached(s: Cache) {
    && s.trees == map[] && s.index == map[] && s.bytes == map[]
    && s.compilation.None? && s.root.None? && s.policy.None?
  }

  lemma InstallIsExact(fe: Frontend, s: Cache, plan: Plan, disk: map<string, Opened>)
    requires DistinctSources(plan.sources) && CanInstall(s, plan, disk)
    requires ReceiptHolds(Install(fe, s, plan, disk), plan.receipt)
    ensures InstalledExactly(s, Install(fe, s, plan, disk), plan, disk)
  {
    InstalledTrees(if plan.receipt.full then map[] else s.trees, plan.sources, disk);
  }

  /** A consumed plan installs every planned source, or leaves nothing cached and nothing trusted. */
  lemma RefreshIsAllOrNothing(fe: Frontend, s: Cache, planId: Option<nat>, disk: map<string, Opened>)
    requires Inv(fe, s) && Consumes(s, planId)
    ensures var (s', outcome) := RefreshStep(fe, s, planId, disk);
            && s'.pending.None?
            && (outcome == Installed ==> InstalledExactly(s, s', s.pending.value, disk))
            && (outcome != Installed ==> outcome == Failed && NothingCached(s'))
  {
    var plan := s.pending.value;
    if CanInstall(s, plan, disk) {
      assert ReceiptHolds(Install(fe, s, plan, disk), plan.receipt) by {
        if plan.receipt.full {
          FullInstallKeeps(fe, s, plan, disk);
        } else {
          PatchInstallKeeps(fe, s, plan, disk);
        }
      }
      InstallIsExact(fe, s, plan, disk);
    }
  }

  lemma InstalledTrees(before: map<string, SyntaxTree>, sources: seq<Source>, disk: map<string, Opened>)
    requires ReadsMatch(sources, disk) && DistinctSources(sources)
    ensures var added := Refreshed(sources, disk);
            var trees := PutTrees(before, added);
            && (forall i :: 0 <= i < |sources| ==>
                  sources[i].path in trees && trees[sources[i].path] == added[i])
            && (forall p :: p in trees && p !in Paths(sources) ==> p in before && trees[p] == before[p])
  {
    var added := Refreshed(sources, disk);
    RefreshedPaths(sources, disk);
    forall i | 0 <= i < |sources|
      ensures sources[i].path in PutTrees(before, added) && PutTrees(before, added)[sources[i].path] == added[i]
    {
      LastInMember(added, sources[i].path);
      PutTreesLookup(before, added, sources[i].path);
      assert added[i] in added && added[i].path == sources[i].path;
    }
    forall p | p in PutTrees(before, added) && p !in Paths(sources)
      ensures p in before && PutTrees(before, added)[p] == before[p]
    {
      PutTreesLookup(before, added, p);
    }
  }

  // ---- The other commands ----

  lemma InvalidateKeeps(fe: Frontend, s: Cache, paths: seq<string>)
    requires Inv(fe, s)
    ensures Inv(fe, InvalidateStep(s, paths).0)
  {
    if s.epoch < MAX_ULONG && s.compilation.Some? {
      var stale := StalePaths(s.trees, paths);
      StalePathsCached(s.trees, paths);
      RemovePathsNoEmpty(s.index, stale);
      if s.policy.Some? {
        HoldsRemove(s.compilation.value, s.trees, stale);
        SumWithout(s.bytes, stale);
        var s' := InvalidateStep(s, paths).0;
        assert s'.bytes.Keys == s.bytes.Keys - PathSet(stale) && s'.trees.Keys == s.trees.Keys - PathSet(stale);
        SubsetSize(s'.trees.Keys, s.trees.Keys);
      }
    }
  }

  lemma IndexOnly(fe: Frontend, s: Cache, index: Index)
    requires Inv(fe, s) && NoEmptyBuckets(index)
    ensures Inv(fe, s.(index := index))
  {
    var s' := s.(index := index);
    assert s.policy.Some? ==> Trusted(fe, s');
    assert s.pending.Some? ==> PlanFits(fe, s', s.pending.value);
  }

  lemma ExtractKeeps(fe: Frontend, s: Cache, path: string, source: string)
    requires Inv(fe, s)
    ensures Inv(fe, ExtractStep(fe, s, path, source))
  {
    var properties := Properties(fe, SyntaxTree(path, SourceForParsing(source)));
    RemoveBuckets(s.index, path);
    AddAllBuckets(map[], properties);
    AddAllBuckets(RemovePath(s.index, path), properties);
    IndexOnly(fe, s, AddAll(map[], properties));
    IndexOnly(fe, s, AddAll(RemovePath(s.index, path), properties));
  }

  lemma BeginKeeps(fe: Frontend, s: Cache, root: Option<string>, inputs: seq<Input>)
    requires Inv(fe, s)
    ensures Inv(fe, BeginStep(fe, s, root, inputs))
  {
    PutTreesKeys(map[], ReadableTrees(inputs));
    AddTreesNoEmpty(fe, map[], ReadableTrees(inputs));
  }

  lemma StepKeeps(fe: Frontend, s: Cache, c: Command)
    requires fe.Sound() && Inv(fe, s)
    ensures Inv(fe, Step(fe, s, c))
  {
    match c
    case Begin(root, inputs) => BeginKeeps(fe, s, root, inputs);
    case PlanRefresh(request) => PlanKeeps(fe, s, request);
    case Refresh(planId, disk) =>
      if Consumes(s, planId) && CanInstall(s, s.pending.value, disk) {
        if s.pending.value.receipt.full {
          FullInstallKeeps(fe, s, s.pending.value, disk);
        } else {
          PatchInstallKeeps(fe, s, s.pending.value, disk);
        }
      }
    case Invalidate(paths) => InvalidateKeeps(fe, s, paths);
    case Parse(projectRoot, path, source, standalone) => ExtractKeeps(fe, s, path, source);
  }

  /** The admission ledger and the plan's exactness hold after every run of commands. */
  lemma {:induction false} EveryRunKeeps(fe: Frontend, commands: seq<Command>)
    requires fe.Sound()
    ensures Inv(fe, Run(fe, commands))
  {
    if commands != [] {
      EveryRunKeeps(fe, commands[..|commands| - 1]);
      StepKeeps(fe, Run(fe, commands[..|commands| - 1]), commands[|commands| - 1]);
    }
  }

  // ---- Incremental index against full rebuild ----

  ghost predicate IndexAgrees(fe: Frontend, s: Cache) {
    s.policy.Some? ==> Agrees(fe, s.index, s.trees)
  }

  /** Parses that name their project and spell the path canonically, and everything else. */
  predicate Guarded(fe: Frontend, c: Command) {
    c.Parse? ==> c.standalone || (c.projectRoot.Some? && fe.fullPath(c.path) == c.path)
  }

  lemma RefreshAgrees(fe: Frontend, s: Cache, planId: Option<nat>, disk: map<string, Opened>)
    requires Inv(fe, s) && IndexAgrees(fe, s)
    ensures IndexAgrees(fe, RefreshStep(fe, s, planId, disk).0)
  {
    hide Install, Trusted, Agrees;
    if Consumes(s, planId) && CanInstall(s, s.pending.value, disk) {
      if s.pending.value.receipt.full {
        FullInstallKeeps(fe, s, s.pending.value, disk);
      } else {
        PatchInstallAgrees(fe, s, s.pending.value, disk);
      }
    }
  }

  lemma StepAgrees(fe: Frontend, s: Cache, c: Command)
    requires fe.Sound() && Inv(fe, s) && IndexAgrees(fe, s) && Guarded(fe, c)
    ensures IndexAgrees(fe, Step(fe, s, c))
  {
    hide InstallFull, InstallPatch, AddTrees, RemovePaths;
    match c
    case Begin(_, _) =>
    case PlanRefresh(_) =>
    case Refresh(planId, disk) => RefreshAgrees(fe, s, planId, disk);
    case Invalidate(paths) =>
      if s.policy.Some? && s.epoch < MAX_ULONG {
        RemovePathsAgrees(fe, s.index, s.trees, StalePaths(s.trees, paths));
      }
    case Parse(_, _, _, _) =>
  }

  /** A begin, and a refresh that consumes a full plan or fails, leave nothing of the index before. */
  predicate Resets(s: Cache, c: Command) {
    || (c.Begin? && s.epoch < MAX_ULONG)
    || (c.Refresh? && Consumes(s, c.planId)
        && (s.pending.value.receipt.full || !CanInstall(s, s.pending.value, c.disk)))
  }

  lemma ResetAgrees(fe: Frontend, s: Cache, c: Command)
    requires fe.Sound() && Inv(fe, s) && Resets(s, c)
    ensures IndexAgrees(fe, Step(fe, s, c))
  {
    if c.Refresh? && CanInstall(s, s.pending.value, c.disk) {
      FullInstallKeeps(fe, s, s.pending.value, c.disk);
    }
  }

  /** Since the start, or since a reset, every parse is guarded. */
  ghost predicate GuardedSince(fe: Frontend, commands: seq<Command>, k: nat) {
    && k <= |commands|
    && (k > 0 ==> Resets(Run(fe, commands[..k - 1]), commands[k - 1]))
    && forall i :: k <= i < |commands| ==> Guarded(fe, commands[i])
  }

  /** After any run that was guarded since the last reset, a trusted cache's index is, name by name and
      as a multiset, the index rebuilt from its trees in whatever order they are listed. */
  lemma {:induction false} GuardedRunsAgree(fe: Frontend, commands: seq<Command>, k: nat)
    requires fe.Sound() && GuardedSince(fe, commands, k)
    ensures IndexAgrees(fe, Run(fe, commands))
    decreases |commands|
  {
    hide Step, Inv, Guarded, Resets;
    if commands != [] {
      var n := |commands| - 1;
      var init := commands[..n];
      EveryRunKeeps(fe, init);
      if k == |commands| {
        ResetAgrees(fe, Run(fe, init), commands[n]);
      } else {
        assert k > 0 ==> init[..k - 1] == commands[..k - 1];
        GuardedRunsAgree(fe, init, k);
        StepAgrees(fe, Run(fe, init), commands[n]);
      }
    }
  }

  lemma IncrementalEqualsRebuild(fe: Frontend, commands: seq<Command>, k: nat, order: seq<SyntaxTree>)
    requires fe.Sound() && GuardedSince(fe, commands, k)
    requires Run(fe, commands).policy.Some?
    requires DistinctPaths(order) && PutTrees(map[], order) == Run(fe, commands).trees
    ensures var s, rebuilt := Run(fe, commands), AddTrees(fe, map[], order);
            && s.index.Keys == rebuilt.Keys
            && NoEmptyBuckets(s.index)
            && forall name :: name in s.index ==> multiset(s.index[name]) == multiset(rebuilt[name])
  {
    hide Run, AddTrees;
    GuardedRunsAgree(fe, commands, k);
    RebuiltIndexAgrees(fe, order);
    AgreeingIndexesEqual(fe, Run(fe, commands).index, AddTrees(fe, map[], order), Run(fe, commands).trees);
  }

  // ---- What an unguarded extraction does to agreement ----

  /** Extraction keeps agreement exactly when the cached tree is reused, or the new text declares
      the same properties as the cached tree of that path (none, if there is no such tree). */
  lemma ExtractAgreesExactly(fe: Frontend, s: Cache, path: string, source: string)
    requires Inv(fe, s) && s.policy.Some? && Agrees(fe, s.index, s.trees)
    ensures var tree := SyntaxTree(path, SourceForParsing(source));
            IndexAgrees(fe, ExtractStep(fe, s, path, source)) <==>
              || (path in s.trees && s.trees[path].text == tree.text)
              || forall name :: Named(Properties(fe, tree), name) == Expected(fe, s.trees, path, name)
  {
    hide RemovePath, Properties, OfPath, Without, Named;
    var tree := SyntaxTree(path, SourceForParsing(source));
    if !(path in s.trees && s.trees[path].text == tree.text) {
      var removed := RemovePath(s.index, path);
      var index := AddTree(fe, removed, tree);
      RemoveBuckets(s.index, path);
      forall name, p
        ensures OfPath(Bucket(index, name), p)
                == if p == path then Named(Properties(fe, tree), name) else Expected(fe, s.trees, p, name)
      {
        AddTreeEffect(fe, removed, tree, name, p);
        OfPathWithout(Bucket(s.index, name), path, p);
        assert OfPath(Bucket(s.index, name), p) == Expected(fe, s.trees, p, name);
      }
      AddAllBuckets(removed, Properties(fe, tree));
      if Agrees(fe, index, s.trees) {
        forall name
          ensures Named(Properties(fe, tree), name) == Expected(fe, s.trees, path, name)
        {
          assert OfPath(Bucket(index, name), path) == Expected(fe, s.trees, path, name);
        }
      }
    }
  }

  lemma {:induction false} NamedNothing(ds: seq<Declared>)
    ensures (forall name :: Named(ds, name) == []) <==> ds == []
  {
    if ds != [] {
      assert Named(ds, ds[|ds| - 1].name) != [];
    }
  }

  /** The guard compares the canonical path, the extraction uses the path as given: a guarded parse
      keeps agreement exactly when the path is canonical or the text declares no property. */
  lemma GuardedParseAgreesExactly(fe: Frontend, s: Cache, root: string, path: string, source: string)
    requires fe.Sound() && Inv(fe, s) && s.policy.Some? && Agrees(fe, s.index, s.trees)
    requires s.root == Some(root) && IsPreparedSource(fe, s, path, source)
    ensures IndexAgrees(fe, Step(fe, s, Parse(Some(root), path, source, false))) <==>
              || fe.fullPath(path) == path
              || Properties(fe, SyntaxTree(path, SourceForParsing(source))) == []
  {
    hide ExtractStep, IndexAgrees, Agrees, Properties;
    var tree := SyntaxTree(path, SourceForParsing(source));
    ExtractAgreesExactly(fe, s, path, source);
    if fe.fullPath(path) != path {
      assert path !in s.trees;
      NamedNothing(Properties(fe, tree));
      assert forall name :: Expected(fe, s.trees, path, name) == [];
    }
  }

  // One file "a.vb" whose text "P" declares one property; "./a.vb" is another spelling of its path.

  function SampleFrontend(): Frontend {
    Frontend(text => if text == "P" then Namespace("N", [Property("x", [])]) else Group([]), name => name,
             path => if path == "./a.vb" then "a.vb" else path, (root, path) => true)
  }

  const SAMPLE_TREE := SyntaxTree("a.vb", "P")

  function SampleCache(): Cache {
    Cache(Some(multiset{SAMPLE_TREE}), Some("r"), map["a.vb" := SAMPLE_TREE],
          AddTrees(SampleFrontend(), map[], [SAMPLE_TREE]), map["a.vb" := 1],
          Some(Policy(1, 1, 1, 32, 8192)), None, 1, 1)
  }

  lemma SampleAgrees()
    ensures Agrees(SampleFrontend(), SampleCache().index, SampleCache().trees)
  {
    RebuiltIndexAgrees(SampleFrontend(), [SAMPLE_TREE]);
    assert [SAMPLE_TREE][..0] == [];
    assert PutTrees(map[], [SAMPLE_TREE]) == map["a.vb" := SAMPLE_TREE];
  }

  lemma SampleSum()
    ensures Sum(SampleCache().bytes) == 1
  {
    var none: map<string, nat> := map[];
    SumUpdate(none, "a.vb", 1);
    assert none - {"a.vb"} == none && none["a.vb" := 1] == SampleCache().bytes;
  }

  lemma SampleTrusted()
    ensures Trusted(SampleFrontend(), SampleCache())
  {
    hide AddTrees;
    SampleSum();
    assert Holds(multiset{SAMPLE_TREE}, SampleCache().trees);
    assert Ledger(SampleCache().bytes, SampleCache().trees, SampleCache().policy.value);
  }

  lemma SampleLedger()
    ensures Inv(SampleFrontend(), SampleCache())
  {
    hide AddTrees, Trusted;
    SampleTrusted();
    assert NoEmptyBuckets(SampleCache().index) by {
      SampleAgrees();
    }
  }

  lemma DifferentTextDisagrees(fe: Frontend, s: Cache, path: string, source: string, name: string)
    requires Inv(fe, s) && s.policy.Some? && Agrees(fe, s.index, s.trees)
    requires path in s.trees ==> s.trees[path].text != SourceForParsing(source)
    requires Named(Properties(fe, SyntaxTree(path, SourceForParsing(source))), name)
             != Expected(fe, s.trees, path, name)
    ensures !IndexAgrees(fe, Step(fe, s, Parse(None, path, source, false)))
  {
    hide ExtractStep, IndexAgrees, Agrees, Properties, Named, Inv;
    ExtractAgreesExactly(fe, s, path, source);
  }

  /** The sample is a trusted cache that agrees. */
  lemma SampleStands()
    ensures SampleFrontend().Sound() && Inv(SampleFrontend(), SampleCache()) && SampleCache().policy.Some?
    ensures Agrees(SampleFrontend(), SampleCache().index, SampleCache().trees)
  {
    SampleAgrees();
    SampleLedger();
  }

  lemma EmptiedText()
    ensures "a.vb" in SampleCache().trees && SampleCache().trees["a.vb"].text != SourceForParsing("")
    ensures Named(Properties(SampleFrontend(), SyntaxTree("a.vb", SourceForParsing(""))), "x")
            != Expected(SampleFrontend(), SampleCache().trees, "a.vb", "x")
  {
    assert SourceForParsing("") == "";
    NothingDeclared(SampleFrontend(), SyntaxTree("a.vb", ""));
    OnePropertyDeclared(SampleFrontend(), SAMPLE_TREE);
  }

  /** In that cache, a parse that names no project and brings an emptied text breaks agreement. */
  lemma LegacyParseCanBreakAgreement()
    ensures SampleFrontend().Sound() && Inv(SampleFrontend(), SampleCache())
    ensures IndexAgrees(SampleFrontend(), SampleCache())
    ensures !IndexAgrees(SampleFrontend(), Step(SampleFrontend(), SampleCache(), Parse(None, "a.vb", "", false)))
  {
    SampleStands();
    EmptiedText();
    DifferentTextDisagrees(SampleFrontend(), SampleCache(), "a.vb", "", "x");
  }

  lemma RespelledDisagrees(fe: Frontend, s: Cache, root: string, path: string, source: string)
    requires fe.Sound() && Inv(fe, s) && s.policy.Some? && Agrees(fe, s.index, s.trees)
    requires s.root == Some(root) && IsPreparedSource(fe, s, path, source) && fe.fullPath(path) != path
    requires Properties(fe, SyntaxTree(path, SourceForParsing(source))) != []
    ensures !IndexAgrees(fe, Step(fe, s, Parse(Some(root), path, source, false)))
  {
    GuardedParseAgreesExactly(fe, s, root, path, source);
  }

  lemma RespelledText()
    ensures IsPreparedSource(SampleFrontend(), SampleCache(), "./a.vb", "P") && SampleCache().root == Some("r")
    ensures SampleFrontend().fullPath("./a.vb") != "./a.vb"
    ensures Properties(SampleFrontend(), SyntaxTree("./a.vb", SourceForParsing("P"))) != []
  {
    assert SourceForParsing("P") == "P";
    OnePropertyDeclared(SampleFrontend(), SyntaxTree("./a.vb", "P"));
  }

  /** So does a guarded parse of the prepared text under another spelling of the path. */
  lemma RespelledParseCanBreakAgreement()
    ensures IsPreparedSource(SampleFrontend(), SampleCache(), "./a.vb", "P") && SampleCache().root == Some("r")
    ensures IndexAgrees(SampleFrontend(), SampleCache())
    ensures !IndexAgrees(SampleFrontend(),
                         Step(SampleFrontend(), SampleCache(), Parse(Some("r"), "./a.vb", "P", false)))
  {
    SampleStands();
    RespelledText();
    RespelledDisagrees(SampleFrontend(), SampleCache(), "r", "./a.vb", "P");
  }

  lemma OnePropertyDeclared(fe: Frontend, tree: SyntaxTree)
    requires fe.parse(tree.text) == Namespace("N", [Property("x", [])]) && fe.fold("x") == "x"
    ensures Properties(fe, tree) != [] && Named(Properties(fe, tree), "x") != []
  {
    var node := PropertyNode("x", [InNamespace("N")]);
    assert [] + [InNamespace("N")] == [InNamespace("N")];
    assert PropertyNodesAll([Property("x", [])], [InNamespace("N")]) == [node] by {
      assert [Property("x", [])][1..] == [];
    }
    assert PropertyNodes(fe.parse(tree.text), []) == [node];
    assert [InNamespace("N")][..0] == [];
    assert NamespaceNames([InNamespace("N")]) == ["N"];
    assert Indexed(node);
    assert [node][..0] == [];
    assert DeclaredBy(fe, [node], tree.path) == [DeclaredOne(fe, node, tree.path)];
  }

  lemma NothingDeclared(fe: Frontend, tree: SyntaxTree)
    requires fe.parse(tree.text) == Group([])
    ensures Properties(fe, tree) == []
  {
    assert PropertyNodes(Group([]), []) == PropertyNodesAll([], [InGroup]);
  }

  // ---- Each cached tree is the last text installed for its path ----

  /** What one command does to the trees, read off its arguments and outcome. */
  datatype Event =
    | Reset(trees: seq<SyntaxTree>)
    | Patch(added: seq<SyntaxTree>)
    | Drop(paths: set<string>)
    | Quiet

  ghost function EventOf(fe: Frontend, s: Cache, c: Command): Event {
    match c
    case Begin(root, inputs) =>
      if s.epoch >= MAX_ULONG then Quiet else if root.None? then Reset([]) else Reset(ReadableTrees(inputs))
    case Refresh(planId, disk) =>
      if !Consumes(s, planId) then Quiet
      else if !CanInstall(s, s.pending.value, disk) then Reset([])
      else if s.pending.value.receipt.full then Reset(Refreshed(s.pending.value.sources, disk))
      else Patch(Refreshed(s.pending.value.sources, disk))
    case Invalidate(paths) =>
      if s.epoch >= MAX_ULONG || s.compilation.None? then Quiet
      else Drop(set p | p in paths && !Blank(p))
    case _ => Quiet
  }

  ghost function Events(fe: Frontend, commands: seq<Command>): seq<Event> {
    if commands == [] then []
    else
      var init := commands[..|commands| - 1];
      Events(fe, init) + [EventOf(fe, Run(fe, init), commands[|commands| - 1])]
  }

  /** Scans the history backwards for the last event that decides a path. */
  function LastInstalled(events: seq<Event>, path: string): Option<SyntaxTree> {
    if events == [] then None
    else
      Decided(events[|events| - 1], path, LastInstalled(events[..|events| - 1], path))
  }

  function Decided(e: Event, path: string, earlier: Option<SyntaxTree>): Option<SyntaxTree> {
    match e
    case Reset(trees) => LastIn(trees, path)
    case Patch(added) => if LastIn(added, path).Some? then LastIn(added, path) else earlier
    case Drop(paths) => if path in paths then None else earlier
    case Quiet => earlier
  }

  function Lookup(trees: map<string, SyntaxTree>, path: string): Option<SyntaxTree> {
    if path in trees then Some(trees[path]) else None
  }

  lemma {:induction false} StalePathsExact(trees: map<string, SyntaxTree>, paths: seq<string>)
    ensures forall p :: p in StalePaths(trees, paths) <==> p in trees && p in paths && !Blank(p)
  {
    if paths != [] {
      var init, last := paths[..|paths| - 1], paths[|paths| - 1];
      StalePathsExact(trees, init);
      assert paths == init + [last];
    }
  }

  lemma {:induction false} CachedTreesAreLastInstalled(fe: Frontend, commands: seq<Command>, path: string)
    ensures LastInstalled(Events(fe, commands), path) == Lookup(Run(fe, commands).trees, path)
  {
    if commands != [] {
      var init, c := commands[..|commands| - 1], commands[|commands| - 1];
      CachedTreesAreLastInstalled(fe, init, path);
      var s := Run(fe, init);
      var events := Events(fe, commands);
      assert events[..|events| - 1] == Events(fe, init) && events[|events| - 1] == EventOf(fe, s, c);
      TreeEffect(fe, s, c, path);
    }
  }

  lemma TreeEffect(fe: Frontend, s: Cache, c: Command, path: string)
    ensures Lookup(Step(fe, s, c).trees, path) == Decided(EventOf(fe, s, c), path, Lookup(s.trees, path))
  {
    hide AddTrees, RemovePaths, PlanOutcome, PutTrees;
    match c
    case Begin(root, inputs) => PutTreesLookup(map[], ReadableTrees(inputs), path);
    case Refresh(planId, disk) =>
      if Consumes(s, planId) && CanInstall(s, s.pending.value, disk) {
        var added := Refreshed(s.pending.value.sources, disk);
        PutTreesLookup(map[], added, path);
        PutTreesLookup(s.trees, added, path);
      }
    case Invalidate(paths) => StalePathsExact(s.trees, paths);
    case _ =>
  }

  // ---- The plan protocol over whole runs ----

  /** The plan can never be consumed again: its number is used up and it is not pending. */
  ghost predicate Retired(s: Cache, id: nat) {
    id <= s.nextPlan && (s.pending.Some? ==> s.pending.value.receipt.id != id)
  }

  lemma PlanNumber(fe: Frontend, s: Cache, r: PlanRequest)
    requires PlanOutcome(fe, s, r).Success?
    ensures PlanOutcome(fe, s, r).value.receipt.id == s.nextPlan + 1
    ensures PlanOutcome(fe, s, r).value.epoch == s.epoch
  {
  }

  lemma StepNumbers(fe: Frontend, s: Cache, c: Command, id: nat)
    ensures s.nextPlan <= Step(fe, s, c).nextPlan
    ensures Retired(s, id) ==> Retired(Step(fe, s, c), id)
  {
    if c.PlanRefresh? && PlanOutcome(fe, s, c.request).Success? {
      PlanNumber(fe, s, c.request);
    }
  }

  /** The state that the i-th command sees. */
  ghost function Before(fe: Frontend, commands: seq<Command>, i: nat): Cache
    requires i <= |commands|
  {
    Run(fe, commands[..i])
  }

  lemma RunStep(fe: Frontend, commands: seq<Command>, i: nat)
    requires i < |commands|
    ensures Before(fe, commands, i + 1) == Step(fe, Before(fe, commands, i), commands[i])
  {
    assert commands[..i + 1][..i] == commands[..i];
  }

  lemma {:induction false} RunNumbers(fe: Frontend, commands: seq<Command>, i: nat, j: nat, id: nat)
    requires i <= j <= |commands|
    ensures Before(fe, commands, i).nextPlan <= Before(fe, commands, j).nextPlan
    ensures Retired(Before(fe, commands, i), id) ==> Retired(Before(fe, commands, j), id)
    decreases j - i
  {
    hide Run, Step;
    if i < j {
      RunNumbers(fe, commands, i, j - 1, id);
      RunStep(fe, commands, j - 1);
      StepNumbers(fe, Before(fe, commands, j - 1), commands[j - 1], id);
    }
  }

  /** The i-th command issues a plan with this number. */
  ghost predicate IssuedAt(fe: Frontend, commands: seq<Command>, i: nat, id: nat)
    requires i < |commands|
  {
    && commands[i].PlanRefresh?
    && PlanOutcome(fe, Before(fe, commands, i), commands[i].request).Success?
    && PlanOutcome(fe, Before(fe, commands, i), commands[i].request).value.receipt.id == id
  }

  /** The i-th command consumes the plan with this number. */
  ghost predicate ConsumedAt(fe: Frontend, commands: seq<Command>, i: nat, id: nat)
    requires i < |commands|
  {
    commands[i].Refresh? && commands[i].planId == Some(id) && Consumes(Before(fe, commands, i), Some(id))
  }

  /** Begin, invalidate, and every plan attempt that carries a policy. */
  predicate Revokes(c: Command) {
    c.Begin? || c.Invalidate? || (c.PlanRefresh? && c.request.policy.Some?)
  }

  lemma IssueNumbers(fe: Frontend, commands: seq<Command>, i: nat, id: nat)
    requires i < |commands| && IssuedAt(fe, commands, i, id)
    ensures Before(fe, commands, i).nextPlan < id && id == Before(fe, commands, i + 1).nextPlan
  {
    hide Run, PlanOutcome;
    RunStep(fe, commands, i);
    PlanNumber(fe, Before(fe, commands, i), commands[i].request);
  }

  /** In every run, later plans have larger numbers. */
  lemma PlanIdsIncrease(fe: Frontend, commands: seq<Command>, i: nat, j: nat, id: nat, id': nat)
    requires i < j < |commands|
    requires IssuedAt(fe, commands, i, id) && IssuedAt(fe, commands, j, id')
    ensures id < id'
  {
    hide Run, IssuedAt;
    IssueNumbers(fe, commands, i, id);
    RunNumbers(fe, commands, i + 1, j, id);
    IssueNumbers(fe, commands, j, id');
  }

  lemma RetiredAfter(fe: Frontend, s: Cache, c: Command, id: nat)
    requires id <= s.nextPlan
    requires Revokes(c) || (c.Refresh? && c.planId == Some(id) && Consumes(s, Some(id)))
    ensures Retired(Step(fe, s, c), id)
  {
    hide Measure, AddTrees, RemovePaths;
    if c.PlanRefresh? && PlanOutcome(fe, s, c.request).Success? {
      PlanNumber(fe, s, c.request);
    }
  }

  /** In every run, a plan is consumed at most once, and never after a later revocation. */
  lemma PlansAreSingleUse(fe: Frontend, commands: seq<Command>, i: nat, j: nat, k: nat, id: nat)
    requires i < j < k < |commands|
    requires IssuedAt(fe, commands, i, id)
    requires ConsumedAt(fe, commands, j, id) || Revokes(commands[j])
    ensures !ConsumedAt(fe, commands, k, id)
  {
    hide Run, IssuedAt, Revokes, Step;
    IssueNumbers(fe, commands, i, id);
    RunNumbers(fe, commands, i + 1, j, id);
    RunStep(fe, commands, j);
    RetiredAfter(fe, Before(fe, commands, j), commands[j], id);
    RunNumbers(fe, commands, j + 1, k, id);
  }
}
