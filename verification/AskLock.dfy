/** The cross-process lock of eval/ask_eval.py: acquire, the critical section and the release in
    main, as a state machine over every interleaving of any number of processes. Time is in seconds
    of one clock that never runs backwards, shared by time.time() and the file system. */
module AskLock {

  import opened Wrappers

  const TIMEOUT := 420
  const STALE := 600

  /** Where a process is. `deadline` is acquire's; `clock` is the time.time() of its staleness test. */
  datatype Place =
    | Idle
    | Trying(deadline: nat)
    | Refused(deadline: nat)
    | Compared(deadline: nat, clock: nat)
    | Breaking(deadline: nat)
    | Waiting(deadline: nat)
    | Sleeping(deadline: nat)
    | Opened
    | Holding
    | Finished
    | TimedOut
    | Dead

  /** The lock file: which process created it, and its modification time. */
  datatype Lock = Lock(owner: nat, mtime: nat)

  datatype State = State(now: nat, file: Option<Lock>, places: seq<Place>)

  datatype Action =
    | Tick(seconds: nat)
    | Begin(p: nat)        // acquire computes its deadline
    | Open(p: nat)         // os.open with O_CREAT | O_EXCL
    | Write(p: nat)        // os.write of the process id, os.close
    | ReadClock(p: nat)    // time.time(), evaluated before the modification time
    | Compare(p: nat)      // os.path.getmtime and the comparison
    | Break(p: nat)        // os.unlink of a stale lock
    | Check(p: nat)        // time.time() > deadline
    | Wake(p: nat)         // time.sleep returns
    | Release(p: nat)      // os.unlink in main
    | Crash(p: nat)        // the process dies, its file stays

  predicate Enabled(s: State, a: Action) {
    match a
    case Tick(_) => true
    case Begin(p) => p < |s.places| && s.places[p].Idle?
    case Open(p) => p < |s.places| && s.places[p].Trying?
    case Write(p) => p < |s.places| && s.places[p].Opened?
    case ReadClock(p) => p < |s.places| && s.places[p].Refused?
    case Compare(p) => p < |s.places| && s.places[p].Compared?
    case Break(p) => p < |s.places| && s.places[p].Breaking?
    case Check(p) => p < |s.places| && s.places[p].Waiting?
    case Wake(p) => p < |s.places| && s.places[p].Sleeping?
    case Release(p) => p < |s.places| && s.places[p].Holding?
    case Crash(p) => p < |s.places|
  }

  function Move(s: State, p: nat, place: Place): State
    requires p < |s.places|
  {
    s.(places := s.places[p := place])
  }

  function Next(s: State, a: Action): State
    requires Enabled(s, a)
  {
    match a
    case Tick(seconds) => s.(now := s.now + seconds)
    case Begin(p) => Move(s, p, Trying(s.now + TIMEOUT))
    case Open(p) =>
      if s.file.None? then Move(s.(file := Some(Lock(p, s.now))), p, Opened)
      else Move(s, p, Refused(s.places[p].deadline))
    case Write(p) =>
      // A file that was unlinked meanwhile is written unseen.
      Move(if s.file.Some? && s.file.value.owner == p then s.(file := Some(Lock(p, s.now))) else s, p, Holding)
    case ReadClock(p) => Move(s, p, Compared(s.places[p].deadline, s.now))
    case Compare(p) =>
      // The clock was read first; getmtime of a missing file is an OSError.
      if s.file.Some? && s.places[p].clock - s.file.value.mtime > STALE then Move(s, p, Breaking(s.places[p].deadline))
      else Move(s, p, Waiting(s.places[p].deadline))
    case Break(p) =>
      if s.file.Some? then Move(s.(file := None), p, Trying(s.places[p].deadline))
      else Move(s, p, Waiting(s.places[p].deadline))
    case Check(p) =>
      if s.now > s.places[p].deadline then Move(s, p, TimedOut) else Move(s, p, Sleeping(s.places[p].deadline))
    case Wake(p) => Move(s, p, Trying(s.places[p].deadline))
    case Release(p) => Move(s.(file := None), p, Finished)
    case Crash(p) => Move(s, p, Dead)
  }

  ghost predicate Runs(s: State, actions: seq<Action>)
    decreases actions
  {
    actions == [] || (Enabled(s, actions[0]) && Runs(Next(s, actions[0]), actions[1..]))
  }

  /** The state after the first k actions. */
  ghost function After(s: State, actions: seq<Action>, k: nat): State
    requires k <= |actions| && Runs(s, actions)
    decreases k
  {
    if k == 0 then s else After(Next(s, actions[0]), actions[1..], k - 1)
  }

  predicate Initial(s: State) {
    s.file.None? && forall p :: 0 <= p < |s.places| ==> s.places[p].Idle?
  }

  // ---- Safety while the lock file stays young ----

  /** Between a successful open and the release. */
  predicate Critical(place: Place) {
    place.Opened? || place.Holding?
  }

  predicate Exclusive(s: State) {
    forall p, q :: 0 <= p < q < |s.places| ==> !(Critical(s.places[p]) && Critical(s.places[q]))
  }

  /** No lock file is older than the staleness limit. */
  predicate Young(s: State) {
    s.file.Some? ==> s.now - s.file.value.mtime <= 600
  }

  /** The lock file belongs to the one critical process, or to one that died; nobody breaks it. */
  predicate Owned(s: State) {
    && (s.file.Some? ==>
          && s.file.value.owner < |s.places| && s.file.value.mtime <= s.now
          && (Critical(s.places[s.file.value.owner]) || s.places[s.file.value.owner].Dead?))
    && (forall p :: 0 <= p < |s.places| && Critical(s.places[p]) ==> s.file.Some? && s.file.value.owner == p)
    && (forall p :: 0 <= p < |s.places| ==> !s.places[p].Breaking?)
    && (forall p :: 0 <= p < |s.places| && s.places[p].Compared? ==> s.places[p].clock <= s.now)
  }

  lemma OwnedIsExclusive(s: State)
    requires Owned(s)
    ensures Exclusive(s)
  {
  }

  /** A process outside the critical section moves to another place outside it. */
  lemma OwnedMove(s: State, p: nat, place: Place)
    requires Owned(s) && p < |s.places| && !Critical(s.places[p]) && !s.places[p].Dead?
    requires !Critical(place) && !place.Breaking? && (place.Compared? ==> place.clock <= s.now)
    ensures Owned(Move(s, p, place))
  {
  }

  lemma OwnedStep(s: State, a: Action)
    requires Owned(s) && Young(s) && Enabled(s, a)
    ensures Owned(Next(s, a))
  {
    match a
    case Begin(p) => OwnedMove(s, p, Trying(s.now + TIMEOUT));
    case Open(p) =>
      if s.file.Some? {
        OwnedMove(s, p, Refused(s.places[p].deadline));
      }
    case ReadClock(p) => OwnedMove(s, p, Compared(s.places[p].deadline, s.now));
    case Compare(p) => OwnedMove(s, p, Waiting(s.places[p].deadline));
    case Check(p) => OwnedMove(s, p, if s.now > s.places[p].deadline then TimedOut else Sleeping(s.places[p].deadline));
    case Wake(p) => OwnedMove(s, p, Trying(s.places[p].deadline));
    case _ =>
  }

  /** Only the holder's own release removes the lock file. */
  predicate RemovedByHolder(s: State, a: Action)
    requires Enabled(s, a)
  {
    s.file.Some? && Next(s, a).file.None? ==> a == Release(s.file.value.owner)
  }

  lemma OwnedRemoval(s: State, a: Action)
    requires Owned(s) && Enabled(s, a)
    ensures RemovedByHolder(s, a)
  {
  }

  lemma {:induction false} RunsFrom(s: State, actions: seq<Action>, k: nat)
    requires Runs(s, actions) && k < |actions|
    ensures Enabled(After(s, actions, k), actions[k])
    ensures After(s, actions, k + 1) == Next(After(s, actions, k), actions[k])
    decreases k
  {
    if k > 0 {
      RunsFrom(Next(s, actions[0]), actions[1..], k - 1);
    }
  }

  lemma {:induction false} OwnedAlong(s: State, actions: seq<Action>, k: nat)
    requires Runs(s, actions) && k <= |actions| && Owned(s)
    requires forall j :: 0 <= j < k ==> Young(After(s, actions, j))
    ensures Owned(After(s, actions, k))
  {
    if k > 0 {
      OwnedAlong(s, actions, k - 1);
      RunsFrom(s, actions, k - 1);
      OwnedStep(After(s, actions, k - 1), actions[k - 1]);
    }
  }

  /** In every run in which the lock file never gets older than 600 seconds, at most one process is
      critical and only the holder's release removes the file. */
  lemma LockIsSafe(s: State, actions: seq<Action>, k: nat)
    requires Initial(s) && Runs(s, actions) && k <= |actions|
    requires forall j :: 0 <= j < k ==> Young(After(s, actions, j))
    ensures Exclusive(After(s, actions, k))
    ensures k < |actions| ==>
              Enabled(After(s, actions, k), actions[k]) && RemovedByHolder(After(s, actions, k), actions[k])
  {
    OwnedAlong(s, actions, k);
    OwnedIsExclusive(After(s, actions, k));
    if k < |actions| {
      RunsFrom(s, actions, k);
      OwnedRemoval(After(s, actions, k), actions[k]);
    }
  }

  // ---- What a process decides, and when ----

  /** A process that has not opened the file yet carries its deadline. */
  predicate Waits(place: Place) {
    || place.Trying? || place.Refused? || place.Compared? || place.Breaking? || place.Waiting? || place.Sleeping?
  }

  /** The process began to ask with the j-th action. */
  ghost predicate BeganAt(s: State, actions: seq<Action>, p: nat, j: nat, k: nat)
    requires Runs(s, actions) && k <= |actions|
  {
    j < k && actions[j] == Begin(p) && After(s, actions, j).now <= After(s, actions, k).now
  }

  /** The process read the clock with the j-th action. */
  ghost predicate ReadAt(s: State, actions: seq<Action>, p: nat, j: nat, k: nat)
    requires Runs(s, actions) && k <= |actions|
  {
    j < k && actions[j] == ReadClock(p) && After(s, actions, j).now <= After(s, actions, k).now
  }

  /** What a place remembers of its process. */
  ghost predicate Remembers(s: State, actions: seq<Action>, p: nat, k: nat)
    requires Runs(s, actions) && k <= |actions|
  {
    var t := After(s, actions, k);
    p < |t.places| ==>
      && (Waits(t.places[p]) ==>
            exists j: nat :: BeganAt(s, actions, p, j, k) && t.places[p].deadline == After(s, actions, j).now + 420)
      && (t.places[p].Compared? ==>
            exists j: nat :: ReadAt(s, actions, p, j, k) && t.places[p].clock == After(s, actions, j).now)
      && (t.places[p].TimedOut? ==>
            exists j: nat :: BeganAt(s, actions, p, j, k) && t.now > After(s, actions, j).now + 420)
  }

  /** Where a step leaves a process: at the same place, or at one that keeps its deadline, or newly begun. */
  lemma PlaceAfter(s: State, a: Action, p: nat)
    requires Enabled(s, a) && p < |s.places|
    ensures Next(s, a).now >= s.now && |Next(s, a).places| == |s.places|
    ensures var (before, after) := (s.places[p], Next(s, a).places[p]);
            && (Waits(after) ==> if a == Begin(p) then after.deadline == s.now + 420
                                 else Waits(before) && after.deadline == before.deadline)
            && (after.Compared? ==> if a == ReadClock(p) then after.clock == s.now else before == after)
            && (after.TimedOut? ==> before == after || (Waits(before) && s.now > before.deadline))
  {
  }

  lemma {:induction false} RemembersAlong(s: State, actions: seq<Action>, p: nat, k: nat)
    requires Initial(s) && Runs(s, actions) && k <= |actions|
    ensures |After(s, actions, k).places| == |s.places| && Remembers(s, actions, p, k)
  {
    hide Next, Enabled, Waits;
    if k > 0 {
      RemembersAlong(s, actions, p, k - 1);
      RunsFrom(s, actions, k - 1);
      var before, after := After(s, actions, k - 1), After(s, actions, k);
      if p < |s.places| {
        PlaceAfter(before, actions[k - 1], p);
        assert forall j: nat :: BeganAt(s, actions, p, j, k - 1) ==> BeganAt(s, actions, p, j, k);
        assert forall j: nat :: ReadAt(s, actions, p, j, k - 1) ==> ReadAt(s, actions, p, j, k);
        if actions[k - 1] == Begin(p) {
          assert BeganAt(s, actions, p, k - 1, k);
        }
        if actions[k - 1] == ReadClock(p) {
          assert ReadAt(s, actions, p, k - 1, k);
        }
      } else {
        SamePlaces(before, actions[k - 1]);
      }
    } else if p < |s.places| {
      assert s.places[p].Idle?;
      IdleIsFresh(s, p);
    }
  }

  lemma SamePlaces(s: State, a: Action)
    requires Enabled(s, a)
    ensures |Next(s, a).places| == |s.places|
  {
  }

  lemma IdleIsFresh(s: State, p: nat)
    requires p < |s.places| && s.places[p].Idle?
    ensures !Waits(s.places[p])
  {
  }

  /** At its check a waiting process gives up exactly if more than 420 seconds have gone by since it began
      to ask, and otherwise sleeps; nothing else makes it give up. */
  lemma CheckIsExact(s: State, actions: seq<Action>, p: nat, k: nat) returns (j: nat)
    requires Initial(s) && Runs(s, actions) && k < |actions| && actions[k] == Check(p)
    ensures BeganAt(s, actions, p, j, k) && p < |After(s, actions, k + 1).places|
    ensures After(s, actions, k).now > After(s, actions, j).now + 420 <==> After(s, actions, k + 1).places[p].TimedOut?
    ensures !After(s, actions, k + 1).places[p].TimedOut? ==> After(s, actions, k + 1).places[p].Sleeping?
  {
    RemembersAlong(s, actions, p, k);
    RunsFrom(s, actions, k);
    var t := After(s, actions, k);
    j :| BeganAt(s, actions, p, j, k) && t.places[p].deadline == After(s, actions, j).now + 420;
  }

  /** A process that gave up has waited for more than 420 seconds. */
  lemma GivenUpIsLate(s: State, actions: seq<Action>, p: nat, k: nat) returns (j: nat)
    requires Initial(s) && Runs(s, actions) && k <= |actions|
    requires p < |After(s, actions, k).places| && After(s, actions, k).places[p].TimedOut?
    ensures BeganAt(s, actions, p, j, k) && After(s, actions, k).now > After(s, actions, j).now + 420
  {
    RemembersAlong(s, actions, p, k);
    j :| BeganAt(s, actions, p, j, k) && After(s, actions, k).now > After(s, actions, j).now + 420;
  }

  /** A process sets out to break the lock exactly if, when it read the clock, the file that is there at the
      comparison had been written more than 600 seconds before. */
  lemma CompareIsExact(s: State, actions: seq<Action>, p: nat, k: nat) returns (j: nat)
    requires Initial(s) && Runs(s, actions) && k < |actions| && actions[k] == Compare(p)
    ensures ReadAt(s, actions, p, j, k) && p < |After(s, actions, k + 1).places|
    ensures var (t, after) := (After(s, actions, k), After(s, actions, k + 1));
            && t.file == after.file
            && (after.places[p].Breaking? <==>
                  t.file.Some? && After(s, actions, j).now - t.file.value.mtime > 600)
  {
    RemembersAlong(s, actions, p, k);
    RunsFrom(s, actions, k);
    var t := After(s, actions, k);
    j :| ReadAt(s, actions, p, j, k) && t.places[p].clock == After(s, actions, j).now;
  }

  // ---- Prompt holders keep the lock file young ----

  /** No process dies between a successful open and its release. */
  ghost predicate NoHolderDies(s: State, actions: seq<Action>)
    requires Runs(s, actions)
  {
    forall i, p: nat :: 0 <= i < |actions| && actions[i] == Crash(p) && p < |After(s, actions, i).places| ==>
      !Critical(After(s, actions, i).places[p])
  }

  /** The process is critical from the j-th to the k-th state. */
  ghost predicate CriticalSince(s: State, actions: seq<Action>, p: nat, j: nat, k: nat)
    requires Runs(s, actions) && k <= |actions|
  {
    forall i: nat :: j <= i <= k ==> p < |After(s, actions, i).places| && Critical(After(s, actions, i).places[p])
  }

  /** No process stays critical for more than 600 seconds. */
  ghost predicate Prompt(s: State, actions: seq<Action>)
    requires Runs(s, actions)
  {
    forall p: nat, j: nat, k: nat :: j <= k <= |actions| && CriticalSince(s, actions, p, j, k) ==>
      After(s, actions, k).now - After(s, actions, j).now <= 600
  }

  /** The file's owner is critical, without a break since a moment before the file was last written. */
  ghost predicate Held(s: State, actions: seq<Action>, k: nat)
    requires Runs(s, actions) && k <= |actions|
  {
    var t := After(s, actions, k);
    t.file.Some? ==>
      exists j: nat :: j <= k && After(s, actions, j).now <= t.file.value.mtime
                       && CriticalSince(s, actions, t.file.value.owner, j, k)
  }

  lemma HeldIsYoung(s: State, actions: seq<Action>, k: nat)
    requires Runs(s, actions) && k <= |actions| && Prompt(s, actions) && Held(s, actions, k)
    ensures Young(After(s, actions, k))
  {
    var t := After(s, actions, k);
    if t.file.Some? {
      var j: nat :| j <= k && After(s, actions, j).now <= t.file.value.mtime
                    && CriticalSince(s, actions, t.file.value.owner, j, k);
      assert t.now - After(s, actions, j).now <= 600;
    }
  }

  /** A step that keeps the file keeps its owner critical; one that makes a file makes a critical owner. */
  lemma OwnerStays(s: State, a: Action)
    requires Owned(s) && Young(s) && Enabled(s, a)
    requires s.file.Some? ==> Critical(s.places[s.file.value.owner])
    requires forall p: nat :: a == Crash(p) && p < |s.places| ==> !Critical(s.places[p])
    ensures var t := Next(s, a);
            t.file.Some? ==>
              && t.file.value.owner < |t.places| && Critical(t.places[t.file.value.owner])
              && (if s.file.Some?
                  then t.file.value.owner == s.file.value.owner && t.file.value.mtime >= s.file.value.mtime
                  else t.file.value.mtime == t.now)
  {
  }

  lemma {:induction false} HeldAlong(s: State, actions: seq<Action>, k: nat)
    requires Initial(s) && Runs(s, actions) && k <= |actions| && NoHolderDies(s, actions) && Prompt(s, actions)
    ensures Owned(After(s, actions, k)) && Held(s, actions, k) && Young(After(s, actions, k))
  {
    hide Next, Enabled, Young;
    if k > 0 {
      HeldAlong(s, actions, k - 1);
      RunsFrom(s, actions, k - 1);
      var before, after := After(s, actions, k - 1), After(s, actions, k);
      OwnedStep(before, actions[k - 1]);
      if before.file.Some? {
        var j: nat :| j <= k - 1 && After(s, actions, j).now <= before.file.value.mtime
                      && CriticalSince(s, actions, before.file.value.owner, j, k - 1);
        OwnerStays(before, actions[k - 1]);
        if after.file.Some? {
          assert CriticalSince(s, actions, after.file.value.owner, j, k);
        }
      } else {
        OwnerStays(before, actions[k - 1]);
        if after.file.Some? {
          assert CriticalSince(s, actions, after.file.value.owner, k, k);
        }
      }
    }
    HeldIsYoung(s, actions, k);
  }

  /** If no holder dies or stays for more than 600 seconds, at most one process is critical at any time
      and only the holder's release removes the file. */
  lemma PromptLockIsSafe(s: State, actions: seq<Action>, k: nat)
    requires Initial(s) && Runs(s, actions) && k <= |actions| && NoHolderDies(s, actions) && Prompt(s, actions)
    ensures Exclusive(After(s, actions, k))
    ensures k < |actions| ==>
              Enabled(After(s, actions, k), actions[k]) && RemovedByHolder(After(s, actions, k), actions[k])
  {
    forall j | 0 <= j < k ensures Young(After(s, actions, j)) {
      HeldAlong(s, actions, j);
    }
    LockIsSafe(s, actions, k);
  }

  // ---- An old lock file always admits a violation ----

  /** The state after one more action. */
  lemma RunsOne(s: State, a: Action, rest: seq<Action>)
    requires Enabled(s, a) && Runs(Next(s, a), rest)
    ensures Runs(s, [a] + rest)
    ensures After(s, [a] + rest, |rest| + 1) == After(Next(s, a), rest, |rest|)
  {
    assert ([a] + rest)[1..] == rest;
  }

  lemma {:induction false} RunsBoth(s: State, a: seq<Action>, b: seq<Action>)
    requires Runs(s, a) && Runs(After(s, a, |a|), b)
    ensures Runs(s, a + b) && After(s, a + b, |a + b|) == After(After(s, a, |a|), b, |b|)
    decreases a
  {
    if a == [] {
      assert a + b == b;
    } else {
      assert (a + b)[1..] == a[1..] + b;
      RunsBoth(Next(s, a[0]), a[1..], b);
    }
  }

  /** A process that is about to try judges the file too old and stops before the unlink. */
  lemma Judges(s: State, p: nat) returns (actions: seq<Action>)
    requires p < |s.places| && s.places[p].Trying? && s.file.Some? && !Young(s)
    ensures Runs(s, actions)
    ensures After(s, actions, |actions|) == Move(s, p, Breaking(s.places[p].deadline))
  {
    var deadline := s.places[p].deadline;
    var s1 := Move(s, p, Refused(deadline));
    var s2 := Move(s, p, Compared(deadline, s.now));
    assert Next(s, Open(p)) == s1;
    assert Next(s1, ReadClock(p)) == s2;
    assert Next(s2, Compare(p)) == Move(s, p, Breaking(deadline));
    RunsOne(s2, Compare(p), []);
    RunsOne(s1, ReadClock(p), [Compare(p)]);
    RunsOne(s, Open(p), [ReadClock(p)] + [Compare(p)]);
    actions := [Open(p)] + ([ReadClock(p)] + [Compare(p)]);
  }

  /** A process past its judgement removes whatever file is there, and creates its own. */
  lemma Breaks(s: State, p: nat) returns (actions: seq<Action>)
    requires p < |s.places| && s.places[p].Breaking? && s.file.Some?
    ensures Runs(s, actions)
    ensures After(s, actions, |actions|) == Move(s.(file := Some(Lock(p, s.now))), p, Opened)
  {
    var s1 := Move(s.(file := None), p, Trying(s.places[p].deadline));
    assert Next(s, Break(p)) == s1;
    assert Next(s1, Open(p)) == Move(s.(file := Some(Lock(p, s.now))), p, Opened);
    RunsOne(s1, Open(p), []);
    RunsOne(s, Break(p), [Open(p)]);
    actions := [Break(p)] + [Open(p)];
  }

  /** A process that is about to try takes the lock over from a file that is too old. */
  lemma TakesOver(s: State, p: nat) returns (actions: seq<Action>)
    requires p < |s.places| && s.places[p].Trying? && s.file.Some? && !Young(s)
    ensures Runs(s, actions)
    ensures After(s, actions, |actions|) == Move(s.(file := Some(Lock(p, s.now))), p, Opened)
  {
    var first := Judges(s, p);
    var second := Breaks(After(s, first, |first|), p);
    RunsBoth(s, first, second);
    actions := first + second;
  }

  /** If the holder is still critical when its file is too old, a waiting process can join it. */
  lemma OverstayedHolderIsJoined(s: State, p: nat) returns (actions: seq<Action>)
    requires Owned(s) && s.file.Some? && !Young(s) && Critical(s.places[s.file.value.owner])
    requires p < |s.places| && s.places[p].Trying?
    ensures Runs(s, actions) && !Exclusive(After(s, actions, |actions|))
  {
    actions := TakesOver(s, p);
    var q := s.file.value.owner;
    var t := After(s, actions, |actions|);
    assert Critical(t.places[p]) && Critical(t.places[q]);
  }

  /** Whoever left the file, once it is too old two waiting processes can both take it over: one
      judges it, the other replaces it, and the first removes the replacement. */
  lemma OldFileAdmitsTwo(s: State, p: nat, q: nat) returns (actions: seq<Action>)
    requires s.file.Some? && !Young(s)
    requires p < |s.places| && q < |s.places| && p != q && s.places[p].Trying? && s.places[q].Trying?
    ensures Runs(s, actions) && !Exclusive(After(s, actions, |actions|))
  {
    var first := Judges(s, p);
    var s1 := After(s, first, |first|);
    var second := TakesOver(s1, q);
    var s2 := After(s1, second, |second|);
    var third := Breaks(s2, p);
    RunsBoth(s1, second, third);
    RunsBoth(s, first, second + third);
    actions := first + (second + third);
    var t := After(s, actions, |actions|);
    assert Critical(t.places[p]) && Critical(t.places[q]);
  }

  /** Such a file is within reach: from every start with two processes, one that stays for 601 seconds
      is joined by the other. */
  lemma UnpromptHolderIsJoined(s: State) returns (actions: seq<Action>)
    requires Initial(s) && |s.places| >= 2
    ensures Runs(s, actions) && !Exclusive(After(s, actions, |actions|))
  {
    var s1 := Move(s, 0, Trying(s.now + TIMEOUT));
    var s2 := Move(s1, 1, Trying(s.now + TIMEOUT));
    var s3 := Move(s2.(file := Some(Lock(0, s.now))), 0, Opened);
    var s4 := s3.(now := s.now + STALE + 1);
    assert Next(s, Begin(0)) == s1 && Next(s1, Begin(1)) == s2;
    assert Next(s2, Open(0)) == s3 && Next(s3, Tick(STALE + 1)) == s4;
    var rest := TakesOver(s4, 1);
    var t := After(s4, rest, |rest|);
    assert Critical(t.places[0]) && Critical(t.places[1]);
    RunsOne(s3, Tick(STALE + 1), rest);
    RunsOne(s2, Open(0), [Tick(STALE + 1)] + rest);
    RunsOne(s1, Begin(1), [Open(0)] + ([Tick(STALE + 1)] + rest));
    RunsOne(s, Begin(0), [Begin(1)] + ([Open(0)] + ([Tick(STALE + 1)] + rest)));
    actions := [Begin(0)] + ([Begin(1)] + ([Open(0)] + ([Tick(STALE + 1)] + rest)));
  }
}
