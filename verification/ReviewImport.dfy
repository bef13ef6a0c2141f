/** Importing review threads: tools/import_review_decisions.py. Thread digests are a parameter. */
module ReviewImport {

  import opened Wrappers
  import opened Ascii

  datatype Provider = AzureDevOps | GitHub

  datatype Kind = Open | ClaimedFix | AcceptedException

  datatype Thread = Thread(id: string, status: string, commented: bool, content: string)

  datatype Event = Event(eventId: string, findingId: string, supersedes: Option<string>, kind: Kind)

  // ---- Threads become events ----

  function ProviderName(p: Provider): string {
    if p.AzureDevOps? then "azure_devops" else "github"
  }

  /** An Azure status, by name or by number; a resolved GitHub thread stays open. Only ASCII letters
      matter: no other character's lower case makes one of these names. */
  function KindOf(p: Provider, status: string): Kind {
    if p.GitHub? then Open
    else if Lower(status) in {"wontfix", "bydesign", "3", "5"} then AcceptedException
    else if Lower(status) in {"fixed", "2"} then ClaimedFix
    else Open
  }

  /** The status is the word, in whatever case. */
  predicate Says(status: string, word: string) {
    |status| == |word| && forall i :: 0 <= i < |status| ==> Lowers(status[i], word[i])
  }

  /** The event records the thread under the provider's name, unlinked; only Azure threads that are marked
      "won't fix" or "by design" are exceptions, and only those marked "fixed" are claimed fixes. */
  predicate Records(e: Event, p: Provider, t: Thread, digest: string -> string) {
    && e.findingId == (match p case AzureDevOps => "azure_devops:" case GitHub => "github:") + t.id
    && e.eventId == e.findingId + ":" + digest(t.content)
    && e.supersedes.None?
    && (e.kind == AcceptedException <==>
          && p.AzureDevOps?
          && (Says(t.status, "wontfix") || Says(t.status, "bydesign") || t.status == "3" || t.status == "5"))
    && (e.kind == ClaimedFix <==> p.AzureDevOps? && (Says(t.status, "fixed") || t.status == "2"))
  }

  function EventOf(p: Provider, t: Thread, digest: string -> string): Event {
    var finding := ProviderName(p) + ":" + t.id;
    Event(finding + ":" + digest(t.content), finding, None, KindOf(p, t.status))
  }

  /** None for a thread without an id; threads without comments are skipped. */
  function EventsOf(p: Provider, threads: seq<Thread>, digest: string -> string): Option<seq<Event>> {
    if threads == [] then Some([])
    else
      var last := threads[|threads| - 1];
      match EventsOf(p, threads[..|threads| - 1], digest)
      case None => None
      case Some(events) =>
        if last.id == "" then None
        else Some(if last.commented then events + [EventOf(p, last, digest)] else events)
  }

  method Normalize(p: Provider, threads: seq<Thread>, digest: string -> string) returns (r: Option<seq<Event>>)
    ensures r == EventsOf(p, threads, digest)
  {
    var events := [];
    for i := 0 to |threads|
      invariant EventsOf(p, threads[..i], digest) == Some(events)
    {
      var thread := threads[i];
      assert threads[..i + 1][..i] == threads[..i];
      if thread.id == "" {
        MissingId(p, threads, digest, i);
        return None;
      }
      if thread.commented {
        events := events + [EventOf(p, thread, digest)];
      }
    }
    assert threads[..|threads|] == threads;
    r := Some(events);
  }

  lemma {:induction false} MissingId(p: Provider, threads: seq<Thread>, digest: string -> string, i: nat)
    requires i < |threads| && threads[i].id == ""
    ensures EventsOf(p, threads, digest) == None
    decreases |threads|
  {
    if i < |threads| - 1 {
      MissingId(p, threads[..|threads| - 1], digest, i);
    }
  }

  lemma EventRecords(p: Provider, t: Thread, digest: string -> string)
    ensures Records(EventOf(p, t, digest), p, t, digest)
  {
    hide Lower, Lowers;
    forall word: string
      ensures Lower(t.status) == word <==> Says(t.status, word)
    {
      LowerIsLetterwise(t.status, word);
    }
    OneDigit(t.status, "2");
    OneDigit(t.status, "3");
    OneDigit(t.status, "5");
  }

  lemma OneDigit(status: string, digit: string)
    requires |digit| == 1 && '0' <= digit[0] <= '9'
    ensures Says(status, digit) <==> status == digit
  {
  }

  /** How many of the first i threads have comments. */
  function CommentedBefore(threads: seq<Thread>, i: nat): (n: nat)
    requires i <= |threads|
    ensures n <= i
  {
    if i == 0 then 0 else CommentedBefore(threads, i - 1) + (if threads[i - 1].commented then 1 else 0)
  }

  lemma {:induction false} CommentedPrefix(threads: seq<Thread>, i: nat, n: nat)
    requires i <= n <= |threads|
    ensures CommentedBefore(threads[..n], i) == CommentedBefore(threads, i) <= CommentedBefore(threads, n)
    decreases n + i
  {
    if i > 0 {
      CommentedPrefix(threads, i - 1, n);
    }
    if i < n {
      CommentedPrefix(threads, i, n - 1);
    }
  }

  lemma {:induction false} EventsCounted(p: Provider, threads: seq<Thread>, digest: string -> string)
    ensures EventsOf(p, threads, digest).None? <==> exists i :: 0 <= i < |threads| && threads[i].id == ""
    ensures EventsOf(p, threads, digest).Some? ==>
              |EventsOf(p, threads, digest).value| == CommentedBefore(threads, |threads|)
    decreases |threads|
  {
    if threads != [] {
      hide EventOf;
      var n := |threads| - 1;
      EventsCounted(p, threads[..n], digest);
      CommentedPrefix(threads, n, n);
      assert forall i :: 0 <= i < n ==> threads[i] == threads[..n][i];
    }
  }

  lemma {:induction false} EventAt(p: Provider, threads: seq<Thread>, digest: string -> string, i: nat)
    requires i < |threads| && threads[i].commented && EventsOf(p, threads, digest).Some?
    ensures CommentedBefore(threads, i) < |EventsOf(p, threads, digest).value|
    ensures EventsOf(p, threads, digest).value[CommentedBefore(threads, i)] == EventOf(p, threads[i], digest)
    decreases |threads|
  {
    hide EventOf;
    var n := |threads| - 1;
    EventsCounted(p, threads[..n], digest);
    CommentedPrefix(threads, i, n);
    CommentedPrefix(threads, n, n);
    if i < n {
      EventAt(p, threads[..n], digest, i);
    }
  }

  /** Refused exactly for a thread without an id; otherwise one event per commented thread, which records
      it, in the export's order. */
  lemma EventsAreThreads(p: Provider, threads: seq<Thread>, digest: string -> string)
    ensures EventsOf(p, threads, digest).None? <==> exists i :: 0 <= i < |threads| && threads[i].id == ""
    ensures EventsOf(p, threads, digest).Some? ==>
              && |EventsOf(p, threads, digest).value| == CommentedBefore(threads, |threads|)
              && forall i :: 0 <= i < |threads| && threads[i].commented ==>
                   && CommentedBefore(threads, i) < |EventsOf(p, threads, digest).value|
                   && Records(EventsOf(p, threads, digest).value[CommentedBefore(threads, i)], p, threads[i], digest)
  {
    hide EventsOf, EventOf, Records, CommentedBefore;
    EventsCounted(p, threads, digest);
    forall i | 0 <= i < |threads| && threads[i].commented && EventsOf(p, threads, digest).Some?
      ensures CommentedBefore(threads, i) < |EventsOf(p, threads, digest).value|
      ensures Records(EventsOf(p, threads, digest).value[CommentedBefore(threads, i)], p, threads[i], digest)
    {
      EventAt(p, threads, digest, i);
      EventRecords(p, threads[i], digest);
    }
  }

  ghost predicate FixedWidth(digest: string -> string) {
    forall s :: |digest(s)| == 64
  }

  /** An event id determines its finding, so an id can never move between findings. */
  lemma EventIdNamesFinding(p: Provider, t: Thread, p': Provider, t': Thread, digest: string -> string)
    requires FixedWidth(digest) && EventOf(p, t, digest).eventId == EventOf(p', t', digest).eventId
    ensures EventOf(p, t, digest).findingId == EventOf(p', t', digest).findingId
  {
    var a, b := EventOf(p, t, digest), EventOf(p', t', digest);
    assert a.findingId == a.eventId[..|a.eventId| - 65];
    assert b.findingId == b.eventId[..|b.eventId| - 65];
  }

  // ---- Histories ----

  /** The most recent event of a finding. */
  function Latest(h: seq<Event>, finding: string): Option<string> {
    if h == [] then None
    else if h[|h| - 1].findingId == finding then Some(h[|h| - 1].eventId)
    else Latest(h[..|h| - 1], finding)
  }

  predicate Known(h: seq<Event>, id: string) {
    exists i :: 0 <= i < |h| && h[i].eventId == id
  }

  predicate IdsDistinct(h: seq<Event>) {
    forall i, j :: 0 <= i < j < |h| ==> h[i].eventId != h[j].eventId
  }

  /** In recorded order each event supersedes the one before it of its finding. */
  predicate InOrder(h: seq<Event>) {
    forall i :: 0 <= i < |h| ==> h[i].supersedes == Latest(h[..i], h[i].findingId)
  }

  predicate Linear(h: seq<Event>) {
    IdsDistinct(h) && InOrder(h)
  }

  // ---- The import ----

  /** What the loop appends for a prefix of the export. */
  function Additions(existing: seq<Event>, events: seq<Event>): seq<Event> {
    if events == [] then []
    else
      var done := Additions(existing, events[..|events| - 1]);
      var event := events[|events| - 1];
      if Known(existing, event.eventId) then done
      else done + [event.(supersedes := Latest(existing + done, event.findingId))]
  }

  ghost predicate LatestIndexed(latest: map<string, string>, h: seq<Event>) {
    forall f :: (if f in latest then Some(latest[f]) else None) == Latest(h, f)
  }

  lemma LatestAppend(latest: map<string, string>, h: seq<Event>, e: Event)
    requires LatestIndexed(latest, h)
    ensures LatestIndexed(latest[e.findingId := e.eventId], h + [e])
  {
    assert (h + [e])[..|h|] == h;
  }

  lemma NothingKnown()
    ensures forall id :: !Known([], id)
    ensures forall f :: Latest([], f).None?
  {
  }

  lemma KnownAppend(h: seq<Event>, e: Event, id: string)
    ensures Known(h + [e], id) <==> Known(h, id) || e.eventId == id
  {
    var all := h + [e];
    if Known(h, id) {
      var i :| 0 <= i < |h| && h[i].eventId == id;
      assert all[i].eventId == id;
    }
    if e.eventId == id {
      assert all[|h|].eventId == id;
    }
    if Known(all, id) {
      var i :| 0 <= i < |all| && all[i].eventId == id;
      assert if i < |h| then all[i] == h[i] else all[i] == e;
    }
  }

  method Import(existing: seq<Event>, events: seq<Event>) returns (additions: seq<Event>)
    ensures additions == Additions(existing, events)
  {
    hide Known, Latest;
    NothingKnown();
    assert existing[..0] == [];
    var ids: set<string> := {};
    var latest: map<string, string> := map[];
    for i := 0 to |existing|
      invariant forall id :: id in ids <==> Known(existing[..i], id)
      invariant LatestIndexed(latest, existing[..i])
    {
      LatestAppend(latest, existing[..i], existing[i]);
      assert existing[..i + 1] == existing[..i] + [existing[i]];
      forall id ensures Known(existing[..i + 1], id) <==> Known(existing[..i], id) || existing[i].eventId == id {
        KnownAppend(existing[..i], existing[i], id);
      }
      ids := ids + {existing[i].eventId};
      latest := latest[existing[i].findingId := existing[i].eventId];
    }
    assert existing[..|existing|] == existing;
    additions := [];
    assert existing + additions == existing;
    for i := 0 to |events|
      invariant additions == Additions(existing, events[..i])
      invariant LatestIndexed(latest, existing + additions)
    {
      var event := events[i];
      assert events[..i + 1][..i] == events[..i];
      if event.eventId !in ids {
        event := event.(supersedes := if event.findingId in latest then Some(latest[event.findingId]) else None);
        LatestAppend(latest, existing + additions, event);
        latest := latest[event.findingId := event.eventId];
        assert existing + additions + [event] == existing + (additions + [event]);
        additions := additions + [event];
      }
    }
    assert events[..|events|] == events;
  }

  // ---- Histories stay linear ----

  lemma OrderAppend(h: seq<Event>, e: Event)
    requires InOrder(h) && e.supersedes == Latest(h, e.findingId)
    ensures InOrder(h + [e])
  {
    var h' := h + [e];
    assert forall i :: 0 <= i < |h| ==> h'[..i] == h[..i];
    assert h'[..|h|] == h;
  }

  lemma {:induction false} AdditionsInOrder(existing: seq<Event>, events: seq<Event>)
    requires InOrder(existing)
    ensures InOrder(existing + Additions(existing, events))
    decreases |events|
  {
    if events == [] {
      assert existing + [] == existing;
    } else {
      var done, e := Additions(existing, events[..|events| - 1]), events[|events| - 1];
      AdditionsInOrder(existing, events[..|events| - 1]);
      var added := e.(supersedes := Latest(existing + done, e.findingId));
      OrderAppend(existing + done, added);
      assert existing + done + [added] == existing + (done + [added]);
    }
  }

  /** The events of the export that are not recorded yet. */
  function Fresh(existing: seq<Event>, events: seq<Event>): seq<Event> {
    if events == [] then []
    else
      var done := Fresh(existing, events[..|events| - 1]);
      if Known(existing, events[|events| - 1].eventId) then done else done + [events[|events| - 1]]
  }

  lemma {:induction false} AdditionsAreFresh(existing: seq<Event>, events: seq<Event>)
    ensures var a, f := Additions(existing, events), Fresh(existing, events);
            && |a| == |f|
            && (forall i :: 0 <= i < |f| ==> a[i] == f[i].(supersedes := a[i].supersedes))
            && (forall i :: 0 <= i < |f| ==> !Known(existing, f[i].eventId))
    decreases |events|
  {
    if events != [] {
      AdditionsAreFresh(existing, events[..|events| - 1]);
    }
  }

  /** The history stays linear if and only if no new event occurs twice in the export. */
  lemma ImportKeepsLinear(existing: seq<Event>, events: seq<Event>)
    requires Linear(existing)
    ensures Linear(existing + Additions(existing, events)) <==> IdsDistinct(Fresh(existing, events))
  {
    var a, f := Additions(existing, events), Fresh(existing, events);
    var h := existing + a;
    AdditionsInOrder(existing, events);
    AdditionsAreFresh(existing, events);
    forall i | 0 <= i < |f| ensures h[|existing| + i].eventId == f[i].eventId {
      assert h[|existing| + i] == a[i];
    }
    if IdsDistinct(f) {
      forall i, j | 0 <= i < j < |h| ensures h[i].eventId != h[j].eventId {
        if j >= |existing| {
          assert h[j].eventId == f[j - |existing|].eventId;
          if i < |existing| {
            assert h[i] == existing[i];
          } else {
            assert h[i].eventId == f[i - |existing|].eventId;
          }
        } else {
          assert h[i] == existing[i] && h[j] == existing[j];
        }
      }
    } else {
      var i, j :| 0 <= i < j < |f| && f[i].eventId == f[j].eventId;
      assert h[|existing| + i].eventId == h[|existing| + j].eventId;
    }
  }

  /** An exported event that occurs twice in a row ends up superseding itself. */
  lemma RepeatedEventSupersedesItself(existing: seq<Event>, e: Event)
    requires !Known(existing, e.eventId)
    ensures Additions(existing, [e, e])
            == [e.(supersedes := Latest(existing, e.findingId)), e.(supersedes := Some(e.eventId))]
  {
    var first := e.(supersedes := Latest(existing, e.findingId));
    assert [e, e][..1] == [e] && [e][..0] == [];
    assert existing + [] == existing;
    assert Additions(existing, [e]) == [] + [first];
    assert (existing + [first])[|existing|] == first;
  }

  // ---- What linear means: one unforked chain per finding ----

  lemma {:induction false} LatestIsBefore(h: seq<Event>, finding: string) returns (i: nat)
    requires Latest(h, finding).Some?
    ensures i < |h| && h[i].findingId == finding && h[i].eventId == Latest(h, finding).value
    ensures forall j :: i < j < |h| ==> h[j].findingId != finding
    decreases |h|
  {
    if h[|h| - 1].findingId == finding {
      i := |h| - 1;
    } else {
      i := LatestIsBefore(h[..|h| - 1], finding);
      assert forall j :: 0 <= j < |h| - 1 ==> h[j] == h[..|h| - 1][j];
    }
  }

  lemma {:induction false} NoLatest(h: seq<Event>, finding: string)
    ensures Latest(h, finding).None? <==> forall j :: 0 <= j < |h| ==> h[j].findingId != finding
    decreases |h|
  {
    if h != [] {
      NoLatest(h[..|h| - 1], finding);
      assert forall j :: 0 <= j < |h| - 1 ==> h[j] == h[..|h| - 1][j];
    }
  }

  /** Event m is the last one before event i of the same finding. */
  predicate Precedes(h: seq<Event>, m: nat, i: nat) {
    && m < i < |h| && h[m].findingId == h[i].findingId
    && forall j :: m < j < i ==> h[j].findingId != h[i].findingId
  }

  /** A finding's first event supersedes nothing; every later one supersedes its predecessor. */
  lemma LinearIsChain(h: seq<Event>, i: nat)
    requires Linear(h) && i < |h|
    ensures h[i].supersedes.None? <==> forall j :: 0 <= j < i ==> h[j].findingId != h[i].findingId
    ensures h[i].supersedes.Some? ==> exists m: nat :: Precedes(h, m, i) && h[m].eventId == h[i].supersedes.value
  {
    NoLatest(h[..i], h[i].findingId);
    assert forall j :: 0 <= j < i ==> h[j] == h[..i][j];
    if h[i].supersedes.Some? {
      var m := LatestIsBefore(h[..i], h[i].findingId);
      assert Precedes(h, m, i);
    }
  }

  /** No event is superseded by two events. */
  lemma LinearIsUnforked(h: seq<Event>, i: nat, j: nat)
    requires Linear(h) && i < j < |h| && h[i].supersedes.Some?
    ensures h[i].supersedes != h[j].supersedes
  {
    LinearIsChain(h, i);
    LinearIsChain(h, j);
    var m: nat :| Precedes(h, m, i) && h[m].eventId == h[i].supersedes.value;
    if n: nat :| Precedes(h, n, j) && Some(h[n].eventId) == h[j].supersedes {
      assert h[m].eventId == h[n].eventId ==> m == n;
    }
  }

  // ---- Importing again ----

  lemma {:induction false} AllKnown(existing: seq<Event>, events: seq<Event>)
    requires forall i :: 0 <= i < |events| ==> Known(existing, events[i].eventId)
    ensures Additions(existing, events) == []
    decreases |events|
  {
    if events != [] {
      AllKnown(existing, events[..|events| - 1]);
    }
  }

  lemma {:induction false} BecomesKnown(existing: seq<Event>, events: seq<Event>, i: nat)
    requires i < |events|
    ensures Known(existing + Additions(existing, events), events[i].eventId)
    decreases |events|
  {
    var prefix := events[..|events| - 1];
    var a, done := Additions(existing, events), Additions(existing, prefix);
    var h := existing + a;
    if i < |prefix| {
      BecomesKnown(existing, prefix, i);
      var k :| 0 <= k < |existing + done| && (existing + done)[k].eventId == events[i].eventId;
      assert h[k] == (existing + done)[k];
    } else if Known(existing, events[i].eventId) {
      var k :| 0 <= k < |existing| && existing[k].eventId == events[i].eventId;
      assert h[k] == existing[k];
    } else {
      assert h[|h| - 1].eventId == events[i].eventId;
    }
  }

  /** Importing the same export again adds nothing. */
  lemma ImportIsIdempotent(existing: seq<Event>, events: seq<Event>)
    ensures Additions(existing + Additions(existing, events), events) == []
  {
    var h := existing + Additions(existing, events);
    forall i | 0 <= i < |events| ensures Known(h, events[i].eventId) {
      BecomesKnown(existing, events, i);
    }
    AllKnown(h, events);
  }

  // ---- Which event ends up current ----

  lemma {:induction false} LatestOfBoth(a: seq<Event>, b: seq<Event>, finding: string)
    ensures Latest(a + b, finding) == if Latest(b, finding).Some? then Latest(b, finding) else Latest(a, finding)
    decreases |b|
  {
    if b == [] {
      assert a + b == a;
    } else {
      assert (a + b)[..|a + b| - 1] == a + b[..|b| - 1];
      LatestOfBoth(a, b[..|b| - 1], finding);
    }
  }

  lemma {:induction false} LatestIgnoresLinks(a: seq<Event>, f: seq<Event>, finding: string)
    requires |a| == |f| && forall i :: 0 <= i < |f| ==> a[i] == f[i].(supersedes := a[i].supersedes)
    ensures Latest(a, finding) == Latest(f, finding)
    decreases |a|
  {
    if a != [] {
      LatestIgnoresLinks(a[..|a| - 1], f[..|f| - 1], finding);
    }
  }

  /** The last event of a finding, if new, is the last of the new ones. */
  lemma {:induction false} LatestFresh(existing: seq<Event>, events: seq<Event>, finding: string)
    requires Latest(events, finding).Some? && !Known(existing, Latest(events, finding).value)
    ensures Latest(Fresh(existing, events), finding) == Latest(events, finding)
    decreases |events|
  {
    var prefix := events[..|events| - 1];
    if events[|events| - 1].findingId == finding {
      assert Fresh(existing, events)[..|Fresh(existing, prefix)|] == Fresh(existing, prefix);
    } else {
      LatestFresh(existing, prefix, finding);
      if !Known(existing, events[|events| - 1].eventId) {
        assert Fresh(existing, events)[..|Fresh(existing, prefix)|] == Fresh(existing, prefix);
      }
    }
  }

  /** After an import the current event of a finding is the export's last one if and only if that
      one is new, or nothing of the finding is new and it was current already. A thread that went
      back to an earlier state meets neither. */
  lemma CurrentAfterImport(existing: seq<Event>, events: seq<Event>, finding: string)
    requires Latest(events, finding).Some?
    ensures var last := Latest(events, finding);
            Latest(existing + Additions(existing, events), finding) == last
            <==> || !Known(existing, last.value)
                 || (Latest(Fresh(existing, events), finding).None? && Latest(existing, finding) == last)
  {
    var last := Latest(events, finding);
    var a, f := Additions(existing, events), Fresh(existing, events);
    AdditionsAreFresh(existing, events);
    LatestIgnoresLinks(a, f, finding);
    LatestOfBoth(existing, a, finding);
    if !Known(existing, last.value) {
      LatestFresh(existing, events, finding);
    } else if Latest(f, finding).Some? {
      var i := LatestIsBefore(f, finding);
      assert !Known(existing, f[i].eventId);
    }
  }
}
