/** What acceptance by the ownership preflight means: rows are partitioned between manual rules and
    the receipts that claim them. */
module OwnershipPartition {

  import opened Wrappers
  import Decimal
  import opened OwnershipInventory

  // ---- Each row has exactly one owner ----

  predicate IsManual(o: RowObservation) {
    o.authority == "accepted_manual"
  }

  /** Receipt i claims row o at index k, nobody else does, and the row records just that. */
  ghost predicate SoleClaim(inv: Inventory, out: Outside, o: RowObservation, i: nat, k: nat) {
    && Claims(inv, out, i, k, o.ruleId)
    && (forall i': nat, k': nat :: Claims(inv, out, i', k', o.ruleId) ==> i' == i && k' == k)
    && Rules(inv, out, i)[k] == o.decoded
    && o.claims == [RowClaim(inv.receipts[i].metadataKey, inv.receipts[i].origin, false, k, true)]
  }

  /** Either manual without any claim, or not manual with exactly one. */
  lemma RowHasOneOwner(inv: Inventory, projectId: string, oldSha256: string, out: Outside, j: nat)
    requires Accepted(inv, projectId, oldSha256, out) && j < |inv.rows|
    ensures IsManual(inv.rows[j]) ==> !Claimed(inv, out, inv.rows[j].ruleId) && inv.rows[j].claims == []
    ensures !IsManual(inv.rows[j]) ==> exists i: nat, k: nat :: SoleClaim(inv, out, inv.rows[j], i, k)
  {
    hide HeaderAccepted, SourcesAccepted, KeysDistinct, ReceiptComplete, ClaimsDistinct;
    var o := inv.rows[j];
    assert RowSettled(inv, out, o) && RowAccepted(o, out);
    if i: nat, k: nat :| Claims(inv, out, i, k, o.ruleId) {
      ClaimOwnsRow(inv, projectId, oldSha256, out, i, k, j);
      assert SoleClaim(inv, out, o, i, k);
    } else {
      assert !Claimed(inv, out, o.ruleId);
    }
  }

  /** A claim on a row is the only one, is recorded there, and repeats the row's rule. */
  lemma ClaimOwnsRow(inv: Inventory, projectId: string, oldSha256: string, out: Outside, i: nat, k: nat, j: nat)
    requires Accepted(inv, projectId, oldSha256, out) && j < |inv.rows|
    requires Claims(inv, out, i, k, inv.rows[j].ruleId)
    ensures SoleClaim(inv, out, inv.rows[j], i, k) && !IsManual(inv.rows[j])
  {
    hide HeaderAccepted, SourcesAccepted, KeysDistinct, RuleValid, CanonicalId, RawBytes, HashString, SafeOrigin;
    var o := inv.rows[j];
    assert RowSettled(inv, out, o);
    assert ReceiptComplete(inv, out, i) && RuleAccepted(inv, out, i, k);
    var j' :| 0 <= j' < |inv.rows| && inv.rows[j'].decoded == Rules(inv, out, i)[k];
    SameRow(inv, out, j, j');
    assert SourceRow(o, inv.receipts[i].metadataKey, ReceiptOf(inv.receipts[i], out).origin, k);
  }

  lemma SameRow(inv: Inventory, out: Outside, j: nat, j': nat)
    requires RowsAccepted(inv, out, |inv.rows|) && j < |inv.rows| && j' < |inv.rows|
    requires inv.rows[j].ruleId == inv.rows[j'].decoded.ruleId
    ensures j == j'
  {
    assert RowAccepted(inv.rows[j'], out);
  }

  /** No claim is left without a row. */
  lemma ClaimHasRow(inv: Inventory, projectId: string, oldSha256: string, out: Outside, i: nat, k: nat, id: string)
    returns (j: nat)
    requires Accepted(inv, projectId, oldSha256, out) && Claims(inv, out, i, k, id)
    ensures j < |inv.rows| && inv.rows[j].ruleId == id
  {
    hide HeaderAccepted, SourcesAccepted, KeysDistinct, RowSettled, ReceiptAccepted, SourceRule;
    assert ReceiptComplete(inv, out, i) && RuleAccepted(inv, out, i, k);
    j :| 0 <= j < |inv.rows| && inv.rows[j].decoded == Rules(inv, out, i)[k];
    assert RowAccepted(inv.rows[j], out);
  }

  /** Rows have distinct ids, no id is claimed twice, every claim is on a row, and the manual rows
      are the ones without a claim. */
  ghost predicate Partition(inv: Inventory, out: Outside) {
    && (forall j, j' :: 0 <= j < j' < |inv.rows| ==> inv.rows[j].ruleId != inv.rows[j'].ruleId)
    && ClaimsDistinct(inv, out)
    && (forall i: nat, k: nat, id :: Claims(inv, out, i, k, id) ==>
          exists j :: 0 <= j < |inv.rows| && inv.rows[j].ruleId == id)
    && (forall j :: 0 <= j < |inv.rows| ==> (IsManual(inv.rows[j]) <==> !Claimed(inv, out, inv.rows[j].ruleId)))
  }

  lemma AcceptedIsPartition(inv: Inventory, projectId: string, oldSha256: string, out: Outside)
    requires Accepted(inv, projectId, oldSha256, out)
    ensures Partition(inv, out)
  {
    forall i: nat, k: nat, id | Claims(inv, out, i, k, id)
      ensures exists j :: 0 <= j < |inv.rows| && inv.rows[j].ruleId == id
    {
      var j := ClaimHasRow(inv, projectId, oldSha256, out, i, k, id);
    }
    forall j | 0 <= j < |inv.rows|
      ensures IsManual(inv.rows[j]) <==> !Claimed(inv, out, inv.rows[j].ruleId)
    {
      RowHasOneOwner(inv, projectId, oldSha256, out, j);
    }
  }

  // ---- Origins ----

  /** Receipts are keyed by their origin's digest, so no collision freedom is needed. */
  lemma OriginsDistinct(inv: Inventory, projectId: string, oldSha256: string, out: Outside, i: nat, i': nat)
    requires Accepted(inv, projectId, oldSha256, out) && i < i' < |inv.receipts|
    ensures inv.receipts[i].origin != inv.receipts[i'].origin
  {
    hide HeaderAccepted, RowsAccepted, SourcesAccepted, RulesComplete, RowSettled;
    assert ReceiptComplete(inv, out, i) && ReceiptComplete(inv, out, i');
    assert inv.receipts[i].metadataKey != inv.receipts[i'].metadataKey;
  }

  lemma FirstColon(a: string, x: string, b: string, y: string)
    requires ':' !in a && ':' !in b && a + ":" + x == b + ":" + y
    ensures a == b && x == y
  {
    var s := a + ":" + x;
    assert s[|a|] == ':' && s[|b|] == ':';
    assert forall i :: 0 <= i < |a| ==> s[i] == a[i];
    assert forall i :: 0 <= i < |b| ==> s[i] == b[i];
    assert |a| == |b|;
    assert a == s[..|a|] && b == s[..|b|];
    assert x == s[|a| + 1..] && y == s[|b| + 1..];
  }

  lemma CategoryParts(id: string, category: string, origin: string) returns (digits: string)
    requires CategoryId(id, category, origin)
    ensures id == "qg-" + category + ":" + (origin + ":" + digits)
  {
    var prefix := "qg-" + category + ":" + origin + ":";
    digits := id[|prefix|..];
    assert id == prefix + digits;
  }

  lemma CategoryOrigin(id: string, c: string, origin: string, c': string, origin': string)
    requires CategoryId(id, c, origin) && CategoryId(id, c', origin')
    requires ':' !in c && ':' !in c' && ':' !in origin && ':' !in origin'
    ensures origin == origin'
  {
    var digits := CategoryParts(id, c, origin);
    var digits' := CategoryParts(id, c', origin');
    FirstColon("qg-" + c, origin + ":" + digits, "qg-" + c', origin' + ":" + digits');
    FirstColon(origin, digits, origin', digits');
  }

  /** A canonical id names the one origin that may claim it. */
  lemma CanonicalIdNamesOrigin(id: string, origin: string, origin': string)
    requires CanonicalId(id, origin) && CanonicalId(id, origin')
    requires ':' !in origin && ':' !in origin'
    ensures origin == origin'
  {
    var c :| c in {"distilled", "copilot", "coding_rule"} && CategoryId(id, c, origin);
    var c' :| c' in {"distilled", "copilot", "coding_rule"} && CategoryId(id, c', origin');
    CategoryOrigin(id, c, origin, c', origin');
  }

  // ---- Counting ----

  function RowIds(rows: seq<RowObservation>): seq<string> {
    seq(|rows|, j requires 0 <= j < |rows| => rows[j].ruleId)
  }

  function ManualIds(rows: seq<RowObservation>): seq<string> {
    if rows == [] then []
    else (if IsManual(rows[0]) then [rows[0].ruleId] else []) + ManualIds(rows[1..])
  }

  /** Every id that the first n receipts claim, as often as they claim it. */
  function ClaimIds(inv: Inventory, out: Outside, n: nat): seq<string>
    requires n <= |inv.receipts|
  {
    if n == 0 then [] else ClaimIds(inv, out, n - 1) + RuleIds(Rules(inv, out, n - 1))
  }

  function ManualCount(rows: seq<RowObservation>): nat {
    if rows == [] then 0 else (if IsManual(rows[0]) then 1 else 0) + ManualCount(rows[1..])
  }

  function RuleCount(inv: Inventory, out: Outside, n: nat): nat
    requires n <= |inv.receipts|
  {
    if n == 0 then 0 else RuleCount(inv, out, n - 1) + |Rules(inv, out, n - 1)|
  }

  lemma {:induction false} ManualIdsCount(rows: seq<RowObservation>)
    ensures |ManualIds(rows)| == ManualCount(rows)
  {
    if rows != [] {
      ManualIdsCount(rows[1..]);
    }
  }

  lemma {:induction false} ClaimIdsCount(inv: Inventory, out: Outside, n: nat)
    requires n <= |inv.receipts|
    ensures |ClaimIds(inv, out, n)| == RuleCount(inv, out, n)
  {
    if n > 0 {
      ClaimIdsCount(inv, out, n - 1);
    }
  }

  ghost function ToSet<T>(s: seq<T>): set<T> {
    set x | x in s
  }

  lemma {:induction false} DistinctSize<T>(s: seq<T>)
    requires Distinct(s)
    ensures |ToSet(s)| == |s|
  {
    if s != [] {
      DistinctSize(s[1..]);
      assert ToSet(s) == {s[0]} + ToSet(s[1..]);
    }
  }

  lemma DistinctBoth<T>(a: seq<T>, b: seq<T>)
    requires Distinct(a) && Distinct(b) && forall x :: x in a ==> x !in b
    ensures Distinct(a + b)
  {
    var s := a + b;
    forall i, j | 0 <= i < j < |s| ensures s[i] != s[j] {
      if i < |a| {
        assert s[i] in a;
        assert s[j] == if j < |a| then a[j] else b[j - |a|];
      } else {
        assert s[i] == b[i - |a|] && s[j] == b[j - |a|];
      }
    }
  }

  lemma {:induction false} ManualIdsOf(rows: seq<RowObservation>, id: string)
    ensures id in ManualIds(rows) <==> exists j :: 0 <= j < |rows| && IsManual(rows[j]) && rows[j].ruleId == id
  {
    if rows != [] {
      ManualIdsOf(rows[1..], id);
      assert forall j :: 1 <= j < |rows| ==> rows[j] == rows[1..][j - 1];
    }
  }

  lemma {:induction false} ManualIdsDistinct(rows: seq<RowObservation>)
    requires forall j, j' :: 0 <= j < j' < |rows| ==> rows[j].ruleId != rows[j'].ruleId
    ensures Distinct(ManualIds(rows))
  {
    if rows != [] {
      ManualIdsDistinct(rows[1..]);
      ManualIdsOf(rows[1..], rows[0].ruleId);
      DistinctBoth(if IsManual(rows[0]) then [rows[0].ruleId] else [], ManualIds(rows[1..]));
    }
  }

  lemma {:induction false} InClaimIds(inv: Inventory, out: Outside, n: nat, i: nat, k: nat, id: string)
    requires i < n <= |inv.receipts| && Claims(inv, out, i, k, id)
    ensures id in ClaimIds(inv, out, n)
    decreases n
  {
    if i < n - 1 {
      InClaimIds(inv, out, n - 1, i, k, id);
    } else {
      assert RuleIds(Rules(inv, out, i))[k] == id;
    }
  }

  lemma {:induction false} FromClaimIds(inv: Inventory, out: Outside, n: nat, id: string) returns (i: nat, k: nat)
    requires n <= |inv.receipts| && id in ClaimIds(inv, out, n)
    ensures i < n && Claims(inv, out, i, k, id)
    decreases n
  {
    var ids := RuleIds(Rules(inv, out, n - 1));
    if id in ids {
      i := n - 1;
      k :| 0 <= k < |ids| && ids[k] == id;
    } else {
      i, k := FromClaimIds(inv, out, n - 1, id);
    }
  }

  lemma RuleIdsDistinct(inv: Inventory, out: Outside, i: nat)
    requires i < |inv.receipts| && ClaimsDistinct(inv, out)
    ensures Distinct(RuleIds(Rules(inv, out, i)))
  {
    var rules := Rules(inv, out, i);
    forall k: nat, k': nat | k < k' < |rules| ensures rules[k].ruleId != rules[k'].ruleId {
      assert Claims(inv, out, i, k, rules[k].ruleId);
      assert Claims(inv, out, i, k', rules[k'].ruleId);
    }
  }

  lemma {:induction false} ClaimIdsDistinct(inv: Inventory, out: Outside, n: nat)
    requires n <= |inv.receipts| && ClaimsDistinct(inv, out)
    ensures Distinct(ClaimIds(inv, out, n))
  {
    if n > 0 {
      var ids := RuleIds(Rules(inv, out, n - 1));
      ClaimIdsDistinct(inv, out, n - 1);
      RuleIdsDistinct(inv, out, n - 1);
      forall id | id in ClaimIds(inv, out, n - 1) ensures id !in ids {
        var i, k := FromClaimIds(inv, out, n - 1, id);
        assert forall k' :: 0 <= k' < |ids| && ids[k'] == id ==> Claims(inv, out, n - 1, k', id);
      }
      DistinctBoth(ClaimIds(inv, out, n - 1), ids);
    }
  }

  /** A row is manual exactly when no receipt lists its id. */
  lemma ManualOrListed(inv: Inventory, out: Outside, j: nat)
    requires Partition(inv, out) && j < |inv.rows|
    ensures IsManual(inv.rows[j]) <==> inv.rows[j].ruleId !in ClaimIds(inv, out, |inv.receipts|)
  {
    var id := inv.rows[j].ruleId;
    if id in ClaimIds(inv, out, |inv.receipts|) {
      var i, k := FromClaimIds(inv, out, |inv.receipts|, id);
    }
    if i: nat, k: nat :| Claims(inv, out, i, k, id) {
      InClaimIds(inv, out, |inv.receipts|, i, k, id);
    }
  }

  lemma IdSplit(inv: Inventory, out: Outside, id: string)
    requires Partition(inv, out)
    ensures id in RowIds(inv.rows) <==> id in ManualIds(inv.rows) || id in ClaimIds(inv, out, |inv.receipts|)
    ensures !(id in ManualIds(inv.rows) && id in ClaimIds(inv, out, |inv.receipts|))
  {
    var ids := RowIds(inv.rows);
    ManualIdsOf(inv.rows, id);
    if id in ids {
      var j :| 0 <= j < |ids| && ids[j] == id;
      ManualOrListed(inv, out, j);
    }
    if id in ClaimIds(inv, out, |inv.receipts|) {
      var i, k := FromClaimIds(inv, out, |inv.receipts|, id);
      var j :| 0 <= j < |inv.rows| && inv.rows[j].ruleId == id;
      assert ids[j] == id;
    }
    if j :| 0 <= j < |inv.rows| && IsManual(inv.rows[j]) && inv.rows[j].ruleId == id {
      assert ids[j] == id;
      ManualOrListed(inv, out, j);
    }
  }

  /** Row ids are manual ids and claimed ids, and no id is both. */
  lemma IdsSplit(inv: Inventory, out: Outside)
    requires Partition(inv, out)
    ensures ToSet(RowIds(inv.rows)) == ToSet(ManualIds(inv.rows)) + ToSet(ClaimIds(inv, out, |inv.receipts|))
    ensures ToSet(ManualIds(inv.rows)) !! ToSet(ClaimIds(inv, out, |inv.receipts|))
  {
    var all, manual, claimed := RowIds(inv.rows), ManualIds(inv.rows), ClaimIds(inv, out, |inv.receipts|);
    forall id
      ensures id in all <==> id in manual || id in claimed
      ensures !(id in manual && id in claimed)
    {
      IdSplit(inv, out, id);
    }
  }

  lemma SplitSize<T>(all: seq<T>, a: seq<T>, b: seq<T>)
    requires Distinct(all) && Distinct(a) && Distinct(b)
    requires ToSet(all) == ToSet(a) + ToSet(b) && ToSet(a) !! ToSet(b)
    ensures |all| == |a| + |b|
  {
    DistinctSize(all);
    DistinctSize(a);
    DistinctSize(b);
  }

  /** The row count is the manual rows plus every receipt's rules. */
  lemma PartitionIsCounted(inv: Inventory, out: Outside)
    requires Partition(inv, out)
    ensures |inv.rows| == ManualCount(inv.rows) + RuleCount(inv, out, |inv.receipts|)
  {
    ManualIdsCount(inv.rows);
    ClaimIdsCount(inv, out, |inv.receipts|);
    ManualIdsDistinct(inv.rows);
    ClaimIdsDistinct(inv, out, |inv.receipts|);
    IdsSplit(inv, out);
    assert Distinct(RowIds(inv.rows));
    SplitSize(RowIds(inv.rows), ManualIds(inv.rows), ClaimIds(inv, out, |inv.receipts|));
  }

  lemma RowsAreCounted(inv: Inventory, projectId: string, oldSha256: string, out: Outside)
    requires Accepted(inv, projectId, oldSha256, out)
    ensures |inv.rows| == ManualCount(inv.rows) + RuleCount(inv, out, |inv.receipts|)
  {
    AcceptedIsPartition(inv, projectId, oldSha256, out);
    PartitionIsCounted(inv, out);
  }
}
