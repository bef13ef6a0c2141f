/** The ownership preflight: eval/downgrade_policy_preflight.py's inspect_inventory. The inventory
    is given as parsed values; hashing, UTF-8 sizes and the parsing of raw evidence are parameters. */
module OwnershipInventory {

  import opened Wrappers
  import opened Ascii
  import Decimal

  const MAX_INVENTORY := 4 * 1024 * 1024
  const OLD_POLICY_PROFILE := "b762d3d4a10b2b3a722fa90be07ae957c9d72c99f78609b57319e02e4e366bdd"

  /** Raw bytes with the fingerprint they are claimed to have. */
  datatype Evidence = Evidence(bytes: int, utf8: string, blake3: string)

  datatype Rule = Rule(
    ruleId: string, filePattern: string, ruleText: string, priority: int, updatedAtMs: int,
    introducedAt: Option<string>, provenance: Option<string>)

  datatype RowClaim = RowClaim(
    receiptKey: string, origin: string, pending: bool, claimIndex: int, matches: bool)

  datatype RowObservation = RowObservation(
    ruleId: string, raw: Evidence, decoded: Rule, status: string, authority: string,
    enforcement: string, ownershipStatus: string, claimStatus: string, claims: seq<RowClaim>)

  datatype Source = Source(path: string, status: string, blake3: string, bytes: int)

  datatype Receipt = Receipt(
    origin: string, sourceHash: string, authored: bool, pending: bool, docIds: seq<string>,
    rules: seq<Rule>, cleanup: seq<string>, corpusRevision: string, legacyAliases: seq<string>)

  datatype ReceiptObservation = ReceiptObservation(
    metadataKey: string, raw: Evidence, status: string, origin: string, pending: bool,
    authored: bool, declaredHash: string, fingerprintStatus: string, claimedRuleIds: seq<string>)

  datatype Project = Project(projectId: string, details: string)

  datatype Inventory = Inventory(
    status: string, snapshot: string, projectId: string, projectRaw: Evidence, project: Project,
    epochRaw: Evidence, epoch: int, identityStatus: string, corpusRaw: Option<Evidence>,
    rows: seq<RowObservation>, receipts: seq<ReceiptObservation>, sources: seq<Source>,
    enforcementNotes: seq<string>, unresolvedClaimKeys: seq<string>, adoptionPerformed: bool,
    filesWritten: int)

  /** What the model does not compute. A parse is None for text of the wrong shape. */
  datatype Outside = Outside(
    digest: string -> string, size: string -> nat, rule: string -> Option<Rule>,
    receipt: string -> Option<Receipt>, project: string -> Option<Project>,
    inventory: string -> Option<Inventory>)

  // ---- The checks on single values ----

  predicate HexDigit(c: char) {
    '0' <= c <= '9' || 'a' <= c <= 'f' || 'A' <= c <= 'F'
  }

  predicate HashString(s: string) {
    |s| == 64 && forall i :: 0 <= i < |s| ==> HexDigit(s[i])
  }

  predicate RawBytes(e: Evidence, out: Outside) {
    && 0 <= e.bytes <= MAX_INVENTORY && out.size(e.utf8) == e.bytes
    && HashString(e.blake3) && out.digest(e.utf8) == Lower(e.blake3)
  }

  predicate RuleValid(r: Rule) {
    && r.ruleId != "" && r.filePattern != "" && r.ruleText != ""
    && -0x8000_0000 <= r.priority < 0x8000_0000 && 0 <= r.updatedAtMs < 0x1_0000_0000_0000_0000
  }

  predicate RowAccepted(o: RowObservation, out: Outside) {
    && RawBytes(o.raw, out) && out.rule(o.raw.utf8) == Some(o.decoded) && RuleValid(o.decoded)
    && o.decoded.ruleId == o.ruleId && o.status == "decoded_without_rewriting_raw_row"
  }

  predicate SourceAccepted(s: Source) {
    && HashString(s.blake3) && s.status == "complete_raw_fingerprint" && 0 <= s.bytes <= MAX_INVENTORY
  }

  /** origin.split("/") without the parts "", "." and "..". */
  predicate SafeParts(s: string, part: string)
    decreases |s|
  {
    if s == [] then part != "" && part != "." && part != ".."
    else if s[0] == '/' then part != "" && part != "." && part != ".." && SafeParts(s[1..], "")
    else SafeParts(s[1..], part + [s[0]])
  }

  predicate SafeOrigin(origin: string) {
    && 0 < |origin| <= 512 && '\\' !in origin && ':' !in origin && SafeParts(origin, "")
  }

  predicate Distinct<T(==)>(s: seq<T>) {
    forall i, j :: 0 <= i < j < |s| ==> s[i] != s[j]
  }

  function ReceiptOf(o: ReceiptObservation, out: Outside): Receipt {
    match out.receipt(o.raw.utf8)
    case Some(r) => r
    case None => Receipt("", "", false, false, [], [], [], "", [])
  }

  function Corpus(inv: Inventory): string {
    match inv.corpusRaw
    case Some(e) => e.utf8
    case None => ""
  }

  /** Everything about a receipt but its source and its rules. */
  predicate ReceiptAccepted(o: ReceiptObservation, corpus: string, out: Outside) {
    var r := ReceiptOf(o, out);
    && RawBytes(o.raw, out) && out.receipt(o.raw.utf8).Some?
    && r.legacyAliases == [] && SafeOrigin(r.origin)
    && o.status == "metadata_claims_not_ownership_proof"
    && o.metadataKey == "quality_source:" + out.digest(r.origin)
    && o.origin == r.origin && !o.pending && !r.pending && o.authored == r.authored
    && r.cleanup == [] && r.corpusRevision == corpus
    && HashString(r.sourceHash) && o.declaredHash == r.sourceHash
    && o.fingerprintStatus == "matches_declared_bytes_not_ownership"
    && Distinct(r.docIds) && "" !in r.docIds
  }

  /** "qg-", one of three categories, the origin and a decimal number. */
  predicate CanonicalId(id: string, origin: string) {
    || CategoryId(id, "distilled", origin)
    || CategoryId(id, "copilot", origin)
    || CategoryId(id, "coding_rule", origin)
  }

  predicate CategoryId(id: string, category: string, origin: string) {
    var prefix := "qg-" + category + ":" + origin + ":";
    prefix < id && Decimal.AllDigits(id[|prefix|..])
  }

  predicate SourceRule(rule: Rule, origin: string) {
    && RuleValid(rule) && CanonicalId(rule.ruleId, origin)
    && rule.provenance == Some("quality-gate source: " + origin)
  }

  predicate SourceRow(o: RowObservation, key: string, origin: string, index: int) {
    && o.claims == [RowClaim(key, origin, false, index, true)]
    && o.authority == "source_reference"
    && o.ownershipStatus == "single_claim_requires_source_and_row_review"
    && o.claimStatus == "one_declared_claim_not_ownership_proof"
  }

  predicate ManualRow(o: RowObservation) {
    && o.decoded.provenance in {Some("manual"), Some("user-authored"), Some("manual repository rule")}
    && o.authority == "accepted_manual"
    && o.ownershipStatus == "no_receipt_claim_explicit_decision_required"
    && o.claimStatus == "no_parsed_claim_occurrences" && o.claims == []
  }

  predicate Enforced(o: RowObservation) {
    o.enforcement == "retained_unfiltered_registry_constraint"
  }

  predicate HeaderAccepted(inv: Inventory, projectId: string, out: Outside) {
    && inv.status == "ownership_inventory_only_requires_explicit_decisions"
    && inv.projectId == projectId && !inv.adoptionPerformed && inv.filesWritten == 0
    && inv.unresolvedClaimKeys == [] && inv.identityStatus == "existing_epoch_observed"
    && inv.epoch > 0 && HashString(inv.snapshot)
    && RawBytes(inv.projectRaw, out) && out.project(inv.projectRaw.utf8) == Some(inv.project)
    && inv.project.projectId == projectId
    && RawBytes(inv.epochRaw, out) && inv.epochRaw.utf8 == Decimal.ToString(inv.epoch)
    && |inv.rows| <= 2048 && |inv.receipts| <= 256 && |inv.sources| <= 64
    && (inv.corpusRaw.Some? ==> RawBytes(inv.corpusRaw.value, out))
  }

  // ---- Acceptance, stated without any order of checking ----

  function Rules(inv: Inventory, out: Outside, i: nat): seq<Rule>
    requires i < |inv.receipts|
  {
    ReceiptOf(inv.receipts[i], out).rules
  }

  /** Receipt i claims the rule id at index k. */
  predicate Claims(inv: Inventory, out: Outside, i: nat, k: nat, id: string) {
    i < |inv.receipts| && k < |Rules(inv, out, i)| && Rules(inv, out, i)[k].ruleId == id
  }

  predicate RowsAccepted(inv: Inventory, out: Outside, n: nat) {
    && n <= |inv.rows|
    && (forall j :: 0 <= j < n ==> RowAccepted(inv.rows[j], out))
    && (forall j, j' :: 0 <= j < j' < n ==> inv.rows[j].ruleId != inv.rows[j'].ruleId)
  }

  predicate SourcesAccepted(inv: Inventory, n: nat) {
    && n <= |inv.sources|
    && (forall j :: 0 <= j < n ==> SourceAccepted(inv.sources[j]))
    && (forall j, j' :: 0 <= j < j' < n ==> inv.sources[j].path != inv.sources[j'].path)
  }

  /** The receipt's origin was observed with the declared fingerprint. */
  predicate SourceObserved(inv: Inventory, r: Receipt) {
    exists j :: 0 <= j < |inv.sources| && inv.sources[j].path == r.origin && inv.sources[j].blake3 == r.sourceHash
  }

  /** The row that a claimed rule repeats. */
  predicate RowObserved(inv: Inventory, rule: Rule) {
    exists j :: 0 <= j < |inv.rows| && inv.rows[j].decoded == rule
  }

  predicate RuleAccepted(inv: Inventory, out: Outside, i: nat, k: nat)
    requires i < |inv.receipts| && k < |Rules(inv, out, i)|
  {
    && SourceRule(Rules(inv, out, i)[k], ReceiptOf(inv.receipts[i], out).origin)
    && RowObserved(inv, Rules(inv, out, i)[k])
  }

  function RuleIds(rules: seq<Rule>): seq<string> {
    seq(|rules|, k requires 0 <= k < |rules| => rules[k].ruleId)
  }

  predicate RulesComplete(inv: Inventory, out: Outside, i: nat)
    requires i < |inv.receipts|
  {
    && (forall k :: 0 <= k < |Rules(inv, out, i)| ==> RuleAccepted(inv, out, i, k))
    && RuleIds(Rules(inv, out, i)) == inv.receipts[i].claimedRuleIds
  }

  predicate ReceiptComplete(inv: Inventory, out: Outside, i: nat)
    requires i < |inv.receipts|
  {
    && ReceiptAccepted(inv.receipts[i], Corpus(inv), out)
    && SourceObserved(inv, ReceiptOf(inv.receipts[i], out))
    && RulesComplete(inv, out, i)
  }

  predicate KeysDistinct(inv: Inventory, n: nat) {
    && n <= |inv.receipts|
    && (forall i, i' :: 0 <= i < i' < n ==> inv.receipts[i].metadataKey != inv.receipts[i'].metadataKey)
  }

  /** No rule id is claimed twice. */
  ghost predicate ClaimsDistinct(inv: Inventory, out: Outside) {
    forall i: nat, k: nat, i': nat, k': nat, id ::
      Claims(inv, out, i, k, id) && Claims(inv, out, i', k', id) ==> i == i' && k == k'
  }

  ghost predicate Claimed(inv: Inventory, out: Outside, id: string) {
    exists i: nat, k: nat :: Claims(inv, out, i, k, id)
  }

  ghost predicate RowSettled(inv: Inventory, out: Outside, o: RowObservation) {
    && Enforced(o)
    && (forall i: nat, k: nat :: Claims(inv, out, i, k, o.ruleId) ==>
          SourceRow(o, inv.receipts[i].metadataKey, ReceiptOf(inv.receipts[i], out).origin, k))
    && (!Claimed(inv, out, o.ruleId) ==> ManualRow(o))
  }

  ghost predicate Accepted(inv: Inventory, projectId: string, oldSha256: string, out: Outside) {
    && Lower(oldSha256) == OLD_POLICY_PROFILE && HeaderAccepted(inv, projectId, out)
    && RowsAccepted(inv, out, |inv.rows|) && SourcesAccepted(inv, |inv.sources|)
    && KeysDistinct(inv, |inv.receipts|)
    && (forall i :: 0 <= i < |inv.receipts| ==> ReceiptComplete(inv, out, i))
    && ClaimsDistinct(inv, out)
    && (forall j :: 0 <= j < |inv.rows| ==> RowSettled(inv, out, inv.rows[j]))
    && inv.enforcementNotes == []
  }

  // ---- The loops ----

  /** rows maps each rule id to its row. */
  ghost predicate RowsRecorded(inv: Inventory, rows: map<string, Rule>, n: nat) {
    && n <= |inv.rows|
    && (forall j :: 0 <= j < n ==> inv.rows[j].ruleId in rows && rows[inv.rows[j].ruleId] == inv.rows[j].decoded)
    && (forall id :: id in rows ==> exists j :: 0 <= j < n && inv.rows[j].ruleId == id)
  }

  /** Looking a rule up by its id finds it exactly when a row repeats it. */
  ghost predicate RowsIndexed(inv: Inventory, rows: map<string, Rule>) {
    forall rule: Rule :: (rule.ruleId in rows && rows[rule.ruleId] == rule) <==> RowObserved(inv, rule)
  }

  lemma IndexRows(inv: Inventory, out: Outside, rows: map<string, Rule>)
    requires RowsAccepted(inv, out, |inv.rows|) && RowsRecorded(inv, rows, |inv.rows|)
    ensures RowsIndexed(inv, rows)
  {
    forall j | 0 <= j < |inv.rows|
      ensures inv.rows[j].decoded.ruleId == inv.rows[j].ruleId
    {
      assert RowAccepted(inv.rows[j], out);
    }
  }

  lemma RecordRow(inv: Inventory, out: Outside, rows: map<string, Rule>, j: nat)
    requires j < |inv.rows| && RowsAccepted(inv, out, j) && RowsRecorded(inv, rows, j)
    requires RowAccepted(inv.rows[j], out) && inv.rows[j].ruleId !in rows
    ensures RowsAccepted(inv, out, j + 1)
    ensures RowsRecorded(inv, rows[inv.rows[j].ruleId := inv.rows[j].decoded], j + 1)
  {
    hide RowAccepted;
  }

  lemma RejectRow(inv: Inventory, out: Outside, rows: map<string, Rule>, j: nat)
    requires j < |inv.rows| && RowsRecorded(inv, rows, j)
    requires !RowAccepted(inv.rows[j], out) || inv.rows[j].ruleId in rows
    ensures !RowsAccepted(inv, out, |inv.rows|)
  {
    if inv.rows[j].ruleId in rows {
      var j' :| 0 <= j' < j && inv.rows[j'].ruleId == inv.rows[j].ruleId;
    }
  }

  method InspectRows(inv: Inventory, out: Outside) returns (ok: bool, rows: map<string, Rule>)
    ensures ok <==> RowsAccepted(inv, out, |inv.rows|)
    ensures ok ==> RowsIndexed(inv, rows)
  {
    hide RowAccepted;
    rows := map[];
    for j := 0 to |inv.rows|
      invariant RowsAccepted(inv, out, j) && RowsRecorded(inv, rows, j)
    {
      var observed := inv.rows[j];
      if !RowAccepted(observed, out) || observed.ruleId in rows {
        RejectRow(inv, out, rows, j);
        return false, rows;
      }
      RecordRow(inv, out, rows, j);
      rows := rows[observed.ruleId := observed.decoded];
    }
    IndexRows(inv, out, rows);
    ok := true;
  }

  ghost predicate SourcesRecorded(inv: Inventory, sources: map<string, Source>, n: nat) {
    && n <= |inv.sources|
    && (forall j :: 0 <= j < n ==> inv.sources[j].path in sources && sources[inv.sources[j].path] == inv.sources[j])
    && (forall path :: path in sources ==> exists j :: 0 <= j < n && inv.sources[j].path == path)
  }

  ghost predicate SourcesIndexed(inv: Inventory, sources: map<string, Source>) {
    forall r: Receipt ::
      (r.origin in sources && sources[r.origin].blake3 == r.sourceHash) <==> SourceObserved(inv, r)
  }

  lemma IndexSources(inv: Inventory, sources: map<string, Source>)
    requires SourcesAccepted(inv, |inv.sources|) && SourcesRecorded(inv, sources, |inv.sources|)
    ensures SourcesIndexed(inv, sources)
  {
  }

  method InspectSources(inv: Inventory) returns (ok: bool, sources: map<string, Source>)
    ensures ok <==> SourcesAccepted(inv, |inv.sources|)
    ensures ok ==> SourcesIndexed(inv, sources)
  {
    hide SourceAccepted;
    sources := map[];
    for j := 0 to |inv.sources|
      invariant SourcesAccepted(inv, j) && SourcesRecorded(inv, sources, j)
    {
      var source := inv.sources[j];
      if source.path in sources || !SourceAccepted(source) {
        return false, sources;
      }
      sources := sources[source.path := source];
    }
    IndexSources(inv, sources);
    ok := true;
  }

  /** What claims records of a rule id: the receipt's key and origin, and the rule's index. */
  datatype Claim = Claim(key: string, origin: string, index: nat)

  /** Receipts before n, and the first m rules of receipt n. */
  predicate Seen(n: nat, m: nat, i: nat, k: nat) {
    i < n || (i == n && k < m)
  }

  ghost predicate ClaimsRecorded(
    inv: Inventory, out: Outside, claims: map<string, Claim>, owner: map<string, nat>, n: nat, m: nat)
  {
    && claims.Keys == owner.Keys
    && (forall id :: id in claims ==>
          && Seen(n, m, owner[id], claims[id].index) && Claims(inv, out, owner[id], claims[id].index, id)
          && claims[id].key == inv.receipts[owner[id]].metadataKey
          && claims[id].origin == ReceiptOf(inv.receipts[owner[id]], out).origin)
    && (forall i: nat, k: nat, id :: Seen(n, m, i, k) && Claims(inv, out, i, k, id) ==>
          id in claims && owner[id] == i && claims[id].index == k)
  }

  /** A rule id that is already recorded is claimed twice. */
  lemma Competing(inv: Inventory, out: Outside, claims: map<string, Claim>, owner: map<string, nat>, n: nat,
                  m: nat, id: string)
    requires ClaimsRecorded(inv, out, claims, owner, n, m) && Claims(inv, out, n, m, id) && id in claims
    ensures !ClaimsDistinct(inv, out)
  {
    assert Claims(inv, out, owner[id], claims[id].index, id);
  }

  lemma Recorded(inv: Inventory, out: Outside, claims: map<string, Claim>, owner: map<string, nat>, n: nat, m: nat,
                 id: string, claim: Claim)
    requires ClaimsRecorded(inv, out, claims, owner, n, m) && Claims(inv, out, n, m, id) && id !in claims
    requires claim == Claim(inv.receipts[n].metadataKey, ReceiptOf(inv.receipts[n], out).origin, m)
    ensures ClaimsRecorded(inv, out, claims[id := claim], owner[id := n], n, m + 1)
  {
    hide ReceiptOf;
  }

  lemma NextReceipt(inv: Inventory, out: Outside, claims: map<string, Claim>, owner: map<string, nat>, i: nat)
    requires i < |inv.receipts| && ClaimsRecorded(inv, out, claims, owner, i, |Rules(inv, out, i)|)
    ensures ClaimsRecorded(inv, out, claims, owner, i + 1, 0)
  {
  }

  method InspectRules(inv: Inventory, out: Outside, i: nat, rows: map<string, Rule>, claims0: map<string, Claim>,
                      ghost owner0: map<string, nat>)
    returns (ok: bool, claims: map<string, Claim>, ghost owner: map<string, nat>)
    requires i < |inv.receipts| && RowsIndexed(inv, rows)
    requires ClaimsRecorded(inv, out, claims0, owner0, i, 0)
    ensures ok ==> ClaimsRecorded(inv, out, claims, owner, i + 1, 0)
    ensures ok ==> RulesComplete(inv, out, i)
    ensures !ok ==> !RulesComplete(inv, out, i) || !ClaimsDistinct(inv, out)
  {
    var observed, receipt := inv.receipts[i], ReceiptOf(inv.receipts[i], out);
    var ids: seq<string> := [];
    claims, owner := claims0, owner0;
    for k := 0 to |receipt.rules|
      invariant ClaimsRecorded(inv, out, claims, owner, i, k)
      invariant ids == RuleIds(receipt.rules)[..k]
      invariant forall k' :: 0 <= k' < k ==> RuleAccepted(inv, out, i, k')
    {
      var current := receipt.rules[k];
      var identifier := current.ruleId;
      assert Claims(inv, out, i, k, identifier);
      if identifier in claims {
        Competing(inv, out, claims, owner, i, k, identifier);
        return false, claims, owner;
      }
      if !SourceRule(current, receipt.origin) || identifier !in rows || current != rows[identifier] {
        assert !RuleAccepted(inv, out, i, k);
        return false, claims, owner;
      }
      Recorded(inv, out, claims, owner, i, k, identifier, Claim(observed.metadataKey, receipt.origin, |ids|));
      claims := claims[identifier := Claim(observed.metadataKey, receipt.origin, |ids|)];
      owner := owner[identifier := i];
      ids := ids + [identifier];
      assert RuleIds(receipt.rules)[..k + 1] == RuleIds(receipt.rules)[..k] + [identifier];
    }
    NextReceipt(inv, out, claims, owner, i);
    assert RuleIds(receipt.rules)[..|receipt.rules|] == RuleIds(receipt.rules);
    ok := ids == observed.claimedRuleIds;
  }

  /** One receipt: its evidence, its source, its rules. */
  method InspectReceipt(inv: Inventory, out: Outside, i: nat, rows: map<string, Rule>, sources: map<string, Source>,
                        claims0: map<string, Claim>, ghost owner0: map<string, nat>)
    returns (ok: bool, claims: map<string, Claim>, ghost owner: map<string, nat>)
    requires i < |inv.receipts| && RowsIndexed(inv, rows) && SourcesIndexed(inv, sources)
    requires ClaimsRecorded(inv, out, claims0, owner0, i, 0)
    ensures ok ==> ClaimsRecorded(inv, out, claims, owner, i + 1, 0) && ReceiptComplete(inv, out, i)
    ensures !ok ==> !ReceiptComplete(inv, out, i) || !ClaimsDistinct(inv, out)
  {
    var observed, receipt := inv.receipts[i], ReceiptOf(inv.receipts[i], out);
    if !ReceiptAccepted(observed, Corpus(inv), out) {
      return false, claims0, owner0;
    }
    if receipt.origin !in sources || sources[receipt.origin].blake3 != receipt.sourceHash {
      assert !SourceObserved(inv, receipt);
      return false, claims0, owner0;
    }
    ok, claims, owner := InspectRules(inv, out, i, rows, claims0, owner0);
  }

  ghost function KeysBefore(inv: Inventory, n: nat): set<string>
    requires n <= |inv.receipts|
  {
    set i | 0 <= i < n :: inv.receipts[i].metadataKey
  }

  lemma NothingInspected(inv: Inventory, out: Outside)
    ensures KeysDistinct(inv, 0) && KeysBefore(inv, 0) == {} && ClaimsRecorded(inv, out, map[], map[], 0, 0)
  {
  }

  lemma NextKey(inv: Inventory, n: nat)
    requires n < |inv.receipts| && KeysDistinct(inv, n)
    ensures KeysBefore(inv, n + 1) == KeysBefore(inv, n) + {inv.receipts[n].metadataKey}
    ensures inv.receipts[n].metadataKey !in KeysBefore(inv, n) ==> KeysDistinct(inv, n + 1)
    ensures inv.receipts[n].metadataKey in KeysBefore(inv, n) ==> !KeysDistinct(inv, |inv.receipts|)
  {
  }

  method InspectReceipts(inv: Inventory, out: Outside, rows: map<string, Rule>, sources: map<string, Source>)
    returns (ok: bool, claims: map<string, Claim>, ghost owner: map<string, nat>)
    requires RowsIndexed(inv, rows) && SourcesIndexed(inv, sources)
    ensures ok ==> KeysDistinct(inv, |inv.receipts|) && ClaimsRecorded(inv, out, claims, owner, |inv.receipts|, 0)
    ensures ok ==> forall i :: 0 <= i < |inv.receipts| ==> ReceiptComplete(inv, out, i)
    ensures !ok ==> || !KeysDistinct(inv, |inv.receipts|) || !ClaimsDistinct(inv, out)
                    || exists i :: 0 <= i < |inv.receipts| && !ReceiptComplete(inv, out, i)
  {
    hide ReceiptComplete, RowsIndexed, SourcesIndexed, Claims, ClaimsRecorded, ClaimsDistinct, KeysDistinct, KeysBefore;
    claims, owner := map[], map[];
    var receiptKeys: set<string> := {};
    NothingInspected(inv, out);
    for i := 0 to |inv.receipts|
      invariant KeysDistinct(inv, i) && ClaimsRecorded(inv, out, claims, owner, i, 0)
      invariant receiptKeys == KeysBefore(inv, i)
      invariant forall i' :: 0 <= i' < i ==> ReceiptComplete(inv, out, i')
    {
      var key := inv.receipts[i].metadataKey;
      NextKey(inv, i);
      if key in receiptKeys {
        return false, claims, owner;
      }
      receiptKeys := receiptKeys + {key};
      ok, claims, owner := InspectReceipt(inv, out, i, rows, sources, claims, owner);
      if !ok {
        return;
      }
    }
    ok := true;
  }

  method InspectAuthority(inv: Inventory, out: Outside, claims: map<string, Claim>, ghost owner: map<string, nat>)
    returns (ok: bool)
    requires ClaimsRecorded(inv, out, claims, owner, |inv.receipts|, 0)
    ensures ok <==> forall j :: 0 <= j < |inv.rows| ==> RowSettled(inv, out, inv.rows[j])
  {
    for j := 0 to |inv.rows|
      invariant forall j' :: 0 <= j' < j ==> RowSettled(inv, out, inv.rows[j'])
    {
      var observed := inv.rows[j];
      var settled := Enforced(observed);
      Settles(inv, out, claims, owner, observed);
      if observed.ruleId in claims {
        var claim := claims[observed.ruleId];
        settled := settled && SourceRow(observed, claim.key, claim.origin, claim.index);
      } else {
        settled := settled && ManualRow(observed);
      }
      if !settled {
        return false;
      }
    }
    ok := true;
  }

  lemma Settles(inv: Inventory, out: Outside, claims: map<string, Claim>, owner: map<string, nat>, o: RowObservation)
    requires ClaimsRecorded(inv, out, claims, owner, |inv.receipts|, 0)
    ensures RowSettled(inv, out, o) <==>
              Enforced(o) && if o.ruleId in claims
                             then SourceRow(o, claims[o.ruleId].key, claims[o.ruleId].origin, claims[o.ruleId].index)
                             else ManualRow(o)
  {
    forall i: nat, k: nat | Claims(inv, out, i, k, o.ruleId)
      ensures o.ruleId in claims && owner[o.ruleId] == i && claims[o.ruleId].index == k
    {
      assert Seen(|inv.receipts|, 0, i, k);
    }
    if o.ruleId in claims {
      SettlesClaimed(inv, out, o, owner[o.ruleId], claims[o.ruleId].index);
    } else {
      assert !Claimed(inv, out, o.ruleId);
    }
  }

  lemma SettlesClaimed(inv: Inventory, out: Outside, o: RowObservation, i: nat, k: nat)
    requires Claims(inv, out, i, k, o.ruleId)
    requires forall i': nat, k': nat :: Claims(inv, out, i', k', o.ruleId) ==> i' == i && k' == k
    ensures RowSettled(inv, out, o) <==>
              Enforced(o) && SourceRow(o, inv.receipts[i].metadataKey, ReceiptOf(inv.receipts[i], out).origin, k)
  {
  }

  lemma RecordedDistinct(inv: Inventory, out: Outside, claims: map<string, Claim>, owner: map<string, nat>)
    requires ClaimsRecorded(inv, out, claims, owner, |inv.receipts|, 0)
    ensures ClaimsDistinct(inv, out)
  {
    assert forall i: nat, k: nat, id :: Claims(inv, out, i, k, id) ==> Seen(|inv.receipts|, 0, i, k);
  }

  /** inspect_inventory: accepts exactly the inventories that are Accepted, unchanged. */
  method InspectInventory(text: string, projectId: string, oldSha256: string, out: Outside)
    returns (r: Result<Inventory, string>)
    ensures r.Success? <==>
              && out.size(text) <= MAX_INVENTORY && out.inventory(text).Some?
              && Accepted(out.inventory(text).value, projectId, oldSha256, out)
    ensures r.Success? ==> Some(r.value) == out.inventory(text)
  {
    hide HeaderAccepted, RowsAccepted, SourcesAccepted, KeysDistinct, ReceiptComplete;
    hide ClaimsDistinct, RowSettled, ClaimsRecorded, RowsIndexed, SourcesIndexed;
    if out.size(text) > MAX_INVENTORY {
      return Failure("Ownership response exceeds exact inventory budget");
    }
    if out.inventory(text).None? {
      return Failure("Malformed ownership evidence");
    }
    var inv := out.inventory(text).value;
    if Lower(oldSha256) != OLD_POLICY_PROFILE {
      return Failure("Old binary policy semantics are unproven");
    }
    if !HeaderAccepted(inv, projectId, out) {
      return Failure("Unresolved/incomplete ownership inventory");
    }
    var ok, rows := InspectRows(inv, out);
    if !ok {
      return Failure("Unresolved/duplicate raw repository row");
    }
    var sources;
    ok, sources := InspectSources(inv);
    if !ok {
      return Failure("Source evidence unavailable, stale or omitted");
    }
    var claims;
    ghost var owner;
    ok, claims, owner := InspectReceipts(inv, out, rows, sources);
    if !ok {
      return Failure("Opaque, competing or noncanonical source ownership");
    }
    RecordedDistinct(inv, out, claims, owner);
    ok := InspectAuthority(inv, out, claims, owner);
    if !ok {
      return Failure("Unverified or unknown non-source rule authority");
    }
    if inv.enforcementNotes != [] {
      return Failure("Unresolved enforcement coverage notes");
    }
    r := Success(inv);
  }
}
