/** What acceptance by the ownership preflight says about the evidence itself: bytes and fingerprints,
    sources, origins and provenance. */
module OwnershipEvidence {

  import opened Wrappers
  import opened Ascii
  import Decimal
  import opened OwnershipInventory
  import opened OwnershipPartition

  // ---- Bytes and fingerprints ----

  /** A declared hexadecimal digit, in either case, is the computed one. */
  predicate SameDigit(declared: char, computed: char) {
    || (('0' <= declared <= '9' || 'a' <= declared <= 'f') && computed == declared)
    || ('A' <= declared <= 'F' && computed as int == declared as int + 32)
  }

  /** The bytes have the declared length and the declared digest. */
  ghost predicate Fingerprinted(e: Evidence, out: Outside) {
    && out.size(e.utf8) == e.bytes <= 4_194_304
    && |e.blake3| == 64 && |out.digest(e.utf8)| == 64
    && forall i :: 0 <= i < 64 ==> SameDigit(e.blake3[i], out.digest(e.utf8)[i])
  }

  lemma RawIsFingerprinted(e: Evidence, out: Outside)
    ensures RawBytes(e, out) <==> Fingerprinted(e, out)
  {
    LowerIsLetterwise(e.blake3, out.digest(e.utf8));
    assert out.digest(e.utf8) == Lower(e.blake3) <==> Lower(e.blake3) == out.digest(e.utf8);
    if RawBytes(e, out) {
      forall i | 0 <= i < 64 ensures SameDigit(e.blake3[i], out.digest(e.utf8)[i]) {
        assert HexDigit(e.blake3[i]) && Lowers(e.blake3[i], out.digest(e.utf8)[i]);
      }
    }
    if Fingerprinted(e, out) {
      forall i | 0 <= i < 64 ensures HexDigit(e.blake3[i]) && Lowers(e.blake3[i], out.digest(e.utf8)[i]) {
        assert SameDigit(e.blake3[i], out.digest(e.utf8)[i]);
      }
    }
  }

  /** In an accepted inventory every piece of raw evidence has its declared length and digest, and every
      decoded value is the parse of its bytes. */
  lemma EvidenceIsFingerprinted(inv: Inventory, projectId: string, oldSha256: string, out: Outside)
    requires Accepted(inv, projectId, oldSha256, out)
    ensures Fingerprinted(inv.projectRaw, out) && out.project(inv.projectRaw.utf8) == Some(inv.project)
    ensures inv.project.projectId == projectId
    ensures Fingerprinted(inv.epochRaw, out) && inv.epochRaw.utf8 == Decimal.ToString(inv.epoch)
    ensures inv.corpusRaw.Some? ==> Fingerprinted(inv.corpusRaw.value, out)
    ensures forall j :: 0 <= j < |inv.rows| ==>
              && Fingerprinted(inv.rows[j].raw, out)
              && out.rule(inv.rows[j].raw.utf8) == Some(inv.rows[j].decoded)
              && inv.rows[j].decoded.ruleId == inv.rows[j].ruleId
    ensures forall i :: 0 <= i < |inv.receipts| ==>
              && Fingerprinted(inv.receipts[i].raw, out)
              && out.receipt(inv.receipts[i].raw.utf8) == Some(ReceiptOf(inv.receipts[i], out))
  {
    hide RawBytes, RuleValid, SafeOrigin, HashString, RulesComplete, SourceObserved, RowSettled, Distinct;
    RawIsFingerprinted(inv.projectRaw, out);
    RawIsFingerprinted(inv.epochRaw, out);
    if inv.corpusRaw.Some? {
      RawIsFingerprinted(inv.corpusRaw.value, out);
    }
    forall j | 0 <= j < |inv.rows|
      ensures Fingerprinted(inv.rows[j].raw, out) && out.rule(inv.rows[j].raw.utf8) == Some(inv.rows[j].decoded)
      ensures inv.rows[j].decoded.ruleId == inv.rows[j].ruleId
    {
      assert RowAccepted(inv.rows[j], out);
      RawIsFingerprinted(inv.rows[j].raw, out);
    }
    forall i | 0 <= i < |inv.receipts|
      ensures Fingerprinted(inv.receipts[i].raw, out)
      ensures out.receipt(inv.receipts[i].raw.utf8) == Some(ReceiptOf(inv.receipts[i], out))
    {
      assert ReceiptComplete(inv, out, i) && ReceiptAccepted(inv.receipts[i], Corpus(inv), out);
      RawIsFingerprinted(inv.receipts[i].raw, out);
    }
  }

  // ---- Origins ----

  /** The characters from i to j are a part of the path: no slash inside, and a slash or an end on both sides. */
  predicate IsPart(s: string, i: nat, j: nat) {
    && i <= j <= |s|
    && (i == 0 || s[i - 1] == '/') && (j == |s| || s[j] == '/')
    && '/' !in s[i..j]
  }

  predicate GoodPart(part: string) {
    part != "" && part != "." && part != ".."
  }

  ghost predicate GoodParts(s: string) {
    forall i: nat, j: nat :: IsPart(s, i, j) ==> GoodPart(s[i..j])
  }

  lemma NoneInside(s: string, i: nat, j: nat)
    requires i <= j <= |s| && '/' !in s[i..j]
    ensures forall k :: i <= k < j ==> s[k] != '/'
  {
    assert forall k :: i <= k < j ==> s[k] == s[i..j][k - i];
  }

  lemma PartsSplit(part: string, rest: string)
    requires '/' !in part && GoodParts(part + "/" + rest)
    ensures GoodPart(part) && GoodParts(rest)
  {
    var s, n := part + "/" + rest, |part| + 1;
    assert s[..n - 1] == part && s[n - 1] == '/' && s[n..] == rest;
    assert s[0..n - 1] == part;
    assert IsPart(s, 0, n - 1);
    forall i: nat, j: nat | IsPart(rest, i, j)
      ensures GoodPart(rest[i..j])
    {
      assert s[n + i..n + j] == rest[i..j];
      assert i > 0 ==> s[n + i - 1] == rest[i - 1];
      assert j < |rest| ==> s[n + j] == rest[j];
      assert IsPart(s, n + i, n + j);
    }
  }

  lemma PartsJoin(part: string, rest: string)
    requires '/' !in part && GoodPart(part) && GoodParts(rest)
    ensures GoodParts(part + "/" + rest)
  {
    var s, n := part + "/" + rest, |part| + 1;
    assert s[..n - 1] == part && s[n - 1] == '/' && s[n..] == rest;
    assert forall k :: 0 <= k < n - 1 ==> s[k] == part[k] && part[k] in part;
    forall i: nat, j: nat | IsPart(s, i, j)
      ensures GoodPart(s[i..j])
    {
      NoneInside(s, i, j);
      if i < n {
        assert i == 0 && j == n - 1;
        assert s[0..n - 1] == part;
      } else {
        assert s[i..j] == s[n..][i - n..j - n];
        assert i > n ==> s[i - 1] == rest[i - n - 1];
        assert j < |s| ==> s[j] == rest[j - n];
        assert IsPart(rest, i - n, j - n);
      }
    }
  }

  lemma OnePart(part: string)
    requires '/' !in part
    ensures GoodParts(part) <==> GoodPart(part)
  {
    assert part[0..|part|] == part;
    assert IsPart(part, 0, |part|);
    forall i: nat, j: nat | IsPart(part, i, j)
      ensures part[i..j] == part
    {
      assert forall k :: 0 <= k < |part| ==> part[k] in part;
      assert i == 0 && j == |part|;
    }
  }

  lemma {:induction false} SafePartsAreGood(s: string, part: string)
    requires '/' !in part
    ensures SafeParts(s, part) <==> GoodParts(part + s)
    decreases |s|
  {
    if s == [] {
      assert part + s == part;
      OnePart(part);
    } else if s[0] == '/' {
      assert part + s == part + "/" + s[1..];
      SafePartsAreGood(s[1..], "");
      assert "" + s[1..] == s[1..];
      if GoodParts(part + s) {
        PartsSplit(part, s[1..]);
      } else if SafeParts(s, part) {
        PartsJoin(part, s[1..]);
      }
    } else {
      assert part + [s[0]] + s[1..] == part + s;
      SafePartsAreGood(s[1..], part + [s[0]]);
    }
  }

  /** An origin is safe exactly when it has 1 to 512 characters, no backslash, no colon, and no part
      between slashes that is empty, "." or "..". */
  lemma SafeOriginIsPath(origin: string)
    ensures SafeOrigin(origin) <==> 0 < |origin| <= 512 && '\\' !in origin && ':' !in origin && GoodParts(origin)
  {
    assert "" + origin == origin;
    SafePartsAreGood(origin, "");
  }

  // ---- Sources and provenance ----

  /** Every accepted receipt is keyed by its own safe origin and was observed with the bytes it declares;
      nothing about it is pending. */
  lemma ReceiptIsCurrent(inv: Inventory, projectId: string, oldSha256: string, out: Outside, i: nat)
    requires Accepted(inv, projectId, oldSha256, out) && i < |inv.receipts|
    ensures var (o, r) := (inv.receipts[i], ReceiptOf(inv.receipts[i], out));
            && o.origin == r.origin && o.declaredHash == r.sourceHash
            && o.metadataKey == "quality_source:" + out.digest(o.origin)
            && GoodParts(o.origin) && '\\' !in o.origin && ':' !in o.origin
            && !o.pending && !r.pending && r.cleanup == [] && r.legacyAliases == []
            && o.authored == r.authored
            && r.corpusRevision == (match inv.corpusRaw case Some(e) => e.utf8 case None => "")
            && o.status == "metadata_claims_not_ownership_proof"
            && o.fingerprintStatus == "matches_declared_bytes_not_ownership"
            && "" !in r.docIds && (forall k, k' :: 0 <= k < k' < |r.docIds| ==> r.docIds[k] != r.docIds[k'])
            && |o.claimedRuleIds| == |r.rules|
            && (forall k :: 0 <= k < |r.rules| ==> o.claimedRuleIds[k] == r.rules[k].ruleId)
            && (exists j :: 0 <= j < |inv.sources| && inv.sources[j].path == o.origin
                            && inv.sources[j].blake3 == o.declaredHash)
  {
    hide RawBytes, HashString, SafeOrigin, RowSettled, HeaderAccepted, RowsAccepted, RuleAccepted;
    assert ReceiptComplete(inv, out, i);
    SafeOriginIsPath(inv.receipts[i].origin);
  }

  /** The id is "qg-", the category, the origin and a number. */
  predicate Spells(id: string, category: string, origin: string, digits: string) {
    && id == "qg-" + category + ":" + origin + ":" + digits
    && digits != "" && forall k :: 0 <= k < |digits| ==> '0' <= digits[k] <= '9'
  }

  ghost predicate NamesOrigin(id: string, origin: string) {
    exists category, digits ::
      category in {"distilled", "copilot", "coding_rule"} && Spells(id, category, origin, digits)
  }

  lemma CategorySpells(id: string, category: string, origin: string)
    ensures CategoryId(id, category, origin) <==> exists digits :: Spells(id, category, origin, digits)
  {
    var prefix := "qg-" + category + ":" + origin + ":";
    if CategoryId(id, category, origin) {
      var digits := id[|prefix|..];
      assert id == prefix + digits;
      assert Spells(id, category, origin, digits);
    }
    if digits :| Spells(id, category, origin, digits) {
      assert id == prefix + digits && id[|prefix|..] == digits;
    }
  }

  lemma CanonicalNamesOrigin(id: string, origin: string)
    ensures CanonicalId(id, origin) <==> NamesOrigin(id, origin)
  {
    hide CategoryId, Spells;
    CategorySpells(id, "distilled", origin);
    CategorySpells(id, "copilot", origin);
    CategorySpells(id, "coding_rule", origin);
  }

  /** Every accepted row is either declared manual by its own provenance, or its id and provenance name
      the origin of the one receipt that claims it. */
  lemma AuthorityIsDeclared(inv: Inventory, projectId: string, oldSha256: string, out: Outside, j: nat)
    requires Accepted(inv, projectId, oldSha256, out) && j < |inv.rows|
    ensures var o := inv.rows[j];
            && o.enforcement == "retained_unfiltered_registry_constraint"
            && (|| (o.authority == "accepted_manual"
                    && o.ownershipStatus == "no_receipt_claim_explicit_decision_required"
                    && o.claimStatus == "no_parsed_claim_occurrences"
                    && o.decoded.provenance in {Some("manual"), Some("user-authored"), Some("manual repository rule")})
                || (o.authority == "source_reference"
                    && o.ownershipStatus == "single_claim_requires_source_and_row_review"
                    && o.claimStatus == "one_declared_claim_not_ownership_proof"
                    && exists i: nat, k: nat ::
                         && SoleClaim(inv, out, o, i, k)
                         && o.decoded.provenance == Some("quality-gate source: " + inv.receipts[i].origin)
                         && NamesOrigin(o.ruleId, inv.receipts[i].origin)))
  {
    hide HeaderAccepted, SourcesAccepted, KeysDistinct, RawBytes, RuleValid, CanonicalId, SafeOrigin, HashString;
    var o := inv.rows[j];
    assert RowSettled(inv, out, o) && RowAccepted(o, out);
    RowHasOneOwner(inv, projectId, oldSha256, out, j);
    if !IsManual(o) {
      var i: nat, k: nat :| SoleClaim(inv, out, o, i, k);
      assert ReceiptComplete(inv, out, i) && RuleAccepted(inv, out, i, k);
      CanonicalNamesOrigin(o.ruleId, inv.receipts[i].origin);
    } else {
      assert !Claimed(inv, out, o.ruleId);
    }
  }

  /** Sixty-four hexadecimal digits, in any case. */
  predicate IsHash(s: string) {
    |s| == 64 && forall k :: 0 <= k < 64 ==> '0' <= s[k] <= '9' || 'a' <= s[k] <= 'f' || 'A' <= s[k] <= 'F'
  }

  lemma HashStringIsHash()
    ensures forall s :: HashString(s) <==> IsHash(s)
  {
  }

  predicate HasRow(inv: Inventory, id: string) {
    exists j :: 0 <= j < |inv.rows| && inv.rows[j].ruleId == id
  }

  /** Nothing in an accepted inventory is left open, oversized or written: counts are bounded, every rule
      is filled in and in range, and every source is completely fingerprinted, under its own path. */
  lemma AcceptedIsComplete(inv: Inventory, projectId: string, oldSha256: string, out: Outside)
    requires Accepted(inv, projectId, oldSha256, out)
    ensures inv.projectId == projectId && inv.epoch > 0 && !inv.adoptionPerformed && inv.filesWritten == 0
    ensures inv.unresolvedClaimKeys == [] && inv.enforcementNotes == []
    ensures inv.status == "ownership_inventory_only_requires_explicit_decisions"
    ensures inv.identityStatus == "existing_epoch_observed" && IsHash(inv.snapshot)
    ensures forall j :: 0 <= j < |inv.rows| ==> inv.rows[j].status == "decoded_without_rewriting_raw_row"
    ensures |inv.rows| <= 2048 && |inv.receipts| <= 256 && |inv.sources| <= 64
    ensures forall j :: 0 <= j < |inv.rows| ==>
              var rule := inv.rows[j].decoded;
              && rule.ruleId != "" && rule.filePattern != "" && rule.ruleText != ""
              && -2_147_483_648 <= rule.priority <= 2_147_483_647
              && 0 <= rule.updatedAtMs <= 18_446_744_073_709_551_615
    ensures forall j :: 0 <= j < |inv.sources| ==>
              && IsHash(inv.sources[j].blake3) && inv.sources[j].status == "complete_raw_fingerprint"
              && 0 <= inv.sources[j].bytes <= 4_194_304
              && forall j' :: 0 <= j' < j ==> inv.sources[j'].path != inv.sources[j].path
    ensures forall i, id :: 0 <= i < |inv.receipts| && id in inv.receipts[i].claimedRuleIds ==> HasRow(inv, id)
  {
    hide RawBytes, SafeOrigin, HashString, IsHash, RowSettled, ReceiptAccepted, SourceObserved, SourceRule;
    HashStringIsHash();
    assert forall j :: 0 <= j < |inv.rows| ==> RowAccepted(inv.rows[j], out);
    assert forall j :: 0 <= j < |inv.sources| ==> SourceAccepted(inv.sources[j]);
    forall i, id | 0 <= i < |inv.receipts| && id in inv.receipts[i].claimedRuleIds
      ensures HasRow(inv, id)
    {
      assert ReceiptComplete(inv, out, i);
      var k :| 0 <= k < |inv.receipts[i].claimedRuleIds| && inv.receipts[i].claimedRuleIds[k] == id;
      assert RuleIds(Rules(inv, out, i))[k] == id;
      var j := ClaimHasRow(inv, projectId, oldSha256, out, i, k, id);
    }
  }
}
