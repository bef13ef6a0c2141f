/** The edit workload cycles over all files but the last; its verifier computes in closed form which
    revision each file must have: eval/edit_resource_workload.py and
    eval/edit_collection_resource_workload.py. */
module EditCycle {

  // ---- The edits ----

  /** The revision that file `number` has after `edits` edits cycling over `cycle` files. */
  function LastWrite(cycle: nat, edits: nat, number: nat): (revision: nat)
    requires cycle > 0
    ensures revision <= edits
  {
    if edits == 0 then 0
    else if (edits - 1) % cycle == number then edits
    else LastWrite(cycle, edits - 1, number)
  }

  class Workload {

    /** The revision that each source file's text declares. */
    const content: array<nat>

    constructor (files: nat)
      requires 2 <= files <= 2000
      ensures fresh(content) && content.Length == files
      ensures forall n :: 0 <= n < files ==> content[n] == 0
    {
      content := new nat[files](_ => 0);
    }

    method RunEdits(edits: nat)
      requires 2 <= content.Length <= 2000 && forall n :: 0 <= n < content.Length ==> content[n] == 0
      modifies content
      ensures forall n :: 0 <= n < content.Length ==> content[n] == LastWrite(content.Length - 1, edits, n)
    {
      for revision := 1 to edits + 1
        invariant forall n :: 0 <= n < content.Length ==> content[n] == LastWrite(content.Length - 1, revision - 1, n)
      {
        var number := (revision - 1) % (content.Length - 1);
        content[number] := revision;
      }
    }
  }

  // ---- The verifier's formula ----

  const FILES := 51
  const CYCLE := 50

  function Expected(latest: nat, number: nat): int {
    if number < 50 && latest > number then (latest - 1 - number) / 50 * 50 + number + 1 else 0
  }

  function Previous(revision: int): int {
    if revision - 50 > 0 then revision - 50 else 0
  }

  /** The closed form is the loop. */
  lemma {:induction false} ExpectedIsLastWrite(latest: nat, number: nat)
    ensures Expected(latest, number) == LastWrite(CYCLE, latest, number)
    decreases latest
  {
    if latest > 0 {
      ExpectedIsLastWrite(latest - 1, number);
      if number < 50 && latest > number {
        ExpectedStep(latest, number);
      } else {
        SmallRemainder(latest - 1, number);
      }
    }
  }

  lemma ExpectedStep(latest: nat, number: nat)
    requires number < 50 && latest > number
    ensures Expected(latest, number) == if (latest - 1) % 50 == number then latest else Expected(latest - 1, number)
  {
    var q, r := (latest - 1 - number) / 50, (latest - 1 - number) % 50;
    assert latest - 1 - number == 50 * q + r;
  }

  lemma SmallRemainder(n: nat, number: nat)
    requires number >= 50 || n < number
    ensures n % 50 != number
  {
  }

  /** Between two writes of a file there are exactly fifty edits. */
  lemma {:induction false} PreviousIsEarlierWrite(latest: nat, number: nat)
    requires Expected(latest, number) > 0
    ensures Previous(Expected(latest, number)) == LastWrite(CYCLE, (Expected(latest, number) - 1) as nat, number)
  {
    var revision := Expected(latest, number);
    ExpectedIsLastWrite((revision - 1) as nat, number);
    var q := (latest - 1 - number) / 50;
    assert revision == 50 * q + number + 1;
    if q > 0 {
      assert (revision - 1 - 1 - number) / 50 == q - 1;
    }
  }

  /** The last file is never written. */
  lemma LastFileUntouched(latest: nat)
    ensures LastWrite(CYCLE, latest, FILES - 1) == 0
  {
    ExpectedIsLastWrite(latest, FILES - 1);
  }

  // ---- The verifier ----

  /** Whether the answer to the query for one revision of a file shows the declaration of another. */
  type Search = (nat, int, int) -> bool

  /** Queries for the current texts are answered, and nothing but current declarations is shown. */
  ghost predicate Current(search: Search, latest: nat) {
    && (forall number: nat :: number < FILES ==>
          search(number, LastWrite(CYCLE, latest, number), LastWrite(CYCLE, latest, number)))
    && (forall number: nat, asked: int, shown: int :: number < FILES && search(number, asked, shown) ==>
          shown == LastWrite(CYCLE, latest, number))
  }

  /** The lexical search is asked for the last writing and for the one before; the vector search is
      asked for the last writing only, and its answer must not show the one before. */
  predicate FileVerified(lexical: Search, vector: Search, latest: nat, number: nat) {
    var revision := LastWrite(CYCLE, latest, number);
    && lexical(number, revision, revision) && vector(number, revision, revision)
    && (revision > 0 ==>
          var earlier := LastWrite(CYCLE, revision - 1, number);
          !lexical(number, earlier, earlier) && !vector(number, revision, earlier))
  }

  /** verify_all: accepts exactly when every file passes, and then reports the last revisions. */
  method VerifyAll(lexical: Search, vector: Search, latest: nat) returns (ok: bool, checked: seq<int>)
    ensures ok <==> forall number :: 0 <= number < FILES ==> FileVerified(lexical, vector, latest, number)
    ensures ok ==> |checked| == FILES && forall n :: 0 <= n < FILES ==> checked[n] == LastWrite(CYCLE, latest, n)
  {
    checked := [];
    for number := 0 to 51
      invariant forall n :: 0 <= n < number ==> FileVerified(lexical, vector, latest, n)
      invariant |checked| == number && forall n :: 0 <= n < number ==> checked[n] == LastWrite(CYCLE, latest, n)
    {
      var revision := Expected(latest, number);
      ExpectedIsLastWrite(latest, number);
      if !lexical(number, revision, revision) {
        assert !FileVerified(lexical, vector, latest, number);
        return false, checked;
      }
      var previous := 0;
      if revision != 0 {
        PreviousIsEarlierWrite(latest, number);
        previous := Previous(revision);
        if lexical(number, previous, previous) {
          assert !FileVerified(lexical, vector, latest, number);
          return false, checked;
        }
      }
      if !vector(number, revision, revision) {
        assert !FileVerified(lexical, vector, latest, number);
        return false, checked;
      }
      if revision != 0 && vector(number, revision, previous) {
        assert !FileVerified(lexical, vector, latest, number);
        return false, checked;
      }
      checked := checked + [revision];
    }
    ok := true;
  }

  /** Searches over the texts after some number of edits pass for that number of edits. */
  lemma CurrentIsAccepted(lexical: Search, vector: Search, latest: nat)
    requires Current(lexical, latest) && Current(vector, latest)
    ensures forall number :: 0 <= number < FILES ==> FileVerified(lexical, vector, latest, number)
  {
    forall number | 0 <= number < FILES
      ensures FileVerified(lexical, vector, latest, number)
    {
      var revision := LastWrite(CYCLE, latest, number);
      if revision > 0 {
        assert LastWrite(CYCLE, revision - 1, number) <= revision - 1;
      }
    }
  }

  /** They are refused, on the file of the last edit, if they missed that one. */
  lemma StaleIsRefused(lexical: Search, vector: Search, latest: nat)
    requires Current(lexical, latest) || Current(vector, latest)
    ensures !FileVerified(lexical, vector, latest + 1, latest % CYCLE)
  {
    assert LastWrite(CYCLE, latest + 1, latest % CYCLE) == latest + 1;
  }
}
