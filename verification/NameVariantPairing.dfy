/** Crediting renamed files: candidate generation, greedy pairing and the two F1 columns of
    eval/_armb_score.py. */
module NameVariantPairing {

  import opened Sets

  /** Similarity, a proposed file that is not in the change, a changed file that was not proposed. */
  datatype Candidate = Candidate(ratio: real, proposed: string, actual: string)

  type Similarity = (string, string) -> real

  // ---- Candidates ----

  function FirstDot(name: string): nat {
    if name == [] || name[0] == '.' then 0 else 1 + FirstDot(name[1..])
  }

  lemma FirstDotWithin(name: string)
    ensures FirstDot(name) <= |name|
  {
  }

  /** Stem and extension, split at the first dot. */
  function StemExt(name: string): (string, string) {
    FirstDotWithin(name);
    var d := FirstDot(name);
    if d < |name| then (name[..d], name[d + 1..]) else (name, "")
  }

  /** The stem is everything before the first dot, the extension everything after it. */
  lemma {:induction false} StemEndsAtFirstDot(name: string)
    ensures '.' !in StemExt(name).0
    ensures '.' in name ==> name == StemExt(name).0 + "." + StemExt(name).1
    ensures '.' !in name ==> StemExt(name) == (name, "")
  {
    FirstDotWithin(name);
    FirstDotIsFirst(name);
    var d := FirstDot(name);
    if d < |name| {
      assert name == name[..d] + [name[d]] + name[d + 1..];
    }
  }

  lemma {:induction false} FirstDotIsFirst(name: string)
    ensures forall i :: 0 <= i < FirstDot(name) && i < |name| ==> name[i] != '.'
    ensures FirstDot(name) < |name| ==> name[FirstDot(name)] == '.'
  {
    if name != [] && name[0] != '.' {
      FirstDotIsFirst(name[1..]);
      assert forall i :: 1 <= i < |name| ==> name[i] == name[1..][i - 1];
    }
  }

  /** n is the length of the longest common prefix. */
  ghost predicate IsCommonPrefix(a: string, b: string, n: nat) {
    && n <= |a| && n <= |b|
    && (forall k :: 0 <= k < n ==> a[k] == b[k])
    && (n < |a| && n < |b| ==> a[n] != b[n])
  }

  method CommonPrefixLen(a: string, b: string) returns (n: nat)
    ensures IsCommonPrefix(a, b, n)
  {
    n := 0;
    while n < |a| && n < |b|
      invariant n <= |a| && n <= |b| && forall k :: 0 <= k < n ==> a[k] == b[k]
    {
      if a[n] != b[n] {
        break;
      }
      n := n + 1;
    }
  }

  /** Same extension, and similar stems or a shared prefix of at least six characters. */
  ghost predicate Plausible(f: string, g: string, similarity: Similarity) {
    && StemExt(f).1 == StemExt(g).1
    && (|| similarity(StemExt(f).0, StemExt(g).0) >= 0.6
        || exists n :: n >= 6 && IsCommonPrefix(StemExt(f).0, StemExt(g).0, n))
  }

  /** A plausible pair with the similarity of its stems. */
  ghost predicate IsCandidate(c: Candidate, similarity: Similarity) {
    && Plausible(c.proposed, c.actual, similarity)
    && c.ratio == similarity(StemExt(c.proposed).0, StemExt(c.actual).0)
  }

  ghost predicate CandidatesUpTo(cs: seq<Candidate>, fp: seq<string>, fn: seq<string>, i: nat, j: nat,
                                 similarity: Similarity) {
    && (forall c :: c in cs ==> c.proposed in fp && c.actual in fn && IsCandidate(c, similarity))
    && (forall x, y | 0 <= x < |fp| && 0 <= y < |fn| && (x < i || (x == i && y < j)) ::
          Plausible(fp[x], fn[y], similarity) ==>
            Candidate(similarity(StemExt(fp[x]).0, StemExt(fn[y]).0), fp[x], fn[y]) in cs)
  }

  method Candidates(fp: seq<string>, fn: seq<string>, similarity: Similarity) returns (cs: seq<Candidate>)
    ensures forall c :: c in cs <==> c.proposed in fp && c.actual in fn && IsCandidate(c, similarity)
  {
    cs := [];
    for i := 0 to |fp|
      invariant CandidatesUpTo(cs, fp, fn, i, 0, similarity)
    {
      for j := 0 to |fn|
        invariant CandidatesUpTo(cs, fp, fn, i, j, similarity)
      {
        var (fs, fe) := StemExt(fp[i]);
        var (gs, ge) := StemExt(fn[j]);
        if fe == ge {
          var n := CommonPrefixLen(fs, gs);
          CommonPrefixUnique(fs, gs, n);
          if similarity(fs, gs) >= 0.6 || n >= 6 {
            cs := cs + [Candidate(similarity(fs, gs), fp[i], fn[j])];
          }
        }
      }
    }
  }

  lemma CommonPrefixUnique(a: string, b: string, n: nat)
    requires IsCommonPrefix(a, b, n)
    ensures forall m: nat :: IsCommonPrefix(a, b, m) ==> m == n
  {
  }

  // ---- Sorting, best first ----

  function LexGreater(a: string, b: string): bool {
    if a == [] then false
    else if b == [] then true
    else a[0] > b[0] || (a[0] == b[0] && LexGreater(a[1..], b[1..]))
  }

  /** Tuple comparison: ratio, then the proposed name, then the actual name. */
  predicate Above(a: Candidate, b: Candidate) {
    || a.ratio > b.ratio
    || (a.ratio == b.ratio
        && (LexGreater(a.proposed, b.proposed)
            || (a.proposed == b.proposed && LexGreater(a.actual, b.actual))))
  }

  /** The first difference decides: a larger character, or the other string's end. */
  ghost predicate Later(a: string, b: string) {
    exists k :: 0 <= k < |a| && k <= |b| && a[..k] == b[..k] && (k < |b| ==> a[k] > b[k])
  }

  lemma {:induction false} LexGreaterIsLater(a: string, b: string)
    ensures LexGreater(a, b) <==> Later(a, b)
  {
    if a != [] && b != [] {
      LexGreaterIsLater(a[1..], b[1..]);
      if a[0] == b[0] {
        if k :| 0 <= k < |a[1..]| && k <= |b[1..]| && a[1..][..k] == b[1..][..k]
                && (k < |b[1..]| ==> a[1..][k] > b[1..][k]) {
          assert a[..k + 1] == [a[0]] + a[1..][..k] && b[..k + 1] == [b[0]] + b[1..][..k];
          assert a[k + 1] == a[1..][k] && (k < |b[1..]| ==> b[k + 1] == b[1..][k]);
        }
        if k :| 0 <= k < |a| && k <= |b| && a[..k] == b[..k] && (k < |b| ==> a[k] > b[k]) {
          assert k > 0 && a[1..][..k - 1] == a[..k][1..] && b[1..][..k - 1] == b[..k][1..];
        }
      } else if a[0] > b[0] {
        assert a[..0] == b[..0];
      } else if k :| 0 <= k < |a| && k <= |b| && a[..k] == b[..k] && (k < |b| ==> a[k] > b[k]) {
        assert k > 0 ==> a[..k][0] == b[..k][0];
      }
    } else if a != [] {
      assert a[..0] == b[..0];
    }
  }

  lemma {:induction false} LexOrder(a: string, b: string, c: string)
    ensures a == b || LexGreater(a, b) || LexGreater(b, a)
    ensures LexGreater(a, b) && LexGreater(b, c) ==> LexGreater(a, c)
  {
    if a != [] && b != [] {
      LexOrder(a[1..], b[1..], if c == [] then [] else c[1..]);
      if a[0] == b[0] && a[1..] == b[1..] {
        assert a == [a[0]] + a[1..] && b == [b[0]] + b[1..];
      }
    }
  }

  lemma AboveOrder(a: Candidate, b: Candidate, c: Candidate)
    ensures a == b || Above(a, b) || Above(b, a)
    ensures Above(a, b) && Above(b, c) ==> Above(a, c)
  {
    hide LexGreater;
    LexOrder(a.proposed, b.proposed, c.proposed);
    LexOrder(a.actual, b.actual, c.actual);
  }

  function Insert(c: Candidate, cs: seq<Candidate>): seq<Candidate> {
    if cs == [] || Above(c, cs[0]) then [c] + cs else [cs[0]] + Insert(c, cs[1..])
  }

  function Sorted(cs: seq<Candidate>): seq<Candidate> {
    if cs == [] then [] else Insert(cs[0], Sorted(cs[1..]))
  }

  ghost predicate Descending(cs: seq<Candidate>) {
    cs == [] || ((forall c :: c in cs[1..] ==> c.ratio <= cs[0].ratio) && Descending(cs[1..]))
  }

  lemma {:induction false} InsertMembers(c: Candidate, cs: seq<Candidate>)
    ensures forall x :: x in Insert(c, cs) <==> x == c || x in cs
    ensures multiset(Insert(c, cs)) == multiset(cs) + multiset{c}
  {
    if cs != [] && !Above(c, cs[0]) {
      InsertMembers(c, cs[1..]);
      assert cs == [cs[0]] + cs[1..];
    }
  }

  lemma {:induction false} InsertKeeps(c: Candidate, cs: seq<Candidate>)
    requires Descending(cs)
    ensures Descending(Insert(c, cs))
  {
    if cs != [] && !Above(c, cs[0]) {
      InsertKeeps(c, cs[1..]);
      InsertMembers(c, cs[1..]);
      assert ([cs[0]] + Insert(c, cs[1..]))[1..] == Insert(c, cs[1..]);
    } else {
      assert ([c] + cs)[1..] == cs;
      assert forall x :: x in cs ==> x == cs[0] || x in cs[1..];
    }
  }

  lemma {:induction false} SortedKeeps(cs: seq<Candidate>)
    ensures Descending(Sorted(cs)) && multiset(Sorted(cs)) == multiset(cs)
  {
    if cs != [] {
      SortedKeeps(cs[1..]);
      InsertKeeps(cs[0], Sorted(cs[1..]));
      InsertMembers(cs[0], Sorted(cs[1..]));
      assert cs == [cs[0]] + cs[1..];
    }
  }

  predicate Ordered(cs: seq<Candidate>) {
    forall i, j :: 0 <= i < j < |cs| ==> cs[i] == cs[j] || Above(cs[i], cs[j])
  }

  lemma {:induction false} InsertOrdered(c: Candidate, cs: seq<Candidate>)
    requires Ordered(cs)
    ensures Ordered(Insert(c, cs))
  {
    hide Above;
    var all := Insert(c, cs);
    if cs != [] && !Above(c, cs[0]) {
      var rest := cs[1..];
      InsertOrdered(c, rest);
      InsertMembers(c, rest);
      forall i, j | 0 <= i < j < |all|
        ensures all[i] == all[j] || Above(all[i], all[j])
      {
        assert all[1..] == Insert(c, rest) && all[j] == all[1..][j - 1];
        if i == 0 {
          AboveOrder(cs[0], c, c);
          assert all[j] in Insert(c, rest);
          if all[j] != c {
            var k :| 0 <= k < |rest| && rest[k] == all[j];
            assert cs[k + 1] == all[j];
          }
        } else {
          assert all[i] == all[1..][i - 1];
        }
      }
    } else {
      forall i, j | 0 <= i < j < |all|
        ensures all[i] == all[j] || Above(all[i], all[j])
      {
        assert all == [c] + cs;
        if i == 0 {
          AboveOrder(c, cs[0], all[j]);
          assert j - 1 == 0 || cs[0] == cs[j - 1] || Above(cs[0], cs[j - 1]);
        }
      }
    }
  }

  lemma {:induction false} SortedOrdered(cs: seq<Candidate>)
    ensures Ordered(Sorted(cs))
  {
    if cs != [] {
      SortedOrdered(cs[1..]);
      InsertOrdered(cs[0], Sorted(cs[1..]));
    }
  }

  /** The sort is descending by similarity, then by the proposed and then by the actual name. */
  lemma SortedDescends(cs: seq<Candidate>, i: nat, j: nat)
    requires i < j < |Sorted(cs)|
    ensures var a, b := Sorted(cs)[i], Sorted(cs)[j];
            || a.ratio > b.ratio
            || (a.ratio == b.ratio && Later(a.proposed, b.proposed))
            || (a.ratio == b.ratio && a.proposed == b.proposed && (a.actual == b.actual || Later(a.actual, b.actual)))
    ensures multiset(Sorted(cs)) == multiset(cs)
  {
    SortedOrdered(cs);
    SortedKeeps(cs);
    var a, b := Sorted(cs)[i], Sorted(cs)[j];
    LexGreaterIsLater(a.proposed, b.proposed);
    LexGreaterIsLater(a.actual, b.actual);
  }

  // ---- Greedy pairing ----

  function Greedy(cs: seq<Candidate>, usedProposed: set<string>, usedActual: set<string>): seq<Candidate> {
    if cs == [] then []
    else if cs[0].proposed in usedProposed || cs[0].actual in usedActual then
      Greedy(cs[1..], usedProposed, usedActual)
    else
      [cs[0]] + Greedy(cs[1..], usedProposed + {cs[0].proposed}, usedActual + {cs[0].actual})
  }

  method Pair(candidates: seq<Candidate>) returns (pairs: seq<Candidate>)
    ensures pairs == Greedy(Sorted(candidates), {}, {})
  {
    var sorted := Sorted(candidates);
    var usedProposed: set<string>, usedActual: set<string> := {}, {};
    pairs := [];
    for i := 0 to |sorted|
      invariant Greedy(sorted, {}, {}) == pairs + Greedy(sorted[i..], usedProposed, usedActual)
    {
      var c := sorted[i];
      assert sorted[i..][0] == c && sorted[i..][1..] == sorted[i + 1..];
      if c.proposed !in usedProposed && c.actual !in usedActual {
        pairs := pairs + [c];
        usedProposed, usedActual := usedProposed + {c.proposed}, usedActual + {c.actual};
      }
    }
  }

  /** No two pairs share a proposed or an actual name. */
  ghost predicate IsMatching(m: seq<Candidate>) {
    m == [] || ((forall c :: c in m[1..] ==> c.proposed != m[0].proposed && c.actual != m[0].actual)
                && IsMatching(m[1..]))
  }

  ghost predicate Avoids(m: seq<Candidate>, usedProposed: set<string>, usedActual: set<string>) {
    forall c :: c in m ==> c.proposed !in usedProposed && c.actual !in usedActual
  }

  function Weight(m: seq<Candidate>): real {
    if m == [] then 0.0 else m[0].ratio + Weight(m[1..])
  }

  lemma {:induction false} GreedyIsMatching(cs: seq<Candidate>, usedProposed: set<string>, usedActual: set<string>)
    ensures var pairs := Greedy(cs, usedProposed, usedActual);
            && IsMatching(pairs) && Avoids(pairs, usedProposed, usedActual)
            && forall c :: c in pairs ==> c in cs
  {
    if cs != [] {
      if cs[0].proposed in usedProposed || cs[0].actual in usedActual {
        GreedyIsMatching(cs[1..], usedProposed, usedActual);
      } else {
        GreedyIsMatching(cs[1..], usedProposed + {cs[0].proposed}, usedActual + {cs[0].actual});
      }
    }
  }

  /** No candidate can be added: one of its ends is already used. */
  lemma {:induction false} GreedyIsMaximal(cs: seq<Candidate>, usedProposed: set<string>, usedActual: set<string>,
                                           c: Candidate)
    requires c in cs
    ensures || c.proposed in usedProposed || c.actual in usedActual
            || exists p :: p in Greedy(cs, usedProposed, usedActual)
                           && (p.proposed == c.proposed || p.actual == c.actual)
  {
    var pairs := Greedy(cs, usedProposed, usedActual);
    if cs[0].proposed in usedProposed || cs[0].actual in usedActual {
      if c != cs[0] {
        GreedyIsMaximal(cs[1..], usedProposed, usedActual, c);
      }
    } else {
      assert pairs[0] == cs[0] && cs[0] in pairs;
      if c != cs[0] && c.proposed != cs[0].proposed && c.actual != cs[0].actual {
        GreedyIsMaximal(cs[1..], usedProposed + {cs[0].proposed}, usedActual + {cs[0].actual}, c);
        if c.proposed !in usedProposed && c.actual !in usedActual {
          var p :| p in Greedy(cs[1..], usedProposed + {cs[0].proposed}, usedActual + {cs[0].actual})
                   && (p.proposed == c.proposed || p.actual == c.actual);
          assert p in pairs;
        }
      }
    }
  }

  // ---- At least half of any matching ----

  /** The matching without the pair, if any, that uses a proposed name. */
  function DropProposed(m: seq<Candidate>, name: string): seq<Candidate> {
    if m == [] then []
    else if m[0].proposed == name then m[1..]
    else [m[0]] + DropProposed(m[1..], name)
  }

  function DropActual(m: seq<Candidate>, name: string): seq<Candidate> {
    if m == [] then []
    else if m[0].actual == name then m[1..]
    else [m[0]] + DropActual(m[1..], name)
  }

  lemma {:induction false} DropProposedMembers(m: seq<Candidate>, name: string)
    requires IsMatching(m)
    ensures forall c :: c in DropProposed(m, name) ==> c in m && c.proposed != name
    ensures IsMatching(DropProposed(m, name))
  {
    if m != [] && m[0].proposed != name {
      DropProposedMembers(m[1..], name);
      assert ([m[0]] + DropProposed(m[1..], name))[1..] == DropProposed(m[1..], name);
    }
  }

  lemma {:induction false} DropProposedCost(m: seq<Candidate>, name: string, limit: real)
    requires limit >= 0.0 && forall c :: c in m ==> c.ratio <= limit
    ensures |m| <= 1 + |DropProposed(m, name)| && Weight(m) <= limit + Weight(DropProposed(m, name))
  {
    if m != [] {
      assert m[0] in m;
      if m[0].proposed != name {
        DropProposedCost(m[1..], name, limit);
        assert ([m[0]] + DropProposed(m[1..], name))[1..] == DropProposed(m[1..], name);
      }
    }
  }

  lemma {:induction false} DropActualMembers(m: seq<Candidate>, name: string)
    requires IsMatching(m)
    ensures forall c :: c in DropActual(m, name) ==> c in m && c.actual != name
    ensures IsMatching(DropActual(m, name))
  {
    if m != [] && m[0].actual != name {
      DropActualMembers(m[1..], name);
      assert ([m[0]] + DropActual(m[1..], name))[1..] == DropActual(m[1..], name);
    }
  }

  lemma {:induction false} DropActualCost(m: seq<Candidate>, name: string, limit: real)
    requires limit >= 0.0 && forall c :: c in m ==> c.ratio <= limit
    ensures |m| <= 1 + |DropActual(m, name)| && Weight(m) <= limit + Weight(DropActual(m, name))
  {
    if m != [] {
      assert m[0] in m;
      if m[0].actual != name {
        DropActualCost(m[1..], name, limit);
        assert ([m[0]] + DropActual(m[1..], name))[1..] == DropActual(m[1..], name);
      }
    }
  }

  /** Taking out whatever conflicts with one pair costs at most two pairs and twice its similarity. */
  lemma DropPair(m: seq<Candidate>, best: Candidate) returns (rest: seq<Candidate>)
    requires IsMatching(m) && best.ratio >= 0.0 && forall c :: c in m ==> c.ratio <= best.ratio
    ensures IsMatching(rest)
    ensures forall c :: c in rest ==> c in m && c.proposed != best.proposed && c.actual != best.actual
    ensures |m| <= 2 + |rest| && Weight(m) <= 2.0 * best.ratio + Weight(rest)
  {
    DropProposedMembers(m, best.proposed);
    DropProposedCost(m, best.proposed, best.ratio);
    var fewer := DropProposed(m, best.proposed);
    DropActualMembers(fewer, best.actual);
    DropActualCost(fewer, best.actual, best.ratio);
    rest := DropActual(fewer, best.actual);
  }

  lemma HasMember(m: seq<Candidate>)
    ensures m == [] || m[0] in m
  {
  }

  /** Any matching of the candidates has at most twice as many pairs and twice the similarity. */
  lemma {:induction false} GreedyIsHalfOptimal(cs: seq<Candidate>, usedProposed: set<string>,
                                               usedActual: set<string>, m: seq<Candidate>)
    requires Descending(cs) && forall c :: c in cs ==> c.ratio >= 0.0
    requires IsMatching(m) && Avoids(m, usedProposed, usedActual) && forall c :: c in m ==> c in cs
    ensures |m| <= 2 * |Greedy(cs, usedProposed, usedActual)|
    ensures Weight(m) <= 2.0 * Weight(Greedy(cs, usedProposed, usedActual))
  {
    if cs == [] {
      HasMember(m);
    } else if cs[0].proposed in usedProposed || cs[0].actual in usedActual {
      assert forall c :: c in m ==> c != cs[0] && c in cs[1..];
      GreedyIsHalfOptimal(cs[1..], usedProposed, usedActual, m);
    } else {
      var best := cs[0];
      assert best in cs;
      forall c | c in m
        ensures c.ratio <= best.ratio
      {
        assert c == best || c in cs[1..];
      }
      var m2 := DropPair(m, best);
      var p, a := usedProposed + {best.proposed}, usedActual + {best.actual};
      GreedyIsHalfOptimal(cs[1..], p, a, m2);
      assert Greedy(cs, usedProposed, usedActual)[1..] == Greedy(cs[1..], p, a);
    }
  }

  // ---- The two F1 columns ----

  function Ratio(part: nat, whole: nat): real {
    if whole == 0 then 0.0 else part as real / whole as real
  }

  function F1(hits: nat, proposed: nat, actual: nat): real {
    var p, r := Ratio(hits, proposed), Ratio(hits, actual);
    if p + r == 0.0 then 0.0 else 2.0 * p * r / (p + r)
  }

  lemma HarmonicMean(h: real, p: real, r: real)
    requires h > 0.0 && p > 0.0 && r > 0.0
    ensures 2.0 * (h / p) * (h / r) / (h / p + h / r) == 2.0 * h / (p + r)
  {
    var x, y := h / p, h / r;
    assert x * p == h && y * r == h;
    assert x > 0.0 && y > 0.0;
    // x * y * (p + r) == h * (x + y)
    assert x * y * (p + r) == (x * p) * y + x * (y * r);
    assert (x * p) * y + x * (y * r) == h * y + x * h;
    assert h * y + x * h == h * (x + y);
    var s, t := x + y, p + r;
    assert (2.0 * x * y) * t == (2.0 * h) * s;
    CrossMultiply(2.0 * x * y, s, 2.0 * h, t);
  }

  lemma CrossMultiply(a: real, b: real, c: real, d: real)
    requires b > 0.0 && d > 0.0 && a * d == c * b
    ensures a / b == c / d
  {
    assert (a / b) * b == a;
    assert (c / d) * d == c;
    var q, k := a / b, c / d;
    assert q * b * d == k * d * b;
    assert (q - k) * (b * d) == 0.0;
    assert b * d > 0.0;
  }

  /** F1 is the Dice coefficient of the two file sets. */
  lemma F1IsDice(hits: nat, proposed: nat, actual: nat)
    requires hits <= proposed && hits <= actual
    ensures F1(hits, proposed, actual) == if hits == 0 then 0.0 else 2.0 * hits as real / (proposed + actual) as real
  {
    if hits > 0 {
      HarmonicMean(hits as real, proposed as real, actual as real);
      assert hits as real / proposed as real > 0.0;
      assert hits as real / actual as real > 0.0;
      assert (proposed + actual) as real == proposed as real + actual as real;
    }
  }

  lemma DiceMonotone(a: nat, b: nat, total: nat)
    requires a <= b && 2 * b <= total && total > 0
    ensures 2.0 * a as real / total as real <= 2.0 * b as real / total as real <= 1.0
  {
    var x, y, t := 2.0 * a as real, 2.0 * b as real, total as real;
    DivideMonotone(x, y, t);
    DivideMonotone(y, t, t);
    assert t / t == 1.0;
  }

  lemma DivideMonotone(x: real, y: real, d: real)
    requires x <= y && d > 0.0
    ensures x / d <= y / d
  {
    var q, k := x / d, y / d;
    assert q * d == x && k * d == y;
    assert (k - q) * d >= 0.0;
  }

  lemma TolerantWithinBounds(hits: nat, pairs: nat, proposed: nat, actual: nat)
    requires hits + pairs <= proposed && hits + pairs <= actual
    ensures 0.0 <= F1(hits, proposed, actual) <= F1(hits + pairs, proposed, actual) <= 1.0
  {
    F1IsDice(hits, proposed, actual);
    F1IsDice(hits + pairs, proposed, actual);
    if proposed + actual > 0 {
      DiceMonotone(hits, hits + pairs, proposed + actual);
      DiceMonotone(0, hits, proposed + actual);
    }
  }

  // ---- The whole scoring ----

  method ListOf(names: set<string>) returns (list: seq<string>)
    ensures forall x :: x in list <==> x in names
  {
    list := [];
    var todo := names;
    while todo != {}
      invariant todo <= names
      invariant forall x :: x in list <==> x in names && x !in todo
    {
      var x := Pick(todo);
      list := list + [x];
      todo := todo - {x};
    }
  }

  lemma {:induction false} DistinctCount(m: seq<Candidate>, fp: set<string>, fn: set<string>)
    requires IsMatching(m) && forall c :: c in m ==> c.proposed in fp && c.actual in fn
    ensures |m| <= |fp| && |m| <= |fn|
  {
    if m != [] {
      assert m[0] in m;
      DistinctCount(m[1..], fp - {m[0].proposed}, fn - {m[0].actual});
    }
  }

  /** A maximal matching of the plausible pairs, with at least half of what any could credit. */
  method CreditedPairs(proposed: set<string>, actual: set<string>, similarity: Similarity)
    returns (pairs: seq<Candidate>)
    requires forall a, b :: similarity(a, b) >= 0.0
    ensures IsMatching(pairs) && AllCreditable(pairs, proposed, actual, similarity)
    ensures IsMaximal(pairs, proposed, actual, similarity)
    ensures IsHalfOptimal(pairs, proposed, actual, similarity)
  {
    var fp := ListOf(proposed - actual);
    var fn := ListOf(actual - proposed);
    var candidates := Candidates(fp, fn, similarity);
    pairs := Pair(candidates);
    PairsAreGood(candidates, proposed, actual, similarity);
  }

  /** Both F1 columns; the tolerant one also counts the credited pairs as hits, and lies between
      the exact one and 1. */
  method Score(proposed: set<string>, actual: set<string>, similarity: Similarity)
    returns (exact: real, tolerant: real, pairs: seq<Candidate>)
    requires forall a, b :: similarity(a, b) >= 0.0
    ensures AreColumns(exact, tolerant, |proposed * actual|, |pairs|, |proposed|, |actual|)
    ensures 0.0 <= exact <= tolerant <= 1.0
    ensures IsMatching(pairs) && AllCreditable(pairs, proposed, actual, similarity)
    ensures IsMaximal(pairs, proposed, actual, similarity) && IsHalfOptimal(pairs, proposed, actual, similarity)
  {
    pairs := CreditedPairs(proposed, actual, similarity);
    HitsWithin(pairs, proposed, actual, similarity);
    exact, tolerant := Columns(|proposed * actual|, |pairs|, |proposed|, |actual|);
  }

  predicate AreColumns(exact: real, tolerant: real, hits: nat, pairs: nat, proposed: nat, actual: nat) {
    exact == F1(hits, proposed, actual) && tolerant == F1(hits + pairs, proposed, actual)
  }

  method Columns(hits: nat, pairs: nat, proposed: nat, actual: nat) returns (exact: real, tolerant: real)
    requires hits + pairs <= proposed && hits + pairs <= actual
    ensures AreColumns(exact, tolerant, hits, pairs, proposed, actual)
    ensures 0.0 <= exact <= tolerant <= 1.0
  {
    TolerantWithinBounds(hits, pairs, proposed, actual);
    exact := F1(hits, proposed, actual);
    tolerant := if pairs > 0 then F1(hits + pairs, proposed, actual) else exact;
  }

  /** A plausible pair of a wrong proposal and a missed file. */
  ghost predicate Creditable(c: Candidate, proposed: set<string>, actual: set<string>, similarity: Similarity) {
    && c.proposed in proposed - actual && c.actual in actual - proposed
    && IsCandidate(c, similarity)
  }

  ghost predicate IsMaximal(pairs: seq<Candidate>, proposed: set<string>, actual: set<string>, similarity: Similarity) {
    forall c :: Creditable(c, proposed, actual, similarity) ==>
      exists p :: p in pairs && (p.proposed == c.proposed || p.actual == c.actual)
  }

  ghost predicate AllCreditable(m: seq<Candidate>, proposed: set<string>, actual: set<string>, similarity: Similarity) {
    forall c :: c in m ==> Creditable(c, proposed, actual, similarity)
  }

  ghost predicate IsHalfOptimal(pairs: seq<Candidate>, proposed: set<string>, actual: set<string>,
                                similarity: Similarity) {
    forall m :: IsMatching(m) && AllCreditable(m, proposed, actual, similarity) ==>
      |m| <= 2 * |pairs| && Weight(m) <= 2.0 * Weight(pairs)
  }

  lemma SplitSizes(a: set<string>, b: set<string>)
    ensures |a * b| + |a - b| == |a| && |a * b| + |b - a| == |b|
  {
    assert a == (a * b) + (a - b);
    assert b == (a * b) + (b - a);
  }

  lemma HitsWithin(pairs: seq<Candidate>, proposed: set<string>, actual: set<string>, similarity: Similarity)
    requires IsMatching(pairs) && AllCreditable(pairs, proposed, actual, similarity)
    ensures |proposed * actual| + |pairs| <= |proposed| && |proposed * actual| + |pairs| <= |actual|
  {
    SplitSizes(proposed, actual);
    DistinctCount(pairs, proposed - actual, actual - proposed);
  }

  lemma SameMembers(cs: seq<Candidate>, c: Candidate)
    ensures c in Sorted(cs) <==> c in cs
  {
    SortedKeeps(cs);
    assert c in Sorted(cs) <==> c in multiset(Sorted(cs));
    assert c in cs <==> c in multiset(cs);
  }

  lemma PairsAreGood(candidates: seq<Candidate>, proposed: set<string>, actual: set<string>, similarity: Similarity)
    requires forall a, b :: similarity(a, b) >= 0.0
    requires forall c :: c in candidates <==> Creditable(c, proposed, actual, similarity)
    ensures var pairs := Greedy(Sorted(candidates), {}, {});
            && IsMatching(pairs) && AllCreditable(pairs, proposed, actual, similarity)
            && IsMaximal(pairs, proposed, actual, similarity)
            && IsHalfOptimal(pairs, proposed, actual, similarity)
  {
    var sorted := Sorted(candidates);
    var pairs := Greedy(sorted, {}, {});
    assert forall c :: c in sorted <==> Creditable(c, proposed, actual, similarity) by {
      forall c
        ensures c in sorted <==> Creditable(c, proposed, actual, similarity)
      {
        SameMembers(candidates, c);
      }
    }
    GreedyIsMatching(sorted, {}, {});
    forall c | Creditable(c, proposed, actual, similarity)
      ensures exists p :: p in pairs && (p.proposed == c.proposed || p.actual == c.actual)
    {
      GreedyIsMaximal(sorted, {}, {}, c);
    }
    SortedKeeps(candidates);
    NonNegative(sorted, proposed, actual, similarity);
    forall m | IsMatching(m) && AllCreditable(m, proposed, actual, similarity)
      ensures |m| <= 2 * |pairs| && Weight(m) <= 2.0 * Weight(pairs)
    {
      GreedyIsHalfOptimal(sorted, {}, {}, m);
    }
  }

  lemma NonNegative(cs: seq<Candidate>, proposed: set<string>, actual: set<string>, similarity: Similarity)
    requires forall a, b :: similarity(a, b) >= 0.0
    requires forall c :: c in cs ==> Creditable(c, proposed, actual, similarity)
    ensures forall c :: c in cs ==> c.ratio >= 0.0
  {
  }
}
