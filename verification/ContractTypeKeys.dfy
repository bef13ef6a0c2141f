/** The textual identity of a contract type: AstEmitter's ContractTypeKey before hashing. */
module ContractTypeKeys {

  import opened Wrappers
  import Decimal

  const MAX_DEPTH := 16
  const MAX_OBSERVED := 64
  const MAX_KEY := 16 * 1024

  /** The parts of a type symbol that the key records. `assembly` is the containing assembly's
      identity, or "" when there is none. */
  datatype TypeSymbol =
    | ArrayType(rank: nat, element: TypeSymbol)
    | NamedType(unusable: bool, assembly: string, reference: string, arguments: seq<TypeSymbol>, container: Container)
    | OtherType

  datatype Container = Root | Nested(outer: TypeSymbol)

  // ---- The encoding ----

  function Part(value: string): string {
    Decimal.ToString(|value|) + ":" + value
  }

  function Flatten(parts: seq<string>): string {
    if parts == [] then "" else Part(parts[0]) + Flatten(parts[1..])
  }

  function Parts(t: TypeSymbol): (parts: seq<string>)
    decreases t, 1, 0
  {
    match t
    case ArrayType(rank, element) => ["array", Decimal.ToString(rank)] + Parts(element)
    case NamedType(_, _, _, _, _) => Head(t) + ArgumentParts(t, 0) + ContainerParts(t)
    case OtherType => []
  }

  function Head(t: TypeSymbol): seq<string>
    requires t.NamedType?
  {
    ["named", t.assembly, t.reference, Decimal.ToString(|t.arguments|)]
  }

  function ContainerParts(t: TypeSymbol): seq<string>
    requires t.NamedType?
    decreases t, 0, 0
  {
    if t.container.Root? then ["root"] else ["nested"] + Parts(t.container.outer)
  }

  /** The parts of the type arguments from index i on. */
  function ArgumentParts(t: TypeSymbol, i: nat): seq<string>
    requires t.NamedType? && i <= |t.arguments|
    decreases t, 0, |t.arguments| - i
  {
    if i == |t.arguments| then [] else Parts(t.arguments[i]) + ArgumentParts(t, i + 1)
  }

  function KeyText(t: TypeSymbol): string {
    Flatten(Parts(t))
  }

  /** No open type parameter, error type or unnamed reference anywhere. */
  predicate Closed(t: TypeSymbol)
    decreases t, 1, 0
  {
    match t
    case ArrayType(_, element) => Closed(element)
    case NamedType(unusable, _, reference, _, container) =>
      && !unusable
      && reference != ""
      && ArgumentsClosed(t, 0)
      && (container.Nested? ==> Closed(container.outer))
    case OtherType => false
  }

  predicate ArgumentsClosed(t: TypeSymbol, i: nat)
    requires t.NamedType? && i <= |t.arguments|
    decreases t, 0, |t.arguments| - i
  {
    i == |t.arguments| || (Closed(t.arguments[i]) && ArgumentsClosed(t, i + 1))
  }

  function Max(a: nat, b: nat): nat {
    if a >= b then a else b
  }

  function Height(t: TypeSymbol): nat
    decreases t, 1, 0
  {
    match t
    case ArrayType(_, element) => 1 + Height(element)
    case NamedType(_, _, _, _, container) =>
      Max(ArgumentsHeight(t, 0), if container.Nested? then 1 + Height(container.outer) else 0)
    case OtherType => 0
  }

  function ArgumentsHeight(t: TypeSymbol, i: nat): nat
    requires t.NamedType? && i <= |t.arguments|
    decreases t, 0, |t.arguments| - i
  {
    if i == |t.arguments| then 0 else Max(1 + Height(t.arguments[i]), ArgumentsHeight(t, i + 1))
  }

  function Size(t: TypeSymbol): (n: nat)
    ensures n >= 1
    decreases t, 1, 0
  {
    match t
    case ArrayType(_, element) => 1 + Size(element)
    case NamedType(_, _, _, _, container) =>
      1 + ArgumentsSize(t, 0) + (if container.Nested? then Size(container.outer) else 0)
    case OtherType => 1
  }

  function ArgumentsSize(t: TypeSymbol, i: nat): nat
    requires t.NamedType? && i <= |t.arguments|
    decreases t, 0, |t.arguments| - i
  {
    if i == |t.arguments| then 0 else Size(t.arguments[i]) + ArgumentsSize(t, i + 1)
  }

  /** The types that get a key. */
  predicate Keyed(t: TypeSymbol, variant: bool) {
    !variant && Closed(t) && Height(t) <= 16 && Size(t) <= 64 && |KeyText(t)| <= 16_384
  }

  // ---- The method ----

  lemma {:induction false} FlattenAppend(a: seq<string>, b: seq<string>)
    ensures Flatten(a + b) == Flatten(a) + Flatten(b)
  {
    if a == [] {
      assert a + b == b;
    } else {
      assert (a + b)[1..] == a[1..] + b;
      FlattenAppend(a[1..], b);
    }
  }

  lemma FlattenFour(a: string, b: string, c: string, d: string)
    ensures Flatten([a, b, c, d]) == Part(a) + Part(b) + Part(c) + Part(d)
    ensures Flatten([a, b]) == Part(a) + Part(b)
    ensures Flatten([a]) == Part(a)
  {
    assert [a, b, c, d] == [a] + ([b] + ([c] + [d]));
    assert [a, b] == [a] + [b];
    FlattenAppend([a], [b] + ([c] + [d]));
    FlattenAppend([b], [c] + [d]);
    FlattenAppend([c], [d]);
    FlattenAppend([a], [b]);
  }

  class KeyBuilder {
    var key: string
    var observed: nat

    constructor ()
      ensures key == "" && observed == 0
    {
      key, observed := "", 0;
    }

    method Append(value: string)
      modifies this`key
      ensures key == old(key) + Part(value)
    {
      key := key + Part(value);
    }

    /** Appends the type's text, or stops at the first limit; then the whole type breaks one. */
    method Visit(t: TypeSymbol, depth: nat) returns (ok: bool)
      modifies this
      ensures ok ==> Closed(t) && depth + Height(t) <= MAX_DEPTH
      ensures ok ==> key == old(key) + KeyText(t) && observed == old(observed) + Size(t) <= MAX_OBSERVED
      ensures !ok ==> || !Closed(t)
                      || depth + Height(t) > MAX_DEPTH
                      || old(observed) + Size(t) > MAX_OBSERVED
                      || |old(key)| + |KeyText(t)| > MAX_KEY
      decreases t, 2
    {
      if depth > MAX_DEPTH {
        return false;
      }
      observed := observed + 1;
      if observed > MAX_OBSERVED || |key| > MAX_KEY {
        return false;
      }
      match t
      case ArrayType(rank, element) =>
        ArrayText(t, key);
        Append("array");
        Append(Decimal.ToString(rank));
        SameLength(key, KeyText(element), old(key), KeyText(t));
        ok := Visit(element, depth + 1);
      case NamedType(_, _, _, _, _) => ok := VisitNamed(t, depth);
      case OtherType => return false;
    }

    method VisitNamed(t: TypeSymbol, depth: nat) returns (ok: bool)
      requires t.NamedType? && depth <= MAX_DEPTH && observed <= MAX_OBSERVED
      modifies this
      ensures ok ==> Closed(t) && depth + Height(t) <= MAX_DEPTH
      ensures ok ==> key == old(key) + KeyText(t) && observed == old(observed) + Size(t) - 1 <= MAX_OBSERVED
      ensures !ok ==> || !Closed(t)
                      || depth + Height(t) > MAX_DEPTH
                      || old(observed) + Size(t) - 1 > MAX_OBSERVED
                      || |old(key)| + |KeyText(t)| > MAX_KEY
      decreases t, 1
    {
      if t.unusable || t.reference == "" {
        return false;
      }
      NamedText(t, key);
      Append("named");
      Append(t.assembly);
      Append(t.reference);
      Append(Decimal.ToString(|t.arguments|));
      ok := VisitArguments(t, depth);
      if !ok {
        return false;
      }
      if t.container.Root? {
        Append("root");
        return true;
      }
      Append("nested");
      SameLength(key, KeyText(t.container.outer), old(key), KeyText(t));
      ok := Visit(t.container.outer, depth + 1);
    }

    method VisitArguments(t: TypeSymbol, depth: nat) returns (ok: bool)
      requires t.NamedType? && depth <= MAX_DEPTH && observed <= MAX_OBSERVED
      modifies this
      ensures ok ==> ArgumentsClosed(t, 0) && depth + ArgumentsHeight(t, 0) <= MAX_DEPTH
      ensures ok ==> && key == old(key) + Flatten(ArgumentParts(t, 0))
                     && observed == old(observed) + ArgumentsSize(t, 0) <= MAX_OBSERVED
      ensures !ok ==> || !ArgumentsClosed(t, 0)
                      || depth + ArgumentsHeight(t, 0) > MAX_DEPTH
                      || old(observed) + ArgumentsSize(t, 0) > MAX_OBSERVED
                      || |old(key)| + |Flatten(ArgumentParts(t, 0))| > MAX_KEY
      decreases t, 0
    {
      for i := 0 to |t.arguments|
        invariant ArgumentsClosed(t, 0) <==> ArgumentsClosed(t, i)
        invariant depth + ArgumentsHeight(t, 0) <= MAX_DEPTH <==> depth + ArgumentsHeight(t, i) <= MAX_DEPTH
        invariant key + Flatten(ArgumentParts(t, i)) == old(key) + Flatten(ArgumentParts(t, 0))
        invariant observed + ArgumentsSize(t, i) == old(observed) + ArgumentsSize(t, 0)
        invariant observed <= MAX_OBSERVED
      {
        ArgumentText(t, i, key);
        SameLength(key, Flatten(ArgumentParts(t, i)), old(key), Flatten(ArgumentParts(t, 0)));
        ok := Visit(t.arguments[i], depth + 1);
        if !ok {
          return false;
        }
      }
      return true;
    }

    /** Null exactly for the types that get no key; otherwise the whole text. */
    method ContractTypeKey(contract: TypeSymbol, variant: bool) returns (r: Option<string>)
      requires key == "" && observed == 0
      modifies this
      ensures r == if Keyed(contract, variant) then Some(KeyText(contract)) else None
    {
      if variant {
        return None;
      }
      var ok := Visit(contract, 0);
      assert "" + KeyText(contract) == KeyText(contract);
      if ok && |key| <= MAX_KEY {
        return Some(key);
      }
      return None;
    }
  }

  lemma ArrayText(t: TypeSymbol, before: string)
    requires t.ArrayType?
    ensures before + KeyText(t) == before + Part("array") + Part(Decimal.ToString(t.rank)) + KeyText(t.element)
  {
    FlattenAppend(["array", Decimal.ToString(t.rank)], Parts(t.element));
    FlattenFour("array", Decimal.ToString(t.rank), "", "");
  }

  lemma ArgumentText(t: TypeSymbol, i: nat, before: string)
    requires t.NamedType? && i < |t.arguments|
    ensures before + Flatten(ArgumentParts(t, i))
            == before + KeyText(t.arguments[i]) + Flatten(ArgumentParts(t, i + 1))
    ensures |Flatten(ArgumentParts(t, i))| >= |KeyText(t.arguments[i])|
  {
    FlattenAppend(Parts(t.arguments[i]), ArgumentParts(t, i + 1));
  }

  lemma SameLength(a: string, x: string, b: string, y: string)
    requires a + x == b + y
    ensures |a| + |x| == |b| + |y|
  {
    assert |a + x| == |b + y|;
  }

  lemma NamedPieces(t: TypeSymbol)
    requires t.NamedType?
    ensures Flatten(Head(t))
            == Part("named") + Part(t.assembly) + Part(t.reference) + Part(Decimal.ToString(|t.arguments|))
    ensures KeyText(t) == Flatten(Head(t)) + Flatten(ArgumentParts(t, 0)) + Flatten(ContainerParts(t))
    ensures Flatten(ContainerParts(t))
            == if t.container.Root? then Part("root") else Part("nested") + KeyText(t.container.outer)
  {
    FlattenFour("named", t.assembly, t.reference, Decimal.ToString(|t.arguments|));
    FlattenAppend(Head(t), ArgumentParts(t, 0));
    FlattenAppend(Head(t) + ArgumentParts(t, 0), ContainerParts(t));
    if t.container.Root? {
      FlattenFour("root", "", "", "");
    } else {
      FlattenFour("nested", "", "", "");
      FlattenAppend(["nested"], Parts(t.container.outer));
    }
  }

  lemma Prepend<T>(before: seq<T>, a: seq<T>, b: seq<T>, c: seq<T>, d: seq<T>, e: seq<T>, f: seq<T>, g: seq<T>)
    ensures before + (a + b + c + d + e + f) == before + a + b + c + d + e + f
    ensures before + (a + b + c + d + e + (f + g)) == before + a + b + c + d + e + f + g
  {
  }

  lemma NamedText(t: TypeSymbol, before: string)
    requires t.NamedType?
    ensures var head := before + Part("named") + Part(t.assembly) + Part(t.reference)
                        + Part(Decimal.ToString(|t.arguments|));
            var arguments := Flatten(ArgumentParts(t, 0));
            && before + KeyText(t)
               == (if t.container.Root? then head + arguments + Part("root")
                   else head + arguments + Part("nested") + KeyText(t.container.outer))
            && |before| + |KeyText(t)| >= |head| + |arguments|
  {
    NamedPieces(t);
    var a, b, c, d := Part("named"), Part(t.assembly), Part(t.reference), Part(Decimal.ToString(|t.arguments|));
    var e := Flatten(ArgumentParts(t, 0));
    if t.container.Root? {
      Prepend(before, a, b, c, d, e, Part("root"), []);
    } else {
      Prepend(before, a, b, c, d, e, Part("nested"), KeyText(t.container.outer));
    }
  }

  // ---- Injectivity ----

  lemma PartPrefixFree(a: string, x: string, b: string, y: string)
    requires Part(a) + x == Part(b) + y
    ensures a == b && x == y
  {
    assert Part(a) + x == Decimal.ToString(|a|) + (":" + a + x);
    assert Part(b) + y == Decimal.ToString(|b|) + (":" + b + y);
    Decimal.ReadBack(|a|, ":" + a + x, |b|, ":" + b + y);
    var tail := ":" + a + x;
    assert tail[1..1 + |a|] == a && tail[1 + |a|..] == x;
    assert tail == ":" + b + y;
    assert tail[1..1 + |b|] == b && tail[1 + |b|..] == y;
  }

  lemma {:induction false} FlattenInjective(a: seq<string>, b: seq<string>)
    requires Flatten(a) == Flatten(b)
    ensures a == b
  {
    if a != [] && b != [] {
      PartPrefixFree(a[0], Flatten(a[1..]), b[0], Flatten(b[1..]));
      FlattenInjective(a[1..], b[1..]);
      assert a == [a[0]] + a[1..] && b == [b[0]] + b[1..];
    }
  }

  lemma DecimalInjective(m: nat, n: nat)
    requires Decimal.ToString(m) == Decimal.ToString(n)
    ensures m == n
  {
    Decimal.ValueOfToString(m);
    Decimal.ValueOfToString(n);
  }

  lemma Split<T>(p: seq<T>, x: seq<T>, q: seq<T>, y: seq<T>)
    requires |p| == |q| && p + x == q + y
    ensures p == q && x == y
  {
    assert p == (p + x)[..|p|] && x == (p + x)[|p|..];
    assert q == (q + y)[..|q|] && y == (q + y)[|q|..];
  }

  lemma Regroup<T>(a: seq<T>, b: seq<T>, c: seq<T>, d: seq<T>)
    ensures a + b + c + d == a + (b + (c + d))
    ensures a + b + c == a + (b + c)
  {
  }

  /** No type's parts are a proper prefix of another's. */
  lemma {:induction false} PartsPrefixFree(s: TypeSymbol, x: seq<string>, t: TypeSymbol, y: seq<string>)
    requires Closed(s) && Closed(t)
    requires Parts(s) + x == Parts(t) + y
    ensures s == t && x == y
    decreases s, 1, 0
  {
    assert (Parts(s) + x)[0] == Parts(s)[0] && (Parts(t) + y)[0] == Parts(t)[0];
    if s.ArrayType? {
      var p, q := ["array", Decimal.ToString(s.rank)], ["array", Decimal.ToString(t.rank)];
      Regroup(p, Parts(s.element), x, []);
      Regroup(q, Parts(t.element), y, []);
      Split(p, Parts(s.element) + x, q, Parts(t.element) + y);
      assert p[1] == q[1];
      DecimalInjective(s.rank, t.rank);
      PartsPrefixFree(s.element, x, t.element, y);
    } else {
      Regroup(Head(s), ArgumentParts(s, 0), ContainerParts(s), x);
      Regroup(Head(t), ArgumentParts(t, 0), ContainerParts(t), y);
      Split(Head(s), ArgumentParts(s, 0) + (ContainerParts(s) + x),
            Head(t), ArgumentParts(t, 0) + (ContainerParts(t) + y));
      HeadsAgree(s, t);
      ArgumentsPrefixFree(s, 0, ContainerParts(s) + x, t, ContainerParts(t) + y);
      ContainersPrefixFree(s, x, t, y);
    }
  }

  lemma HeadsAgree(s: TypeSymbol, t: TypeSymbol)
    requires s.NamedType? && t.NamedType? && Head(s) == Head(t)
    ensures s.assembly == t.assembly && s.reference == t.reference && |s.arguments| == |t.arguments|
  {
    var p, q := Head(s), Head(t);
    assert p[1] == q[1] && p[2] == q[2] && p[3] == q[3];
    DecimalInjective(|s.arguments|, |t.arguments|);
  }

  lemma {:induction false} ContainersPrefixFree(s: TypeSymbol, x: seq<string>, t: TypeSymbol, y: seq<string>)
    requires s.NamedType? && t.NamedType? && Closed(s) && Closed(t)
    requires ContainerParts(s) + x == ContainerParts(t) + y
    ensures s.container == t.container && x == y
    decreases s, 0, 0
  {
    assert (ContainerParts(s) + x)[0] == ContainerParts(s)[0] && (ContainerParts(t) + y)[0] == ContainerParts(t)[0];
    if s.container.Nested? {
      Regroup(["nested"], Parts(s.container.outer), x, []);
      Regroup(["nested"], Parts(t.container.outer), y, []);
      Split(["nested"], Parts(s.container.outer) + x, ["nested"], Parts(t.container.outer) + y);
      PartsPrefixFree(s.container.outer, x, t.container.outer, y);
    } else {
      Split(["root"], x, ["root"], y);
    }
  }

  lemma {:induction false} ArgumentsPrefixFree(s: TypeSymbol, i: nat, x: seq<string>, t: TypeSymbol, y: seq<string>)
    requires s.NamedType? && t.NamedType? && i <= |s.arguments| == |t.arguments|
    requires ArgumentsClosed(s, i) && ArgumentsClosed(t, i)
    requires ArgumentParts(s, i) + x == ArgumentParts(t, i) + y
    ensures s.arguments[i..] == t.arguments[i..] && x == y
    decreases s, 0, |s.arguments| - i
  {
    if i < |s.arguments| {
      Regroup(Parts(s.arguments[i]), ArgumentParts(s, i + 1), x, []);
      Regroup(Parts(t.arguments[i]), ArgumentParts(t, i + 1), y, []);
      PartsPrefixFree(s.arguments[i], ArgumentParts(s, i + 1) + x, t.arguments[i], ArgumentParts(t, i + 1) + y);
      ArgumentsPrefixFree(s, i + 1, x, t, y);
      assert s.arguments[i..] == [s.arguments[i]] + s.arguments[i + 1..];
      assert t.arguments[i..] == [t.arguments[i]] + t.arguments[i + 1..];
    } else {
      Split([], x, [], y);
    }
  }

  /** Equal keys mean equal types, so the text is a sound type identity. */
  lemma KeyIsIdentity(s: TypeSymbol, t: TypeSymbol)
    requires Closed(s) && Closed(t)
    requires KeyText(s) == KeyText(t)
    ensures s == t
  {
    FlattenInjective(Parts(s), Parts(t));
    assert Parts(s) + [] == Parts(t) + [];
    PartsPrefixFree(s, [], t, []);
  }
}
