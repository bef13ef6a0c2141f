/** Qualified names: the walk that composes them from two stacks, and the property index that
    derives them from ancestors (AstEmitter's Walk, EmitType, ComposeName, AddSourceProperties). */
module SourceNaming {

  import opened Sequences

  const MAX_NAME := 256

  datatype TypeKind = Class | Module | Structure | Interface | Enum

  /** The declarations of one source file that carry names. */
  datatype Decl =
    | Namespace(name: string, members: seq<Decl>)
    | TypeBlock(kind: TypeKind, name: string, members: seq<Decl>)
      // its accessors may be followed by whatever the parser recovers there
    | Property(name: string, nested: seq<Decl>)
      // a method's body may hold types
    | OtherMember(name: string, types: seq<Decl>)
      // a node without a name of its own; the compilation unit is one
    | Group(members: seq<Decl>)

  datatype Ancestor = InNamespace(name: string) | InType(kind: TypeKind, name: string) | InGroup

  datatype Symbol = Symbol(name: string, kind: string)

  /** One indexed property; `terminal` is its case-folded name, the index key. */
  datatype PropertyInfo = PropertyInfo(fqn: string, containingType: string)

  // ---- Text ----

  predicate IsWhite(c: char) {
    || '\U{9}' <= c <= '\U{D}' || c == ' ' || c == '\U{85}' || c == '\U{A0}' || c == '\U{1680}'
    || '\U{2000}' <= c <= '\U{200A}' || c == '\U{2028}' || c == '\U{2029}' || c == '\U{202F}'
    || c == '\U{205F}' || c == '\U{3000}'
  }

  predicate NoWhite(s: string) {
    forall i :: 0 <= i < |s| ==> !IsWhite(s[i])
  }

  predicate Blank(s: string) {
    forall i :: 0 <= i < |s| ==> IsWhite(s[i])
  }

  function DropWhite(s: string): (r: string)
    ensures |r| <= |s|
  {
    if s == [] || !IsWhite(s[0]) then s else DropWhite(s[1..])
  }

  function DropWhiteEnd(s: string): string {
    if s == [] || !IsWhite(s[|s| - 1]) then s else DropWhiteEnd(s[..|s| - 1])
  }

  function Collapse(s: string): string
    decreases |s|
  {
    if s == [] then ""
    else if IsWhite(s[0]) then " " + Collapse(DropWhite(s[1..]))
    else [s[0]] + Collapse(s[1..])
  }

  function Truncate(s: string): string {
    if |s| > MAX_NAME then s[..MAX_NAME] else s
  }

  function SanitizeName(raw: string): string {
    Truncate(DropWhiteEnd(DropWhite(Collapse(raw))))
  }

  function Join(parts: seq<string>): string {
    if parts == [] then ""
    else if |parts| == 1 then parts[0]
    else Join(parts[..|parts| - 1]) + "." + parts[|parts| - 1]
  }

  function NonBlank(parts: seq<string>): seq<string> {
    if parts == [] then []
    else NonBlank(parts[..|parts| - 1]) + (if Blank(parts[|parts| - 1]) then [] else [parts[|parts| - 1]])
  }

  // ---- The walk ----

  function ComposeName(namespaces: seq<string>, types: seq<string>, terminal: string): string {
    if types != [] then SanitizeName(types[|types| - 1] + "." + terminal)
    else SanitizeName(Join(NonBlank(namespaces + [terminal])))
  }

  function KindName(kind: TypeKind): string {
    match kind
    case Class => "class"
    case Module => "class"
    case Structure => "struct"
    case Interface => "interface"
    case Enum => "enum"
  }

  /** The symbols that walking d emits with these stacks (the top is last). */
  function Emitted(d: Decl, namespaces: seq<string>, types: seq<string>): seq<Symbol>
    decreases d
  {
    match d
    case Namespace(name, members) => EmittedAll(members, namespaces + [name], types)
    case TypeBlock(kind, name, members) =>
      var fqn := ComposeName(namespaces, types, name);
      [Symbol(fqn, KindName(kind))] + EmittedAll(members, namespaces, types + [fqn])
    case Property(name, nested) =>
      [Symbol(ComposeName(namespaces, types, name), "property")] + EmittedAll(nested, namespaces, types)
    case OtherMember(name, local) =>
      [Symbol(ComposeName(namespaces, types, name), "member")] + EmittedAll(local, namespaces, types)
    case Group(members) => EmittedAll(members, namespaces, types)
  }

  function EmittedAll(ds: seq<Decl>, namespaces: seq<string>, types: seq<string>): seq<Symbol>
    decreases ds
  {
    if ds == [] then [] else Emitted(ds[0], namespaces, types) + EmittedAll(ds[1..], namespaces, types)
  }

  class NameWalk {
    var namespaces: seq<string>
    var types: seq<string>
    var symbols: seq<Symbol>

    constructor ()
      ensures namespaces == [] && types == [] && symbols == []
    {
      namespaces, types, symbols := [], [], [];
    }

    /** Emits the symbols and leaves both stacks as they were. */
    method Walk(d: Decl)
      modifies this
      ensures namespaces == old(namespaces) && types == old(types)
      ensures symbols == old(symbols) + Emitted(d, old(namespaces), old(types))
      decreases d
    {
      hide ComposeName;
      match d
      case Namespace(name, members) =>
        namespaces := namespaces + [name];
        WalkMembers(members);
        namespaces := namespaces[..|namespaces| - 1];
      case TypeBlock(kind, name, members) =>
        var fqn := ComposeName(namespaces, types, name);
        Emit(name, KindName(kind));
        types := types + [fqn];
        WalkMembers(members);
        types := types[..|types| - 1];
      case Property(name, nested) =>
        Emit(name, "property");
        WalkMembers(nested);
      case OtherMember(name, local) =>
        Emit(name, "member");
        WalkMembers(local);
      case Group(members) => WalkMembers(members);
    }

    method Emit(name: string, kind: string)
      modifies this`symbols
      ensures symbols == old(symbols) + [Symbol(ComposeName(namespaces, types, name), kind)]
    {
      symbols := symbols + [Symbol(ComposeName(namespaces, types, name), kind)];
    }

    method WalkMembers(ds: seq<Decl>)
      modifies this
      ensures namespaces == old(namespaces) && types == old(types)
      ensures symbols == old(symbols) + EmittedAll(ds, old(namespaces), old(types))
      decreases ds
    {
      hide ComposeName, Emitted;
      ghost var emitted: seq<Symbol> := [];
      for i := 0 to |ds|
        invariant namespaces == old(namespaces) && types == old(types)
        invariant symbols == old(symbols) + emitted
        invariant EmittedAll(ds, namespaces, types) == emitted + EmittedAll(ds[i..], namespaces, types)
      {
        assert ds[i..][0] == ds[i] && ds[i..][1..] == ds[i + 1..];
        emitted := emitted + Emitted(ds[i], namespaces, types);
        Walk(ds[i]);
      }
    }
  }

  // ---- The property index ----

  /** A property statement with its ancestors, outermost first. */
  datatype PropertyNode = PropertyNode(terminal: string, ancestors: seq<Ancestor>)

  function PropertyNodes(d: Decl, ancestors: seq<Ancestor>): seq<PropertyNode>
    decreases d
  {
    match d
    case Namespace(name, members) => PropertyNodesAll(members, ancestors + [InNamespace(name)])
    case TypeBlock(kind, name, members) => PropertyNodesAll(members, ancestors + [InType(kind, name)])
    case Property(name, nested) => [PropertyNode(name, ancestors)] + PropertyNodesAll(nested, ancestors + [InGroup])
    case OtherMember(_, local) => PropertyNodesAll(local, ancestors + [InGroup])
    case Group(members) => PropertyNodesAll(members, ancestors + [InGroup])
  }

  function PropertyNodesAll(ds: seq<Decl>, ancestors: seq<Ancestor>): seq<PropertyNode>
    decreases ds
  {
    if ds == [] then [] else PropertyNodes(ds[0], ancestors) + PropertyNodesAll(ds[1..], ancestors)
  }

  function NamespaceNames(ancestors: seq<Ancestor>): seq<string> {
    if ancestors == [] then []
    else
      var last := ancestors[|ancestors| - 1];
      NamespaceNames(ancestors[..|ancestors| - 1]) + (if last.InNamespace? then [last.name] else [])
  }

  /** Enum blocks are not owners, and neither are blank names. */
  function TypeNames(ancestors: seq<Ancestor>): seq<string> {
    if ancestors == [] then []
    else
      var last := ancestors[|ancestors| - 1];
      TypeNames(ancestors[..|ancestors| - 1])
      + (if last.InType? && last.kind != Enum && !Blank(last.name) then [last.name] else [])
  }

  function OwnerParts(n: PropertyNode): seq<string> {
    NamespaceNames(n.ancestors) + TypeNames(n.ancestors)
  }

  /** A property without an owner is not indexed. */
  predicate Indexed(n: PropertyNode) {
    OwnerParts(n) != []
  }

  function InfoOf(n: PropertyNode): PropertyInfo {
    var owner := Join(OwnerParts(n));
    PropertyInfo(owner + "." + n.terminal, owner)
  }

  // ---- Everything that gets a symbol ----

  datatype What = IsType(kind: TypeKind) | IsProperty | IsMember

  /** A declaration with its ancestors, outermost first. */
  datatype Declaration = Declaration(what: What, name: string, ancestors: seq<Ancestor>)

  function Declarations(d: Decl, ancestors: seq<Ancestor>): seq<Declaration>
    decreases d
  {
    match d
    case Namespace(name, members) => DeclarationsAll(members, ancestors + [InNamespace(name)])
    case TypeBlock(kind, name, members) =>
      [Declaration(IsType(kind), name, ancestors)] + DeclarationsAll(members, ancestors + [InType(kind, name)])
    case Property(name, nested) =>
      [Declaration(IsProperty, name, ancestors)] + DeclarationsAll(nested, ancestors + [InGroup])
    case OtherMember(name, local) =>
      [Declaration(IsMember, name, ancestors)] + DeclarationsAll(local, ancestors + [InGroup])
    case Group(members) => DeclarationsAll(members, ancestors + [InGroup])
  }

  function DeclarationsAll(ds: seq<Decl>, ancestors: seq<Ancestor>): seq<Declaration>
    decreases ds
  {
    if ds == [] then [] else Declarations(ds[0], ancestors) + DeclarationsAll(ds[1..], ancestors)
  }

  // ---- Agreement ----

  predicate GoodName(s: string) {
    s != "" && NoWhite(s)
  }

  /** What the language's grammar guarantees: namespaces hold no members of types, types hold no
      namespaces, enums hold only constants, which carry no symbol, and method bodies only types. */
  predicate Grammatical(d: Decl, inType: bool)
    decreases d
  {
    match d
    case Namespace(name, members) => GoodName(name) && !inType && GrammaticalAll(members, false)
    case TypeBlock(kind, name, members) =>
      && GoodName(name)
      && GrammaticalAll(members, true)
      && (kind == Enum ==> forall i :: 0 <= i < |members| ==> members[i] == Group([]))
    case Property(name, nested) => GoodName(name) && GrammaticalAll(nested, inType)
    case OtherMember(name, local) =>
      GoodName(name) && GrammaticalAll(local, inType) && forall t :: t in local ==> t.TypeBlock?
    case Group(members) => GrammaticalAll(members, inType)
  }

  predicate GrammaticalAll(ds: seq<Decl>, inType: bool)
    decreases ds
  {
    ds == [] || (Grammatical(ds[0], inType) && GrammaticalAll(ds[1..], inType))
  }

  // ---- What a sanitized name keeps ----

  /** The characters that are not white space, in order. */
  function Visible(s: string): string {
    if s == [] then "" else (if IsWhite(s[0]) then "" else [s[0]]) + Visible(s[1..])
  }

  /** White space is single spaces. */
  predicate Spaced(s: string) {
    forall i :: 0 <= i < |s| && IsWhite(s[i]) ==> s[i] == ' ' && (i + 1 < |s| ==> !IsWhite(s[i + 1]))
  }

  lemma {:induction false} VisibleAppend(a: string, b: string)
    ensures Visible(a + b) == Visible(a) + Visible(b)
  {
    if a == [] {
      assert a + b == b;
    } else {
      assert (a + b)[1..] == a[1..] + b;
      VisibleAppend(a[1..], b);
    }
  }

  lemma {:induction false} DropWhiteKeeps(s: string)
    ensures Visible(DropWhite(s)) == Visible(s) && (DropWhite(s) != "" ==> !IsWhite(DropWhite(s)[0]))
    ensures Spaced(s) ==> Spaced(DropWhite(s))
  {
    if s != [] && IsWhite(s[0]) {
      assert Spaced(s) ==> Spaced(s[1..]) by {
        assert forall i :: 0 <= i < |s| - 1 ==> s[1..][i] == s[i + 1];
      }
      DropWhiteKeeps(s[1..]);
    }
  }

  lemma {:induction false} DropWhiteEndKeeps(s: string)
    ensures Visible(DropWhiteEnd(s)) == Visible(s) && DropWhiteEnd(s) <= s
    ensures DropWhiteEnd(s) != "" ==> !IsWhite(DropWhiteEnd(s)[|DropWhiteEnd(s)| - 1])
  {
    if s != [] && IsWhite(s[|s| - 1]) {
      var n := |s| - 1;
      DropWhiteEndKeeps(s[..n]);
      assert s == s[..n] + [s[n]];
      VisibleAppend(s[..n], [s[n]]);
      assert [s[n]][1..] == [];
    }
  }

  lemma {:induction false} CollapseKeeps(s: string)
    ensures Visible(Collapse(s)) == Visible(s) && Spaced(Collapse(s))
    ensures s != "" && !IsWhite(s[0]) ==> Collapse(s) != "" && Collapse(s)[0] == s[0]
    decreases |s|
  {
    if s != [] {
      if IsWhite(s[0]) {
        var rest := DropWhite(s[1..]);
        DropWhiteKeeps(s[1..]);
        CollapseKeeps(rest);
        assert Collapse(s)[1..] == Collapse(rest);
      } else {
        CollapseKeeps(s[1..]);
        assert Collapse(s)[1..] == Collapse(s[1..]);
      }
    }
  }

  /** A sanitized name is the first 256 characters of a text with the same visible characters in the same
      order, single spaces for all white space between them, and none at either end. */
  lemma SanitizedIsTrimmed(raw: string) returns (text: string)
    ensures SanitizeName(raw) == (if |text| > 256 then text[..256] else text)
    ensures Visible(text) == Visible(raw) && Spaced(text)
    ensures text != "" ==> !IsWhite(text[0]) && !IsWhite(text[|text| - 1])
  {
    var collapsed := Collapse(raw);
    CollapseKeeps(raw);
    DropWhiteKeeps(collapsed);
    DropWhiteEndKeeps(DropWhite(collapsed));
    text := DropWhiteEnd(DropWhite(collapsed));
  }

  lemma {:induction false} CollapseNoWhite(s: string)
    requires NoWhite(s)
    ensures Collapse(s) == s
  {
    if s != [] {
      CollapseNoWhite(s[1..]);
    }
  }

  lemma SanitizeNoWhite(s: string)
    requires NoWhite(s)
    ensures SanitizeName(s) == Truncate(s)
  {
    CollapseNoWhite(s);
  }

  lemma TruncateTwice(a: string, b: string)
    ensures Truncate(Truncate(a) + b) == Truncate(a + b)
  {
  }

  lemma JoinSnoc(parts: seq<string>, last: string)
    requires parts != []
    ensures Join(parts + [last]) == Join(parts) + "." + last
  {
    assert (parts + [last])[..|parts|] == parts;
  }

  predicate GoodNames(parts: seq<string>) {
    forall i :: 0 <= i < |parts| ==> GoodName(parts[i])
  }

  lemma {:induction false} JoinNoWhite(parts: seq<string>)
    requires GoodNames(parts)
    ensures NoWhite(Join(parts))
  {
    if |parts| > 1 {
      JoinNoWhite(parts[..|parts| - 1]);
    }
  }

  lemma {:induction false} NonBlankGood(parts: seq<string>)
    requires GoodNames(parts)
    ensures NonBlank(parts) == parts
  {
    if parts != [] {
      NonBlankGood(parts[..|parts| - 1]);
      var last := parts[|parts| - 1];
      assert !IsWhite(last[0]);
    }
  }

  /** The stacks that the walk holds when it stands below these ancestors. */
  ghost predicate StacksMatch(ancestors: seq<Ancestor>, namespaces: seq<string>, types: seq<string>, inType: bool) {
    var ts := TypeNames(ancestors);
    && namespaces == NamespaceNames(ancestors)
    && GoodNames(namespaces) && GoodNames(ts)
    && (inType <==> types != []) && (inType <==> ts != [])
    && (types != [] ==> types[|types| - 1] == Truncate(Join(namespaces + ts)))
  }

  lemma ComposedIsJoined(ancestors: seq<Ancestor>, namespaces: seq<string>, types: seq<string>, inType: bool,
                         terminal: string)
    requires StacksMatch(ancestors, namespaces, types, inType) && GoodName(terminal)
    ensures ComposeName(namespaces, types, terminal)
            == Truncate(Join(namespaces + TypeNames(ancestors) + [terminal]))
  {
    var parts := namespaces + TypeNames(ancestors);
    JoinNoWhite(parts + [terminal]);
    if types == [] {
      assert parts == namespaces;
      NonBlankGood(namespaces + [terminal]);
      SanitizeNoWhite(Join(parts + [terminal]));
    } else {
      JoinNoWhite(parts);
      JoinSnoc(parts, terminal);
      var top := Truncate(Join(parts));
      assert top + "." + terminal == top + ("." + terminal);
      SanitizeNoWhite(top + ("." + terminal));
      TruncateTwice(Join(parts), "." + terminal);
      assert Join(parts) + "." + terminal == Join(parts) + ("." + terminal);
    }
  }

  lemma Enter(ancestors: seq<Ancestor>, a: Ancestor)
    ensures NamespaceNames(ancestors + [a]) == NamespaceNames(ancestors) + (if a.InNamespace? then [a.name] else [])
    ensures TypeNames(ancestors + [a])
            == TypeNames(ancestors) + (if a.InType? && a.kind != Enum && !Blank(a.name) then [a.name] else [])
  {
    assert (ancestors + [a])[..|ancestors|] == ancestors;
  }

  /** The outermost-to-innermost name of a declaration. */
  function PathName(n: Declaration): string {
    Join(NamespaceNames(n.ancestors) + TypeNames(n.ancestors) + [n.name])
  }

  /** The symbol has the declaration's kind and the first 256 characters of its full name. */
  predicate Names(s: Symbol, n: Declaration) {
    && s.name == (if |PathName(n)| > 256 then PathName(n)[..256] else PathName(n))
    && match n.what
       case IsType(kind) =>
         s.kind == (match kind
                    case Class => "class"
                    case Module => "class"
                    case Structure => "struct"
                    case Interface => "interface"
                    case Enum => "enum")
       case IsProperty => s.kind == "property"
       case IsMember => s.kind == "member"
  }

  /** One symbol for each declaration, in document order. */
  predicate NamesAgree(symbols: seq<Symbol>, nodes: seq<Declaration>) {
    |symbols| == |nodes| && forall i :: 0 <= i < |nodes| ==> Names(symbols[i], nodes[i])
  }

  lemma AgreeAppend(a: seq<Symbol>, m: seq<Declaration>, b: seq<Symbol>, n: seq<Declaration>)
    requires NamesAgree(a, m) && NamesAgree(b, n)
    ensures NamesAgree(a + b, m + n)
  {
    hide Names;
    var symbols, nodes := a + b, m + n;
    forall i | 0 <= i < |nodes| ensures Names(symbols[i], nodes[i]) {
      if i < |m| {
        assert nodes[i] == m[i] && symbols[i] == a[i];
      } else {
        assert nodes[i] == n[i - |m|] && symbols[i] == b[i - |m|];
      }
    }
  }

  /** Below matching ancestors, the walk emits exactly one symbol for each declaration, in document order,
      with its kind and its full name cut to 256 characters. */
  lemma {:induction false} WalkAgrees(d: Decl, ancestors: seq<Ancestor>, namespaces: seq<string>,
                                      types: seq<string>, inType: bool)
    requires Grammatical(d, inType) && StacksMatch(ancestors, namespaces, types, inType)
    ensures NamesAgree(Emitted(d, namespaces, types), Declarations(d, ancestors))
    decreases d
  {
    hide NamesAgree, ComposeName;
    match d
    case Namespace(name, members) =>
      Enter(ancestors, InNamespace(name));
      WalkAgreesAll(members, ancestors + [InNamespace(name)], namespaces + [name], types, false);
    case TypeBlock(kind, name, members) =>
      WalkAgreesType(d, ancestors, namespaces, types, inType);
    case Property(name, nested) =>
      DeclarationAgrees(IsProperty, "property", name, ancestors, namespaces, types, inType);
      WalkAgreesNested(nested, ancestors, namespaces, types, inType);
      AgreeAppend([Symbol(ComposeName(namespaces, types, name), "property")],
                  [Declaration(IsProperty, name, ancestors)],
                  EmittedAll(nested, namespaces, types), DeclarationsAll(nested, ancestors + [InGroup]));
    case OtherMember(name, local) =>
      DeclarationAgrees(IsMember, "member", name, ancestors, namespaces, types, inType);
      WalkAgreesNested(local, ancestors, namespaces, types, inType);
      AgreeAppend([Symbol(ComposeName(namespaces, types, name), "member")],
                  [Declaration(IsMember, name, ancestors)],
                  EmittedAll(local, namespaces, types), DeclarationsAll(local, ancestors + [InGroup]));
    case Group(members) =>
      WalkAgreesNested(members, ancestors, namespaces, types, inType);
  }

  /** Below a node without a name the stacks stay as they are. */
  lemma {:induction false} WalkAgreesNested(ds: seq<Decl>, ancestors: seq<Ancestor>, namespaces: seq<string>,
                                            types: seq<string>, inType: bool)
    requires GrammaticalAll(ds, inType) && StacksMatch(ancestors, namespaces, types, inType)
    ensures NamesAgree(EmittedAll(ds, namespaces, types), DeclarationsAll(ds, ancestors + [InGroup]))
    decreases ds, 1
  {
    Enter(ancestors, InGroup);
    assert TypeNames(ancestors) + [] == TypeNames(ancestors);
    assert NamespaceNames(ancestors) + [] == NamespaceNames(ancestors);
    WalkAgreesAll(ds, ancestors + [InGroup], namespaces, types, inType);
  }

  lemma {:induction false} WalkAgreesType(d: Decl, ancestors: seq<Ancestor>, namespaces: seq<string>,
                                          types: seq<string>, inType: bool)
    requires d.TypeBlock?
    requires Grammatical(d, inType) && StacksMatch(ancestors, namespaces, types, inType)
    ensures NamesAgree(Emitted(d, namespaces, types), Declarations(d, ancestors))
    decreases d, 0
  {
    hide NamesAgree;
    var fqn := ComposeName(namespaces, types, d.name);
    var below := ancestors + [InType(d.kind, d.name)];
    DeclarationAgrees(IsType(d.kind), KindName(d.kind), d.name, ancestors, namespaces, types, inType);
    if d.kind == Enum {
      ConstantsOnly(d.members, namespaces, types + [fqn], below);
      NothingAgrees();
    } else {
      EnterType(ancestors, namespaces, types, inType, d.kind, d.name);
      WalkAgreesAll(d.members, below, namespaces, types + [fqn], true);
    }
    AgreeAppend([Symbol(fqn, KindName(d.kind))], [Declaration(IsType(d.kind), d.name, ancestors)],
                EmittedAll(d.members, namespaces, types + [fqn]), DeclarationsAll(d.members, below));
  }

  lemma NothingAgrees()
    ensures NamesAgree([], [])
  {
  }

  lemma DeclarationAgrees(what: What, kind: string, name: string, ancestors: seq<Ancestor>, namespaces: seq<string>,
                          types: seq<string>, inType: bool)
    requires GoodName(name) && StacksMatch(ancestors, namespaces, types, inType)
    requires kind == match what
                     case IsType(k) => KindName(k)
                     case IsProperty => "property"
                     case IsMember => "member"
    ensures NamesAgree([Symbol(ComposeName(namespaces, types, name), kind)], [Declaration(what, name, ancestors)])
  {
    ComposedIsJoined(ancestors, namespaces, types, inType, name);
  }

  lemma EnterType(ancestors: seq<Ancestor>, namespaces: seq<string>, types: seq<string>, inType: bool,
                  kind: TypeKind, name: string)
    requires StacksMatch(ancestors, namespaces, types, inType) && GoodName(name) && kind != Enum
    ensures StacksMatch(ancestors + [InType(kind, name)], namespaces,
                        types + [ComposeName(namespaces, types, name)], true)
  {
    var below := ancestors + [InType(kind, name)];
    ComposedIsJoined(ancestors, namespaces, types, inType, name);
    Enter(ancestors, InType(kind, name));
    assert !IsWhite(name[0]);
    assert NamespaceNames(ancestors) + [] == NamespaceNames(ancestors);
    assert namespaces + TypeNames(below) == namespaces + TypeNames(ancestors) + [name];
  }

  lemma {:induction false} ConstantsOnly(ds: seq<Decl>, namespaces: seq<string>, types: seq<string>,
                                         ancestors: seq<Ancestor>)
    requires forall i :: 0 <= i < |ds| ==> ds[i] == Group([])
    ensures EmittedAll(ds, namespaces, types) == [] && DeclarationsAll(ds, ancestors) == []
  {
    if ds != [] {
      ConstantsOnly(ds[1..], namespaces, types, ancestors);
    }
  }

  lemma {:induction false} WalkAgreesAll(ds: seq<Decl>, ancestors: seq<Ancestor>, namespaces: seq<string>,
                                         types: seq<string>, inType: bool)
    requires GrammaticalAll(ds, inType) && StacksMatch(ancestors, namespaces, types, inType)
    ensures NamesAgree(EmittedAll(ds, namespaces, types), DeclarationsAll(ds, ancestors))
    decreases ds, 0
  {
    hide NamesAgree;
    if ds == [] {
      NothingAgrees();
    } else {
      WalkAgrees(ds[0], ancestors, namespaces, types, inType);
      WalkAgreesAll(ds[1..], ancestors, namespaces, types, inType);
      AgreeAppend(Emitted(ds[0], namespaces, types), Declarations(ds[0], ancestors),
                  EmittedAll(ds[1..], namespaces, types), DeclarationsAll(ds[1..], ancestors));
    }
  }

  /** For a whole file: its symbols are its declarations, in document order, with their kinds and the first
      256 characters of their full names. */
  lemma SymbolsAreDeclarations(file: Decl)
    requires Grammatical(file, false)
    ensures NamesAgree(Emitted(file, [], []), Declarations(file, []))
  {
    WalkAgrees(file, [], [], [], false);
  }

  // ---- The indexed names of properties ----

  function PropertySymbols(symbols: seq<Symbol>): seq<Symbol> {
    if symbols == [] then []
    else (if symbols[0].kind == "property" then [symbols[0]] else []) + PropertySymbols(symbols[1..])
  }

  function DeclaredProperties(nodes: seq<Declaration>): seq<PropertyNode> {
    if nodes == [] then []
    else
      (if nodes[0].what.IsProperty? then [PropertyNode(nodes[0].name, nodes[0].ancestors)] else [])
      + DeclaredProperties(nodes[1..])
  }

  lemma {:induction false} DeclaredAppend(a: seq<Declaration>, b: seq<Declaration>)
    ensures DeclaredProperties(a + b) == DeclaredProperties(a) + DeclaredProperties(b)
  {
    if a == [] {
      assert a + b == b;
    } else {
      assert (a + b)[1..] == a[1..] + b && (a + b)[0] == a[0];
      DeclaredAppend(a[1..], b);
      Assoc(if a[0].what.IsProperty? then [PropertyNode(a[0].name, a[0].ancestors)] else [],
            DeclaredProperties(a[1..]), DeclaredProperties(b));
    }
  }

  /** The property statements are the properties among the declarations. */
  lemma {:induction false} PropertyNodesAreDeclared(d: Decl, ancestors: seq<Ancestor>)
    ensures PropertyNodes(d, ancestors) == DeclaredProperties(Declarations(d, ancestors))
    decreases d
  {
    match d
    case Namespace(name, members) => PropertyNodesAllDeclared(members, ancestors + [InNamespace(name)]);
    case TypeBlock(kind, name, members) =>
      PropertyNodesAllDeclared(members, ancestors + [InType(kind, name)]);
      DeclaredAfter(Declaration(IsType(kind), name, ancestors),
                    DeclarationsAll(members, ancestors + [InType(kind, name)]));
    case Property(name, nested) =>
      PropertyNodesAllDeclared(nested, ancestors + [InGroup]);
      DeclaredAfter(Declaration(IsProperty, name, ancestors), DeclarationsAll(nested, ancestors + [InGroup]));
    case OtherMember(name, local) =>
      PropertyNodesAllDeclared(local, ancestors + [InGroup]);
      DeclaredAfter(Declaration(IsMember, name, ancestors), DeclarationsAll(local, ancestors + [InGroup]));
    case Group(members) => PropertyNodesAllDeclared(members, ancestors + [InGroup]);
  }

  lemma DeclaredAfter(n: Declaration, nodes: seq<Declaration>)
    ensures DeclaredProperties([n] + nodes)
            == (if n.what.IsProperty? then [PropertyNode(n.name, n.ancestors)] else []) + DeclaredProperties(nodes)
  {
    assert ([n] + nodes)[1..] == nodes;
  }

  lemma {:induction false} PropertyNodesAllDeclared(ds: seq<Decl>, ancestors: seq<Ancestor>)
    ensures PropertyNodesAll(ds, ancestors) == DeclaredProperties(DeclarationsAll(ds, ancestors))
    decreases ds
  {
    if ds != [] {
      PropertyNodesAreDeclared(ds[0], ancestors);
      PropertyNodesAllDeclared(ds[1..], ancestors);
      DeclaredAppend(Declarations(ds[0], ancestors), DeclarationsAll(ds[1..], ancestors));
    }
  }

  /** The outermost-to-innermost name of a property. */
  function FullName(n: PropertyNode): string {
    Join(OwnerParts(n) + [n.terminal])
  }

  predicate PropertiesAgree(symbols: seq<Symbol>, nodes: seq<PropertyNode>) {
    && |symbols| == |nodes|
    && forall k :: 0 <= k < |nodes| ==> symbols[k].name == Truncate(FullName(nodes[k]))
  }

  lemma PropertyAgrees(s: Symbol, n: Declaration)
    requires Names(s, n)
    ensures s.kind == "property" <==> n.what.IsProperty?
    ensures s.name == Truncate(FullName(PropertyNode(n.name, n.ancestors)))
  {
    hide Join;
  }

  lemma {:induction false} AgreeingProperties(symbols: seq<Symbol>, nodes: seq<Declaration>)
    requires NamesAgree(symbols, nodes)
    ensures PropertiesAgree(PropertySymbols(symbols), DeclaredProperties(nodes))
    decreases symbols
  {
    hide Names, FullName, Truncate;
    if symbols != [] {
      PropertyAgrees(symbols[0], nodes[0]);
      assert forall i :: 0 <= i < |nodes| - 1 ==> Names(symbols[1..][i], nodes[1..][i]) by {
        assert forall i :: 0 <= i < |nodes| - 1 ==> symbols[1..][i] == symbols[i + 1] && nodes[1..][i] == nodes[i + 1];
      }
      AgreeingProperties(symbols[1..], nodes[1..]);
    }
  }

  /** For a whole file: the k-th property symbol carries the first 256 characters of the k-th
      property's full name, so it equals the indexed name exactly when that is not longer; the indexed
      name is the owner's followed by the property's. */
  lemma PropertyNamesAgree(file: Decl, k: nat)
    requires Grammatical(file, false)
    requires k < |PropertyNodes(file, [])|
    ensures var symbols := PropertySymbols(Emitted(file, [], []));
            var node := PropertyNodes(file, [])[k];
            && |symbols| == |PropertyNodes(file, [])|
            && symbols[k].name == Truncate(FullName(node))
            && (Indexed(node) ==>
                  && InfoOf(node).fqn == FullName(node)
                  && InfoOf(node).containingType == Join(NamespaceNames(node.ancestors) + TypeNames(node.ancestors))
                  && InfoOf(node).fqn == InfoOf(node).containingType + "." + node.terminal
                  && (symbols[k].name == InfoOf(node).fqn <==> |InfoOf(node).fqn| <= 256))
  {
    WalkAgrees(file, [], [], [], false);
    PropertyNodesAreDeclared(file, []);
    AgreeingProperties(Emitted(file, [], []), Declarations(file, []));
    var node := PropertyNodes(file, [])[k];
    if Indexed(node) {
      JoinSnoc(OwnerParts(node), node.terminal);
    }
  }
}
