/** The property index of the compilation cache: AddSourceProperties, RemoveSourceProperties, and
    what it means for an incrementally maintained index to agree with the cached trees. */
module PropertyIndex {

  import opened SourceNaming

  /** A parsed file. Parsing is a function of the text, so the text stands for the tree. */
  datatype SyntaxTree = SyntaxTree(path: string, text: string)

  datatype SourceProperty = SourceProperty(fqn: string, containingType: string, path: string)

  datatype Declared = Declared(name: string, info: SourceProperty)

  type Index = map<string, seq<SourceProperty>>

  /** The parser and the platform's path and case rules, left uninterpreted. */
  datatype Frontend = Frontend(
    parse: string -> Decl, fold: string -> string,
    fullPath: string -> string, inside: (string, string) -> bool)
  {
    ghost predicate Sound() {
      forall p :: fullPath(fullPath(p)) == fullPath(p)
    }
  }

  function DeclaredOne(fe: Frontend, node: PropertyNode, path: string): Declared {
    var info := InfoOf(node);
    Declared(fe.fold(node.terminal), SourceProperty(info.fqn, info.containingType, path))
  }

  function DeclaredBy(fe: Frontend, nodes: seq<PropertyNode>, path: string): seq<Declared> {
    if nodes == [] then []
    else
      var last := nodes[|nodes| - 1];
      DeclaredBy(fe, nodes[..|nodes| - 1], path) + (if Indexed(last) then [DeclaredOne(fe, last, path)] else [])
  }

  /** The indexed properties of a tree, in document order. */
  function Properties(fe: Frontend, tree: SyntaxTree): seq<Declared> {
    DeclaredBy(fe, PropertyNodes(fe.parse(tree.text), []), tree.path)
  }

  function Bucket(index: Index, name: string): seq<SourceProperty> {
    if name in index then index[name] else []
  }

  function AddOne(index: Index, d: Declared): Index {
    index[d.name := Bucket(index, d.name) + [d.info]]
  }

  function AddAll(index: Index, ds: seq<Declared>): Index {
    if ds == [] then index else AddOne(AddAll(index, ds[..|ds| - 1]), ds[|ds| - 1])
  }

  lemma AddAllSnoc(index: Index, ds: seq<Declared>, d: Declared)
    ensures AddAll(index, ds + [d]) == AddOne(AddAll(index, ds), d)
  {
    assert (ds + [d])[..|ds|] == ds;
  }

  lemma DeclaredSnoc(fe: Frontend, nodes: seq<PropertyNode>, i: nat, path: string)
    requires i < |nodes|
    ensures DeclaredBy(fe, nodes[..i + 1], path)
            == DeclaredBy(fe, nodes[..i], path)
               + (if Indexed(nodes[i]) then [DeclaredOne(fe, nodes[i], path)] else [])
  {
    assert nodes[..i + 1][..i] == nodes[..i];
  }

  function AddTree(fe: Frontend, index: Index, tree: SyntaxTree): Index {
    AddAll(index, Properties(fe, tree))
  }

  function AddTrees(fe: Frontend, index: Index, trees: seq<SyntaxTree>): Index {
    if trees == [] then index else AddTree(fe, AddTrees(fe, index, trees[..|trees| - 1]), trees[|trees| - 1])
  }

  lemma AddTreesSnoc(fe: Frontend, index: Index, trees: seq<SyntaxTree>, tree: SyntaxTree)
    ensures AddTrees(fe, index, trees + [tree]) == AddTree(fe, AddTrees(fe, index, trees), tree)
  {
    assert (trees + [tree])[..|trees|] == trees;
  }

  function Without(ps: seq<SourceProperty>, path: string): seq<SourceProperty> {
    if ps == [] then []
    else Without(ps[..|ps| - 1], path) + (if ps[|ps| - 1].path == path then [] else [ps[|ps| - 1]])
  }

  function RemovePath(index: Index, path: string): Index {
    map name | name in index && Without(index[name], path) != [] :: Without(index[name], path)
  }

  function RemovePaths(index: Index, paths: seq<string>): Index {
    if paths == [] then index else RemovePath(RemovePaths(index, paths[..|paths| - 1]), paths[|paths| - 1])
  }

  // ---- Agreement ----

  function OfPath(ps: seq<SourceProperty>, path: string): seq<SourceProperty> {
    if ps == [] then []
    else OfPath(ps[..|ps| - 1], path) + (if ps[|ps| - 1].path == path then [ps[|ps| - 1]] else [])
  }

  function Named(ds: seq<Declared>, name: string): seq<SourceProperty> {
    if ds == [] then []
    else Named(ds[..|ds| - 1], name) + (if ds[|ds| - 1].name == name then [ds[|ds| - 1].info] else [])
  }

  ghost predicate NoEmptyBuckets(index: Index) {
    forall name :: name in index ==> index[name] != []
  }

  /** What the index must hold for one path under one name. */
  function Expected(fe: Frontend, trees: map<string, SyntaxTree>, path: string, name: string): seq<SourceProperty> {
    if path in trees then Named(Properties(fe, trees[path]), name) else []
  }

  /** Under every name, the entries of each path are exactly that tree's properties, in order. */
  ghost predicate Agrees(fe: Frontend, index: Index, trees: map<string, SyntaxTree>) {
    && NoEmptyBuckets(index)
    && forall name, path :: OfPath(Bucket(index, name), path) == Expected(fe, trees, path, name)
  }

  ghost predicate Filed(trees: map<string, SyntaxTree>) {
    forall p :: p in trees ==> trees[p].path == p
  }

  lemma {:induction false} OfPathAppend(a: seq<SourceProperty>, b: seq<SourceProperty>, path: string)
    ensures OfPath(a + b, path) == OfPath(a, path) + OfPath(b, path)
  {
    if b == [] {
      assert a + b == a;
    } else {
      assert (a + b)[..|a + b| - 1] == a + b[..|b| - 1];
      OfPathAppend(a, b[..|b| - 1], path);
    }
  }

  lemma {:induction false} OfPathWithout(ps: seq<SourceProperty>, gone: string, path: string)
    ensures OfPath(Without(ps, gone), path) == if path == gone then [] else OfPath(ps, path)
  {
    if ps != [] {
      var init, last := ps[..|ps| - 1], ps[|ps| - 1];
      OfPathWithout(init, gone, path);
      OfPathAppend(Without(init, gone), if last.path == gone then [] else [last], path);
      assert [last][..0] == [];
    }
  }

  lemma {:induction false} AllOfPath(ps: seq<SourceProperty>, from: string, path: string)
    requires forall p :: p in ps ==> p.path == from
    ensures OfPath(ps, path) == if path == from then ps else []
  {
    if ps != [] {
      AllOfPath(ps[..|ps| - 1], from, path);
      assert ps[|ps| - 1] in ps;
    }
  }

  lemma {:induction false} DeclaredPath(fe: Frontend, nodes: seq<PropertyNode>, path: string)
    ensures forall d :: d in DeclaredBy(fe, nodes, path) ==> d.info.path == path
  {
    if nodes != [] {
      DeclaredPath(fe, nodes[..|nodes| - 1], path);
    }
  }

  lemma {:induction false} NamedMembers(ds: seq<Declared>, name: string)
    ensures forall p :: p in Named(ds, name) ==> exists d :: d in ds && d.info == p
  {
    if ds != [] {
      NamedMembers(ds[..|ds| - 1], name);
      assert ds[|ds| - 1] in ds;
      assert forall d :: d in ds[..|ds| - 1] ==> d in ds;
    }
  }

  lemma PropertiesOfPath(fe: Frontend, tree: SyntaxTree, name: string, path: string)
    ensures OfPath(Named(Properties(fe, tree), name), path)
            == if path == tree.path then Named(Properties(fe, tree), name) else []
  {
    DeclaredPath(fe, PropertyNodes(fe.parse(tree.text), []), tree.path);
    NamedMembers(Properties(fe, tree), name);
    AllOfPath(Named(Properties(fe, tree), name), tree.path, path);
  }

  lemma {:induction false} AddAllBuckets(index: Index, ds: seq<Declared>)
    requires NoEmptyBuckets(index)
    ensures NoEmptyBuckets(AddAll(index, ds))
    ensures forall name :: Bucket(AddAll(index, ds), name) == Bucket(index, name) + Named(ds, name)
  {
    if ds != [] {
      AddAllBuckets(index, ds[..|ds| - 1]);
    }
  }

  lemma RemoveBuckets(index: Index, path: string)
    ensures NoEmptyBuckets(RemovePath(index, path))
    ensures forall name :: Bucket(RemovePath(index, path), name) == Without(Bucket(index, name), path)
  {
  }

  /** Adding a tree contributes exactly its properties, under its own path. */
  lemma AddTreeEffect(fe: Frontend, index: Index, tree: SyntaxTree, name: string, path: string)
    requires NoEmptyBuckets(index)
    ensures NoEmptyBuckets(AddTree(fe, index, tree))
    ensures OfPath(Bucket(AddTree(fe, index, tree), name), path)
            == OfPath(Bucket(index, name), path)
               + (if path == tree.path then Named(Properties(fe, tree), name) else [])
  {
    AddAllBuckets(index, Properties(fe, tree));
    OfPathAppend(Bucket(index, name), Named(Properties(fe, tree), name), path);
    PropertiesOfPath(fe, tree, name, path);
  }

  lemma AddTreeExpected(fe: Frontend, index: Index, trees: map<string, SyntaxTree>, tree: SyntaxTree, name: string,
                        path: string)
    requires Agrees(fe, index, trees) && tree.path !in trees
    ensures OfPath(Bucket(AddTree(fe, index, tree), name), path)
            == Expected(fe, trees[tree.path := tree], path, name)
  {
    hide AddTree, OfPath, Bucket, Properties, Named;
    AddTreeEffect(fe, index, tree, name, path);
    assert OfPath(Bucket(index, name), path) == Expected(fe, trees, path, name);
  }

  lemma AddTreeAgrees(fe: Frontend, index: Index, trees: map<string, SyntaxTree>, tree: SyntaxTree)
    requires Agrees(fe, index, trees) && tree.path !in trees
    ensures Agrees(fe, AddTree(fe, index, tree), trees[tree.path := tree])
  {
    hide AddTree, OfPath, Bucket, Expected;
    forall name, path
      ensures OfPath(Bucket(AddTree(fe, index, tree), name), path)
              == Expected(fe, trees[tree.path := tree], path, name)
    {
      AddTreeExpected(fe, index, trees, tree, name, path);
    }
    AddTreeEffect(fe, index, tree, "", "");
  }

  lemma RemovePathEffect(index: Index, gone: string, name: string, path: string)
    ensures OfPath(Bucket(RemovePath(index, gone), name), path)
            == if path == gone then [] else OfPath(Bucket(index, name), path)
  {
    RemoveBuckets(index, gone);
    OfPathWithout(Bucket(index, name), gone, path);
  }

  lemma RemovePathAgrees(fe: Frontend, index: Index, trees: map<string, SyntaxTree>, gone: string)
    requires Agrees(fe, index, trees)
    ensures Agrees(fe, RemovePath(index, gone), trees - {gone})
  {
    forall name, path
      ensures OfPath(Bucket(RemovePath(index, gone), name), path) == Expected(fe, trees - {gone}, path, name)
    {
      RemovePathEffect(index, gone, name, path);
      assert OfPath(Bucket(index, name), path) == Expected(fe, trees, path, name);
    }
    RemoveBuckets(index, gone);
  }

  function PathSet(paths: seq<string>): set<string> {
    set p | p in paths
  }

  lemma {:induction false} RemovePathsAgrees(fe: Frontend, index: Index, trees: map<string, SyntaxTree>,
                                             gone: seq<string>)
    requires Agrees(fe, index, trees)
    ensures Agrees(fe, RemovePaths(index, gone), trees - PathSet(gone))
  {
    if gone == [] {
      assert trees - PathSet(gone) == trees;
    } else {
      var init, last := gone[..|gone| - 1], gone[|gone| - 1];
      RemovePathsAgrees(fe, index, trees, init);
      RemovePathAgrees(fe, RemovePaths(index, init), trees - PathSet(init), last);
      assert PathSet(gone) == PathSet(init) + {last} by {
        assert gone == init + [last];
      }
      assert trees - PathSet(gone) == trees - PathSet(init) - {last};
    }
  }

  /** Later trees replace earlier ones with the same path. */
  function PutTrees(trees: map<string, SyntaxTree>, added: seq<SyntaxTree>): map<string, SyntaxTree> {
    if added == [] then trees
    else PutTrees(trees, added[..|added| - 1])[added[|added| - 1].path := added[|added| - 1]]
  }

  lemma PutTreesSnoc(trees: map<string, SyntaxTree>, added: seq<SyntaxTree>, tree: SyntaxTree)
    ensures PutTrees(trees, added + [tree]) == PutTrees(trees, added)[tree.path := tree]
  {
    assert (added + [tree])[..|added|] == added;
  }

  ghost predicate DistinctPaths(trees: seq<SyntaxTree>) {
    forall i, j :: 0 <= i < j < |trees| ==> trees[i].path != trees[j].path
  }

  lemma {:induction false} PutTreesKeys(trees: map<string, SyntaxTree>, added: seq<SyntaxTree>)
    ensures forall p :: p in PutTrees(trees, added) <==>
              p in trees || exists i :: 0 <= i < |added| && added[i].path == p
    ensures Filed(trees) ==> Filed(PutTrees(trees, added))
    ensures forall p :: p in trees && (forall i :: 0 <= i < |added| ==> added[i].path != p) ==>
              PutTrees(trees, added)[p] == trees[p]
  {
    if added != [] {
      PutTreesKeys(trees, added[..|added| - 1]);
    }
  }

  lemma {:induction false} AddTreesAgrees(fe: Frontend, index: Index, trees: map<string, SyntaxTree>,
                                          added: seq<SyntaxTree>)
    requires Agrees(fe, index, trees)
    requires DistinctPaths(added) && forall i :: 0 <= i < |added| ==> added[i].path !in trees
    ensures Agrees(fe, AddTrees(fe, index, added), PutTrees(trees, added))
  {
    if added != [] {
      var init, last := added[..|added| - 1], added[|added| - 1];
      AddTreesAgrees(fe, index, trees, init);
      PutTreesKeys(trees, init);
      AddTreeAgrees(fe, AddTrees(fe, index, init), PutTrees(trees, init), last);
    }
  }

  lemma EmptyAgrees(fe: Frontend)
    ensures Agrees(fe, map[], map[])
  {
  }

  // ---- Agreement determines the index, up to order across paths ----

  lemma {:induction false} OfPathCount(ps: seq<SourceProperty>, x: SourceProperty)
    ensures multiset(OfPath(ps, x.path))[x] == multiset(ps)[x]
  {
    if ps != [] {
      var init, last := ps[..|ps| - 1], ps[|ps| - 1];
      OfPathCount(init, x);
      assert ps == init + [last];
    }
  }

  /** Two indexes that agree with the same trees have the same names and, under each name, the same
      entries as often: an incremental index equals one rebuilt from the trees in any order. */
  lemma AgreeingIndexesEqual(fe: Frontend, a: Index, b: Index, trees: map<string, SyntaxTree>)
    requires Agrees(fe, a, trees) && Agrees(fe, b, trees)
    ensures a.Keys == b.Keys
    ensures forall name :: name in a ==> multiset(a[name]) == multiset(b[name])
  {
    forall name
      ensures multiset(Bucket(a, name)) == multiset(Bucket(b, name))
    {
      forall x
        ensures multiset(Bucket(a, name))[x] == multiset(Bucket(b, name))[x]
      {
        OfPathCount(Bucket(a, name), x);
        OfPathCount(Bucket(b, name), x);
        assert OfPath(Bucket(a, name), x.path) == Expected(fe, trees, x.path, name);
        assert OfPath(Bucket(b, name), x.path) == Expected(fe, trees, x.path, name);
      }
    }
    forall name
      ensures name in a <==> name in b
    {
      assert |multiset(Bucket(a, name))| == |Bucket(a, name)|;
      assert |multiset(Bucket(b, name))| == |Bucket(b, name)|;
      assert multiset(Bucket(a, name)) == multiset(Bucket(b, name));
    }
    forall name | name in a
      ensures multiset(a[name]) == multiset(b[name])
    {
      assert multiset(Bucket(a, name)) == multiset(Bucket(b, name));
    }
  }

  /** The index rebuilt from scratch agrees with the trees it was built from. */
  lemma RebuiltIndexAgrees(fe: Frontend, order: seq<SyntaxTree>)
    requires DistinctPaths(order)
    ensures Agrees(fe, AddTrees(fe, map[], order), PutTrees(map[], order))
  {
    EmptyAgrees(fe);
    AddTreesAgrees(fe, map[], map[], order);
  }
}
