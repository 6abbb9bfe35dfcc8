/**
  The identity of a benchmark fixture: the sorted list of its files, with version control, tool
  state and build output left out. A tree is a map from names to nodes, so the order in which a
  directory lists its entries is not part of it.
 */
module FixtureWalk {
  import opened Wrappers
  import opened Order
  import opened Text

  type Name = string
  type Path = seq<Name>

  /** `Leaf` is a regular file or a link, which may or may not lead to a regular file; `Special` is
      neither a leaf nor a directory (a socket, a device). */
  datatype Node = Leaf(isFile: bool) | Dir(children: map<Name, Node>) | Special

  function Resolve(root: Node, p: Path): Option<Node>
    decreases p
  {
    if p == [] then Some(root)
    else if root.Dir? && p[0] in root.children then Resolve(root.children[p[0]], p[1..])
    else None
  }

  /** `path.is_file()` */
  predicate IsFile(root: Node, p: Path) {
    Resolve(root, p) == Some(Leaf(true))
  }

  lemma {:induction false} ResolveSnoc(root: Node, p: Path, name: Name)
    ensures Resolve(root, p + [name]) == match Resolve(root, p)
      case Some(Dir(m)) => if name in m then Some(m[name]) else None
      case _ => None
    decreases p
  {
    if p == [] {
      assert ([] + [name])[1..] == [];
    } else {
      assert (p + [name])[1..] == p[1..] + [name];
      if root.Dir? && p[0] in root.children {
        ResolveSnoc(root.children[p[0]], p[1..], name);
      }
    }
  }

  // ----- build roots -----

  /** Some chain of directories named `project` leads up from `dir` to one that holds a `build.sbt`. */
  predicate IsSbtMeta(root: Node, dir: Path) {
    exists k | 0 <= k < |dir| ::
      (forall j | k <= j < |dir| :: dir[j] == "project") && IsFile(root, dir[..k] + ["build.sbt"])
  }

  /** Climbs from `dir` towards the fixture root and never looks above it. */
  method SbtMetaProjectDir(root: Node, dir: Path) returns (found: bool)
    ensures found == IsSbtMeta(root, dir)
  {
    var cursor := dir;
    while true
      invariant |cursor| <= |dir| && cursor == dir[..|cursor|]
      invariant forall j | |cursor| <= j < |dir| :: dir[j] == "project"
      invariant forall k | |cursor| <= k < |dir| :: !IsFile(root, dir[..k] + ["build.sbt"])
      decreases |cursor|
    {
      if cursor == [] {
        return false;
      }
      if cursor[|cursor| - 1] != "project" {
        assert dir[|cursor| - 1] != "project";
        return false;
      }
      var parent := cursor[..|cursor| - 1];
      assert parent == dir[..|cursor| - 1];
      if IsFile(root, parent + ["build.sbt"]) {
        return true;
      }
      cursor := parent;
    }
  }

  predicate IsBuildRoot(root: Node, dir: Path) {
    || IsFile(root, dir + ["Cargo.toml"])
    || IsFile(root, dir + ["pom.xml"])
    || IsFile(root, dir + ["build.sbt"])
    || IsSbtMeta(root, dir)
  }

  /** The entry `name` of directory `dir` is passed over. */
  predicate Ignored(root: Node, dir: Path, name: Name, node: Node) {
    || name == ".git" || name == ".ledgerful"
    || (node.Dir? && (name == "node_modules" || (name == "target" && IsBuildRoot(root, dir))))
  }

  // ----- the walk -----

  ghost function Least(names: set<Name>): (n: Name)
    requires names != {}
    ensures n in names && forall m | m in names :: StrLe(n, m)
  {
    LeastExists(names);
    var n :| n in names && forall m | m in names :: StrLe(n, m);
    n
  }

  lemma {:induction false} LeastExists(names: set<Name>)
    requires names != {}
    ensures exists n :: n in names && forall m | m in names :: StrLe(n, m)
    decreases |names|
  {
    StringOrderIsTotal();
    var x :| x in names;
    var rest := names - {x};
    if rest == {} {
      assert names == {x};
    } else {
      LeastExists(rest);
      var y :| y in rest && forall m | m in rest :: StrLe(y, m);
      if StrLe(x, y) {
        assert forall m | m in names :: StrLe(x, m);
      } else {
        assert forall m | m in names :: StrLe(y, m);
      }
    }
  }

  /** The kept leaves below the directory `node` at `dir`, whose entries still to visit are `names`. */
  ghost function Walk(root: Node, dir: Path, node: Node, names: set<Name>): seq<Path>
    requires node.Dir? && names <= node.children.Keys
    decreases node, 0, |names|
  {
    if names == {} then []
    else
      var name := Least(names);
      Visit(root, dir, name, node.children[name]) + Walk(root, dir, node, names - {name})
  }

  ghost function Visit(root: Node, dir: Path, name: Name, node: Node): seq<Path>
    decreases node, 1, 0
  {
    if Ignored(root, dir, name, node) then []
    else match node
      case Leaf(_) => [dir + [name]]
      case Dir(m) => Walk(root, dir + [name], node, m.Keys)
      case Special => []
  }

  // ----- which paths are kept -----

  /** `p` leads to a leaf and no step of it is passed over; the definition does not walk the tree. */
  ghost predicate IsKept(root: Node, p: Path) {
    && p != []
    && (match Resolve(root, p) case Some(Leaf(_)) => true case _ => false)
    && forall i | 0 <= i < |p| :: StepKept(root, p, i)
  }

  ghost predicate StepKept(root: Node, p: Path, i: nat)
    requires i < |p|
  {
    Resolve(root, p[..i + 1]).Some? && !Ignored(root, p[..i], p[i], Resolve(root, p[..i + 1]).value)
  }

  ghost predicate Reached(root: Node, dir: Path) {
    forall i | 0 <= i < |dir| :: StepKept(root, dir, i)
  }

  lemma ReachedSnoc(root: Node, dir: Path, name: Name)
    requires Reached(root, dir)
    ensures Reached(root, dir + [name]) <==>
      Resolve(root, dir + [name]).Some? && !Ignored(root, dir, name, Resolve(root, dir + [name]).value)
  {
    var p := dir + [name];
    assert p[..|dir|] == dir && p[..|dir| + 1] == p;
    forall i | 0 <= i < |dir| ensures StepKept(root, p, i) {
      assert StepKept(root, dir, i);
      assert p[..i] == dir[..i] && p[..i + 1] == dir[..i + 1];
    }
    if Reached(root, p) {
      assert StepKept(root, p, |dir|);
    }
  }

  lemma ReachedPrefix(root: Node, p: Path, k: nat)
    requires k <= |p| && Reached(root, p)
    ensures Reached(root, p[..k])
  {
    forall i | 0 <= i < k ensures StepKept(root, p[..k], i) {
      assert StepKept(root, p, i);
      assert p[..k][..i] == p[..i] && p[..k][..i + 1] == p[..i + 1];
    }
  }

  ghost predicate Below(dir: Path, names: set<Name>, p: Path) {
    |dir| < |p| && p[..|dir|] == dir && p[|dir|] in names
  }

  lemma {:induction false} WalkFindsKept(root: Node, dir: Path, node: Node, names: set<Name>, p: Path)
    requires node.Dir? && names <= node.children.Keys
    requires Resolve(root, dir) == Some(node) && Reached(root, dir)
    ensures p in Walk(root, dir, node, names) <==> Below(dir, names, p) && IsKept(root, p)
    decreases node, 0, |names|
  {
    if names != {} {
      var name := Least(names);
      ResolveSnoc(root, dir, name);
      VisitFindsKept(root, dir, name, node.children[name], p);
      WalkFindsKept(root, dir, node, names - {name}, p);
    }
  }

  lemma {:induction false} VisitFindsKept(root: Node, dir: Path, name: Name, node: Node, p: Path)
    requires Resolve(root, dir + [name]) == Some(node) && Reached(root, dir)
    ensures p in Visit(root, dir, name, node) <==> Below(dir, {name}, p) && IsKept(root, p)
    decreases node, 1, 0
  {
    var here := dir + [name];
    ReachedSnoc(root, dir, name);
    if Below(dir, {name}, p) {
      assert p[..|here|] == here;
      if Ignored(root, dir, name, node) {
        if IsKept(root, p) {
          ReachedPrefix(root, p, |here|);
        }
      } else if p != here {
        ResolvePast(root, p, |here|);
      }
    }
    if !Ignored(root, dir, name, node) && node.Dir? {
      WalkFindsKept(root, here, node, node.children.Keys, p);
      if Below(dir, {name}, p) && IsKept(root, p) {
        assert p != here;
        assert Below(here, node.children.Keys, p);
      }
      if Below(here, node.children.Keys, p) {
        assert p[..|dir|] == here[..|dir|];
      }
    }
  }

  /** A path that resolves past position `k` enters a directory there, by one of its entries. */
  lemma ResolvePast(root: Node, p: Path, k: nat)
    requires k < |p|
    ensures Resolve(root, p).Some? ==>
      Resolve(root, p[..k]).Some? && Resolve(root, p[..k]).value.Dir? && p[k] in Resolve(root, p[..k]).value.children
  {
    assert p[..k + 1] == p[..k] + [p[k]];
    ResolveSnoc(root, p[..k], p[k]);
    ResolvePrefix(root, p, k + 1);
  }

  lemma {:induction false} ResolvePrefix(root: Node, p: Path, k: nat)
    requires k <= |p|
    ensures Resolve(root, p).Some? ==> Resolve(root, p[..k]).Some?
    decreases p
  {
    if k > 0 && root.Dir? && p[0] in root.children {
      ResolvePrefix(root.children[p[0]], p[1..], k - 1);
      assert p[..k][1..] == p[1..][..k - 1];
    }
  }

  // ----- every kept leaf once -----

  ghost predicate Distinct(ps: seq<Path>) {
    forall i, j | 0 <= i < j < |ps| :: ps[i] != ps[j]
  }

  lemma DistinctConcat(a: seq<Path>, b: seq<Path>)
    requires Distinct(a) && Distinct(b) && forall p | p in a :: p !in b
    ensures Distinct(a + b)
  {
    forall i, j | 0 <= i < j < |a + b| ensures (a + b)[i] != (a + b)[j] {
      if i < |a| <= j {
        assert a[i] in a && b[j - |a|] in b;
      }
    }
  }

  lemma {:induction false} WalkDistinct(root: Node, dir: Path, node: Node, names: set<Name>)
    requires node.Dir? && names <= node.children.Keys
    requires Resolve(root, dir) == Some(node) && Reached(root, dir)
    ensures Distinct(Walk(root, dir, node, names))
    decreases node, 0, |names|
  {
    if names != {} {
      var name := Least(names);
      ResolveSnoc(root, dir, name);
      VisitDistinct(root, dir, name, node.children[name]);
      WalkDistinct(root, dir, node, names - {name});
      forall p | p in Visit(root, dir, name, node.children[name]) ensures p !in Walk(root, dir, node, names - {name}) {
        VisitFindsKept(root, dir, name, node.children[name], p);
        WalkFindsKept(root, dir, node, names - {name}, p);
      }
      DistinctConcat(Visit(root, dir, name, node.children[name]), Walk(root, dir, node, names - {name}));
    }
  }

  lemma {:induction false} VisitDistinct(root: Node, dir: Path, name: Name, node: Node)
    requires Resolve(root, dir + [name]) == Some(node) && Reached(root, dir)
    ensures Distinct(Visit(root, dir, name, node))
    decreases node, 1, 0
  {
    if !Ignored(root, dir, name, node) && node.Dir? {
      ReachedSnoc(root, dir, name);
      WalkDistinct(root, dir + [name], node, node.children.Keys);
    }
  }

  /** The walk of a whole fixture lists exactly the kept leaves, each once. */
  lemma FixtureWalkIsExact(root: Node)
    requires root.Dir?
    ensures Distinct(Walk(root, [], root, root.children.Keys))
    ensures forall p :: p in Walk(root, [], root, root.children.Keys) <==> IsKept(root, p)
  {
    WalkDistinct(root, [], root, root.children.Keys);
    forall p ensures p in Walk(root, [], root, root.children.Keys) <==> IsKept(root, p) {
      WalkFindsKept(root, [], root, root.children.Keys, p);
      if IsKept(root, p) {
        ResolvePast(root, p, 0);
        assert p[..0] == [];
      }
    }
  }

  // ----- build output is invisible -----

  /** The tree without anything that is passed over. */
  ghost function Prune(root: Node, dir: Path, node: Node): Node
    decreases node
  {
    match node
    case Dir(m) => Dir(map n | n in m && !Ignored(root, dir, n, m[n]) :: Prune(root, dir + [n], m[n]))
    case _ => node
  }

  lemma {:induction false} PruneResolves(root: Node, p: Path)
    ensures Resolve(Prune(root, [], root), p).Some? <==> Reached(root, p)
    ensures Reached(root, p) ==>
      Resolve(root, p).Some? && Resolve(Prune(root, [], root), p) == Some(Prune(root, p, Resolve(root, p).value))
    decreases |p|
  {
    var pruned := Prune(root, [], root);
    if p != [] {
      var dir, name := p[..|p| - 1], p[|p| - 1];
      assert p == dir + [name];
      PruneResolves(root, dir);
      ResolveSnoc(root, dir, name);
      ResolveSnoc(pruned, dir, name);
      if Reached(root, p) {
        ReachedPrefix(root, p, |dir|);
        ReachedSnoc(root, dir, name);
      }
      if Resolve(pruned, dir).Some? {
        ReachedSnoc(root, dir, name);
      }
    }
  }

  lemma PruneKeepsFiles(root: Node, dir: Path, name: Name)
    requires Reached(root, dir) && name !in {".git", ".ledgerful"}
    ensures IsFile(Prune(root, [], root), dir + [name]) <==> IsFile(root, dir + [name])
  {
    PruneResolves(root, dir + [name]);
    ReachedSnoc(root, dir, name);
  }

  lemma PruneKeepsBuildRoots(root: Node, dir: Path)
    requires Reached(root, dir)
    ensures IsBuildRoot(Prune(root, [], root), dir) <==> IsBuildRoot(root, dir)
  {
    PruneKeepsFiles(root, dir, "Cargo.toml");
    PruneKeepsFiles(root, dir, "pom.xml");
    PruneKeepsFiles(root, dir, "build.sbt");
    forall k | 0 <= k < |dir|
      ensures IsFile(Prune(root, [], root), dir[..k] + ["build.sbt"]) <==> IsFile(root, dir[..k] + ["build.sbt"])
    {
      ReachedPrefix(root, dir, k);
      PruneKeepsFiles(root, dir[..k], "build.sbt");
    }
  }

  lemma PruneKeepsSteps(root: Node, p: Path, i: nat)
    requires i < |p| && Reached(root, p[..i + 1])
    ensures StepKept(Prune(root, [], root), p, i)
  {
    var q := p[..i + 1];
    PruneResolves(root, q);
    ReachedPrefix(root, q, i);
    assert q[..i] == p[..i] && q[..i + 1] == q;
    PruneKeepsBuildRoots(root, p[..i]);
    assert StepKept(root, q, i);
  }

  lemma PruneKeepsKept(root: Node, p: Path)
    ensures IsKept(Prune(root, [], root), p) <==> IsKept(root, p)
  {
    PruneResolves(root, p);
    if Reached(root, p) {
      forall i | 0 <= i < |p| ensures StepKept(Prune(root, [], root), p, i) {
        ReachedPrefix(root, p, i + 1);
        PruneKeepsSteps(root, p, i);
      }
    }
  }

  /** The relative path as recorded, with forward slashes. */
  function Render(p: Path): string {
    if p == [] then "" else if |p| == 1 then Slashed(p[0]) else Slashed(p[0]) + "/" + Render(p[1..])
  }

  ghost function Rendered(ps: seq<Path>): seq<string> {
    Mapped(Render, ps)
  }

  /** What the fixture id hashes: the sorted rendered paths. */
  ghost function FixtureList(root: Node): seq<string>
    requires root.Dir?
  {
    Sort(Itself, StrLe, Rendered(Walk(root, [], root, root.children.Keys)))
  }

  /** Trees that keep the same leaves have the same fixture list. */
  lemma SameKeptSameList(a: Node, b: Node)
    requires a.Dir? && b.Dir? && forall p :: IsKept(a, p) <==> IsKept(b, p)
    ensures FixtureList(a) == FixtureList(b)
  {
    FixtureWalkIsExact(a);
    FixtureWalkIsExact(b);
    var x, y := Walk(a, [], a, a.children.Keys), Walk(b, [], b, b.children.Keys);
    SameSetSameMultiset(x, y);
    MappedPermuted(Render, x, y);
    StringOrderIsTotal();
    SortIsCanonical(Itself, StrLe, Rendered(x), Rendered(y));
  }

  /** The fixture list is that of the pruned tree, so trees that differ only in what is passed over,
      including whether it is there at all, have the same one. */
  lemma BuildOutputIsInvisible(a: Node, b: Node)
    requires a.Dir? && b.Dir? && Prune(a, [], a) == Prune(b, [], b)
    ensures FixtureList(a) == FixtureList(Prune(a, [], a)) == FixtureList(b)
  {
    forall p
      ensures IsKept(Prune(a, [], a), p) <==> IsKept(a, p)
      ensures IsKept(Prune(b, [], b), p) <==> IsKept(b, p)
    {
      PruneKeepsKept(a, p);
      PruneKeepsKept(b, p);
    }
    SameKeptSameList(a, Prune(a, [], a));
    SameKeptSameList(b, Prune(b, [], b));
  }

  // ----- by names and files alone -----

  ghost predicate HasFile(root: Node, p: Path) { Resolve(root, p) == Some(Leaf(true)) }

  /** A directory that Cargo, Maven or sbt builds in: by one of three files, or as a `project` directory of a
      chain below a `build.sbt`. */
  ghost predicate BuildsIn(root: Node, dir: Path) {
    || HasFile(root, dir + ["Cargo.toml"]) || HasFile(root, dir + ["pom.xml"]) || HasFile(root, dir + ["build.sbt"])
    || exists k | 0 <= k < |dir| ::
         HasFile(root, dir[..k] + ["build.sbt"]) && forall j | k <= j < |dir| :: dir[j] == "project"
  }

  ghost predicate IsDir(root: Node, p: Path) {
    Resolve(root, p).Some? && Resolve(root, p).value.Dir?
  }

  /** Step `i` of `p` is version control, tool state, installed packages or build output. */
  ghost predicate LeftOut(root: Node, p: Path, i: nat)
    requires i < |p|
  {
    || p[i] == ".git" || p[i] == ".ledgerful"
    || (p[i] == "node_modules" && IsDir(root, p[..i + 1]))
    || (p[i] == "target" && IsDir(root, p[..i + 1]) && BuildsIn(root, p[..i]))
  }

  ghost predicate IsSource(root: Node, p: Path) {
    && p != [] && Resolve(root, p).Some? && Resolve(root, p).value.Leaf?
    && forall i | 0 <= i < |p| :: !LeftOut(root, p, i)
  }

  lemma KeptIsSource(root: Node, p: Path)
    ensures IsKept(root, p) <==> IsSource(root, p)
  {
    if Resolve(root, p).Some? {
      forall i | 0 <= i < |p| ensures StepKept(root, p, i) <==> !LeftOut(root, p, i) {
        ResolvePrefix(root, p, i + 1);
      }
    }
  }

  /** The list holds the rendered paths of exactly those leaves no step of whose path is left out, in order. */
  lemma ListsExactlySource(root: Node, s: string)
    requires root.Dir?
    ensures s in FixtureList(root) <==> exists p :: IsSource(root, p) && Render(p) == s
    ensures forall i, j | 0 <= i < j < |FixtureList(root)| :: StrLe(FixtureList(root)[i], FixtureList(root)[j])
  {
    StringOrderIsTotal();
    SortSorts(Itself, StrLe, Rendered(Walk(root, [], root, root.children.Keys)));
    assert forall i, j | 0 <= i < j < |FixtureList(root)| ::
      StrLe(Itself(FixtureList(root)[i]), Itself(FixtureList(root)[j]));
    var ps := Walk(root, [], root, root.children.Keys);
    FixtureWalkIsExact(root);
    SameElements(FixtureList(root), Rendered(ps));
    if s in FixtureList(root) {
      var i :| 0 <= i < |ps| && Rendered(ps)[i] == s;
      assert ps[i] in ps;
      KeptIsSource(root, ps[i]);
    }
    if p :| IsSource(root, p) && Render(p) == s {
      KeptIsSource(root, p);
      var i :| 0 <= i < |ps| && ps[i] == p;
      assert Rendered(ps)[i] == s;
    }
  }

  /** A path is rendered with one slash between its names. */
  lemma RendersNames(name: Name, p: Path)
    requires forall i | 0 <= i < |name| :: name[i] != '\\'
    ensures Render([name]) == name && (p != [] ==> Render([name] + p) == name + "/" + Render(p))
  {
    SlashedKeeps(name);
    assert ([name] + p)[1..] == p;
  }

  /** The tree with `node` added as entry `name` of directory `dir`. */
  ghost function Put(root: Node, dir: Path, name: Name, node: Node): Node
    decreases |dir|
  {
    if !root.Dir? then root
    else if dir == [] then Dir(root.children[name := node])
    else if dir[0] in root.children then
      Dir(root.children[dir[0] := Put(root.children[dir[0]], dir[1..], name, node)])
    else root
  }

  ghost predicate SameKind(x: Option<Node>, y: Option<Node>) {
    (x.Some? <==> y.Some?) && (x.Some? ==> (x.value.Dir? <==> y.value.Dir?) && (!x.value.Dir? ==> x == y))
  }

  lemma {:induction false} PutResolves(root: Node, dir: Path, name: Name, node: Node, q: Path)
    requires IsDir(root, dir) && name !in Resolve(root, dir).value.children
    ensures var added := Put(root, dir, name, node);
      if dir + [name] <= q then Resolve(added, q) == Resolve(node, q[|dir| + 1..]) && Resolve(root, q).None?
      else SameKind(Resolve(added, q), Resolve(root, q))
    decreases |dir|
  {
    if q != [] {
      if dir == [] {
        assert dir + [name] <= q <==> q[0] == name;
      } else {
        assert dir + [name] <= q <==> q[0] == dir[0] && dir[1..] + [name] <= q[1..] by {
          assert dir == [dir[0]] + dir[1..] && q == [q[0]] + q[1..];
        }
        if q[0] == dir[0] {
          PutResolves(root.children[dir[0]], dir[1..], name, node, q[1..]);
          if dir + [name] <= q {
            assert q[1..][|dir[1..]| + 1..] == q[|dir| + 1..];
          }
        }
      }
    }
  }

  ghost predicate IsOutput(root: Node, dir: Path, name: Name, node: Node) {
    || name == ".git" || name == ".ledgerful"
    || (node.Dir? && (name == "node_modules" || (name == "target" && BuildsIn(root, dir))))
  }

  /** Files that mark build roots are not output, so none appears or goes. */
  lemma PutKeepsBuilds(root: Node, dir: Path, name: Name, node: Node, q: Path)
    requires IsDir(root, dir) && name !in Resolve(root, dir).value.children
    requires name !in {"Cargo.toml", "pom.xml", "build.sbt"} && !(dir + [name] <= q)
    ensures BuildsIn(Put(root, dir, name, node), q) <==> BuildsIn(root, q)
  {
    PutKeepsFile(root, dir, name, node, q, "Cargo.toml");
    PutKeepsFile(root, dir, name, node, q, "pom.xml");
    PutKeepsFile(root, dir, name, node, q, "build.sbt");
    forall k | 0 <= k < |q|
      ensures HasFile(Put(root, dir, name, node), q[..k] + ["build.sbt"]) <==> HasFile(root, q[..k] + ["build.sbt"])
    {
      assert !(dir + [name] <= q[..k]);
      PutKeepsFile(root, dir, name, node, q[..k], "build.sbt");
    }
  }

  lemma PutKeepsFile(root: Node, dir: Path, name: Name, node: Node, q: Path, file: Name)
    requires IsDir(root, dir) && name !in Resolve(root, dir).value.children
    requires name != file && !(dir + [name] <= q)
    ensures HasFile(Put(root, dir, name, node), q + [file]) <==> HasFile(root, q + [file])
  {
    assert !(dir + [name] <= q + [file]) by {
      assert (dir + [name])[|dir|] == name && (q + [file])[|q|] == file;
      assert |dir| < |q| ==> (q + [file])[..|dir| + 1] == q[..|dir| + 1];
    }
    PutResolves(root, dir, name, node, q + [file]);
  }

  lemma PutKeepsSource(root: Node, dir: Path, name: Name, node: Node, p: Path)
    requires IsDir(root, dir) && name !in Resolve(root, dir).value.children && IsOutput(root, dir, name, node)
    ensures IsSource(Put(root, dir, name, node), p) <==> IsSource(root, p)
  {
    var added, here := Put(root, dir, name, node), dir + [name];
    PutResolves(root, dir, name, node, p);
    if here <= p {
      PutResolves(root, dir, name, node, here);
      assert p[..|dir|] == dir && p[..|dir| + 1] == here && p[|dir|] == name;
      if name == "target" {
        PutKeepsBuilds(root, dir, name, node, dir);
      }
      assert LeftOut(added, p, |dir|);
    } else {
      forall i | 0 <= i < |p| ensures LeftOut(added, p, i) <==> LeftOut(root, p, i) {
        PutResolves(root, dir, name, node, p[..i + 1]);
        assert !(here <= p[..i + 1]) && !(here <= p[..i]);
        PutKeepsBuilds(root, dir, name, node, p[..i]);
      }
    }
  }

  /** Adding version control, tool state, packages or build output with any contents, anywhere in a tree,
      leaves its list the same. */
  lemma AddedOutputIsInvisible(root: Node, dir: Path, name: Name, node: Node)
    requires root.Dir? && IsDir(root, dir) && name !in Resolve(root, dir).value.children
    requires IsOutput(root, dir, name, node)
    ensures Put(root, dir, name, node).Dir? && FixtureList(Put(root, dir, name, node)) == FixtureList(root)
  {
    var added := Put(root, dir, name, node);
    forall p ensures IsKept(added, p) <==> IsKept(root, p) {
      KeptIsSource(added, p);
      KeptIsSource(root, p);
      PutKeepsSource(root, dir, name, node, p);
    }
    SameKeptSameList(added, root);
  }

  // ----- the program's loops -----

  lemma LeastUnique(names: set<Name>, n: Name)
    requires n in names && forall m | m in names :: StrLe(n, m)
    ensures n == Least(names)
  {
    StringOrderIsTotal();
    assert StrLe(n, Least(names)) && StrLe(Least(names), n);
  }

  lemma RenderedConcat(a: seq<Path>, b: seq<Path>)
    ensures Rendered(a + b) == Rendered(a) + Rendered(b)
  {
  }

  /** Visits the entries of `dir` in name order. */
  method CollectRelativePaths(root: Node, dir: Path, node: Node, out0: seq<string>) returns (out: seq<string>)
    requires node.Dir?
    ensures out == out0 + Rendered(Walk(root, dir, node, node.children.Keys))
    decreases node, 0
  {
    out := out0;
    var entries := node.children.Keys;
    ghost var visited: seq<Path> := [];
    while entries != {}
      invariant entries <= node.children.Keys
      invariant visited + Walk(root, dir, node, entries) == Walk(root, dir, node, node.children.Keys)
      invariant out == out0 + Rendered(visited)
    {
      var name := FirstName(entries);
      ghost var here := Visit(root, dir, name, node.children[name]);
      ghost var later := Walk(root, dir, node, entries - {name});
      RenderedConcat(visited, here);
      Associates(out0, Rendered(visited), Rendered(here));
      Associates(visited, here, later);
      out := CollectEntry(root, dir, name, node.children[name], out);
      visited := visited + here;
      entries := entries - {name};
    }
    assert visited + [] == visited;
  }

  /** The next entry in name order. */
  method FirstName(names: set<Name>) returns (name: Name)
    requires names != {}
    ensures name == Least(names)
  {
    LeastExists(names);
    name :| name in names && forall m | m in names :: StrLe(name, m);
    LeastUnique(names, name);
  }

  /** One entry: skipped, pushed as a leaf, or descended into. */
  method CollectEntry(root: Node, dir: Path, name: Name, entry: Node, out0: seq<string>) returns (out: seq<string>)
    ensures out == out0 + Rendered(Visit(root, dir, name, entry))
    decreases entry, 1
  {
    out := out0;
    if name == ".git" || name == ".ledgerful" {
      return;
    }
    if entry.Leaf? {
      return out + [Render(dir + [name])];
    }
    if entry.Dir? {
      if name == "node_modules" {
        return;
      }
      if name == "target" {
        var buildRoot := TargetParentIsBuildRoot(root, dir);
        if buildRoot {
          return;
        }
      }
      out := CollectRelativePaths(root, dir + [name], entry, out);
    }
  }

  method TargetParentIsBuildRoot(root: Node, dir: Path) returns (b: bool)
    ensures b == IsBuildRoot(root, dir)
  {
    b := IsFile(root, dir + ["Cargo.toml"]) || IsFile(root, dir + ["pom.xml"]) || IsFile(root, dir + ["build.sbt"]);
    if !b {
      b := SbtMetaProjectDir(root, dir);
    }
  }

  method FixturePaths(root: Node) returns (paths: seq<string>)
    requires root.Dir?
    ensures paths == FixtureList(root)
  {
    paths := CollectRelativePaths(root, [], root, []);
    assert paths == Rendered(Walk(root, [], root, root.children.Keys));
    paths := Sort(Itself, StrLe, paths);
  }
}
