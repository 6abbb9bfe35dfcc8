/**
  Direct dependencies and the lock: the default listing resolves each declared name through the root
  package's own lock array, and `--all` classifies every lock row against the same map. Splitting a
  lock dependency string is a parameter.
 */
module LockRelation {
  import opened Wrappers
  import opened Order

  datatype LockPackage = LockPackage(
    name: string, version: string, source: Option<string>, dependencies: Option<seq<string>>)

  datatype Declared = Declared(name: string, kind: string, target: Option<string>)

  type DepParser = string -> (string, Option<string>)

  datatype Relation = Root | Direct | Transitive

  // ----- the root package and its resolved names -----

  function NamedPackages(packages: seq<LockPackage>, name: string): seq<LockPackage> {
    if packages == [] then []
    else
      var last, front := packages[|packages| - 1], NamedPackages(packages[..|packages| - 1], name);
      if last.name == name then front + [last] else front
  }

  function FindPackage(packages: seq<LockPackage>, name: string, version: string): Option<LockPackage> {
    if packages == [] then None
    else if packages[0].name == name && packages[0].version == version then Some(packages[0])
    else FindPackage(packages[1..], name, version)
  }

  /** The root by name and version, or else the only package of that name. */
  function RootPackage(packages: seq<LockPackage>, name: string, version: string): Option<LockPackage> {
    if FindPackage(packages, name, version).Some? then FindPackage(packages, name, version)
    else if |NamedPackages(packages, name)| == 1 then Some(NamedPackages(packages, name)[0])
    else None
  }

  function RootDeps(packages: seq<LockPackage>, name: string, version: string): seq<string> {
    var root := RootPackage(packages, name, version);
    if root.Some? && root.value.dependencies.Some? then root.value.dependencies.value else []
  }

  /** The version one entry of the root's array gives a name: its own, or that of the only package of the name. */
  function VersionGiven(parse: DepParser, packages: seq<LockPackage>, dep: string): Option<string> {
    var (name, version) := parse(dep);
    if name == "" then None
    else if version.Some? then version
    else if |NamedPackages(packages, name)| == 1 then Some(NamedPackages(packages, name)[0].version)
    else None
  }

  /** The last entry that gives the name a version decides. */
  function ResolvedVersion(
      parse: DepParser, packages: seq<LockPackage>, deps: seq<string>, name: string): Option<string> {
    if deps == [] then None
    else
      var last := deps[|deps| - 1];
      if parse(last).0 == name && VersionGiven(parse, packages, last).Some? then VersionGiven(parse, packages, last)
      else ResolvedVersion(parse, packages, deps[..|deps| - 1], name)
  }

  ghost predicate IsVersionMap(
      parse: DepParser, packages: seq<LockPackage>, deps: seq<string>, m: map<string, string>) {
    forall name :: ResolvedVersion(parse, packages, deps, name) == if name in m then Some(m[name]) else None
  }

  function GroupOf(byName: map<string, seq<LockPackage>>, name: string): seq<LockPackage> {
    if name in byName then byName[name] else []
  }

  /** Groups the lock by name, in order. */
  method IndexByName(packages: seq<LockPackage>) returns (byName: map<string, seq<LockPackage>>)
    ensures forall name :: GroupOf(byName, name) == NamedPackages(packages, name)
  {
    byName := map[];
    for i := 0 to |packages|
      invariant forall name :: GroupOf(byName, name) == NamedPackages(packages[..i], name)
    {
      assert packages[..i + 1][..i] == packages[..i];
      byName := byName[packages[i].name := GroupOf(byName, packages[i].name) + [packages[i]]];
    }
    assert packages[..|packages|] == packages;
  }

  method RootDepsVersionMap(parse: DepParser, packages: seq<LockPackage>, rootName: string, rootVersion: string)
    returns (m: map<string, string>)
    ensures IsVersionMap(parse, packages, RootDeps(packages, rootName, rootVersion), m)
  {
    m := map[];
    var deps := RootDeps(packages, rootName, rootVersion);
    var byName := IndexByName(packages);
    for i := 0 to |deps|
      invariant IsVersionMap(parse, packages, deps[..i], m)
    {
      assert deps[..i + 1][..i] == deps[..i];
      var (name, version) := parse(deps[i]);
      if name == "" {
        continue;
      }
      if version.Some? {
        m := m[name := version.value];
      } else if |GroupOf(byName, name)| == 1 {
        m := m[name := GroupOf(byName, name)[0].version];
      }
    }
    assert deps[..|deps|] == deps;
  }

  lemma {:induction false} NamedPackagesMembers(packages: seq<LockPackage>, name: string)
    ensures forall p :: p in NamedPackages(packages, name) <==> p in packages && p.name == name
  {
    if packages != [] {
      NamedPackagesMembers(packages[..|packages| - 1], name);
      assert packages == packages[..|packages| - 1] + [packages[|packages| - 1]];
    }
  }

  /** A resolved pair is written in the root's own array, or belongs to the only lock package of the name. */
  lemma {:induction false} ResolvedIsJustified(
      parse: DepParser, packages: seq<LockPackage>, deps: seq<string>, name: string)
    requires ResolvedVersion(parse, packages, deps, name).Some?
    ensures var v := ResolvedVersion(parse, packages, deps, name).value;
      exists dep :: dep in deps &&
        (parse(dep) == (name, Some(v))
         || (parse(dep) == (name, None) &&
              exists p :: NamedPackages(packages, name) == [p] && p in packages && p.version == v))
    decreases deps
  {
    var last := deps[|deps| - 1];
    if parse(last).0 == name && VersionGiven(parse, packages, last).Some? {
      if parse(last).1.None? {
        var p := NamedPackages(packages, name)[0];
        NamedPackagesMembers(packages, name);
        assert p in NamedPackages(packages, name);
        assert NamedPackages(packages, name) == [p];
      }
      assert last in deps;
    } else {
      ResolvedIsJustified(parse, packages, deps[..|deps| - 1], name);
    }
  }

  // ----- the same by positions in the lock and in the array -----

  predicate IsPackage(packages: seq<LockPackage>, i: nat, name: string, version: string) {
    i < |packages| && packages[i].name == name && packages[i].version == version
  }

  predicate FirstPackage(packages: seq<LockPackage>, i: nat, name: string, version: string) {
    IsPackage(packages, i, name, version) && forall j | 0 <= j < i :: !IsPackage(packages, j, name, version)
  }

  predicate OnlyPackage(packages: seq<LockPackage>, i: nat, name: string) {
    i < |packages| && packages[i].name == name && forall j | 0 <= j < |packages| && packages[j].name == name :: j == i
  }

  lemma {:induction false} FindsFirst(packages: seq<LockPackage>, name: string, version: string)
    ensures FindPackage(packages, name, version).None? <==>
      forall i | 0 <= i < |packages| :: !IsPackage(packages, i, name, version)
    ensures forall i: nat | FirstPackage(packages, i, name, version) ::
      FindPackage(packages, name, version) == Some(packages[i])
  {
    if packages != [] {
      var rest := packages[1..];
      FindsFirst(rest, name, version);
      assert IsPackage(packages, 0, name, version) <==> packages[0].name == name && packages[0].version == version;
      if i :| 0 <= i < |rest| && IsPackage(rest, i, name, version) {
        assert IsPackage(packages, i + 1, name, version);
      }
      if i :| 0 < i < |packages| && IsPackage(packages, i, name, version) {
        assert IsPackage(rest, i - 1, name, version);
      }
      forall i: nat | FirstPackage(packages, i, name, version) && i > 0
        ensures FindPackage(packages, name, version) == Some(packages[i])
      {
        assert !IsPackage(packages, 0, name, version);
        assert FirstPackage(rest, i - 1, name, version) by {
          forall j | 0 <= j < i - 1 ensures !IsPackage(rest, j, name, version) {
            assert !IsPackage(packages, j + 1, name, version);
          }
        }
      }
    }
  }

  lemma {:induction false} OneOfName(packages: seq<LockPackage>, name: string)
    ensures NamedPackages(packages, name) == [] <==> forall i | 0 <= i < |packages| :: packages[i].name != name
    ensures |NamedPackages(packages, name)| == 1 <==> exists i: nat :: OnlyPackage(packages, i, name)
    ensures forall i: nat | OnlyPackage(packages, i, name) :: NamedPackages(packages, name) == [packages[i]]
    decreases |packages|
  {
    if packages != [] {
      var n := |packages| - 1;
      var front, last := packages[..n], packages[n];
      OneOfName(front, name);
      if last.name == name {
        assert (forall i | 0 <= i < n :: front[i].name != name) <==> OnlyPackage(packages, n, name);
        assert forall i: nat | OnlyPackage(packages, i, name) :: i == n;
      } else {
        assert forall i: nat :: OnlyPackage(packages, i, name) <==> OnlyPackage(front, i, name);
      }
    }
  }

  function DependenciesOf(p: LockPackage): seq<string> {
    match p.dependencies case Some(deps) => deps case None => []
  }

  /** Whose array is read: that of the first lock row with the root's name and version; if there is none, that
      of the only row of its name; otherwise none. */
  lemma ReadsRootArray(packages: seq<LockPackage>, name: string, version: string)
    ensures var deps := RootDeps(packages, name, version);
      && (forall i: nat | FirstPackage(packages, i, name, version) :: deps == DependenciesOf(packages[i]))
      && ((forall i | 0 <= i < |packages| :: !IsPackage(packages, i, name, version)) ==>
            && (forall i: nat | OnlyPackage(packages, i, name) :: deps == DependenciesOf(packages[i]))
            && ((forall i: nat :: !OnlyPackage(packages, i, name)) ==> deps == []))
  {
    FindsFirst(packages, name, version);
    OneOfName(packages, name);
  }

  /** The entry gives the name a version: the one it writes, or that of the only lock row of the name. */
  predicate Gives(parse: DepParser, packages: seq<LockPackage>, dep: string, name: string, version: string) {
    name != "" && parse(dep).0 == name &&
    (parse(dep).1 == Some(version)
     || (parse(dep).1 == None
         && exists i | 0 <= i < |packages| :: OnlyPackage(packages, i, name) && packages[i].version == version))
  }

  lemma GivenExactly(parse: DepParser, packages: seq<LockPackage>, dep: string, name: string, version: string)
    ensures (parse(dep).0 == name && VersionGiven(parse, packages, dep) == Some(version))
      <==> Gives(parse, packages, dep, name, version)
  {
    OneOfName(packages, name);
  }

  /** A name resolves to the version the last entry that gives it one gives it, and to nothing if none does. */
  lemma {:induction false} ResolvesToLast(
      parse: DepParser, packages: seq<LockPackage>, deps: seq<string>, name: string, version: string)
    ensures ResolvedVersion(parse, packages, deps, name) == Some(version) <==>
      exists i | 0 <= i < |deps| ::
        Gives(parse, packages, deps[i], name, version)
        && forall j, v | i < j < |deps| :: !Gives(parse, packages, deps[j], name, v)
    decreases |deps|
  {
    if deps != [] {
      var n := |deps| - 1;
      var front, last := deps[..n], deps[n];
      ResolvesToLast(parse, packages, front, name, version);
      forall v ensures (parse(last).0 == name && VersionGiven(parse, packages, last) == Some(v))
        <==> Gives(parse, packages, last, name, v)
      {
        GivenExactly(parse, packages, last, name, v);
      }
    }
  }

  // ----- classification -----

  function ClassifyLockRelation(
      name: string, version: string, rootName: string, m: map<string, string>, declared: set<string>): Relation {
    if name == rootName then Root
    else if name in m then (if m[name] == version then Direct else Transitive)
    else if name in declared then Direct
    else Transitive
  }

  datatype ListedPackage = ListedPackage(
    name: string, version: Option<string>, relation: Option<Relation>, kind: Option<string>, source: Option<string>,
    target: Option<string>)

  function ListDirect(packages: seq<LockPackage>, m: map<string, string>, d: Declared): ListedPackage {
    var locked := if d.name in m then Some(m[d.name]) else None;
    var found := if locked.Some? then FindPackage(packages, d.name, locked.value) else None;
    ListedPackage(d.name, locked, None, Some(d.kind), if found.Some? then found.value.source else None, d.target)
  }

  function ListLock(rootName: string, m: map<string, string>, declared: set<string>, p: LockPackage): ListedPackage {
    ListedPackage(
      p.name, Some(p.version), Some(ClassifyLockRelation(p.name, p.version, rootName, m, declared)),
      None, p.source, None)
  }

  /** Both listings of one resolution: every declared dependency, and every lock row, each once. */
  ghost predicate IsListing(
      declared: seq<Declared>, packages: seq<LockPackage>, rootName: string, m: map<string, string>,
                            direct: seq<ListedPackage>, lock: seq<ListedPackage>) {
    && multiset(direct) == multiset(Mapped(d => ListDirect(packages, m, d), declared))
    && multiset(lock) == multiset(Mapped(p => ListLock(rootName, m, set d | d in declared :: d.name, p), packages))
  }

  function SortKeyOf(l: ListedPackage): seq<string> {
    [l.name, if l.version.Some? then l.version.value else ""]
  }

  /** normal, build, dev, anything else. */
  function KindRank(kind: Option<string>): string {
    match kind
    case Some("normal") => "0"
    case Some("build") => "1"
    case Some("dev") => "2"
    case _ => "3"
  }

  /** By kind, name and target; no target sorts before any. */
  function DirectKeyOf(l: ListedPackage): seq<string> {
    [KindRank(l.kind), l.name] + if l.target.Some? then [l.target.value] else []
  }

  /** Sorting keeps the rows; only their order changes. */
  method Sorted(key: ListedPackage -> seq<string>, rows: seq<ListedPackage>) returns (out: seq<ListedPackage>)
    ensures multiset(out) == multiset(rows) && SortedBy(key, KeyLe, out)
  {
    out := Sort(key, KeyLe, rows);
    StringOrderIsTotal();
    SortSorts(key, KeyLe, rows);
  }

  method ResolveList(
      parse: DepParser, declared: seq<Declared>, packages: seq<LockPackage>, rootName: string, rootVersion: string)
    returns (direct: seq<ListedPackage>, lock: seq<ListedPackage>, ghost m: map<string, string>)
    ensures IsVersionMap(parse, packages, RootDeps(packages, rootName, rootVersion), m)
    ensures IsListing(declared, packages, rootName, m, direct, lock)
    ensures SortedBy(DirectKeyOf, KeyLe, direct) && SortedBy(SortKeyOf, KeyLe, lock)
  {
    var versionMap := RootDepsVersionMap(parse, packages, rootName, rootVersion);
    m := versionMap;
    direct := Mapped(d => ListDirect(packages, versionMap, d), declared);
    direct := Sorted(DirectKeyOf, direct);
    DirectNames(declared, packages, versionMap, direct);
    var declaredNames := set d | d in direct :: d.name;
    lock := Mapped(p => ListLock(rootName, versionMap, declaredNames, p), packages);
    lock := Sorted(SortKeyOf, lock);
  }

  lemma DirectNames(
      declared: seq<Declared>, packages: seq<LockPackage>, m: map<string, string>, direct: seq<ListedPackage>)
    requires multiset(direct) == multiset(Mapped(d => ListDirect(packages, m, d), declared))
    ensures (set d | d in direct :: d.name) == (set d | d in declared :: d.name)
  {
    var listed := Mapped(d => ListDirect(packages, m, d), declared);
    SameElements(direct, listed);
    forall l | l in direct ensures l.name in (set d | d in declared :: d.name) {
      assert l in listed;
      var i :| 0 <= i < |listed| && listed[i] == l;
      assert declared[i] in declared && declared[i].name == l.name;
    }
    forall d | d in declared ensures d.name in (set l | l in direct :: l.name) {
      var i :| 0 <= i < |declared| && declared[i] == d;
      assert listed[i] in listed && listed[i].name == d.name;
    }
  }

  /** The two listings agree. Where the default listing shows a version for a name other than the root's,
      `--all` marks the rows of that version direct and all others of the name transitive; where it shows
      none, every row of the name is direct; and the root's rows are the root's alone. */
  lemma ListingsAgree(declared: seq<Declared>, packages: seq<LockPackage>, rootName: string, m: map<string, string>,
                      direct: seq<ListedPackage>, lock: seq<ListedPackage>, d: ListedPackage, l: ListedPackage)
    requires IsListing(declared, packages, rootName, m, direct, lock)
    requires l in lock
    ensures l.version.Some? && l.relation.Some?
    ensures l.relation == Some(Root) <==> l.name == rootName
    ensures d in direct && d.name == l.name && l.name != rootName ==>
      (l.relation == Some(Direct) <==> d.version.None? || d.version == l.version)
    ensures l.relation == Some(Direct) ==>
      (l.name in m && l.version == Some(m[l.name])) || exists q :: q in direct && q.name == l.name && q.version.None?
  {
    var names := set q | q in declared :: q.name;
    var rows := Mapped(p => ListLock(rootName, m, names, p), packages);
    var listed := Mapped(q => ListDirect(packages, m, q), declared);
    SameElements(lock, rows);
    SameElements(direct, listed);
    assert l in rows;
    var i :| 0 <= i < |rows| && rows[i] == l;
    assert l == ListLock(rootName, m, names, packages[i]);
    if d in direct {
      assert d in listed;
      var j :| 0 <= j < |listed| && listed[j] == d;
      assert d == ListDirect(packages, m, declared[j]);
      assert declared[j] in declared;
    }
    if l.relation == Some(Direct) && l.name !in m {
      var q :| q in declared && q.name == l.name;
      var j :| 0 <= j < |declared| && declared[j] == q;
      assert listed[j] == ListDirect(packages, m, q);
      assert listed[j] in listed;
    }
  }

  /** What the rows show. A lock row shows its package's name, version and source; a declared dependency its
      kind and target, the version its name resolves to, and the source of the first lock row of that version. */
  lemma RowsShow(
      declared: seq<Declared>, packages: seq<LockPackage>, rootName: string, m: map<string, string>,
      direct: seq<ListedPackage>, lock: seq<ListedPackage>)
    requires IsListing(declared, packages, rootName, m, direct, lock)
    ensures forall l | l in lock :: exists p :: p in packages && ShowsPackage(l, p)
    ensures forall d | d in direct :: exists q :: q in declared && ShowsDeclared(d, q, packages, m)
    ensures |direct| == |declared|
  {
    var names := set q | q in declared :: q.name;
    var rows := Mapped(p => ListLock(rootName, m, names, p), packages);
    var listed := Mapped(q => ListDirect(packages, m, q), declared);
    SameElements(lock, rows);
    SameElements(direct, listed);
    forall l | l in lock ensures exists p :: p in packages && ShowsPackage(l, p) {
      assert l in rows;
      var i :| 0 <= i < |rows| && rows[i] == l;
      assert packages[i] in packages && ShowsPackage(l, packages[i]);
    }
    forall d | d in direct ensures exists q :: q in declared && ShowsDeclared(d, q, packages, m) {
      assert d in listed;
      var i :| 0 <= i < |listed| && listed[i] == d;
      if d.version.Some? {
        FindsFirst(packages, d.name, d.version.value);
      }
      assert declared[i] in declared && ShowsDeclared(d, declared[i], packages, m);
    }
  }

  predicate ShowsPackage(l: ListedPackage, p: LockPackage) {
    && l.name == p.name && l.version == Some(p.version) && l.source == p.source
    && l.kind.None? && l.target.None? && l.relation.Some?
  }

  ghost predicate ShowsDeclared(d: ListedPackage, q: Declared, packages: seq<LockPackage>, m: map<string, string>) {
    && d.name == q.name && d.kind == Some(q.kind) && d.target == q.target && d.relation.None?
    && (d.version == if q.name in m then Some(m[q.name]) else None)
    && (d.version.None? ==> d.source.None?)
    && (d.version.Some? ==>
          && (forall i: nat | FirstPackage(packages, i, d.name, d.version.value) :: d.source == packages[i].source)
          && ((forall i | 0 <= i < |packages| :: !IsPackage(packages, i, d.name, d.version.value)) ==> d.source.None?))
  }

  /** Declared dependencies are listed normal, build, dev and then the rest, each by name and target. */
  lemma DirectOrder(a: ListedPackage, b: ListedPackage)
    requires KeyLe(DirectKeyOf(a), DirectKeyOf(b))
    ensures b.kind == Some("normal") ==> a.kind == Some("normal")
    ensures b.kind == Some("build") ==> a.kind == Some("normal") || a.kind == Some("build")
    ensures b.kind == Some("dev") ==> a.kind == Some("normal") || a.kind == Some("build") || a.kind == Some("dev")
    ensures a.kind == b.kind ==> a.name == b.name || StrLe(a.name, b.name)
    ensures a.kind == b.kind && a.name == b.name && a.target != b.target ==>
      a.target.None? || (b.target.Some? && StrLe(a.target.value, b.target.value))
  {
    var s := if a.target.Some? then [a.target.value] else [];
    var t := if b.target.Some? then [b.target.value] else [];
    assert DirectKeyOf(a) == [KindRank(a.kind)] + ([a.name] + s);
    assert DirectKeyOf(b) == [KindRank(b.kind)] + ([b.name] + t);
    LexCons(StrLe, KindRank(a.kind), [a.name] + s, KindRank(b.kind), [b.name] + t);
    LexCons(StrLe, a.name, s, b.name, t);
  }

  /** Lock rows are listed by name and then by version. */
  lemma LockOrder(a: ListedPackage, b: ListedPackage)
    requires KeyLe(SortKeyOf(a), SortKeyOf(b)) && a.version.Some? && b.version.Some?
    ensures if a.name != b.name then StrLe(a.name, b.name)
            else a.version == b.version || StrLe(a.version.value, b.version.value)
  {
    assert SortKeyOf(a) == [a.name] + [a.version.value] && SortKeyOf(b) == [b.name] + [b.version.value];
    LexCons(StrLe, a.name, [a.version.value], b.name, [b.version.value]);
  }

  /** Every locked package has its row in `--all`, under one of the three relations, and there are no other rows. */
  lemma EveryPackageIsListed(
      declared: seq<Declared>, packages: seq<LockPackage>, rootName: string, m: map<string, string>,
                             direct: seq<ListedPackage>, lock: seq<ListedPackage>, name: string, version: string)
    requires IsListing(declared, packages, rootName, m, direct, lock)
    ensures |lock| == |packages|
    ensures (exists p :: p in packages && p.name == name && p.version == version) <==>
            (exists l :: l in lock && l.name == name && l.version == Some(version) && l.relation.Some?)
  {
    var names := set q | q in declared :: q.name;
    var rows := Mapped(p => ListLock(rootName, m, names, p), packages);
    SameElements(lock, rows);
    if p :| p in packages && p.name == name && p.version == version {
      var i :| 0 <= i < |packages| && packages[i] == p;
      assert rows[i] == ListLock(rootName, m, names, p);
      assert rows[i] in lock;
    }
    if l :| l in lock && l.name == name && l.version == Some(version) {
      var i :| 0 <= i < |rows| && rows[i] == l;
      assert l == ListLock(rootName, m, names, packages[i]);
      assert packages[i] in packages;
    }
  }
}
