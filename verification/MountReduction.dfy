/**
  Reducing the route rows of one endpoint to a unique public mount, or to `unknown` or `ambiguous`.
 */
module MountReduction {
  import opened Wrappers
  import opened Order
  import opened Text

  datatype RouteMountRow = RouteMountRow(
    pathPattern: string, framework: string, mountPrefix: Option<string>,
    filePath: Option<string>, handlerFile: Option<string>)

  datatype Provenance = Nest | Literal | Unknown | Ambiguous

  datatype PublicMount = PublicMount(provenance: Provenance, mountPrefix: Option<string>, mountedPath: Option<string>)

  datatype MountEvidence = MountEvidence(
    provenance: Provenance, mountPrefix: Option<string>, mountedPath: Option<string>, routeFiles: seq<string>)

  function TrimEndSlashes(s: string): string {
    if s != "" && s[|s| - 1] == '/' then TrimEndSlashes(s[..|s| - 1]) else s
  }

  function JoinMount(prefix: string, path: string): string {
    if path != "" && path[0] == '/' then TrimEndSlashes(prefix) + path
    else TrimEndSlashes(prefix) + "/" + path
  }

  function PublicMountOf(r: RouteMountRow): PublicMount {
    if r.mountPrefix.Some? then
      PublicMount(Nest, r.mountPrefix, Some(JoinMount(r.mountPrefix.value, r.pathPattern)))
    else if r.framework == "Axum" then PublicMount(Literal, None, Some(r.pathPattern))
    else PublicMount(Unknown, None, None)
  }

  // ----- route files -----

  predicate IsAsciiAlphabetic(c: char) { 'a' <= c <= 'z' || 'A' <= c <= 'Z' }

  function AcceptRouteFile(raw: string): Option<string> {
    var slashed := Slashed(raw);
    var path := if "./" <= slashed then slashed[2..] else slashed;
    if path == "" || path[0] == '/' then None
    else if |path| >= 2 && IsAsciiAlphabetic(path[0]) && path[1] == ':' then None
    else Some(path)
  }

  function Accepted(file: Option<string>): Option<string> {
    if file.Some? then AcceptRouteFile(file.value) else None
  }

  /** The row registers or implements its route in `path`. */
  predicate Names(r: RouteMountRow, path: string) {
    Accepted(r.filePath) == Some(path) || Accepted(r.handlerFile) == Some(path)
  }

  ghost predicate StrictlySorted(s: seq<string>) {
    SortedBy(Itself, StrLe, s) && forall i, j | 0 <= i < j < |s| :: s[i] != s[j]
  }

  /** `Vec::dedup`: drops repeats of the preceding element. */
  function DropRepeats(s: seq<string>): seq<string> {
    if |s| <= 1 then s
    else if s[0] == s[1] then DropRepeats(s[1..])
    else [s[0]] + DropRepeats(s[1..])
  }

  lemma {:induction false} DropRepeatsOfSorted(s: seq<string>)
    requires SortedBy(Itself, StrLe, s)
    ensures StrictlySorted(DropRepeats(s))
    ensures forall x :: x in DropRepeats(s) <==> x in s
  {
    StringOrderIsTotal();
    if |s| > 1 {
      var rest := DropRepeats(s[1..]);
      DropRepeatsOfSorted(s[1..]);
      assert s == [s[0]] + s[1..];
      if s[0] != s[1] {
        forall j | 0 <= j < |rest| ensures StrLe(s[0], rest[j]) && s[0] != rest[j] {
          assert rest[j] in s[1..];
          var m :| 0 <= m < |s[1..]| && s[1..][m] == rest[j];
          assert s[m + 1] == rest[j];
          assert StrLe(Itself(s[0]), Itself(s[1])) && StrLe(Itself(s[0]), Itself(s[m + 1]));
          assert m > 0 ==> StrLe(Itself(s[1]), Itself(s[m + 1]));
        }
      }
    }
  }

  predicate NamedBy(rows: seq<RouteMountRow>, path: string) {
    exists i | 0 <= i < |rows| :: Names(rows[i], path)
  }

  lemma NamedBySnoc(rows: seq<RouteMountRow>, r: RouteMountRow, path: string)
    ensures NamedBy(rows + [r], path) <==> NamedBy(rows, path) || Names(r, path)
  {
    var all := rows + [r];
    assert all[|rows|] == r;
    if NamedBy(rows, path) {
      var i :| 0 <= i < |rows| && Names(rows[i], path);
      assert Names(all[i], path);
    }
  }

  lemma NamedBySet(rows: seq<RouteMountRow>, rows': seq<RouteMountRow>, path: string)
    requires forall r | r in rows :: r in rows'
    ensures NamedBy(rows, path) ==> NamedBy(rows', path)
  {
    if NamedBy(rows, path) {
      var i :| 0 <= i < |rows| && Names(rows[i], path);
      assert rows[i] in rows';
    }
  }

  /** The files of the rows: exactly the accepted ones, strictly sorted. */
  ghost predicate IsRouteFiles(files: seq<string>, rows: seq<RouteMountRow>) {
    StrictlySorted(files) && forall f :: f in files <==> NamedBy(rows, f)
  }

  lemma RouteFilesUnique(a: seq<string>, b: seq<string>, rows: seq<RouteMountRow>, rows': seq<RouteMountRow>)
    requires IsRouteFiles(a, rows) && IsRouteFiles(b, rows')
    requires forall r :: r in rows <==> r in rows'
    ensures a == b
  {
    forall f ensures f in a <==> f in b {
      NamedBySet(rows, rows', f);
      NamedBySet(rows', rows, f);
    }
    SameSetSameMultiset(a, b);
    StringOrderIsTotal();
    SortedIsCanonical(Itself, StrLe, a, b);
  }

  method RouteFilesFrom(rows: seq<RouteMountRow>) returns (files: seq<string>)
    ensures IsRouteFiles(files, rows)
  {
    files := [];
    for i := 0 to |rows|
      invariant forall f :: f in files <==> NamedBy(rows[..i], f)
    {
      var r := rows[i];
      assert rows[..i + 1] == rows[..i] + [r];
      forall f ensures NamedBy(rows[..i + 1], f) <==> f in files || Names(r, f) {
        NamedBySnoc(rows[..i], r, f);
      }
      var registered, handled := Accepted(r.filePath), Accepted(r.handlerFile);
      if registered.Some? {
        files := files + [registered.value];
      }
      if handled.Some? {
        files := files + [handled.value];
      }
    }
    assert rows[..|rows|] == rows;
    ghost var pushed := files;
    files := Sort(Itself, StrLe, files);
    SameElements(pushed, files);
    StringOrderIsTotal();
    SortSorts(Itself, StrLe, pushed);
    DropRepeatsOfSorted(files);
    files := DropRepeats(files);
  }

  // ----- the reduction -----

  predicate Agree(rows: seq<RouteMountRow>, m: PublicMount) {
    forall r | r in rows :: PublicMountOf(r) == m
  }

  /** Without reference to a first row: a mount is reported when the rows are non-empty, share it and it
      is a nest or a literal, `ambiguous` when two rows differ, `unknown` otherwise. */
  ghost predicate IsReduction(e: MountEvidence, rows: seq<RouteMountRow>) {
    && IsRouteFiles(e.routeFiles, rows)
    && (e.provenance == Ambiguous <==> Disagree(rows))
    && (e.provenance == Nest || e.provenance == Literal ==> rows != [] && Agree(rows, Mount(e)))
    && (forall m | rows != [] && Agree(rows, m) && (m.provenance == Nest || m.provenance == Literal) :: Mount(e) == m)
    && (e.provenance == Unknown || e.provenance == Ambiguous ==> e.mountPrefix.None? && e.mountedPath.None?)
  }

  function Mount(e: MountEvidence): PublicMount {
    PublicMount(e.provenance, e.mountPrefix, e.mountedPath)
  }

  ghost predicate Disagree(rows: seq<RouteMountRow>) {
    exists r, s :: r in rows && s in rows && PublicMountOf(r) != PublicMountOf(s)
  }

  method ReduceProductMounts(rows: seq<RouteMountRow>) returns (e: MountEvidence)
    ensures IsReduction(e, rows)
  {
    if rows == [] {
      return MountEvidence(Unknown, None, None, []);
    }
    var first := PublicMountOf(rows[0]);
    var same := forall r | r in rows :: PublicMountOf(r) == first;
    assert same ==> Agree(rows, first);
    assert rows[0] in rows;
    var routeFiles := RouteFilesFrom(rows);
    if same && (first.provenance == Nest || first.provenance == Literal) {
      e := MountEvidence(first.provenance, first.mountPrefix, first.mountedPath, routeFiles);
    } else if same {
      e := MountEvidence(Unknown, None, None, routeFiles);
    } else {
      e := MountEvidence(Ambiguous, None, None, routeFiles);
    }
  }

  // ----- what the parts mean -----

  /** A mount is joined with one slash: the prefix without the slashes at its end, then the path, with a slash
      in front if it has none. */
  lemma {:induction false} TrimsSlashes(s: string)
    ensures var core := TrimEndSlashes(s);
      && core <= s && (core == "" || core[|core| - 1] != '/') && forall i | |core| <= i < |s| :: s[i] == '/'
    decreases |s|
  {
    if s != "" && s[|s| - 1] == '/' {
      TrimsSlashes(s[..|s| - 1]);
    }
  }

  lemma JoinsWithOneSlash(prefix: string, path: string) returns (core: string)
    ensures core <= prefix && (core == "" || core[|core| - 1] != '/')
    ensures forall i | |core| <= i < |prefix| :: prefix[i] == '/'
    ensures JoinMount(prefix, path) == core + if path != "" && path[0] == '/' then path else "/" + path
  {
    core := TrimEndSlashes(prefix);
    TrimsSlashes(prefix);
    Associates(core, "/", path);
  }

  /** Accepted are the relative paths, a leading "./" taken off: not empty, not absolute, no drive letter. */
  lemma AcceptsExactly(raw: string, f: string)
    ensures AcceptRouteFile(raw) == Some(f) <==>
      && (if "./" <= Slashed(raw) then Slashed(raw) == "./" + f else Slashed(raw) == f)
      && f != "" && f[0] != '/'
      && !(|f| >= 2 && f[1] == ':' && ('a' <= f[0] <= 'z' || 'A' <= f[0] <= 'Z'))
  {
    if "./" <= Slashed(raw) {
      assert Slashed(raw) == "./" + Slashed(raw)[2..];
    }
  }

  /** The evidence by the rows: a nest if all have one prefix and mount at one path, a literal if all are Axum
      routes without a prefix and of one pattern, unknown if all are of other frameworks without a prefix. */
  lemma ReductionMeans(e: MountEvidence, rows: seq<RouteMountRow>)
    requires IsReduction(e, rows)
    ensures e.provenance == Nest ==> rows != [] && forall r | r in rows ::
      r.mountPrefix.Some? && r.mountPrefix == e.mountPrefix
      && e.mountedPath == Some(JoinMount(r.mountPrefix.value, r.pathPattern))
    ensures e.provenance == Literal ==> rows != [] && e.mountPrefix.None? && forall r | r in rows ::
      r.mountPrefix.None? && r.framework == "Axum" && e.mountedPath == Some(r.pathPattern)
    ensures e.provenance == Unknown ==> forall r | r in rows :: r.mountPrefix.None? && r.framework != "Axum"
    ensures e.provenance == Ambiguous ==> exists r, s :: r in rows && s in rows && MountsDiffer(r, s)
    ensures forall f :: f in e.routeFiles <==> exists i | 0 <= i < |rows| ::
      (rows[i].filePath.Some? && AcceptRouteFile(rows[i].filePath.value) == Some(f))
      || (rows[i].handlerFile.Some? && AcceptRouteFile(rows[i].handlerFile.value) == Some(f))
  {
    forall f ensures f in e.routeFiles <==> exists i | 0 <= i < |rows| ::
      (rows[i].filePath.Some? && AcceptRouteFile(rows[i].filePath.value) == Some(f))
      || (rows[i].handlerFile.Some? && AcceptRouteFile(rows[i].handlerFile.value) == Some(f))
    {
      assert f in e.routeFiles <==> exists i | 0 <= i < |rows| :: Names(rows[i], f);
    }
    if e.provenance == Ambiguous {
      var r, s :| r in rows && s in rows && PublicMountOf(r) != PublicMountOf(s);
      assert MountsDiffer(r, s);
    } else if rows != [] {
      assert rows[0] in rows;
      forall r | r in rows ensures PublicMountOf(r) == PublicMountOf(rows[0]) {
      }
      assert Agree(rows, PublicMountOf(rows[0]));
    }
  }

  predicate MountsDiffer(r: RouteMountRow, s: RouteMountRow) {
    || r.mountPrefix != s.mountPrefix
    || (r.mountPrefix.Some? && s.mountPrefix.Some?
        && JoinMount(r.mountPrefix.value, r.pathPattern) != JoinMount(s.mountPrefix.value, s.pathPattern))
    || (r.framework == "Axum") != (s.framework == "Axum")
    || (r.framework == "Axum" && r.pathPattern != s.pathPattern)
  }

  lemma ReductionIsOrderIndependent(
      rows: seq<RouteMountRow>, rows': seq<RouteMountRow>, e: MountEvidence, e': MountEvidence)
    requires multiset(rows) == multiset(rows')
    requires IsReduction(e, rows) && IsReduction(e', rows')
    ensures e == e'
  {
    SameElements(rows, rows');
    RouteFilesUnique(e.routeFiles, e'.routeFiles, rows, rows');
    assert Disagree(rows) <==> Disagree(rows');
    assert forall m :: Agree(rows, m) <==> Agree(rows', m);
  }

  /** Ambiguity survives any further rows. */
  lemma AmbiguousStaysAmbiguous(rows: seq<RouteMountRow>, more: seq<RouteMountRow>, e: MountEvidence, e': MountEvidence)
    requires IsReduction(e, rows) && e.provenance == Ambiguous
    requires (forall r | r in rows :: r in more) && IsReduction(e', more)
    ensures e'.provenance == Ambiguous
  {
    var r, s :| r in rows && s in rows && PublicMountOf(r) != PublicMountOf(s);
    assert r in more && s in more;
  }
}
