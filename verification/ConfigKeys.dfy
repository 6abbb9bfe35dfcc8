/**
  Two readings of one TOML file: the flat set of dotted paths, which decides whether a setting counts
  as written, and the part-by-part walk, which reads its value.
 */
module ConfigKeys {
  import opened Wrappers
  import opened Text

  datatype TomlValue =
    | Table(entries: map<string, TomlValue>)
    | Array(items: seq<TomlValue>)
    | Str(text: string)
    | Scalar(rendered: string)

  // ----- the flat key set -----

  /** The separator depends on whether the prefix is empty, not on whether this is the root. */
  function KeyPath(prefix: string, key: string): string {
    if prefix == "" then key else prefix + "." + key
  }

  function ItemPath(prefix: string, index: nat): string {
    prefix + "[" + Padded(index, 1) + "]"
  }

  function Collected(v: TomlValue, prefix: string): set<string>
    decreases v, 1, 0
  {
    match v
    case Table(_) => FromKeys(v, prefix, v.entries.Keys)
    case Array(_) => FromItems(v, prefix, |v.items|)
    case _ => {}
  }

  function FromKeys(v: TomlValue, prefix: string, keys: set<string>): set<string>
    requires v.Table? && keys <= v.entries.Keys
    decreases v, 0, 0
  {
    set k, s | k in keys && s in Under(v.entries[k], KeyPath(prefix, k)) :: s
  }

  function FromItems(v: TomlValue, prefix: string, n: nat): set<string>
    requires v.Array? && n <= |v.items|
    decreases v, 0, 0
  {
    set i, s | 0 <= i < n && s in Under(v.items[i], ItemPath(prefix, i)) :: s
  }

  /** A child's own path and everything below it. */
  function Under(child: TomlValue, path: string): set<string>
    decreases child, 2, 0
  {
    {path} + Collected(child, path)
  }

  function PresentTomlKeys(v: TomlValue): set<string> { Collected(v, "") }

  // ----- the walk -----

  /** `split('.')`: one part more than there are dots. */
  function Split(s: string): (parts: seq<string>)
    ensures parts != []
  {
    if s == "" then [""]
    else if s[0] == '.' then [""] + Split(s[1..])
    else
      var rest := Split(s[1..]);
      [[s[0]] + rest[0]] + rest[1..]
  }

  /** `value.get(part)` for each part: only tables have named entries. */
  function Walk(v: TomlValue, parts: seq<string>): Option<TomlValue>
    decreases parts
  {
    if parts == [] then Some(v)
    else if v.Table? && parts[0] in v.entries then Walk(v.entries[parts[0]], parts[1..])
    else None
  }

  // ----- they agree -----

  /** The dotted path that following `parts` from `prefix` builds. */
  function Extend(prefix: string, parts: seq<string>): string
    decreases parts
  {
    if parts == [] then prefix else Extend(KeyPath(prefix, parts[0]), parts[1..])
  }

  lemma InKeys(v: TomlValue, prefix: string, keys: set<string>, k: string, s: string)
    requires v.Table? && keys <= v.entries.Keys && k in keys
    ensures s in Under(v.entries[k], KeyPath(prefix, k)) ==> s in FromKeys(v, prefix, keys)
    ensures FromKeys(v, prefix, keys) == FromKeys(v, prefix, keys - {k}) + Under(v.entries[k], KeyPath(prefix, k))
  {
  }

  lemma InItems(v: TomlValue, prefix: string, n: nat)
    requires v.Array? && n < |v.items|
    ensures FromItems(v, prefix, n + 1) == FromItems(v, prefix, n) + Under(v.items[n], ItemPath(prefix, n))
  {
  }

  lemma KeyAbove(v: TomlValue, prefix: string, s: string) returns (k: string)
    requires v.Table? && s in Collected(v, prefix)
    ensures k in v.entries && s in Under(v.entries[k], KeyPath(prefix, k))
  {
    assert s in FromKeys(v, prefix, v.entries.Keys);
    k :| k in v.entries.Keys && s in Under(v.entries[k], KeyPath(prefix, k));
  }

  lemma ItemAbove(v: TomlValue, prefix: string, s: string) returns (i: nat)
    requires v.Array? && s in Collected(v, prefix)
    ensures i < |v.items| && s in Under(v.items[i], ItemPath(prefix, i))
  {
    assert s in FromItems(v, prefix, |v.items|);
    i :| 0 <= i < |v.items| && s in Under(v.items[i], ItemPath(prefix, i));
  }

  lemma {:induction false} UnderExtendsPath(child: TomlValue, path: string, s: string)
    requires s in Under(child, path)
    ensures path <= s
    decreases child
  {
    if s != path {
      match child
      case Table(m) =>
        var k := KeyAbove(child, path, s);
        UnderExtendsPath(child.entries[k], KeyPath(path, k), s);
        PrefixTransitive(path, KeyPath(path, k), s);
      case Array(items) =>
        var i := ItemAbove(child, path, s);
        UnderExtendsPath(child.items[i], ItemPath(path, i), s);
        PrefixTransitive(path, ItemPath(path, i), s);
    }
  }

  lemma PrefixTransitive(a: string, b: string, c: string)
    requires a <= b <= c
    ensures a <= c && forall x | x in b :: x in c
  {
    forall x | x in b ensures x in c {
      var i :| 0 <= i < |b| && b[i] == x;
      assert c[i] == x;
    }
  }

  /** Nothing below an array element has a bracket-free path. */
  lemma ArraysHaveBrackets(v: TomlValue, prefix: string, s: string)
    requires v.Array? && s in Collected(v, prefix)
    ensures '[' in s
  {
    var i := ItemAbove(v, prefix, s);
    UnderExtendsPath(v.items[i], ItemPath(prefix, i), s);
    assert ItemPath(prefix, i)[|prefix|] == '[';
    assert s[|prefix|] == '[';
  }

  /** Following the non-empty `parts` from `v` reaches a value and builds `d`. */
  predicate Builds(v: TomlValue, prefix: string, parts: seq<string>, d: string) {
    parts != [] && Walk(v, parts).Some? && Extend(prefix, parts) == d
  }

  lemma BuildsBelow(v: TomlValue, prefix: string, k: string, parts: seq<string>, d: string)
    requires v.Table? && k in v.entries
    ensures Builds(v, prefix, [k] + parts, d) <==>
      if parts == [] then d == KeyPath(prefix, k) else Builds(v.entries[k], KeyPath(prefix, k), parts, d)
  {
    var all := [k] + parts;
    assert all[1..] == parts && all[0] == k;
    assert Walk(v, all) == Walk(v.entries[k], parts);
    assert Extend(prefix, all) == Extend(KeyPath(prefix, k), parts);
  }

  /** A bracket-free path is collected exactly when some walk builds it. */
  lemma {:induction false} CollectedIsWalked(v: TomlValue, prefix: string, d: string)
    requires '[' !in d
    ensures d in Collected(v, prefix) <==> exists parts :: Builds(v, prefix, parts, d)
    decreases v, 1
  {
    match v
    case Table(m) =>
      if d in Collected(v, prefix) {
        var k := KeyAbove(v, prefix, d);
        var rest := UnderIsWalked(v.entries[k], KeyPath(prefix, k), d);
        BuildsBelow(v, prefix, k, rest, d);
        assert Builds(v, prefix, [k] + rest, d);
      }
      if parts :| Builds(v, prefix, parts, d) {
        var k, rest := parts[0], parts[1..];
        assert parts == [k] + rest;
        BuildsBelow(v, prefix, k, rest, d);
        if rest != [] {
          CollectedIsWalked(v.entries[k], KeyPath(prefix, k), d);
        }
        InKeys(v, prefix, m.Keys, k, d);
      }
    case Array(items) =>
      if d in Collected(v, prefix) {
        ArraysHaveBrackets(v, prefix, d);
      }
    case _ =>
  }

  lemma {:induction false} UnderIsWalked(child: TomlValue, path: string, d: string) returns (rest: seq<string>)
    requires '[' !in d && d in Under(child, path)
    ensures if rest == [] then d == path else Builds(child, path, rest, d)
    decreases child, 2
  {
    if d == path {
      rest := [];
    } else {
      CollectedIsWalked(child, path, d);
      rest :| Builds(child, path, rest, d);
    }
  }

  /** No key of a table, at any depth, contains a dot. */
  predicate DotFree(v: TomlValue)
    decreases v
  {
    match v
    case Table(m) => forall k | k in m :: '.' !in k && DotFree(m[k])
    case _ => true
  }

  predicate DotFreeParts(parts: seq<string>) {
    forall i | 0 <= i < |parts| :: '.' !in parts[i]
  }

  lemma {:induction false} WalkedPartsAreDotFree(v: TomlValue, parts: seq<string>)
    requires DotFree(v) && Walk(v, parts).Some?
    ensures DotFreeParts(parts)
    decreases parts
  {
    if parts != [] {
      WalkedPartsAreDotFree(v.entries[parts[0]], parts[1..]);
      assert parts == [parts[0]] + parts[1..];
    }
  }

  function JoinDots(parts: seq<string>): string {
    if parts == [] then "" else if |parts| == 1 then parts[0] else parts[0] + "." + JoinDots(parts[1..])
  }

  lemma {:induction false} ExtendIsJoin(prefix: string, parts: seq<string>)
    requires prefix != "" && parts != []
    ensures Extend(prefix, parts) == prefix + "." + JoinDots(parts)
    decreases parts
  {
    var next := KeyPath(prefix, parts[0]);
    if |parts| > 1 {
      ExtendIsJoin(next, parts[1..]);
      assert prefix + "." + parts[0] + "." + JoinDots(parts[1..])
        == prefix + "." + (parts[0] + "." + JoinDots(parts[1..]));
    } else {
      assert parts[1..] == [];
    }
  }

  /** From the root the dots come out right unless the first of several parts is empty. */
  lemma ExtendFromRoot(parts: seq<string>)
    requires parts != [] && (parts[0] != "" || |parts| == 1)
    ensures Extend("", parts) == JoinDots(parts)
  {
    if |parts| > 1 {
      ExtendIsJoin(parts[0], parts[1..]);
    } else {
      assert parts[1..] == [];
    }
  }

  lemma {:induction false} SplitPart(part: string, tail: string)
    requires '.' !in part
    ensures Split(part) == [part]
    ensures Split(part + "." + tail) == [part] + Split(tail)
    decreases part
  {
    if part == "" {
      assert "" + "." + tail == "." + tail;
    } else {
      assert (part + "." + tail)[1..] == part[1..] + "." + tail;
      SplitPart(part[1..], tail);
      assert [part[0]] + part[1..] == part;
    }
  }

  lemma {:induction false} SplitJoin(parts: seq<string>)
    requires parts != [] && DotFreeParts(parts)
    ensures Split(JoinDots(parts)) == parts
    decreases parts
  {
    if |parts| == 1 {
      SplitPart(parts[0], "");
    } else {
      SplitJoin(parts[1..]);
      SplitPart(parts[0], JoinDots(parts[1..]));
      assert parts == [parts[0]] + parts[1..];
    }
  }

  lemma {:induction false} JoinSplit(s: string)
    ensures JoinDots(Split(s)) == s
    decreases s
  {
    if s != "" {
      var rest := Split(s[1..]);
      JoinSplit(s[1..]);
      if s[0] == '.' {
        assert ([""] + rest)[1..] == rest;
        assert s == "." + s[1..];
      } else {
        var all := [[s[0]] + rest[0]] + rest[1..];
        assert all[1..] == rest[1..];
        assert s == [s[0]] + s[1..];
      }
    }
  }

  lemma {:induction false} ExtendKeepsPrefix(prefix: string, parts: seq<string>)
    ensures prefix <= Extend(prefix, parts)
    decreases parts
  {
    if parts != [] {
      ExtendKeepsPrefix(KeyPath(prefix, parts[0]), parts[1..]);
      PrefixTransitive(prefix, KeyPath(prefix, parts[0]), Extend(prefix, parts));
    }
  }

  /** The root has an empty key that leads to a table with a bracket-free key of its own. */
  predicate NestsUnderEmptyKey(v: TomlValue) {
    v.Table? && "" in v.entries && v.entries[""].Table? && exists k :: k in v.entries[""].entries && '[' !in k
  }

  /** A walk that starts with the empty key and goes on meets a bracket, unless the tree nests under it. */
  lemma EmptyFirstPart(v: TomlValue, parts: seq<string>)
    requires |parts| > 1 && parts[0] == "" && Walk(v, parts).Some? && !NestsUnderEmptyKey(v)
    ensures '[' in parts[1] && '[' in Extend("", parts)
  {
    var rest := parts[1..];
    assert rest[0] == parts[1] && rest[0] in v.entries[""].entries;
    assert Extend("", parts) == Extend("", rest) == Extend(rest[0], rest[1..]);
    ExtendKeepsPrefix(rest[0], rest[1..]);
    PrefixTransitive(rest[0], rest[0], Extend("", parts));
    PrefixTransitive(rest[0], Extend("", parts), Extend("", parts));
  }

  lemma {:induction false} PartsOfJoin(parts: seq<string>, i: nat, c: char)
    requires i < |parts| && c in parts[i]
    ensures c in JoinDots(parts)
    decreases parts
  {
    if |parts| > 1 && i > 0 {
      PartsOfJoin(parts[1..], i - 1, c);
    }
  }

  /** Without such nesting a dotted path counts as written exactly when the walk reaches a value. */
  lemma PresentIffWalked(v: TomlValue, dotted: string)
    requires DotFree(v) && !NestsUnderEmptyKey(v) && '[' !in dotted
    ensures dotted in PresentTomlKeys(v) <==> Walk(v, Split(dotted)).Some?
  {
    CollectedIsWalked(v, "", dotted);
    if dotted in PresentTomlKeys(v) {
      var parts :| Builds(v, "", parts, dotted);
      WalkedPartsAreDotFree(v, parts);
      if |parts| > 1 && parts[0] == "" {
        EmptyFirstPart(v, parts);
      }
      ExtendFromRoot(parts);
      SplitJoin(parts);
    }
    if Walk(v, Split(dotted)).Some? {
      var parts := Split(dotted);
      JoinSplit(dotted);
      if |parts| > 1 && parts[0] == "" {
        EmptyFirstPart(v, parts);
        PartsOfJoin(parts, 1, '[');
      }
      ExtendFromRoot(parts);
      assert Builds(v, "", parts, dotted);
    }
  }

  /** No collected path starts with a dot when no key does. */
  lemma {:induction false} NothingStartsWithDot(parts: seq<string>)
    requires DotFreeParts(parts)
    ensures Extend("", parts) != "" ==> Extend("", parts)[0] != '.'
    decreases parts
  {
    if parts != [] {
      if parts[0] == "" {
        NothingStartsWithDot(parts[1..]);
      } else {
        ExtendKeepsPrefix(parts[0], parts[1..]);
        assert Extend("", parts)[0] == parts[0][0];
      }
    }
  }

  /** A child `k` of the root's empty key is read as ".k" but not listed as that. */
  lemma NestedIsOnlyWalked(v: TomlValue, k: string)
    requires DotFree(v) && v.Table? && "" in v.entries && v.entries[""].Table?
    requires k in v.entries[""].entries && '[' !in k
    ensures "." + k !in PresentTomlKeys(v) && Walk(v, Split("." + k)).Some?
  {
    var d, inner := "." + k, v.entries[""];
    assert '.' !in k;
    SplitPart(k, "");
    assert d[1..] == k && Split(d) == [""] + [k];
    assert ([""] + [k])[1..] == [k] && [k][1..] == [];
    assert Walk(inner, [k]) == Walk(inner.entries[k], []);
    CollectedIsWalked(v, "", d);
    if d in PresentTomlKeys(v) {
      var parts :| Builds(v, "", parts, d);
      WalkedPartsAreDotFree(v, parts);
      NothingStartsWithDot(parts);
    }
  }

  /** Without dotted keys the two readings agree on every bracket-free path exactly when the tree does not
      nest under an empty key. */
  lemma DotFreeReadingsAgree(v: TomlValue)
    requires DotFree(v)
    ensures (forall d | '[' !in d :: d in PresentTomlKeys(v) <==> Walk(v, Split(d)).Some?) <==> !NestsUnderEmptyKey(v)
  {
    if NestsUnderEmptyKey(v) {
      var k :| k in v.entries[""].entries && '[' !in k;
      NestedIsOnlyWalked(v, k);
      assert '[' !in "." + k;
    } else {
      forall d | '[' !in d ensures d in PresentTomlKeys(v) <==> Walk(v, Split(d)).Some? {
        PresentIffWalked(v, d);
      }
    }
  }

  // ----- exactly when they agree, dotted keys included -----

  /** The parts of a written path: each key split at its own dots. */
  function SplitAll(parts: seq<string>): seq<string> {
    if parts == [] then [] else Split(parts[0]) + SplitAll(parts[1..])
  }

  lemma SplitCons(c: char, s: string)
    ensures Split([c] + s) == if c == '.' then [""] + Split(s) else [[c] + Split(s)[0]] + Split(s)[1..]
  {
    assert ([c] + s)[1..] == s;
  }

  lemma PrependFirst(c: char, xs: seq<string>, ys: seq<string>)
    requires xs != []
    ensures ([[c] + xs[0]] + xs[1..]) + ys == [[c] + (xs + ys)[0]] + (xs + ys)[1..]
    ensures ([""] + xs) + ys == [""] + (xs + ys)
  {
  }

  lemma {:induction false} SplitConcat(a: string, b: string)
    ensures Split(a + "." + b) == Split(a) + Split(b)
    decreases a
  {
    if a == "" {
      assert "" + "." + b == ['.'] + b;
      SplitCons('.', b);
    } else {
      var c, rest := a[0], a[1..];
      assert a == [c] + rest && a + "." + b == [c] + (rest + "." + b);
      SplitConcat(rest, b);
      SplitCons(c, rest);
      SplitCons(c, rest + "." + b);
      PrependFirst(c, Split(rest), Split(b));
    }
  }

  lemma {:induction false} SplitOfJoin(parts: seq<string>)
    requires parts != []
    ensures Split(JoinDots(parts)) == SplitAll(parts)
    decreases parts
  {
    if |parts| == 1 {
      assert SplitAll(parts) == Split(parts[0]) + SplitAll([]);
    } else {
      SplitOfJoin(parts[1..]);
      SplitConcat(parts[0], JoinDots(parts[1..]));
    }
  }

  lemma {:induction false} WalkConcat(v: TomlValue, a: seq<string>, b: seq<string>)
    ensures Walk(v, a + b) == match Walk(v, a) case None => None case Some(w) => Walk(w, b)
    decreases a
  {
    if a == [] {
      assert a + b == b;
    } else if v.Table? && a[0] in v.entries {
      assert (a + b)[1..] == a[1..] + b;
      WalkConcat(v.entries[a[0]], a[1..], b);
    }
  }

  predicate BracketFree(parts: seq<string>) {
    forall i | 0 <= i < |parts| :: '[' !in parts[i]
  }

  lemma {:induction false} BracketsOfJoin(parts: seq<string>)
    ensures '[' !in JoinDots(parts) <==> BracketFree(parts)
    decreases parts
  {
    if |parts| > 1 {
      BracketsOfJoin(parts[1..]);
      assert parts == [parts[0]] + parts[1..];
    }
  }

  /** Whatever can be followed by the keys of `u` can be followed from `w` by the parts of those keys. */
  predicate Contained(u: TomlValue, w: TomlValue)
    decreases u
  {
    match u
    case Table(m) =>
      forall k | k in m && '[' !in k :: Walk(w, Split(k)).Some? && Contained(m[k], Walk(w, Split(k)).value)
    case _ => true
  }

  lemma {:induction false} ContainedWalks(u: TomlValue, w: TomlValue, parts: seq<string>)
    requires Contained(u, w) && Walk(u, parts).Some? && BracketFree(parts)
    ensures Walk(w, SplitAll(parts)).Some?
    decreases parts
  {
    if parts != [] {
      var k := parts[0];
      ContainedWalks(u.entries[k], Walk(w, Split(k)).value, parts[1..]);
      WalkConcat(w, Split(k), SplitAll(parts[1..]));
    }
  }

  lemma {:induction false} NotContained(u: TomlValue, w: TomlValue) returns (parts: seq<string>)
    requires !Contained(u, w)
    ensures parts != [] && Walk(u, parts).Some? && BracketFree(parts) && Walk(w, SplitAll(parts)).None?
    decreases u
  {
    var k :| k in u.entries && '[' !in k &&
      !(Walk(w, Split(k)).Some? && Contained(u.entries[k], Walk(w, Split(k)).value));
    if Walk(w, Split(k)).None? {
      parts := [k];
      assert SplitAll([k]) == Split(k) + SplitAll([k][1..]) && [k][1..] == [] && Split(k) + [] == Split(k);
    } else {
      var rest := NotContained(u.entries[k], Walk(w, Split(k)).value);
      parts := [k] + rest;
      assert parts[1..] == rest;
      WalkConcat(w, Split(k), SplitAll(rest));
    }
  }

  /** The same from the root, where an empty key adds nothing to the path. */
  predicate RootContained(u: TomlValue, w: TomlValue)
    decreases u
  {
    match u
    case Table(m) =>
      forall k | k in m && '[' !in k ::
        if k == "" then RootContained(m[k], w) else Walk(w, Split(k)).Some? && Contained(m[k], Walk(w, Split(k)).value)
    case _ => true
  }

  /** The parts that show in the path built from the root. */
  function Shown(parts: seq<string>): seq<string> {
    if parts != [] && parts[0] == "" then Shown(parts[1..]) else parts
  }

  lemma {:induction false} ExtendShows(parts: seq<string>)
    ensures Extend("", parts) == JoinDots(Shown(parts))
    decreases parts
  {
    if parts != [] && parts[0] == "" {
      ExtendShows(parts[1..]);
    } else if parts != [] {
      ExtendFromRoot(parts);
    }
  }

  lemma {:induction false} RootContainedWalks(u: TomlValue, w: TomlValue, parts: seq<string>)
    requires RootContained(u, w) && Walk(u, parts).Some? && BracketFree(parts)
    ensures Walk(w, SplitAll(Shown(parts))).Some?
    decreases parts
  {
    if parts != [] {
      var k := parts[0];
      if k == "" {
        RootContainedWalks(u.entries[k], w, parts[1..]);
      } else {
        ContainedWalks(u.entries[k], Walk(w, Split(k)).value, parts[1..]);
        WalkConcat(w, Split(k), SplitAll(parts[1..]));
      }
    }
  }

  lemma {:induction false} NotRootContained(u: TomlValue, w: TomlValue) returns (parts: seq<string>)
    requires !RootContained(u, w)
    ensures parts != [] && Walk(u, parts).Some? && BracketFree(parts)
    ensures Shown(parts) != [] && Walk(w, SplitAll(Shown(parts))).None?
    decreases u
  {
    var k :| k in u.entries && '[' !in k &&
      !(if k == "" then RootContained(u.entries[k], w)
        else Walk(w, Split(k)).Some? && Contained(u.entries[k], Walk(w, Split(k)).value));
    var rest: seq<string> := [];
    if k == "" {
      rest := NotRootContained(u.entries[k], w);
    } else if Walk(w, Split(k)).Some? {
      rest := NotContained(u.entries[k], Walk(w, Split(k)).value);
    }
    parts := [k] + rest;
    assert parts[1..] == rest;
    if k != "" {
      WalkConcat(w, Split(k), SplitAll(rest));
    }
  }

  /** Everything listed is walked exactly when the tree is contained in itself. */
  lemma ListedIsWalkedExactly(v: TomlValue)
    ensures (forall d | '[' !in d && d in PresentTomlKeys(v) :: Walk(v, Split(d)).Some?) <==> RootContained(v, v)
  {
    if RootContained(v, v) {
      forall d | '[' !in d && d in PresentTomlKeys(v) ensures Walk(v, Split(d)).Some? {
        CollectedIsWalked(v, "", d);
        var parts :| Builds(v, "", parts, d);
        BuiltWithoutBrackets(parts);
        ExtendShows(parts);
        if Shown(parts) == [] {
          assert parts[0] == "" && Walk(v, [""]).Some?;
        } else {
          SplitOfJoin(Shown(parts));
          RootContainedWalks(v, v, parts);
        }
      }
    } else {
      var parts := NotRootContained(v, v);
      var d := Extend("", parts);
      ExtendShows(parts);
      SplitOfJoin(Shown(parts));
      BuiltWithoutBrackets(parts);
      CollectedIsWalked(v, "", d);
      assert Builds(v, "", parts, d);
    }
  }

  lemma {:induction false} BuiltWithoutBrackets(parts: seq<string>)
    ensures '[' !in Extend("", parts) <==> BracketFree(parts)
  {
    ExtendShows(parts);
    BracketsOfJoin(Shown(parts));
    ShownBrackets(parts);
  }

  lemma {:induction false} ShownBrackets(parts: seq<string>)
    ensures BracketFree(Shown(parts)) <==> BracketFree(parts)
    decreases parts
  {
    if parts != [] && parts[0] == "" {
      ShownBrackets(parts[1..]);
      assert parts == [""] + parts[1..];
    }
  }

  /** Some chain of keys of `u`, each split at its own dots, gives the parts `q`. */
  predicate Spells(u: TomlValue, q: seq<string>)
    decreases |q|
  {
    u.Table? &&
    exists k | k in u.entries && Split(k) <= q :: Split(k) == q || Spells(u.entries[k], q[|Split(k)|..])
  }

  /** The same from the root, where an empty key adds no part. */
  predicate RootSpells(u: TomlValue, q: seq<string>)
    decreases u
  {
    u.Table? &&
    exists k | k in u.entries ::
      if k == "" then RootSpells(u.entries[k], q)
      else Split(k) <= q && (Split(k) == q || Spells(u.entries[k], q[|Split(k)|..]))
  }

  lemma {:induction false} PartsSpell(u: TomlValue, parts: seq<string>)
    requires parts != [] && Walk(u, parts).Some?
    ensures Spells(u, SplitAll(parts))
    decreases parts
  {
    var k, rest := parts[0], parts[1..];
    SplitAllFirst(k, rest);
    if rest != [] {
      PartsSpell(u.entries[k], rest);
    }
  }

  lemma SplitAllFirst(k: string, rest: seq<string>)
    ensures var q := SplitAll([k] + rest);
      && Split(k) <= q && q[|Split(k)|..] == SplitAll(rest) && (rest == [] ==> q == Split(k))
  {
    assert ([k] + rest)[1..] == rest;
  }

  lemma {:induction false} SpelledParts(u: TomlValue, q: seq<string>) returns (parts: seq<string>)
    requires Spells(u, q)
    ensures parts != [] && Walk(u, parts).Some? && SplitAll(parts) == q
    decreases |q|
  {
    var k :| k in u.entries && Split(k) <= q && (Split(k) == q || Spells(u.entries[k], q[|Split(k)|..]));
    var rest := [];
    if Split(k) != q {
      rest := SpelledParts(u.entries[k], q[|Split(k)|..]);
    }
    parts := [k] + rest;
    assert parts[1..] == rest;
    SplitAllFirst(k, rest);
  }

  lemma {:induction false} RootPartsSpell(u: TomlValue, parts: seq<string>)
    requires Shown(parts) != [] && Walk(u, parts).Some?
    ensures RootSpells(u, SplitAll(Shown(parts)))
    decreases parts
  {
    var k, rest := parts[0], parts[1..];
    if k == "" {
      RootPartsSpell(u.entries[k], rest);
    } else {
      assert parts == [k] + rest;
      SplitAllFirst(k, rest);
      if rest != [] {
        PartsSpell(u.entries[k], rest);
      }
    }
  }

  lemma {:induction false} RootSpelledParts(u: TomlValue, q: seq<string>) returns (parts: seq<string>)
    requires RootSpells(u, q)
    ensures Walk(u, parts).Some? && Shown(parts) != [] && SplitAll(Shown(parts)) == q
    decreases u
  {
    var k :| k in u.entries &&
      if k == "" then RootSpells(u.entries[k], q)
      else Split(k) <= q && (Split(k) == q || Spells(u.entries[k], q[|Split(k)|..]));
    var rest := [];
    if k == "" {
      rest := RootSpelledParts(u.entries[k], q);
    } else if Split(k) != q {
      rest := SpelledParts(u.entries[k], q[|Split(k)|..]);
    }
    parts := [k] + rest;
    assert parts[1..] == rest;
    SplitAllFirst(k, rest);
  }

  /** A path is listed exactly when some chain of keys from the root spells it. */
  lemma ListedIsSpelled(v: TomlValue, d: string)
    requires '[' !in d && d != ""
    ensures d in PresentTomlKeys(v) <==> RootSpells(v, Split(d))
  {
    CollectedIsWalked(v, "", d);
    if d in PresentTomlKeys(v) {
      var parts :| Builds(v, "", parts, d);
      ExtendShows(parts);
      SplitOfJoin(Shown(parts));
      RootPartsSpell(v, parts);
    }
    if RootSpells(v, Split(d)) {
      var parts := RootSpelledParts(v, Split(d));
      ExtendShows(parts);
      SplitOfJoin(Shown(parts));
      JoinSplit(d);
      JoinSplit(JoinDots(Shown(parts)));
      assert Builds(v, "", parts, d);
    }
  }

  /** Every path of dot-free keys below `u`, with `before` in front, is spelled by keys from the root of `v`. */
  predicate SpelledBelow(u: TomlValue, before: seq<string>, v: TomlValue)
    decreases u
  {
    match u
    case Table(m) =>
      forall k | k in m && '[' !in k && '.' !in k ::
        RootSpells(v, before + [k]) && SpelledBelow(m[k], before + [k], v)
    case _ => true
  }

  /** What is read below the root's empty key, with a leading dot, some chain of root keys spells with that
      dot: one that starts with a key like ".a". */
  predicate EmptyKeySpelled(v: TomlValue) {
    v.Table? && "" in v.entries ==> SpelledBelow(v.entries[""], [""], v)
  }

  lemma {:induction false} SpelledWalks(u: TomlValue, before: seq<string>, v: TomlValue, parts: seq<string>)
    requires SpelledBelow(u, before, v) && parts != [] && Walk(u, parts).Some?
    requires DotFreeParts(parts) && BracketFree(parts)
    ensures RootSpells(v, before + parts)
    decreases parts
  {
    var k, rest := parts[0], parts[1..];
    FirstOfWalk(u, parts, before);
    if rest != [] {
      SpelledWalks(u.entries[k], before + [k], v, rest);
    }
  }

  lemma FirstOfWalk(u: TomlValue, parts: seq<string>, before: seq<string>)
    requires parts != [] && Walk(u, parts).Some? && DotFreeParts(parts) && BracketFree(parts)
    ensures var k, rest := parts[0], parts[1..];
      && u.Table? && k in u.entries && '[' !in k && '.' !in k
      && Walk(u.entries[k], rest).Some? && DotFreeParts(rest) && BracketFree(rest)
      && before + parts == (before + [k]) + rest && (rest == [] ==> before + parts == before + [k])
  {
    var k, rest := parts[0], parts[1..];
    assert parts == [k] + rest;
    Associates(before, [k], rest);
    assert (before + [k]) + [] == before + [k];
  }

  lemma {:induction false} NotSpelled(u: TomlValue, before: seq<string>, v: TomlValue) returns (parts: seq<string>)
    requires !SpelledBelow(u, before, v)
    ensures parts != [] && Walk(u, parts).Some? && DotFreeParts(parts) && BracketFree(parts)
    ensures !RootSpells(v, before + parts)
    decreases u
  {
    var k :| k in u.entries && '[' !in k && '.' !in k &&
      !(RootSpells(v, before + [k]) && SpelledBelow(u.entries[k], before + [k], v));
    var rest := [];
    if RootSpells(v, before + [k]) {
      rest := NotSpelled(u.entries[k], before + [k], v);
    }
    parts := [k] + rest;
    WalkFrom(u, k, rest, before);
  }

  lemma WalkFrom(u: TomlValue, k: string, rest: seq<string>, before: seq<string>)
    requires u.Table? && k in u.entries && '[' !in k && '.' !in k
    requires Walk(u.entries[k], rest).Some? && DotFreeParts(rest) && BracketFree(rest)
    ensures var parts := [k] + rest;
      && Walk(u, parts).Some? && DotFreeParts(parts) && BracketFree(parts)
      && before + parts == (before + [k]) + rest && (rest == [] ==> before + parts == before + [k])
  {
    assert ([k] + rest)[1..] == rest;
  }

  /** Split parts have no dots left. */
  lemma {:induction false} SplitIsDotFree(s: string)
    ensures DotFreeParts(Split(s))
  {
    if s != "" {
      SplitIsDotFree(s[1..]);
    }
  }

  /** Everything walked is listed exactly when what lies below the root's empty key is spelled from the root. */
  lemma WalkedIsListedExactly(v: TomlValue)
    ensures (forall d | '[' !in d && Walk(v, Split(d)).Some? :: d in PresentTomlKeys(v)) <==> EmptyKeySpelled(v)
  {
    if EmptyKeySpelled(v) {
      forall d | '[' !in d && Walk(v, Split(d)).Some? ensures d in PresentTomlKeys(v) {
        var parts := Split(d);
        JoinSplit(d);
        BracketsOfJoin(parts);
        SplitIsDotFree(d);
        if |parts| > 1 && parts[0] == "" {
          assert parts == [""] + parts[1..];
          SpelledWalks(v.entries[""], [""], v, parts[1..]);
          ListedIsSpelled(v, d);
        } else {
          ExtendFromRoot(parts);
          CollectedIsWalked(v, "", d);
          assert Builds(v, "", parts, d);
        }
      }
    } else {
      var rest := NotSpelled(v.entries[""], [""], v);
      var parts := [""] + rest;
      var d := JoinDots(parts);
      assert parts[1..] == rest;
      SplitJoin(parts);
      BracketsOfJoin(parts);
      ListedIsSpelled(v, d);
    }
  }

  /** For every tree, dotted and empty keys included: the two readings agree on every bracket-free path
      exactly when its keys, split at their dots, lead where the keys themselves do, and what lies below an
      empty root key is also spelled, with its leading dot, by other keys of the root. */
  lemma ReadingsAgreeExactly(v: TomlValue)
    ensures (forall d | '[' !in d :: d in PresentTomlKeys(v) <==> Walk(v, Split(d)).Some?)
      <==> (RootContained(v, v) && EmptyKeySpelled(v))
  {
    ListedIsWalkedExactly(v);
    WalkedIsListedExactly(v);
  }

  function Single(k: string, child: TomlValue): TomlValue { Table(map[k := child]) }

  lemma SingleCollects(k: string, child: TomlValue, prefix: string)
    ensures Under(child, KeyPath(prefix, k)) <= Collected(Single(k, child), prefix)
    ensures forall parts | parts != [] && parts[0] != k :: Walk(Single(k, child), parts).None?
  {
    var v := Single(k, child);
    assert v.entries.Keys == {k} && v.entries[k] == child;
    InKeys(v, prefix, v.entries.Keys, k, "");
  }

  /** An empty key breaks it: its children are listed as if they stood at the root. */
  lemma EmptyKeyIsListedAtRoot(v: TomlValue)
    ensures "a" in PresentTomlKeys(Single("", Single("a", v)))
    ensures Walk(Single("", Single("a", v)), Split("a")).None?
  {
    SingleCollects("a", v, "");
    SingleCollects("", Single("a", v), "");
    SplitPart("a", "");
  }

  /** So does a dot inside a key: the path is listed, the walk splits it. */
  lemma DottedKeyIsNotWalked(v: TomlValue)
    ensures "a.b" in PresentTomlKeys(Single("a.b", v))
    ensures Walk(Single("a.b", v), Split("a.b")).None?
  {
    SingleCollects("a.b", v, "");
    SplitPart("a", "b");
    assert "a" + "." + "b" == "a.b";
  }

  /** Array elements are listed by their index from 0, with everything below them. */
  lemma ItemsAreListed(key: string, items: seq<TomlValue>, i: nat)
    requires key != "" && i < |items|
    ensures var path := key + "[" + Padded(i, 1) + "]";
      path in PresentTomlKeys(Single(key, Array(items)))
      && Collected(items[i], path) <= PresentTomlKeys(Single(key, Array(items)))
  {
    var v, path := Array(items), ItemPath(key, i);
    assert path == key + "[" + Padded(i, 1) + "]";
    forall s | s in Under(items[i], path) ensures s in PresentTomlKeys(Single(key, v)) {
      assert s in FromItems(v, key, |items|) && s in Under(v, key);
      assert KeyPath("", key) == key;
      SingleCollects(key, v, "");
    }
  }

  lemma FirstItemIsZero(x: TomlValue)
    ensures "a[0]" in PresentTomlKeys(Single("a", Array([x])))
  {
    ItemsAreListed("a", [x], 0);
    assert Padded(0, 1) == "0" && "a" + "[" + "0" + "]" == "a[0]";
  }

  // ----- the program's loops -----

  method CollectTomlKeys(v: TomlValue, prefix: string, out0: set<string>) returns (out: set<string>)
    ensures out == out0 + Collected(v, prefix)
    decreases v, 0
  {
    out := out0;
    match v
    case Table(m) =>
      var todo := m.Keys;
      while todo != {}
        invariant todo <= m.Keys
        invariant out == out0 + FromKeys(v, prefix, m.Keys - todo)
      {
        var key :| key in todo;
        InKeys(v, prefix, m.Keys - (todo - {key}), key, "");
        assert m.Keys - (todo - {key}) - {key} == m.Keys - todo;
        out := CollectEntry(m[key], KeyPath(prefix, key), out);
        todo := todo - {key};
      }
      assert m.Keys - todo == m.Keys;
    case Array(items) =>
      for i := 0 to |items|
        invariant out == out0 + FromItems(v, prefix, i)
      {
        InItems(v, prefix, i);
        out := CollectEntry(items[i], ItemPath(prefix, i), out);
      }
    case _ =>
  }

  method CollectEntry(child: TomlValue, path: string, out0: set<string>) returns (out: set<string>)
    ensures out == out0 + Under(child, path)
    decreases child, 1
  {
    out := out0 + {path};
    out := CollectTomlKeys(child, path, out);
  }

  method TomlStringNonempty(root: Option<TomlValue>, dotted: string) returns (b: bool)
    ensures b <==> root.Some? && exists text :: text != "" && Walk(root.value, Split(dotted)) == Some(Str(text))
    ensures b && DotFree(root.value) && !NestsUnderEmptyKey(root.value) && '[' !in dotted
      ==> dotted in PresentTomlKeys(root.value)
  {
    if root.None? {
      return false;
    }
    var cur := root.value;
    var parts := Split(dotted);
    for i := 0 to |parts|
      invariant Walk(root.value, parts) == Walk(cur, parts[i..])
    {
      assert parts[i..][1..] == parts[i + 1..];
      if !cur.Table? || parts[i] !in cur.entries {
        return false;
      }
      cur := cur.entries[parts[i]];
    }
    b := cur.Str? && cur.text != "";
    if b && DotFree(root.value) && !NestsUnderEmptyKey(root.value) && '[' !in dotted {
      PresentIffWalked(root.value, dotted);
    }
  }
}
