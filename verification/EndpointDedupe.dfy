/**
  Collapsing stacked route identities to one row each. The rows pass through a hash map, so the
  module proves that neither the row order nor the map order shows in the result.
 */
module EndpointDedupe {
  import opened Wrappers
  import opened Order

  datatype EndpointRow = EndpointRow(
    id: int, httpMethod: string, pathPattern: string, handler: Option<string>, framework: string,
    confidence: real, rest: string)

  /** (upper-case method, path, framework); upper-casing is a parameter. */
  type DedupeKey = (string, string, string)

  function KeyOf(upper: string -> string, r: EndpointRow): DedupeKey {
    (upper(r.httpMethod), r.pathPattern, r.framework)
  }

  function HandlerOf(r: EndpointRow): string {
    if r.handler.Some? then r.handler.value else ""
  }

  predicate StrLt(a: string, b: string) { StrLe(a, b) && a != b }

  /** Whether `cand` should replace `prev`. */
  predicate BetterThan(cand: EndpointRow, prev: EndpointRow) {
    if cand.confidence > prev.confidence then true
    else if cand.confidence < prev.confidence then false
    else if HandlerOf(cand) != "" && HandlerOf(prev) == "" then true
    else if HandlerOf(cand) == "" && HandlerOf(prev) != "" then false
    else if StrLt(HandlerOf(cand), HandlerOf(prev)) then true
    else if StrLt(HandlerOf(prev), HandlerOf(cand)) then false
    else cand.id < prev.id
  }

  /** Keep-best is a strict order, and rows with different ids are always comparable. */
  lemma BetterIsStrictOrder(a: EndpointRow, b: EndpointRow, c: EndpointRow)
    ensures !(BetterThan(a, b) && BetterThan(b, a))
    ensures BetterThan(a, b) && BetterThan(b, c) ==> BetterThan(a, c)
    ensures a.id != b.id ==> BetterThan(a, b) || BetterThan(b, a)
  {
    var x, y, z := HandlerOf(a), HandlerOf(b), HandlerOf(c);
    LexTotal(CharLe, x, y, z);
    LexTotal(CharLe, y, z, x);
    LexTotal(CharLe, z, x, y);
    LexTotal(CharLe, y, x, z);
  }

  // ----- the output order -----

  type SortKey = (seq<string>, int)

  function SortKeyOf(r: EndpointRow): SortKey {
    ([r.pathPattern, r.httpMethod, r.framework], r.id)
  }

  predicate SortLe(a: SortKey, b: SortKey) {
    if a.0 == b.0 then a.1 <= b.1 else KeyLe(a.0, b.0)
  }

  lemma SortLeIsTotal()
    ensures Total(SortLe)
  {
    StringOrderIsTotal();
  }

  // ----- the specification -----

  predicate IsBest(upper: string -> string, rows: seq<EndpointRow>, r: EndpointRow) {
    r in rows && forall x | x in rows && KeyOf(upper, x) == KeyOf(upper, r) :: !BetterThan(x, r)
  }

  ghost predicate OnePerKey(upper: string -> string, out: seq<EndpointRow>) {
    forall i, j | 0 <= i < j < |out| :: KeyOf(upper, out[i]) != KeyOf(upper, out[j])
  }

  predicate HasKey(upper: string -> string, rows: seq<EndpointRow>, k: DedupeKey) {
    exists i | 0 <= i < |rows| :: KeyOf(upper, rows[i]) == k
  }

  ghost predicate AllBest(upper: string -> string, out: seq<EndpointRow>, rows: seq<EndpointRow>) {
    forall i | 0 <= i < |out| :: IsBest(upper, rows, out[i])
  }

  ghost predicate Covers(upper: string -> string, out: seq<EndpointRow>, rows: seq<EndpointRow>) {
    forall i | 0 <= i < |rows| :: HasKey(upper, out, KeyOf(upper, rows[i]))
  }

  /** One best row for every key that occurs, sorted. */
  ghost predicate IsDedupe(upper: string -> string, out: seq<EndpointRow>, rows: seq<EndpointRow>) {
    && SortedBy(SortKeyOf, SortLe, out) && OnePerKey(upper, out)
    && AllBest(upper, out, rows) && Covers(upper, out, rows)
  }

  // ----- the same by the fields of the rows -----

  predicate SameRoute(upper: string -> string, a: EndpointRow, b: EndpointRow) {
    upper(a.httpMethod) == upper(b.httpMethod) && a.pathPattern == b.pathPattern && a.framework == b.framework
  }

  predicate HasHandler(r: EndpointRow) { r.handler.Some? && r.handler.value != "" }

  /** `x` does not outdo `o`: no higher confidence; at the same confidence no handler where `o` has none, no
      handler that comes before, and with none of these no lower id. */
  predicate NotOutdone(o: EndpointRow, x: EndpointRow) {
    && x.confidence <= o.confidence
    && (x.confidence == o.confidence ==>
          && (!HasHandler(o) ==> !HasHandler(x))
          && (HasHandler(o) && HasHandler(x) ==> StrLe(o.handler.value, x.handler.value))
          && (!HasHandler(o) || (HasHandler(x) && o.handler == x.handler) ==> o.id <= x.id))
  }

  /** By path, then method, then framework, then id. */
  predicate InListOrder(a: EndpointRow, b: EndpointRow) {
    if a.pathPattern != b.pathPattern then StrLe(a.pathPattern, b.pathPattern)
    else if a.httpMethod != b.httpMethod then StrLe(a.httpMethod, b.httpMethod)
    else if a.framework != b.framework then StrLe(a.framework, b.framework)
    else a.id <= b.id
  }

  ghost predicate InOrderOnce(upper: string -> string, out: seq<EndpointRow>) {
    forall i, j | 0 <= i < j < |out| :: !SameRoute(upper, out[i], out[j]) && InListOrder(out[i], out[j])
  }

  ghost predicate NoneOutdone(upper: string -> string, out: seq<EndpointRow>, rows: seq<EndpointRow>) {
    forall i | 0 <= i < |out| ::
      out[i] in rows && forall x | x in rows && SameRoute(upper, x, out[i]) :: NotOutdone(out[i], x)
  }

  ghost predicate EveryRoute(upper: string -> string, out: seq<EndpointRow>, rows: seq<EndpointRow>) {
    forall j | 0 <= j < |rows| :: HasRoute(upper, out, rows[j])
  }

  predicate HasRoute(upper: string -> string, out: seq<EndpointRow>, x: EndpointRow) {
    exists i | 0 <= i < |out| :: SameRoute(upper, out[i], x)
  }

  /** Every route of the rows once, by a row that none of the route outdoes, in list order. */
  ghost predicate KeepsBest(upper: string -> string, out: seq<EndpointRow>, rows: seq<EndpointRow>) {
    InOrderOnce(upper, out) && NoneOutdone(upper, out, rows) && EveryRoute(upper, out, rows)
  }

  lemma NotBetterIsNotOutdone(o: EndpointRow, x: EndpointRow)
    requires !BetterThan(x, o)
    ensures NotOutdone(o, x)
  {
    LexTotal(CharLe, HandlerOf(o), HandlerOf(x), HandlerOf(o));
    LexTotal(CharLe, HandlerOf(x), HandlerOf(o), HandlerOf(x));
  }

  lemma ThreeStrings(a: string, b: string, c: string, x: string, y: string, z: string)
    ensures KeyLe([a, b, c], [x, y, z]) <==>
      if a != x then StrLe(a, x) else if b != y then StrLe(b, y) else StrLe(c, z) || c == z
  {
    assert [a, b, c][1..] == [b, c] && [b, c][1..] == [c] && [c][1..] == [];
    assert [x, y, z][1..] == [y, z] && [y, z][1..] == [z] && [z][1..] == [];
    assert LexLe(StrLe, [c], [z]) <==> c == z || StrLe(c, z);
    assert LexLe(StrLe, [b, c], [y, z]) <==> if b == y then LexLe(StrLe, [c], [z]) else StrLe(b, y);
  }

  lemma DedupeInOrder(upper: string -> string, out: seq<EndpointRow>)
    requires SortedBy(SortKeyOf, SortLe, out) && OnePerKey(upper, out)
    ensures InOrderOnce(upper, out)
  {
    forall i, j | 0 <= i < j < |out| ensures !SameRoute(upper, out[i], out[j]) && InListOrder(out[i], out[j]) {
      var a, b := out[i], out[j];
      assert KeyOf(upper, a) != KeyOf(upper, b);
      assert SortLe(SortKeyOf(a), SortKeyOf(b));
      ThreeStrings(a.pathPattern, a.httpMethod, a.framework, b.pathPattern, b.httpMethod, b.framework);
    }
  }

  lemma BestIsNotOutdone(upper: string -> string, rows: seq<EndpointRow>, o: EndpointRow)
    requires IsBest(upper, rows, o)
    ensures o in rows && forall x | x in rows && SameRoute(upper, x, o) :: NotOutdone(o, x)
  {
    forall x | x in rows && SameRoute(upper, x, o) ensures NotOutdone(o, x) {
      NotBetterIsNotOutdone(o, x);
    }
  }

  /** A deduplication is that. */
  lemma DedupeKeepsBest(upper: string -> string, out: seq<EndpointRow>, rows: seq<EndpointRow>)
    requires IsDedupe(upper, out, rows)
    ensures KeepsBest(upper, out, rows)
  {
    DedupeInOrder(upper, out);
    forall i | 0 <= i < |out|
      ensures out[i] in rows && forall x | x in rows && SameRoute(upper, x, out[i]) :: NotOutdone(out[i], x)
    {
      BestIsNotOutdone(upper, rows, out[i]);
    }
    forall j | 0 <= j < |rows| ensures HasRoute(upper, out, rows[j]) {
      assert HasKey(upper, out, KeyOf(upper, rows[j]));
      var i :| 0 <= i < |out| && KeyOf(upper, out[i]) == KeyOf(upper, rows[j]);
      assert SameRoute(upper, out[i], rows[j]);
    }
  }

  ghost predicate DistinctIds(rows: seq<EndpointRow>) {
    forall x, y | x in rows && y in rows && x.id == y.id :: x == y
  }

  lemma BestIsUnique(upper: string -> string, rows: seq<EndpointRow>, r: EndpointRow, s: EndpointRow)
    requires DistinctIds(rows) && IsBest(upper, rows, r) && IsBest(upper, rows, s)
    requires KeyOf(upper, r) == KeyOf(upper, s)
    ensures r == s
  {
    BetterIsStrictOrder(r, s, r);
  }

  lemma DedupeHoldsBest(upper: string -> string, out: seq<EndpointRow>, rows: seq<EndpointRow>, r: EndpointRow)
    requires DistinctIds(rows) && AllBest(upper, out, rows) && Covers(upper, out, rows)
    ensures r in out <==> IsBest(upper, rows, r)
  {
    if IsBest(upper, rows, r) {
      var i :| 0 <= i < |rows| && rows[i] == r;
      assert HasKey(upper, out, KeyOf(upper, rows[i]));
      var j :| 0 <= j < |out| && KeyOf(upper, out[j]) == KeyOf(upper, r);
      assert IsBest(upper, rows, out[j]);
      BestIsUnique(upper, rows, r, out[j]);
    }
    if r in out {
      var j :| 0 <= j < |out| && out[j] == r;
      assert IsBest(upper, rows, out[j]);
    }
  }

  /** The result is the same for every arrangement of the rows, and there is only one. */
  lemma OrderIndependent(upper: string -> string, rows: seq<EndpointRow>, rows': seq<EndpointRow>,
                         out: seq<EndpointRow>, out': seq<EndpointRow>)
    requires DistinctIds(rows) && multiset(rows) == multiset(rows')
    requires IsDedupe(upper, out, rows) && IsDedupe(upper, out', rows')
    ensures out == out'
  {
    SameElements(rows, rows');
    forall r ensures r in out <==> r in out' {
      DedupeHoldsBest(upper, out, rows, r);
      DedupeHoldsBest(upper, out', rows', r);
    }
    assert forall i, j | 0 <= i < j < |out| :: KeyOf(upper, out[i]) != KeyOf(upper, out[j]);
    assert forall i, j | 0 <= i < j < |out'| :: KeyOf(upper, out'[i]) != KeyOf(upper, out'[j]);
    SameSetSameMultiset(out, out');
    SortLeIsTotal();
    forall i, j | 0 <= i < |out| && 0 <= j < |out| && SortKeyOf(out[i]) == SortKeyOf(out[j]) ensures out[i] == out[j] {
      assert IsBest(upper, rows, out[i]) && IsBest(upper, rows, out[j]);
    }
    SortedIsCanonical(SortKeyOf, SortLe, out, out');
  }

  lemma Idempotent(upper: string -> string, rows: seq<EndpointRow>, out: seq<EndpointRow>)
    requires IsDedupe(upper, out, rows)
    ensures IsDedupe(upper, out, out)
  {
    forall i | 0 <= i < |out| ensures IsBest(upper, out, out[i]) {
      assert IsBest(upper, rows, out[i]);
      forall x | x in out && KeyOf(upper, x) == KeyOf(upper, out[i]) ensures !BetterThan(x, out[i]) {
        var j :| 0 <= j < |out| && out[j] == x;
        assert IsBest(upper, rows, out[j]);
      }
    }
  }

  // ----- the --changed filter -----

  function Keep(upper: string -> string, keys: set<(string, string)>, rows: seq<EndpointRow>): seq<EndpointRow> {
    if rows == [] then []
    else (if (upper(rows[0].httpMethod), rows[0].pathPattern) in keys then [rows[0]] else [])
         + Keep(upper, keys, rows[1..])
  }

  lemma {:induction false} KeepMembers(
      upper: string -> string, keys: set<(string, string)>, rows: seq<EndpointRow>, r: EndpointRow)
    ensures r in Keep(upper, keys, rows) <==> r in rows && (upper(r.httpMethod), r.pathPattern) in keys
  {
    if rows != [] {
      KeepMembers(upper, keys, rows[1..], r);
      assert rows == [rows[0]] + rows[1..];
    }
  }

  lemma {:induction false} KeepSorted(upper: string -> string, keys: set<(string, string)>, rows: seq<EndpointRow>)
    requires SortedBy(SortKeyOf, SortLe, rows) && OnePerKey(upper, rows)
    ensures SortedBy(SortKeyOf, SortLe, Keep(upper, keys, rows))
    ensures OnePerKey(upper, Keep(upper, keys, rows))
  {
    if rows != [] {
      var rest := Keep(upper, keys, rows[1..]);
      KeepSorted(upper, keys, rows[1..]);
      forall j | 0 <= j < |rest|
        ensures SortLe(SortKeyOf(rows[0]), SortKeyOf(rest[j])) && KeyOf(upper, rows[0]) != KeyOf(upper, rest[j])
      {
        KeepMembers(upper, keys, rows[1..], rest[j]);
        var i :| 0 <= i < |rows[1..]| && rows[1..][i] == rest[j];
        assert rest[j] == rows[i + 1];
      }
    }
  }

  lemma KeepKeepsBest(upper: string -> string, keys: set<(string, string)>, rows: seq<EndpointRow>, r: EndpointRow)
    requires IsBest(upper, rows, r) && (upper(r.httpMethod), r.pathPattern) in keys
    ensures IsBest(upper, Keep(upper, keys, rows), r)
  {
    KeepMembers(upper, keys, rows, r);
    forall x | x in Keep(upper, keys, rows) && KeyOf(upper, x) == KeyOf(upper, r) ensures !BetterThan(x, r) {
      KeepMembers(upper, keys, rows, x);
    }
  }

  lemma KeepKeepsKey(upper: string -> string, keys: set<(string, string)>,
                     rows: seq<EndpointRow>, out: seq<EndpointRow>, x: EndpointRow)
    requires Covers(upper, out, rows) && x in Keep(upper, keys, rows)
    ensures HasKey(upper, Keep(upper, keys, out), KeyOf(upper, x))
  {
    KeepMembers(upper, keys, rows, x);
    var m :| 0 <= m < |rows| && rows[m] == x;
    assert HasKey(upper, out, KeyOf(upper, rows[m]));
    var j :| 0 <= j < |out| && KeyOf(upper, out[j]) == KeyOf(upper, x);
    KeepMembers(upper, keys, out, out[j]);
    var kept := Keep(upper, keys, out);
    var n :| 0 <= n < |kept| && kept[n] == out[j];
    assert KeyOf(upper, kept[n]) == KeyOf(upper, x);
  }

  /** Filtering by changed keys before deduplicating is filtering after: the filter looks only at the
      part of the key all rows of a group share. */
  lemma FilterCommutes(
      upper: string -> string, keys: set<(string, string)>, rows: seq<EndpointRow>, out: seq<EndpointRow>)
    requires IsDedupe(upper, out, rows)
    ensures IsDedupe(upper, Keep(upper, keys, out), Keep(upper, keys, rows))
  {
    KeepSorted(upper, keys, out);
    var kept, keptRows := Keep(upper, keys, out), Keep(upper, keys, rows);
    forall i | 0 <= i < |kept| ensures IsBest(upper, keptRows, kept[i]) {
      KeepMembers(upper, keys, out, kept[i]);
      var j :| 0 <= j < |out| && out[j] == kept[i];
      assert IsBest(upper, rows, out[j]);
      KeepKeepsBest(upper, keys, rows, kept[i]);
    }
    forall i | 0 <= i < |keptRows| ensures HasKey(upper, kept, KeyOf(upper, keptRows[i])) {
      KeepKeepsKey(upper, keys, rows, out, keptRows[i]);
    }
  }

  /** So `--changed` shows exactly the rows of the full listing whose keys changed, in the same order. */
  lemma ChangedListingIsFilteredListing(upper: string -> string, keys: set<(string, string)>, rows: seq<EndpointRow>,
                                        listing: seq<EndpointRow>, changed: seq<EndpointRow>)
    requires DistinctIds(rows)
    requires IsDedupe(upper, listing, rows) && IsDedupe(upper, changed, Keep(upper, keys, rows))
    ensures changed == Keep(upper, keys, listing)
  {
    FilterCommutes(upper, keys, rows, listing);
    var kept := Keep(upper, keys, rows);
    forall x, y | x in kept && y in kept && x.id == y.id ensures x == y {
      KeepMembers(upper, keys, rows, x);
      KeepMembers(upper, keys, rows, y);
    }
    OrderIndependent(upper, kept, kept, changed, Keep(upper, keys, listing));
  }

  // ----- the hash-map loop -----

  ghost predicate BestSoFar(upper: string -> string, best: map<DedupeKey, EndpointRow>, rows: seq<EndpointRow>) {
    && (forall k | k in best :: KeyOf(upper, best[k]) == k && IsBest(upper, rows, best[k]))
    && (forall i | 0 <= i < |rows| :: KeyOf(upper, rows[i]) in best)
  }

  /** A row takes the place of the previous best of its group exactly when it is better. */
  lemma BestSnoc(upper: string -> string, best: map<DedupeKey, EndpointRow>, rows: seq<EndpointRow>, r: EndpointRow)
    requires BestSoFar(upper, best, rows)
    ensures var k := KeyOf(upper, r);
      BestSoFar(upper, if k in best && !BetterThan(r, best[k]) then best else best[k := r], rows + [r])
  {
    var k, all := KeyOf(upper, r), rows + [r];
    var next := if k in best && !BetterThan(r, best[k]) then best else best[k := r];
    forall q | q in next ensures KeyOf(upper, next[q]) == q && IsBest(upper, all, next[q]) {
      forall x | x in all && KeyOf(upper, x) == q ensures !BetterThan(x, next[q]) {
        if q == k && next[q] == r {
          BetterIsStrictOrder(r, x, r);
          if x in rows {
            var i :| 0 <= i < |rows| && rows[i] == x;
            assert KeyOf(upper, rows[i]) in best;
            BetterIsStrictOrder(x, r, best[k]);
          }
        }
      }
    }
    forall i | 0 <= i < |all| ensures KeyOf(upper, all[i]) in next {
      if i < |rows| {
        assert KeyOf(upper, rows[i]) in best;
      }
    }
  }

  /** The values come out of the map in no particular order; the sort gives them theirs. */
  method DedupeEndpointRows(upper: string -> string, rows: seq<EndpointRow>) returns (out: seq<EndpointRow>)
    ensures IsDedupe(upper, out, rows) && KeepsBest(upper, out, rows)
  {
    var best := KeepBest(upper, rows);
    out := IntoValues(upper, best, rows);
    ghost var values := out;
    out := Sort(SortKeyOf, SortLe, out);
    SortLeIsTotal();
    SortSorts(SortKeyOf, SortLe, values);
    PermutedDedupe(upper, values, out, rows);
    DedupeKeepsBest(upper, out, rows);
  }

  method KeepBest(upper: string -> string, rows: seq<EndpointRow>) returns (best: map<DedupeKey, EndpointRow>)
    ensures BestSoFar(upper, best, rows)
  {
    best := map[];
    for i := 0 to |rows|
      invariant BestSoFar(upper, best, rows[..i])
    {
      BestSnoc(upper, best, rows[..i], rows[i]);
      assert rows[..i + 1] == rows[..i] + [rows[i]];
      var key := KeyOf(upper, rows[i]);
      if key !in best {
        best := best[key := rows[i]];
      } else if BetterThan(rows[i], best[key]) {
        best := best[key := rows[i]];
      }
    }
    assert rows[..|rows|] == rows;
  }

  method IntoValues(upper: string -> string, best: map<DedupeKey, EndpointRow>, ghost rows: seq<EndpointRow>)
    returns (out: seq<EndpointRow>)
    requires BestSoFar(upper, best, rows)
    ensures OnePerKey(upper, out) && AllBest(upper, out, rows) && Covers(upper, out, rows)
  {
    out := [];
    var todo := best.Keys;
    while todo != {}
      invariant todo <= best.Keys
      invariant forall i | 0 <= i < |out| ::
          KeyOf(upper, out[i]) in best.Keys - todo && out[i] == best[KeyOf(upper, out[i])]
      invariant forall k | k in best.Keys - todo :: HasKey(upper, out, k)
      invariant OnePerKey(upper, out)
    {
      var k :| k in todo;
      ghost var before := out;
      out := out + [best[k]];
      todo := todo - {k};
      forall q | q in best.Keys - todo ensures HasKey(upper, out, q) {
        if q == k {
          assert KeyOf(upper, out[|before|]) == k;
        } else {
          assert HasKey(upper, before, q);
          var i :| 0 <= i < |before| && KeyOf(upper, before[i]) == q;
          assert out[i] == before[i];
        }
      }
    }
  }

  lemma PermutedDedupe(upper: string -> string, a: seq<EndpointRow>, b: seq<EndpointRow>, rows: seq<EndpointRow>)
    requires multiset(a) == multiset(b)
    requires OnePerKey(upper, a) && AllBest(upper, a, rows) && Covers(upper, a, rows)
    ensures OnePerKey(upper, b) && AllBest(upper, b, rows) && Covers(upper, b, rows)
  {
    var key := r => KeyOf(upper, r);
    assert DistinctKeys(key, a);
    DistinctKeysPermuted(key, a, b);
    SameElements(a, b);
    forall i | 0 <= i < |b| ensures IsBest(upper, rows, b[i]) {
      assert b[i] in a;
      var j :| 0 <= j < |a| && a[j] == b[i];
      assert IsBest(upper, rows, a[j]);
    }
    forall i | 0 <= i < |rows| ensures HasKey(upper, b, KeyOf(upper, rows[i])) {
      assert HasKey(upper, a, KeyOf(upper, rows[i]));
      var j :| 0 <= j < |a| && KeyOf(upper, a[j]) == KeyOf(upper, rows[i]);
      assert a[j] in b;
      var m :| 0 <= m < |b| && b[m] == a[j];
      assert KeyOf(upper, b[m]) == KeyOf(upper, rows[i]);
    }
    forall i, j | 0 <= i < j < |b| ensures KeyOf(upper, b[i]) != KeyOf(upper, b[j]) {
      assert key(b[i]) != key(b[j]);
    }
  }
}
