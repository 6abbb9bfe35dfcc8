/**
  Deduplication of extracted nodes and edges: the first occurrence of each key is kept and the
  result sorted by key, once per file over its chunks and once per batch over its files. The two
  levels together equal one flat pass.
 */
module SemanticDedup {
  import opened Wrappers
  import opened Order

  type Key = seq<string>

  datatype SemanticNode = SemanticNode(id: string, nodeLabel: string, category: string)

  datatype SemanticEdge = SemanticEdge(source: string, target: string, relation: string, confidence: real)

  function NodeKey(n: SemanticNode): Key { [n.id] }

  function EdgeKey(e: SemanticEdge): Key { [e.source, e.target, e.relation] }

  // ----- the specification -----

  /** The first element with key `k`. */
  function FirstOf<T>(key: T -> Key, s: seq<T>, k: Key): Option<T> {
    if s == [] then None
    else if key(s[0]) == k then Some(s[0])
    else FirstOf(key, s[1..], k)
  }

  ghost predicate StrictlySorted<T>(key: T -> Key, s: seq<T>) {
    SortedBy(key, KeyLe, s) && DistinctKeys(key, s)
  }

  /** `r` is strictly sorted and holds, for every key of `s` and no other, the first element of `s` with it. */
  ghost predicate IsDedupOf<T>(key: T -> Key, r: seq<T>, s: seq<T>) {
    StrictlySorted(key, r) && forall k :: FirstOf(key, r, k) == FirstOf(key, s, k)
  }

  lemma {:induction false} FirstOfConcat<T>(key: T -> Key, a: seq<T>, b: seq<T>, k: Key)
    ensures FirstOf(key, a + b, k) == if FirstOf(key, a, k).Some? then FirstOf(key, a, k) else FirstOf(key, b, k)
  {
    if a == [] {
      assert a + b == b;
    } else {
      assert (a + b)[1..] == a[1..] + b;
      FirstOfConcat(key, a[1..], b, k);
    }
  }

  lemma {:induction false} FirstOfMember<T>(key: T -> Key, s: seq<T>, x: T)
    ensures FirstOf(key, s, key(x)) == Some(x) ==> x in s
    ensures x in s ==> FirstOf(key, s, key(x)).Some?
    ensures DistinctKeys(key, s) && x in s ==> FirstOf(key, s, key(x)) == Some(x)
  {
    if s != [] {
      FirstOfMember(key, s[1..], x);
    }
  }

  /** The specification leaves one result. */
  lemma DedupUnique<T>(key: T -> Key, a: seq<T>, b: seq<T>)
    requires StrictlySorted(key, a) && StrictlySorted(key, b)
    requires forall k :: FirstOf(key, a, k) == FirstOf(key, b, k)
    ensures a == b
  {
    forall x ensures x in a <==> x in b {
      FirstOfMember(key, a, x);
      FirstOfMember(key, b, x);
    }
    SameSetSameMultiset(a, b);
    StringOrderIsTotal();
    SortedIsCanonical(key, KeyLe, a, b);
  }

  // ----- the pass -----

  /** The `seen` loop: keep an element when its key is new. */
  function KeepFirst<T>(key: T -> Key, s: seq<T>): seq<T> {
    if s == [] then []
    else
      var kept := KeepFirst(key, s[..|s| - 1]);
      var x := s[|s| - 1];
      if FirstOf(key, s[..|s| - 1], key(x)).Some? then kept else kept + [x]
  }

  lemma {:induction false} KeepFirstKeepsFirst<T>(key: T -> Key, s: seq<T>)
    ensures DistinctKeys(key, KeepFirst(key, s))
    ensures forall k :: FirstOf(key, KeepFirst(key, s), k) == FirstOf(key, s, k)
  {
    if s != [] {
      var front, x := s[..|s| - 1], s[|s| - 1];
      var kept := KeepFirst(key, front);
      KeepFirstKeepsFirst(key, front);
      assert s == front + [x];
      forall k ensures FirstOf(key, KeepFirst(key, s), k) == FirstOf(key, s, k) {
        FirstOfConcat(key, front, [x], k);
        FirstOfConcat(key, kept, [x], k);
      }
      if FirstOf(key, front, key(x)).None? {
        forall i | 0 <= i < |kept| ensures key(kept[i]) != key(x) {
          FirstOfMember(key, kept, kept[i]);
        }
      }
    }
  }

  function Dedup<T>(key: T -> Key, s: seq<T>): seq<T> {
    Sort(key, KeyLe, KeepFirst(key, s))
  }

  lemma {:induction false} FirstOfPermuted<T>(key: T -> Key, a: seq<T>, b: seq<T>, k: Key)
    requires multiset(a) == multiset(b) && DistinctKeys(key, a) && DistinctKeys(key, b)
    ensures FirstOf(key, a, k) == FirstOf(key, b, k)
  {
    SameElements(a, b);
    FirstOfHasKey(key, a, k);
    FirstOfHasKey(key, b, k);
    if FirstOf(key, a, k).Some? {
      FirstOfMember(key, b, FirstOf(key, a, k).value);
    }
    if FirstOf(key, b, k).Some? {
      FirstOfMember(key, a, FirstOf(key, b, k).value);
    }
  }

  lemma {:induction false} FirstOfHasKey<T>(key: T -> Key, s: seq<T>, k: Key)
    ensures FirstOf(key, s, k).Some? ==> FirstOf(key, s, k).value in s && key(FirstOf(key, s, k).value) == k
  {
    if s != [] {
      FirstOfHasKey(key, s[1..], k);
    }
  }

  lemma DedupIsDedup<T>(key: T -> Key, s: seq<T>)
    ensures IsDedupOf(key, Dedup(key, s), s)
  {
    var kept := KeepFirst(key, s);
    KeepFirstKeepsFirst(key, s);
    StringOrderIsTotal();
    SortSorts(key, KeyLe, kept);
    DistinctKeysPermuted(key, kept, Dedup(key, s));
    forall k ensures FirstOf(key, Dedup(key, s), k) == FirstOf(key, s, k) {
      FirstOfPermuted(key, kept, Dedup(key, s), k);
    }
  }

  // ----- two levels equal one -----

  function Flatten<T>(ss: seq<seq<T>>): seq<T> {
    if ss == [] then [] else ss[0] + Flatten(ss[1..])
  }

  lemma {:induction false} FlattenFirstOf<T>(key: T -> Key, files: seq<seq<T>>, k: Key)
    ensures FirstOf(key, Flatten(DedupEach(key, files)), k) == FirstOf(key, Flatten(files), k)
  {
    if files != [] {
      DedupIsDedup(key, files[0]);
      FlattenFirstOf(key, files[1..], k);
      assert DedupEach(key, files)[1..] == DedupEach(key, files[1..]);
      FirstOfConcat(key, Dedup(key, files[0]), Flatten(DedupEach(key, files[1..])), k);
      FirstOfConcat(key, files[0], Flatten(files[1..]), k);
    }
  }

  function DedupEach<T>(key: T -> Key, files: seq<seq<T>>): seq<seq<T>> {
    seq(|files|, i requires 0 <= i < |files| => Dedup(key, files[i]))
  }

  /** Deduplicating every file and then the batch equals deduplicating everything at once. */
  lemma TwoLevelsAreOne<T>(key: T -> Key, files: seq<seq<T>>)
    ensures Dedup(key, Flatten(DedupEach(key, files))) == Dedup(key, Flatten(files))
  {
    DedupIsDedup(key, Flatten(DedupEach(key, files)));
    DedupIsDedup(key, Flatten(files));
    forall k
      ensures FirstOf(key, Dedup(key, Flatten(DedupEach(key, files))), k) == FirstOf(key, Dedup(key, Flatten(files)), k)
    {
      FlattenFirstOf(key, files, k);
    }
    DedupUnique(key, Dedup(key, Flatten(DedupEach(key, files))), Dedup(key, Flatten(files)));
  }

  lemma DedupIdempotent<T>(key: T -> Key, s: seq<T>)
    ensures Dedup(key, Dedup(key, s)) == Dedup(key, s)
  {
    DedupIsDedup(key, s);
    DedupIsDedup(key, Dedup(key, s));
    DedupUnique(key, Dedup(key, Dedup(key, s)), Dedup(key, s));
  }

  // ----- the program's loops -----

  method KeepNew<T(==)>(key: T -> Key, items: seq<T>) returns (deduped: seq<T>)
    ensures deduped == KeepFirst(key, items)
  {
    var seen: set<Key> := {};
    deduped := [];
    for i := 0 to |items|
      invariant deduped == KeepFirst(key, items[..i])
      invariant forall k :: k in seen <==> FirstOf(key, items[..i], k).Some?
    {
      var k := key(items[i]);
      assert items[..i + 1] == items[..i] + [items[i]];
      assert items[..i + 1][..i] == items[..i];
      forall j ensures FirstOf(key, items[..i + 1], j).Some? <==> j in seen + {k} {
        FirstOfConcat(key, items[..i], [items[i]], j);
      }
      if k !in seen {
        seen := seen + {k};
        deduped := deduped + [items[i]];
      }
      assert seen == seen + {k};
    }
    assert items[..|items|] == items;
  }

  /** Element `i` is the first with its key. */
  predicate IsFirst<T(!new)>(key: T -> Key, s: seq<T>, i: nat)
    requires i < |s|
  {
    forall j | 0 <= j < i :: key(s[j]) != key(s[i])
  }

  lemma {:induction false} FirstOfExactly<T(!new)>(key: T -> Key, s: seq<T>, x: T)
    ensures FirstOf(key, s, key(x)) == Some(x) <==> exists i | 0 <= i < |s| :: s[i] == x && IsFirst(key, s, i)
  {
    if s != [] {
      var rest := s[1..];
      FirstOfExactly(key, rest, x);
      if key(s[0]) == key(x) {
        if s[0] == x {
          assert IsFirst(key, s, 0);
        }
      } else {
        if i :| 0 <= i < |rest| && rest[i] == x && IsFirst(key, rest, i) {
          forall j | 0 <= j < i + 1 ensures key(s[j]) != key(s[i + 1]) {
            if j > 0 {
              assert key(rest[j - 1]) != key(rest[i]);
            }
          }
          assert IsFirst(key, s, i + 1);
        }
        if i :| 0 <= i < |s| && s[i] == x && IsFirst(key, s, i) {
          forall j | 0 <= j < i - 1 ensures key(rest[j]) != key(rest[i - 1]) {
            assert key(s[j + 1]) != key(s[i]);
          }
          assert IsFirst(key, rest, i - 1);
        }
      }
    }
  }

  lemma DedupHoldsFirsts<T(!new)>(key: T -> Key, s: seq<T>, x: T)
    ensures x in Dedup(key, s) <==> exists i | 0 <= i < |s| :: s[i] == x && IsFirst(key, s, i)
  {
    var out := Dedup(key, s);
    DedupIsDedup(key, s);
    FirstOfMember(key, out, x);
    assert FirstOf(key, out, key(x)) == FirstOf(key, s, key(x));
    FirstOfExactly(key, s, x);
  }

  predicate FirstNode(nodes: seq<SemanticNode>, i: nat)
    requires i < |nodes|
  {
    forall j | 0 <= j < i :: nodes[j].id != nodes[i].id
  }

  predicate SameEnds(a: SemanticEdge, b: SemanticEdge) {
    a.source == b.source && a.target == b.target && a.relation == b.relation
  }

  predicate FirstEdge(edges: seq<SemanticEdge>, i: nat)
    requires i < |edges|
  {
    forall j | 0 <= j < i :: !SameEnds(edges[j], edges[i])
  }

  /** Kept is the first node of every id, in the order of the ids. */
  lemma NodesAreFirsts(nodes: seq<SemanticNode>)
    ensures var out := Dedup(NodeKey, nodes);
      && (forall x :: x in out <==> exists i | 0 <= i < |nodes| :: nodes[i] == x && FirstNode(nodes, i))
      && (forall i, j | 0 <= i < j < |out| :: out[i].id != out[j].id && StrLe(out[i].id, out[j].id))
  {
    var out := Dedup(NodeKey, nodes);
    DedupIsDedup(NodeKey, nodes);
    forall i | 0 <= i < |nodes| ensures FirstNode(nodes, i) <==> IsFirst(NodeKey, nodes, i) {
      forall j | 0 <= j < i ensures nodes[j].id != nodes[i].id <==> NodeKey(nodes[j]) != NodeKey(nodes[i]) {
        assert NodeKey(nodes[j])[0] == nodes[j].id && NodeKey(nodes[i])[0] == nodes[i].id;
      }
    }
    forall x ensures x in out <==> exists i | 0 <= i < |nodes| :: nodes[i] == x && FirstNode(nodes, i) {
      DedupHoldsFirsts(NodeKey, nodes, x);
    }
    forall i, j | 0 <= i < j < |out| ensures out[i].id != out[j].id && StrLe(out[i].id, out[j].id) {
      assert NodeKey(out[i]) != NodeKey(out[j]) && KeyLe(NodeKey(out[i]), NodeKey(out[j]));
      assert [out[i].id] == [out[i].id] + [] && [out[j].id] == [out[j].id] + [];
      LexCons(StrLe, out[i].id, [], out[j].id, []);
    }
  }

  /** Kept is the first edge of every source, target and relation. */
  lemma EdgesAreFirsts(edges: seq<SemanticEdge>)
    ensures var out := Dedup(EdgeKey, edges);
      && (forall x :: x in out <==> exists i | 0 <= i < |edges| :: edges[i] == x && FirstEdge(edges, i))
      && (forall i, j | 0 <= i < j < |out| :: !SameEnds(out[i], out[j]) && InEdgeOrder(out[i], out[j]))
  {
    var out := Dedup(EdgeKey, edges);
    DedupIsDedup(EdgeKey, edges);
    forall i | 0 <= i < |edges| ensures FirstEdge(edges, i) <==> IsFirst(EdgeKey, edges, i) {
      forall j | 0 <= j < i ensures SameEnds(edges[j], edges[i]) <==> EdgeKey(edges[j]) == EdgeKey(edges[i]) {
        EdgeKeyHoldsEnds(edges[j], edges[i]);
      }
    }
    forall x ensures x in out <==> exists i | 0 <= i < |edges| :: edges[i] == x && FirstEdge(edges, i) {
      DedupHoldsFirsts(EdgeKey, edges, x);
    }
    forall i, j | 0 <= i < j < |out| ensures !SameEnds(out[i], out[j]) && InEdgeOrder(out[i], out[j]) {
      assert EdgeKey(out[i]) != EdgeKey(out[j]) && KeyLe(EdgeKey(out[i]), EdgeKey(out[j]));
      EdgeKeyHoldsEnds(out[i], out[j]);
    }
  }

  /** By source, then target, then relation. */
  predicate InEdgeOrder(a: SemanticEdge, b: SemanticEdge) {
    if a.source != b.source then StrLe(a.source, b.source)
    else if a.target != b.target then StrLe(a.target, b.target)
    else a.relation == b.relation || StrLe(a.relation, b.relation)
  }

  lemma EdgeKeyHoldsEnds(a: SemanticEdge, b: SemanticEdge)
    ensures EdgeKey(a) == EdgeKey(b) <==> SameEnds(a, b)
    ensures KeyLe(EdgeKey(a), EdgeKey(b)) <==> InEdgeOrder(a, b)
  {
    assert EdgeKey(a) == [a.source] + ([a.target] + ([a.relation] + []));
    assert EdgeKey(b) == [b.source] + ([b.target] + ([b.relation] + []));
    LexCons(StrLe, a.source, [a.target] + ([a.relation] + []), b.source, [b.target] + ([b.relation] + []));
    LexCons(StrLe, a.target, [a.relation] + [], b.target, [b.relation] + []);
    LexCons(StrLe, a.relation, [], b.relation, []);
    assert EdgeKey(a)[0] == a.source && EdgeKey(a)[1] == a.target && EdgeKey(a)[2] == a.relation;
    assert EdgeKey(b)[0] == b.source && EdgeKey(b)[1] == b.target && EdgeKey(b)[2] == b.relation;
  }

  method Deduplicate(nodes: seq<SemanticNode>, edges: seq<SemanticEdge>)
    returns (outNodes: seq<SemanticNode>, outEdges: seq<SemanticEdge>)
    ensures outNodes == Dedup(NodeKey, nodes) && outEdges == Dedup(EdgeKey, edges)
    ensures IsDedupOf(NodeKey, outNodes, nodes) && IsDedupOf(EdgeKey, outEdges, edges)
  {
    outNodes := KeepNew(NodeKey, nodes);
    outNodes := Sort(NodeKey, KeyLe, outNodes);
    outEdges := KeepNew(EdgeKey, edges);
    outEdges := Sort(EdgeKey, KeyLe, outEdges);
    DedupIsDedup(NodeKey, nodes);
    DedupIsDedup(EdgeKey, edges);
  }

  /** What the model returned for one chunk; a chunk that failed contributes nothing. */
  datatype Partial = Partial(nodes: seq<SemanticNode>, edges: seq<SemanticEdge>)

  function NodesOf(chunk: Result<Partial, string>): seq<SemanticNode> {
    if chunk.Ok? then chunk.value.nodes else []
  }

  function EdgesOf(chunk: Result<Partial, string>): seq<SemanticEdge> {
    if chunk.Ok? then chunk.value.edges else []
  }

  function FileNodes(chunks: seq<Result<Partial, string>>): seq<SemanticNode> {
    Flatten(Mapped(NodesOf, chunks))
  }

  function FileEdges(chunks: seq<Result<Partial, string>>): seq<SemanticEdge> {
    Flatten(Mapped(EdgesOf, chunks))
  }

  lemma {:induction false} FlattenSnoc<T>(ss: seq<seq<T>>, s: seq<T>)
    ensures Flatten(ss + [s]) == Flatten(ss) + s
  {
    if ss == [] {
      assert [] + [s] == [s] && Flatten([s]) == s + [];
    } else {
      assert (ss + [s])[1..] == ss[1..] + [s];
      FlattenSnoc(ss[1..], s);
    }
  }

  /** What a file contributes is the nodes and edges of its successful chunks, one chunk after the other. */
  lemma FilesByChunk(chunks: seq<Result<Partial, string>>, chunk: Result<Partial, string>)
    ensures FileNodes([]) == [] && FileEdges([]) == []
    ensures FileNodes(chunks + [chunk]) == FileNodes(chunks) + if chunk.Ok? then chunk.value.nodes else []
    ensures FileEdges(chunks + [chunk]) == FileEdges(chunks) + if chunk.Ok? then chunk.value.edges else []
  {
    assert Mapped(NodesOf, chunks + [chunk]) == Mapped(NodesOf, chunks) + [NodesOf(chunk)];
    assert Mapped(EdgesOf, chunks + [chunk]) == Mapped(EdgesOf, chunks) + [EdgesOf(chunk)];
    FlattenSnoc(Mapped(NodesOf, chunks), NodesOf(chunk));
    FlattenSnoc(Mapped(EdgesOf, chunks), EdgesOf(chunk));
  }

  lemma FlattenNext<T>(ss: seq<seq<T>>, i: nat)
    requires i < |ss|
    ensures Flatten(ss[..i + 1]) == Flatten(ss[..i]) + ss[i]
  {
    assert ss[..i + 1] == ss[..i] + [ss[i]];
    FlattenSnoc(ss[..i], ss[i]);
  }

  method ExtractFromFile(chunks: seq<Result<Partial, string>>)
    returns (nodes: seq<SemanticNode>, edges: seq<SemanticEdge>)
    ensures nodes == Dedup(NodeKey, FileNodes(chunks)) && edges == Dedup(EdgeKey, FileEdges(chunks))
  {
    nodes, edges := [], [];
    ghost var n, e := Mapped(NodesOf, chunks), Mapped(EdgesOf, chunks);
    for i := 0 to |chunks|
      invariant nodes == Flatten(n[..i]) && edges == Flatten(e[..i])
    {
      FlattenNext(n, i);
      FlattenNext(e, i);
      if chunks[i].Ok? {
        nodes := nodes + chunks[i].value.nodes;
        edges := edges + chunks[i].value.edges;
      }
    }
    assert n[..|chunks|] == n && e[..|chunks|] == e;
    nodes, edges := Deduplicate(nodes, edges);
  }

  /** One file's contribution to the batch, for nodes or for edges. */
  lemma NextFile<T>(
      key: T -> Key, extract: seq<Result<Partial, string>> -> seq<T>, files: seq<seq<Result<Partial, string>>>, i: nat)
    requires i < |files|
    ensures Flatten(DedupEach(key, Mapped(extract, files))[..i + 1])
         == Flatten(DedupEach(key, Mapped(extract, files))[..i]) + Dedup(key, extract(files[i]))
  {
    FlattenNext(DedupEach(key, Mapped(extract, files)), i);
  }

  lemma AllFiles<T>(
      key: T -> Key, extract: seq<Result<Partial, string>> -> seq<T>, files: seq<seq<Result<Partial, string>>>)
    ensures Dedup(key, Flatten(DedupEach(key, Mapped(extract, files))[..|files|]))
      == Dedup(key, Flatten(Mapped(extract, files)))
  {
    var each := DedupEach(key, Mapped(extract, files));
    assert each[..|files|] == each;
    TwoLevelsAreOne(key, Mapped(extract, files));
  }

  /** The batch holds what one flat deduplication of every chunk of every file, in order, would hold. */
  method ExtractBatch(files: seq<seq<Result<Partial, string>>>)
    returns (nodes: seq<SemanticNode>, edges: seq<SemanticEdge>)
    ensures nodes == Dedup(NodeKey, Flatten(Mapped(FileNodes, files)))
    ensures edges == Dedup(EdgeKey, Flatten(Mapped(FileEdges, files)))
  {
    nodes, edges := [], [];
    for i := 0 to |files|
      invariant nodes == Flatten(DedupEach(NodeKey, Mapped(FileNodes, files))[..i])
      invariant edges == Flatten(DedupEach(EdgeKey, Mapped(FileEdges, files))[..i])
    {
      var fileNodes, fileEdges := ExtractFromFile(files[i]);
      NextFile(NodeKey, FileNodes, files, i);
      NextFile(EdgeKey, FileEdges, files, i);
      nodes := nodes + fileNodes;
      edges := edges + fileEdges;
    }
    AllFiles(NodeKey, FileNodes, files);
    AllFiles(EdgeKey, FileEdges, files);
    nodes, edges := Deduplicate(nodes, edges);
  }
}
