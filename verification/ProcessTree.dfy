/**
  The working set of a benchmark's process tree: a depth-capped, cycle-safe, saturating walk over
  the rows of a process listing, proved equal to a sum over parent chains.
 */
module ProcessTree {
  import opened Wrappers
  import opened Order

  const MAX_TREE_DEPTH: nat := 32
  const U64_MAX: nat := 0xFFFF_FFFF_FFFF_FFFF

  datatype Row = Row(pid: nat, parent: Option<nat>, memory: nat)

  /** A process listing has one row per pid. */
  ghost predicate UniquePids(rows: seq<Row>) {
    forall i, j | 0 <= i < j < |rows| :: rows[i].pid != rows[j].pid
  }

  function Saturate(n: nat): nat {
    if n <= U64_MAX then n else U64_MAX
  }

  function SaturatingAdd(a: nat, b: nat): nat { Saturate(a + b) }

  // ----- the reference: parent chains -----

  ghost predicate HasParent(rows: seq<Row>, pid: nat, parent: nat) {
    exists r :: r in rows && r.pid == pid && r.parent == Some(parent)
  }

  /** The parent chain of `pid` first meets `root` after exactly `d` steps. */
  ghost predicate AtDepth(rows: seq<Row>, root: nat, pid: nat, d: nat)
    decreases d
  {
    && d != 0 && pid != root
    && exists p :: HasParent(rows, pid, p) && if d == 1 then p == root else AtDepth(rows, root, p, d - 1)
  }

  ghost predicate Counted(rows: seq<Row>, root: nat, pid: nat) {
    exists d :: 1 <= d <= MAX_TREE_DEPTH && AtDepth(rows, root, pid, d)
  }

  ghost function DescendantMemory(all: seq<Row>, root: nat, rows: seq<Row>): nat {
    if rows == [] then 0
    else (if Counted(all, root, rows[0].pid) then rows[0].memory else 0) + DescendantMemory(all, root, rows[1..])
  }

  // ----- the walk -----

  /** The `children` index: pids of the rows whose parent is `p`, in row order. */
  function KidsOf(rows: seq<Row>, p: nat): seq<nat> {
    if rows == [] then []
    else (if rows[0].parent == Some(p) then [rows[0].pid] else []) + KidsOf(rows[1..], p)
  }

  /** `rows.iter().find(|(id, ..)| id == pid)` */
  function MemoryOf(rows: seq<Row>, pid: nat): Option<nat> {
    if rows == [] then None
    else if rows[0].pid == pid then Some(rows[0].memory)
    else MemoryOf(rows[1..], pid)
  }

  lemma {:induction false} KidsAreChildren(rows: seq<Row>, p: nat, kid: nat)
    ensures kid in KidsOf(rows, p) <==> HasParent(rows, kid, p)
  {
    if rows != [] {
      KidsAreChildren(rows[1..], p, kid);
      assert rows == [rows[0]] + rows[1..];
    }
  }

  /** The memory of the rows whose pid is in `s`. */
  ghost function SumOver(rows: seq<Row>, s: set<nat>): nat {
    if rows == [] then 0
    else (if rows[0].pid in s then rows[0].memory else 0) + SumOver(rows[1..], s)
  }

  lemma {:induction false} SumOverAbsent(rows: seq<Row>, s: set<nat>, pid: nat)
    requires forall r | r in rows :: r.pid != pid
    ensures SumOver(rows, s + {pid}) == SumOver(rows, s)
  {
    if rows != [] {
      assert rows == [rows[0]] + rows[1..];
      SumOverAbsent(rows[1..], s, pid);
    }
  }

  lemma {:induction false} SumOverAdd(rows: seq<Row>, s: set<nat>, pid: nat)
    requires UniquePids(rows) && pid !in s
    ensures SumOver(rows, s + {pid}) ==
      SumOver(rows, s) + match MemoryOf(rows, pid) case Some(m) => m case None => 0
  {
    if rows != [] {
      if rows[0].pid == pid {
        forall r | r in rows[1..] ensures r.pid != pid {
        }
        SumOverAbsent(rows[1..], s, pid);
      } else {
        SumOverAdd(rows[1..], s, pid);
      }
    }
  }

  lemma {:induction false} ParentUnique(rows: seq<Row>, pid: nat, p: nat, q: nat)
    requires UniquePids(rows) && HasParent(rows, pid, p) && HasParent(rows, pid, q)
    ensures p == q
  {
  }

  lemma {:induction false} DepthUnique(rows: seq<Row>, root: nat, pid: nat, d: nat, e: nat)
    requires UniquePids(rows) && AtDepth(rows, root, pid, d) && AtDepth(rows, root, pid, e)
    ensures d == e
    decreases d
  {
    var p :| HasParent(rows, pid, p) && if d == 1 then p == root else AtDepth(rows, root, p, d - 1);
    var q :| HasParent(rows, pid, q) && if e == 1 then q == root else AtDepth(rows, root, q, e - 1);
    ParentUnique(rows, pid, p, q);
    if d != 1 && e != 1 {
      DepthUnique(rows, root, p, d - 1, e - 1);
    }
  }

  /** The depth of a node of the walk: 0 for the root itself. */
  ghost predicate NodeAt(rows: seq<Row>, root: nat, pid: nat, d: nat) {
    if pid == root then d == 0 else AtDepth(rows, root, pid, d)
  }

  ghost predicate Discovered(rows: seq<Row>, root: nat, seen: set<nat>) {
    root in seen && forall p | p in seen && p != root :: Counted(rows, root, p)
  }

  ghost predicate StackOk(rows: seq<Row>, root: nat, stack: seq<(nat, nat)>) {
    forall i | 0 <= i < |stack| :: NodeAt(rows, root, stack[i].0, stack[i].1)
  }

  /** Every discovered node above the cap that is not waiting has all its children discovered. */
  ghost predicate Expanded(rows: seq<Row>, root: nat, seen: set<nat>, waiting: set<nat>) {
    forall p: nat, d: nat, kid: nat |
      p in seen && p !in waiting && NodeAt(rows, root, p, d) && d < MAX_TREE_DEPTH && HasParent(rows, kid, p) ::
      kid in seen
  }

  ghost function Pids(stack: seq<(nat, nat)>): set<nat> {
    set e | e in stack :: e.0
  }

  lemma {:induction false} CountedIsSeen(rows: seq<Row>, root: nat, seen: set<nat>, pid: nat, d: nat)
    requires root in seen && Expanded(rows, root, seen, {})
    requires d <= MAX_TREE_DEPTH && AtDepth(rows, root, pid, d)
    ensures pid in seen
    decreases d
  {
    var p :| HasParent(rows, pid, p) && if d == 1 then p == root else AtDepth(rows, root, p, d - 1);
    if d != 1 {
      CountedIsSeen(rows, root, seen, p, d - 1);
    }
    assert NodeAt(rows, root, p, d - 1);
  }

  lemma {:induction false} SumOverCounted(all: seq<Row>, root: nat, rows: seq<Row>, s: set<nat>)
    requires forall r | r in rows :: r.pid in s <==> Counted(all, root, r.pid)
    ensures SumOver(rows, s) == DescendantMemory(all, root, rows)
  {
    if rows != [] {
      assert rows == [rows[0]] + rows[1..];
      SumOverCounted(all, root, rows[1..], s);
    }
  }

  ghost function PidsOf(rows: seq<Row>): set<nat> {
    set r | r in rows :: r.pid
  }

  lemma KidsAreRows(rows: seq<Row>, p: nat)
    ensures forall kid | kid in KidsOf(rows, p) :: kid in PidsOf(rows)
  {
    forall kid | kid in KidsOf(rows, p) ensures kid in PidsOf(rows) {
      KidsAreChildren(rows, p, kid);
    }
  }

  /** What the walk has established: everything discovered is counted, everything waiting has its
      right depth, everything else above the cap has been expanded, and the total is the sum so far. */
  ghost predicate Walk(
      rows: seq<Row>, root: nat, seen: set<nat>, stack: seq<(nat, nat)>, waiting: set<nat>, total: nat) {
    && Discovered(rows, root, seen)
    && StackOk(rows, root, stack)
    && Expanded(rows, root, seen, waiting)
    && total == Saturate(SumOver(rows, seen - {root}))
  }

  lemma Discover(rows: seq<Row>, root: nat, seen: set<nat>, stack: seq<(nat, nat)>, waiting: set<nat>, total: nat,
                 pid: nat, depth: nat, kid: nat)
    requires UniquePids(rows) && Walk(rows, root, seen, stack, waiting, total)
    requires NodeAt(rows, root, pid, depth) && depth < MAX_TREE_DEPTH
    requires HasParent(rows, kid, pid) && kid !in seen
    ensures Walk(rows, root, seen + {kid}, stack + [(kid, depth + 1)], waiting + {kid},
                 match MemoryOf(rows, kid) case Some(m) => SaturatingAdd(total, m) case None => total)
  {
    assert AtDepth(rows, root, kid, depth + 1);
    assert (seen + {kid}) - {root} == (seen - {root}) + {kid};
    SumOverAdd(rows, seen - {root}, kid);
  }

  lemma Finish(rows: seq<Row>, root: nat, seen: set<nat>, stack: seq<(nat, nat)>, pid: nat, depth: nat, total: nat)
    requires UniquePids(rows) && Walk(rows, root, seen, stack, Pids(stack) + {pid}, total)
    requires NodeAt(rows, root, pid, depth)
    requires depth < MAX_TREE_DEPTH ==> forall kid | kid in KidsOf(rows, pid) :: kid in seen
    ensures Walk(rows, root, seen, stack, Pids(stack), total)
  {
    forall p: nat, d: nat, kid: nat |
      p in seen && p !in Pids(stack) && NodeAt(rows, root, p, d) && d < MAX_TREE_DEPTH && HasParent(rows, kid, p)
      ensures kid in seen
    {
      if p == pid {
        if p != root {
          DepthUnique(rows, root, p, d, depth);
        }
        KidsAreChildren(rows, p, kid);
      }
    }
  }

  function ChildList(children: map<nat, seq<nat>>, p: nat): seq<nat> {
    if p in children then children[p] else []
  }

  ghost predicate Indexes(children: map<nat, seq<nat>>, rows: seq<Row>) {
    forall p: nat :: ChildList(children, p) == KidsOf(rows, p)
  }

  /** Groups the pids by parent, in row order. */
  method IndexChildren(rows: seq<Row>) returns (children: map<nat, seq<nat>>)
    ensures Indexes(children, rows)
  {
    children := map[];
    for i := 0 to |rows|
      invariant Indexes(children, rows[..i])
    {
      IndexSnoc(children, rows[..i], rows[i]);
      assert rows[..i + 1] == rows[..i] + [rows[i]];
      if rows[i].parent.Some? {
        var parent := rows[i].parent.value;
        children := children[parent := ChildList(children, parent) + [rows[i].pid]];
      }
    }
    assert rows[..|rows|] == rows;
  }

  lemma IndexSnoc(children: map<nat, seq<nat>>, rows: seq<Row>, r: Row)
    requires Indexes(children, rows)
    ensures Indexes(
      if r.parent.Some? then children[r.parent.value := ChildList(children, r.parent.value) + [r.pid]] else children,
                    rows + [r])
  {
    forall p: nat
      ensures KidsOf(rows + [r], p) == ChildList(children, p) + if r.parent == Some(p) then [r.pid] else [] {
      KidsSnoc(rows, r, p);
      assert ChildList(children, p) == KidsOf(rows, p);
    }
  }

  lemma {:induction false} KidsSnoc(a: seq<Row>, r: Row, p: nat)
    ensures KidsOf(a + [r], p) == KidsOf(a, p) + if r.parent == Some(p) then [r.pid] else []
  {
    if a != [] {
      assert (a + [r])[1..] == a[1..] + [r];
      KidsSnoc(a[1..], r, p);
    }
  }

  /** The inner loop: discover the kids of the node just popped. */
  method VisitKids(rows: seq<Row>, kids: seq<nat>, root: nat, pid: nat, depth: nat,
                   seen0: set<nat>, stack0: seq<(nat, nat)>, total0: nat)
    returns (seen: set<nat>, stack: seq<(nat, nat)>, total: nat)
    requires kids == KidsOf(rows, pid)
    requires total0 <= U64_MAX && depth < MAX_TREE_DEPTH
    ensures total <= U64_MAX && seen0 <= seen <= seen0 + PidsOf(rows)
    ensures seen == seen0 ==> stack == stack0
    ensures (UniquePids(rows) && NodeAt(rows, root, pid, depth)
             && Walk(rows, root, seen0, stack0, Pids(stack0) + {pid}, total0)) ==>
      Walk(rows, root, seen, stack, Pids(stack), total)
  {
    seen, stack, total := seen0, stack0, total0;
    ghost var unique :=
      && UniquePids(rows) && NodeAt(rows, root, pid, depth)
      && Walk(rows, root, seen0, stack0, Pids(stack0) + {pid}, total0);
    KidsAreRows(rows, pid);
    ghost var waiting := Pids(stack0) + {pid};
    for j := 0 to |kids|
      invariant total <= U64_MAX && seen0 <= seen <= seen0 + PidsOf(rows)
      invariant seen == seen0 ==> stack == stack0
      invariant forall k | 0 <= k < j :: kids[k] in seen
      invariant waiting == Pids(stack) + {pid}
      invariant unique ==> Walk(rows, root, seen, stack, waiting, total)
    {
      var kid := kids[j];
      if kid !in seen {
        KidsAreChildren(rows, pid, kid);
        if unique {
          Discover(rows, root, seen, stack, waiting, total, pid, depth, kid);
        }
        PidsAppend(stack, kid, depth + 1);
        waiting := waiting + {kid};
        seen := seen + {kid};
        var memory := MemoryOf(rows, kid);
        if memory.Some? {
          total := SaturatingAdd(total, memory.value);
        }
        stack := stack + [(kid, depth + 1)];
      }
    }
    if unique {
      Finish(rows, root, seen, stack, pid, depth, total);
    }
  }

  lemma PidsAppend(stack: seq<(nat, nat)>, pid: nat, depth: nat)
    ensures Pids(stack + [(pid, depth)]) == Pids(stack) + {pid}
  {
  }

  lemma WalkStarts(rows: seq<Row>, root: nat)
    ensures Walk(rows, root, {root}, [(root, 0)], {root}, 0)
  {
    SumOverNone(rows);
    assert {root} - {root} == {};
  }

  lemma WalkEnds(rows: seq<Row>, root: nat, seen: set<nat>, total: nat)
    requires Walk(rows, root, seen, [], {}, total)
    ensures total == Saturate(DescendantMemory(rows, root, rows))
  {
    forall r | r in rows ensures r.pid in seen - {root} <==> Counted(rows, root, r.pid) {
      if Counted(rows, root, r.pid) {
        var d :| 1 <= d <= MAX_TREE_DEPTH && AtDepth(rows, root, r.pid, d);
        CountedIsSeen(rows, root, seen, r.pid, d);
      }
    }
    SumOverCounted(rows, root, rows, seen - {root});
  }

  // ----- what is summed -----

  /** A chain of parents from `pid` to the root, which it meets only at its end. */
  ghost predicate IsChain(rows: seq<Row>, root: nat, c: seq<nat>) {
    && c != [] && c[|c| - 1] == root
    && forall i | 0 <= i < |c| - 1 :: c[i] != root && HasParent(rows, c[i], c[i + 1])
  }

  lemma {:induction false} DepthIsChain(rows: seq<Row>, root: nat, pid: nat, d: nat)
    ensures AtDepth(rows, root, pid, d) <==>
      d > 0 && exists c: seq<nat> :: |c| == d + 1 && c[0] == pid && IsChain(rows, root, c)
    decreases d
  {
    if AtDepth(rows, root, pid, d) {
      var p :| HasParent(rows, pid, p) && if d == 1 then p == root else AtDepth(rows, root, p, d - 1);
      var rest := [root];
      if d > 1 {
        DepthIsChain(rows, root, p, d - 1);
        rest :| |rest| == d && rest[0] == p && IsChain(rows, root, rest);
      }
      var c := [pid] + rest;
      forall i | 0 <= i < |c| - 1 ensures c[i] != root && HasParent(rows, c[i], c[i + 1]) {
        if i > 0 {
          assert c[i] == rest[i - 1] && c[i + 1] == rest[i];
        }
      }
      assert IsChain(rows, root, c);
    }
    if c: seq<nat> :| d > 0 && |c| == d + 1 && c[0] == pid && IsChain(rows, root, c) {
      assert HasParent(rows, c[0], c[1]);
      if d > 1 {
        var rest := c[1..];
        forall i | 0 <= i < |rest| - 1 ensures rest[i] != root && HasParent(rows, rest[i], rest[i + 1]) {
          assert rest[i] == c[i + 1] && rest[i + 1] == c[i + 2];
        }
        assert IsChain(rows, root, rest);
        DepthIsChain(rows, root, c[1], d - 1);
      }
    }
  }

  /** Counted is every process whose chain takes 1 to 32 steps. */
  lemma CountedByChain(rows: seq<Row>, root: nat, pid: nat)
    ensures Counted(rows, root, pid) <==>
      exists c: seq<nat> :: 2 <= |c| <= 33 && c[0] == pid && IsChain(rows, root, c)
  {
    if Counted(rows, root, pid) {
      var d :| 1 <= d <= MAX_TREE_DEPTH && AtDepth(rows, root, pid, d);
      DepthIsChain(rows, root, pid, d);
    }
    if c: seq<nat> :| 2 <= |c| <= 33 && c[0] == pid && IsChain(rows, root, c) {
      DepthIsChain(rows, root, pid, |c| - 1);
    }
  }

  /** The sum by its laws: a counted row adds its memory, any other nothing. */
  lemma SumByRow(all: seq<Row>, root: nat, r: Row, rows: seq<Row>)
    ensures DescendantMemory(all, root, []) == 0
    ensures DescendantMemory(all, root, [r] + rows) ==
      DescendantMemory(all, root, rows) + if Counted(all, root, r.pid) then r.memory else 0
  {
    assert ([r] + rows)[1..] == rows;
  }

  /** The saturated memory of everything below the runner, which is not part of its own sum. */
  method TreeRss(rows: seq<Row>, root: nat) returns (total: nat)
    ensures total <= U64_MAX
    ensures UniquePids(rows) ==>
      var sum := DescendantMemory(rows, root, rows);
      total == if sum <= 0xFFFF_FFFF_FFFF_FFFF then sum else 0xFFFF_FFFF_FFFF_FFFF
  {
    ghost var all := PidsOf(rows) + {root};
    var children := IndexChildren(rows);
    var seen := {root};
    var stack: seq<(nat, nat)> := [(root, 0)];
    total := 0;
    WalkStarts(rows, root);
    PidsAppend([], root, 0);
    assert [] + [(root, 0)] == stack && Pids([]) == {};
    while stack != []
      invariant total <= U64_MAX && seen <= all
      invariant UniquePids(rows) ==> Walk(rows, root, seen, stack, Pids(stack), total)
      decreases all - seen, |stack|
    {
      var (pid, depth) := stack[|stack| - 1];
      var rest := stack[..|stack| - 1];
      PidsAppend(rest, pid, depth);
      assert stack == rest + [(pid, depth)];
      stack := rest;
      if depth >= MAX_TREE_DEPTH {
        if UniquePids(rows) {
          Finish(rows, root, seen, stack, pid, depth, total);
        }
      } else {
        ghost var seen0 := seen;
        var kids := ChildList(children, pid);
        seen, stack, total := VisitKids(rows, kids, root, pid, depth, seen, stack, total);
        assert seen != seen0 ==> all - seen < all - seen0;
      }
    }
    if UniquePids(rows) {
      WalkEnds(rows, root, seen, total);
    }
  }

  lemma {:induction false} SumOverNone(rows: seq<Row>)
    ensures SumOver(rows, {}) == 0
  {
    if rows != [] {
      SumOverNone(rows[1..]);
    }
  }

  // ----- the result does not depend on the order of the rows -----

  lemma {:induction false} AtDepthBySet(a: seq<Row>, b: seq<Row>, root: nat, pid: nat, d: nat)
    requires forall r :: r in a <==> r in b
    ensures AtDepth(a, root, pid, d) <==> AtDepth(b, root, pid, d)
    decreases d
  {
    forall p ensures HasParent(a, pid, p) <==> HasParent(b, pid, p) {
    }
    if d > 1 {
      var above := d - 1;
      forall p: nat ensures AtDepth(a, root, p, above) <==> AtDepth(b, root, p, above) {
        AtDepthBySet(a, b, root, p, above);
      }
    }
  }

  lemma {:induction false} DescendantMemoryRemove(all: seq<Row>, root: nat, rows: seq<Row>, i: nat)
    requires i < |rows|
    ensures DescendantMemory(all, root, rows) ==
      (if Counted(all, root, rows[i].pid) then rows[i].memory else 0)
      + DescendantMemory(all, root, rows[..i] + rows[i + 1..])
  {
    if i == 0 {
      assert rows[..0] + rows[1..] == rows[1..];
    } else {
      DescendantMemoryRemove(all, root, rows[1..], i - 1);
      assert (rows[..i] + rows[i + 1..])[1..] == rows[1..][..i - 1] + rows[1..][i..];
    }
  }

  lemma {:induction false} DescendantMemoryPermuted(all: seq<Row>, root: nat, x: seq<Row>, y: seq<Row>)
    requires multiset(x) == multiset(y)
    ensures DescendantMemory(all, root, x) == DescendantMemory(all, root, y)
    decreases |x|
  {
    if x == [] {
      assert |multiset(y)| == 0;
    } else {
      assert x[0] in multiset(x);
      assert x[0] in y;
      var i :| 0 <= i < |y| && y[i] == x[0];
      var rest := y[..i] + y[i + 1..];
      TailMultiset(x);
      RemoveMultiset(y, i);
      DescendantMemoryRemove(all, root, y, i);
      DescendantMemoryPermuted(all, root, x[1..], rest);
    }
  }

  lemma {:induction false} DescendantMemoryBySet(a: seq<Row>, b: seq<Row>, root: nat, rows: seq<Row>)
    requires forall r :: r in a <==> r in b
    ensures DescendantMemory(a, root, rows) == DescendantMemory(b, root, rows)
  {
    if rows != [] {
      var pid := rows[0].pid;
      forall d: nat ensures AtDepth(a, root, pid, d) <==> AtDepth(b, root, pid, d) {
        AtDepthBySet(a, b, root, pid, d);
      }
      DescendantMemoryBySet(a, b, root, rows[1..]);
    }
  }

  lemma RowOrderIrrelevant(a: seq<Row>, b: seq<Row>, root: nat)
    requires multiset(a) == multiset(b)
    ensures DescendantMemory(a, root, a) == DescendantMemory(b, root, b)
  {
    forall r ensures r in a <==> r in b {
      assert r in a <==> r in multiset(a);
      assert r in b <==> r in multiset(b);
    }
    DescendantMemoryPermuted(a, root, a, b);
    DescendantMemoryBySet(a, b, root, b);
  }
}
