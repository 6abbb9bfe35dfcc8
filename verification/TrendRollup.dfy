/**
  The daily project trend: `project_trend_days` is a cache of the raw `hotspot_trends` rows,
  filled by the post-commit upsert of one day and by the bounded catch-up of many. Instants are
  counted in nanoseconds of UTC; scores are reals and the log-scale `normalize_score` is a parameter.
 */
module TrendRollup {
  import opened Wrappers
  import opened Order
  import opened Text

  const DAY: nat := 86_400_000_000_000
  const HIGH_RISK: real := 3.0

  type Instant = nat

  function DayOf(t: Instant): nat { t / DAY }

  datatype TrendRow = TrendRow(path: string, score: real, commit: string, at: Instant)

  datatype Hotspot = Hotspot(path: string, score: real)

  datatype Rollup = Rollup(score: real, changes: nat, highRisk: nat)

  // ----- the aggregate of one snapshot -----

  function NormSum(norm: real -> real, hs: seq<Hotspot>): real {
    if hs == [] then 0.0 else norm(hs[0].score) + NormSum(norm, hs[1..])
  }

  function Clamp(x: real): real {
    if x < 0.0 then 0.0 else if x > 100.0 then 100.0 else x
  }

  function ProjectScore(norm: real -> real, hs: seq<Hotspot>): real {
    if hs == [] then 0.0 else Clamp(NormSum(norm, hs) / |hs| as real * 20.0)
  }

  /** The distinct files with some row at or above the threshold. */
  function HighRiskPaths(norm: real -> real, hs: seq<Hotspot>): set<string> {
    set h | h in hs && norm(h.score) >= HIGH_RISK :: h.path
  }

  function Aggregate(norm: real -> real, hs: seq<Hotspot>): Rollup {
    Rollup(ProjectScore(norm, hs), |hs|, |HighRiskPaths(norm, hs)|)
  }

  /** The score by its laws: that of one file is its normalised score times twenty, and a snapshot put together
      from two has their average, weighted by size, as long as none of the three is cut off at 0 or 100. */
  lemma ScoreOfOne(norm: real -> real, h: Hotspot)
    ensures var x := norm(h.score) * 20.0;
      ProjectScore(norm, [h]) == if x < 0.0 then 0.0 else if x > 100.0 then 100.0 else x
    ensures ProjectScore(norm, []) == 0.0
  {
    assert [h][1..] == [];
    assert NormSum(norm, [h]) == norm(h.score);
  }

  lemma {:induction false} NormSumConcat(norm: real -> real, a: seq<Hotspot>, b: seq<Hotspot>)
    ensures NormSum(norm, a + b) == NormSum(norm, a) + NormSum(norm, b)
  {
    if a == [] {
      assert a + b == b;
    } else {
      assert (a + b)[1..] == a[1..] + b;
      NormSumConcat(norm, a[1..], b);
    }
  }

  predicate NotCutOff(x: real) { 0.0 < x < 100.0 }

  lemma ScoreTimesSize(norm: real -> real, hs: seq<Hotspot>)
    requires hs != [] && NotCutOff(ProjectScore(norm, hs))
    ensures ProjectScore(norm, hs) * |hs| as real == NormSum(norm, hs) * 20.0
  {
    var n, sum := |hs| as real, NormSum(norm, hs);
    assert ProjectScore(norm, hs) == sum / n * 20.0;
    assert sum / n * n == sum;
  }

  lemma ScoreIsAverage(norm: real -> real, a: seq<Hotspot>, b: seq<Hotspot>)
    requires a != [] && b != [] && NotCutOff(ProjectScore(norm, a)) && NotCutOff(ProjectScore(norm, b))
    requires NotCutOff(ProjectScore(norm, a + b))
    ensures ProjectScore(norm, a + b) * (|a| + |b|) as real
         == ProjectScore(norm, a) * |a| as real + ProjectScore(norm, b) * |b| as real
  {
    ScoreTimesSize(norm, a);
    ScoreTimesSize(norm, b);
    ScoreTimesSize(norm, a + b);
    NormSumConcat(norm, a, b);
  }

  /** Keeps each file's best score in a map, then counts the files at or above the threshold. */
  method HighRiskCountFromHotspots(norm: real -> real, hs: seq<Hotspot>) returns (count: nat)
    ensures count == |HighRiskPaths(norm, hs)|
  {
    var maxScores: map<string, real> := map[];
    for i := 0 to |hs|
      invariant forall p :: p in maxScores <==> exists h :: h in hs[..i] && h.path == p
      invariant forall h | h in hs[..i] :: norm(h.score) <= maxScores[h.path]
      invariant forall p | p in maxScores :: exists h :: h in hs[..i] && h.path == p && norm(h.score) == maxScores[p]
    {
      var score := norm(hs[i].score);
      assert hs[..i + 1] == hs[..i] + [hs[i]];
      if hs[i].path in maxScores {
        if score > maxScores[hs[i].path] {
          maxScores := maxScores[hs[i].path := score];
        }
      } else {
        maxScores := maxScores[hs[i].path := score];
      }
    }
    assert hs[..|hs|] == hs;
    var high := set p | p in maxScores && maxScores[p] >= HIGH_RISK;
    assert high == HighRiskPaths(norm, hs);
    count := |high|;
  }

  method ProjectScoreFromHotspots(norm: real -> real, hs: seq<Hotspot>) returns (score: real)
    ensures score == ProjectScore(norm, hs)
    ensures 0.0 <= score <= 100.0
  {
    if |hs| == 0 {
      return 0.0;
    }
    var sum := 0.0;
    for i := 0 to |hs|
      invariant sum + NormSum(norm, hs[i..]) == NormSum(norm, hs)
    {
      sum := sum + norm(hs[i].score);
      assert hs[i..][1..] == hs[i + 1..];
    }
    score := Clamp(sum / |hs| as real * 20.0);
  }

  // ----- queries over the raw rows -----

  /** `SELECT file_path, score ... WHERE recorded_at = t` */
  function SnapshotAt(rows: seq<TrendRow>, t: Instant): seq<Hotspot> {
    if rows == [] then []
    else (if rows[0].at == t then [Hotspot(rows[0].path, rows[0].score)] else []) + SnapshotAt(rows[1..], t)
  }

  /** Rows of the instant give their files and scores, in order; other rows nothing. */
  lemma {:induction false} SnapshotOfRows(rows: seq<TrendRow>, t: Instant)
    ensures (forall r | r in rows :: r.at == t) ==>
      |SnapshotAt(rows, t)| == |rows|
      && forall i | 0 <= i < |rows| :: SnapshotAt(rows, t)[i] == Hotspot(rows[i].path, rows[i].score)
    ensures (forall r | r in rows :: r.at != t) ==> SnapshotAt(rows, t) == []
  {
    if rows != [] {
      SnapshotOfRows(rows[1..], t);
      assert rows == [rows[0]] + rows[1..];
    }
  }

  lemma {:induction false} SnapshotConcat(a: seq<TrendRow>, b: seq<TrendRow>, t: Instant)
    ensures SnapshotAt(a + b, t) == SnapshotAt(a, t) + SnapshotAt(b, t)
  {
    if a == [] {
      assert a + b == b;
    } else {
      assert (a + b)[1..] == a[1..] + b;
      SnapshotConcat(a[1..], b, t);
      var first := if a[0].at == t then [Hotspot(a[0].path, a[0].score)] else [];
      Associates(first, SnapshotAt(a[1..], t), SnapshotAt(b, t));
    }
  }

  /** `SELECT MAX(recorded_at)` over the rows of day `d` not before `since`. */
  function Latest(rows: seq<TrendRow>, d: nat, since: Instant): Option<Instant> {
    if rows == [] then None
    else
      var rest := Latest(rows[1..], d, since);
      if DayOf(rows[0].at) == d && since <= rows[0].at && (rest.None? || rest.value < rows[0].at)
      then Some(rows[0].at) else rest
  }

  predicate IsLatest(rows: seq<TrendRow>, d: nat, since: Instant, t: Option<Instant>) {
    match t
    case None => forall r | r in rows :: DayOf(r.at) == d ==> r.at < since
    case Some(m) =>
      && DayOf(m) == d && since <= m
      && (exists r :: r in rows && r.at == m)
      && (forall r | r in rows && DayOf(r.at) == d :: r.at <= m)
  }

  lemma {:induction false} LatestIsLatest(rows: seq<TrendRow>, d: nat, since: Instant)
    ensures IsLatest(rows, d, since, Latest(rows, d, since))
  {
    if rows != [] {
      LatestIsLatest(rows[1..], d, since);
      assert rows == [rows[0]] + rows[1..];
    }
  }

  /** A cutoff inside the day does not change its latest snapshot, as long as any row survives it. */
  lemma CutoffKeepsLatest(rows: seq<TrendRow>, d: nat, since: Instant)
    requires Latest(rows, d, since).Some?
    ensures Latest(rows, d, since) == Latest(rows, d, 0)
  {
    LatestIsLatest(rows, d, since);
    LatestIsLatest(rows, d, 0);
  }

  /** The rollup of the day's latest snapshot; of nothing if the day has none. */
  function RollupOf(norm: real -> real, rows: seq<TrendRow>, d: nat): Rollup {
    match Latest(rows, d, 0)
    case None => Aggregate(norm, [])
    case Some(t) => Aggregate(norm, SnapshotAt(rows, t))
  }

  /** What catch-up computes for a day: the snapshot at its latest row not before the cutoff. */
  function CutoffRollup(norm: real -> real, rows: seq<TrendRow>, d: nat, cutoff: Instant): Rollup {
    match Latest(rows, d, cutoff)
    case None => Aggregate(norm, [])
    case Some(t) => Aggregate(norm, SnapshotAt(rows, t))
  }

  /** Days with a row at or after the cutoff. */
  function DaysSince(rows: seq<TrendRow>, cutoff: Instant): set<nat> {
    set r | r in rows && cutoff <= r.at :: DayOf(r.at)
  }

  lemma DaysSinceHaveLatest(rows: seq<TrendRow>, cutoff: Instant, d: nat)
    ensures d in DaysSince(rows, cutoff) <==> Latest(rows, d, cutoff).Some?
  {
    LatestIsLatest(rows, d, cutoff);
  }

  /** What a fresh day with rows holds: of the rows at its latest instant their number, how many files have a
      normalised score of 3 or more, and their score. A day is 24 hours. */
  lemma FreshMeans(norm: real -> real, rows: seq<TrendRow>, days: map<nat, Rollup>, d: nat) returns (m: Instant)
    requires Fresh(norm, rows, days, d)
    requires exists r :: r in rows && d * 86_400_000_000_000 <= r.at < (d + 1) * 86_400_000_000_000
    ensures d * 86_400_000_000_000 <= m < (d + 1) * 86_400_000_000_000 && exists r :: r in rows && r.at == m
    ensures forall r | r in rows && r.at < (d + 1) * 86_400_000_000_000 :: r.at <= m
    ensures var hs := SnapshotAt(rows, m);
      && days[d].changes == |hs| && days[d].score == ProjectScore(norm, hs)
      && days[d].highRisk == |set h | h in hs && norm(h.score) >= 3.0 :: h.path|
  {
    LatestIsLatest(rows, d, 0);
    m := Latest(rows, d, 0).value;
    assert forall t: nat :: DayOf(t) == d <==> d * 86_400_000_000_000 <= t < (d + 1) * 86_400_000_000_000;
  }

  // ----- storing a snapshot -----

  datatype TrendInsert = Inserted | Deduped

  function LatestOfAll(rows: seq<TrendRow>): Option<Instant> {
    if rows == [] then None
    else
      var rest := LatestOfAll(rows[1..]);
      if rest.None? || rest.value < rows[0].at then Some(rows[0].at) else rest
  }

  function PathOf(h: Hotspot): string { h.path }

  function PreviousSample(rows: seq<TrendRow>): seq<Hotspot> {
    match LatestOfAll(rows) case None => [] case Some(t) => SnapshotAt(rows, t)
  }

  function NewRows(hs: seq<Hotspot>, commit: string, t: Instant): seq<TrendRow> {
    seq(|hs|, i requires 0 <= i < |hs| => TrendRow(hs[i].path, hs[i].score, commit, t))
  }

  /** What one attempt meets: whether its two queries succeed, and before which row the database refuses.
      Rows are stored one by one, without a transaction around them. */
  datatype Attempt = Attempt(existsReads: bool, previousReads: bool, stop: Option<nat>, busy: bool)

  const FAULTLESS := Attempt(true, true, None, false)

  predicate Known(rows: seq<TrendRow>, commit: string) {
    exists r :: r in rows && r.commit == commit
  }

  predicate SameAsPrevious(rows: seq<TrendRow>, hs: seq<Hotspot>) {
    PreviousSample(rows) != [] && Sort(PathOf, StrLe, hs) == Sort(PathOf, StrLe, PreviousSample(rows))
  }

  /** How many of `n` rows the attempt stores once it gets that far. */
  function Reach(a: Attempt, n: nat): nat {
    if a.stop.Some? && a.stop.value < n then a.stop.value else n
  }

  /** Skips a commit already sampled, and a sample equal to the previous one. A failing look-up of the
      commit counts as not sampled. */
  function InsertTrends(
      rows: seq<TrendRow>, hs: seq<Hotspot>, commit: string, t: Instant, a: Attempt)
    : (seq<TrendRow>, Result<TrendInsert, bool>)
  {
    if a.existsReads && Known(rows, commit) then (rows, Ok(Deduped))
    else if !a.previousReads then (rows, Err(a.busy))
    else if SameAsPrevious(rows, hs) then (rows, Ok(Deduped))
    else
      var k := Reach(a, |hs|);
      (rows + NewRows(hs[..k], commit, t), if k < |hs| then Err(a.busy) else Ok(Inserted))
  }

  const ATTEMPTS: nat := 4

  /** A busy database is tried again, any other error is final. */
  function WithRetry(
      rows: seq<TrendRow>, hs: seq<Hotspot>, commit: string, t: Instant, attempts: seq<Attempt>)
    : (seq<TrendRow>, Result<TrendInsert, bool>)
    requires attempts != []
    decreases attempts
  {
    var (rows', r) := InsertTrends(rows, hs, commit, t, attempts[0]);
    if r == Err(true) && |attempts| > 1 then WithRetry(rows', hs, commit, t, attempts[1..]) else (rows', r)
  }

  /** The rows of `n` the attempt stores unless the sample is skipped. */
  function Part(a: Attempt, n: nat): nat {
    if a.previousReads then Reach(a, n) else 0
  }

  /** The rows of the first attempt that stores any. */
  function Stored(n: nat, attempts: seq<Attempt>): nat
    requires attempts != []
    decreases attempts
  {
    var k := Part(attempts[0], n);
    if k == 0 && n > 0 && attempts[0].busy && |attempts| > 1 then Stored(n, attempts[1..]) else k
  }

  /** The first attempt that stores rows is stopped part of the way, and the look-up of the next one fails, so
      that it does not see them. */
  predicate Blind(n: nat, attempts: seq<Attempt>)
    decreases attempts
  {
    |attempts| > 1 && attempts[0].busy &&
    var k := Part(attempts[0], n);
    if k == 0 then n > 0 && Blind(n, attempts[1..]) else k < n && !attempts[1].existsReads
  }

  lemma {:induction false} LatestOfAllIsLatest(rows: seq<TrendRow>)
    ensures match LatestOfAll(rows)
      case None => rows == []
      case Some(m) => (exists r :: r in rows && r.at == m) && forall r | r in rows :: r.at <= m
  {
    if rows != [] {
      LatestOfAllIsLatest(rows[1..]);
      assert rows == [rows[0]] + rows[1..];
    }
  }

  /** `m` is the instant of the previous sample. */
  predicate IsLastSample(rows: seq<TrendRow>, m: Instant) {
    (exists r :: r in rows && r.at == m) && forall r | r in rows :: r.at <= m
  }

  /** The rows at `m`, as files and scores; both sides in the order of their paths. */
  ghost predicate SameSample(rows: seq<TrendRow>, m: Instant, hs: seq<Hotspot>) {
    var path := (h: Hotspot) => h.path;
    Sort(path, StrLe, hs) == Sort(path, StrLe, SnapshotAt(rows, m))
  }

  lemma SnapshotOfLast(rows: seq<TrendRow>, m: Instant)
    requires IsLastSample(rows, m)
    ensures PreviousSample(rows) == SnapshotAt(rows, m) != []
  {
    LatestOfAllIsLatest(rows);
    var i :| 0 <= i < |rows| && rows[i].at == m;
    SnapshotConcat(rows[..i], rows[i..], m);
    assert rows == rows[..i] + rows[i..];
  }

  lemma SortedByPath(hs: seq<Hotspot>)
    ensures Sort(PathOf, StrLe, hs) == Sort((h: Hotspot) => h.path, StrLe, hs)
  {
    SortByEqualKeys(PathOf, (h: Hotspot) => h.path, StrLe, hs);
  }

  /** An attempt without a fault: it stores nothing exactly when the commit is known or the rows at the last
      instant of the table are the new sample, files and scores, up to their order; otherwise it stores one
      row for each file of the sample. */
  lemma FaultlessAttempt(rows: seq<TrendRow>, hs: seq<Hotspot>, commit: string, t: Instant)
    ensures var (rows', r) := InsertTrends(rows, hs, commit, t, FAULTLESS);
      && (r == Ok(Deduped) <==> (exists x :: x in rows && x.commit == commit)
                                || exists m :: IsLastSample(rows, m) && SameSample(rows, m, hs))
      && (r == Ok(Deduped) ==> rows' == rows)
      && (r != Ok(Deduped) ==>
            && r == Ok(Inserted) && |rows'| == |rows| + |hs| && rows <= rows'
            && forall i | 0 <= i < |hs| :: rows'[|rows| + i] == TrendRow(hs[i].path, hs[i].score, commit, t))
  {
    assert hs[..|hs|] == hs;
    LatestOfAllIsLatest(rows);
    SortedByPath(hs);
    SortedByPath(PreviousSample(rows));
    if rows != [] {
      var m := LatestOfAll(rows).value;
      assert IsLastSample(rows, m);
      SnapshotOfLast(rows, m);
      assert forall n | IsLastSample(rows, n) :: n == m;
    }
  }

  lemma NoNewRows(hs: seq<Hotspot>, commit: string, t: Instant)
    ensures NewRows(hs[..0], commit, t) == [] && hs[..|hs|] == hs
  {
  }

  lemma StoredRowsAreKnown(rows: seq<TrendRow>, hs: seq<Hotspot>, commit: string, t: Instant)
    requires hs != []
    ensures Known(rows + NewRows(hs, commit, t), commit)
  {
    var all := rows + NewRows(hs, commit, t);
    assert all[|rows|].commit == commit && all[|rows|] in all;
  }

  predicate EndsWith(rows: seq<TrendRow>, last: seq<TrendRow>) {
    |last| <= |rows| && rows[|rows| - |last|..] == last
  }

  /** What an attempt or several store, all told. */
  predicate Restarts(more: seq<TrendRow>, whole: seq<TrendRow>, inserted: bool) {
    (more != [] && whole != [] ==> more[0] == whole[0]) && (inserted ==> EndsWith(more, whole))
  }

  lemma RestartsConcat(
      rows: seq<TrendRow>, a: seq<TrendRow>, b: seq<TrendRow>, whole: seq<TrendRow>, inserted: bool)
    requires Restarts(a, whole, false) && Restarts(b, whole, inserted)
    ensures rows + a + b == rows + (a + b) && Restarts(a + b, whole, inserted)
  {
    if inserted {
      assert (a + b)[|a + b| - |whole|..] == b[|b| - |whole|..];
    }
  }

  lemma InsertRestarts(rows: seq<TrendRow>, hs: seq<Hotspot>, commit: string, t: Instant, a: Attempt)
    returns (more: seq<TrendRow>)
    ensures var (rows', r) := InsertTrends(rows, hs, commit, t, a);
      rows' == rows + more && Restarts(more, NewRows(hs, commit, t), r == Ok(Inserted))
  {
    NoNewRows(hs, commit, t);
    var (rows', r) := InsertTrends(rows, hs, commit, t, a);
    more := if rows' == rows then [] else NewRows(hs[..Reach(a, |hs|)], commit, t);
    assert rows + [] == rows;
  }

  /** Whatever the attempts meet: they store the sample from its first row on, and the one that reports it
      inserted stores all of it. */
  lemma {:induction false} RetryRestarts(
      rows: seq<TrendRow>, hs: seq<Hotspot>, commit: string, t: Instant, attempts: seq<Attempt>)
    returns (more: seq<TrendRow>)
    requires attempts != []
    ensures var (rows', r) := WithRetry(rows, hs, commit, t, attempts);
      rows' == rows + more && Restarts(more, NewRows(hs, commit, t), r == Ok(Inserted))
    decreases attempts
  {
    more := InsertRestarts(rows, hs, commit, t, attempts[0]);
    var (rows', r) := InsertTrends(rows, hs, commit, t, attempts[0]);
    if r == Err(true) && |attempts| > 1 {
      var later := RetryRestarts(rows', hs, commit, t, attempts[1..]);
      var inserted := WithRetry(rows', hs, commit, t, attempts[1..]).1 == Ok(Inserted);
      RestartsConcat(rows, more, later, NewRows(hs, commit, t), inserted);
      more := more + later;
    }
  }

  /** What follows a part of the sample: nothing, or more that starts with its first row again. */
  lemma PartAndMore(
      rows: seq<TrendRow>, hs: seq<Hotspot>, k: nat, commit: string, t: Instant, more: seq<TrendRow>)
    requires 0 < k < |hs| && hs[0] !in hs[1..]
    requires more != [] ==> more[0] == NewRows(hs, commit, t)[0]
    ensures rows + NewRows(hs[..k], commit, t) + more != rows + NewRows(hs, commit, t)
  {
    var part, whole := NewRows(hs[..k], commit, t), NewRows(hs, commit, t);
    assert hs[k] == hs[1..][k - 1];
    assert (rows + whole)[|rows| + k] == whole[k] != whole[0];
    assert more != [] ==> (rows + part + more)[|rows| + k] == more[0];
  }

  /** After an attempt that stored part of the sample: the next one takes that part for the whole, unless its
      look-up fails. */
  lemma RetryAfterPart(
      rows: seq<TrendRow>, hs: seq<Hotspot>, k: nat, commit: string, t: Instant, attempts: seq<Attempt>)
    requires attempts != [] && 0 < k < |hs|
    ensures var part := NewRows(hs[..k], commit, t);
      var (rows', r) := WithRetry(rows + part, hs, commit, t, attempts);
      if attempts[0].existsReads then rows' == rows + part && r == Ok(Deduped)
      else
        && rows + part <= rows'
        && (r == Ok(Inserted) ==> EndsWith(rows'[|rows| + k..], NewRows(hs, commit, t)))
        && (hs[0] !in hs[1..] ==> rows' != rows + NewRows(hs, commit, t))
  {
    var part := NewRows(hs[..k], commit, t);
    StoredRowsAreKnown(rows, hs[..k], commit, t);
    if !attempts[0].existsReads {
      var more := RetryRestarts(rows + part, hs, commit, t, attempts);
      assert (rows + part + more)[|rows| + k..] == more;
      if hs[0] !in hs[1..] {
        PartAndMore(rows, hs, k, commit, t, more);
      }
    }
  }

  /** A new sample of a new commit, whatever the attempts meet. The first attempt that gets that far stores
      `k` rows, and without a blind retry nothing more is stored and "inserted" means all of it. A blind retry
      stores the sample again after a part of it, and reports that as inserted too. */
  lemma {:induction false} SnapshotStoredExactly(
      rows: seq<TrendRow>, hs: seq<Hotspot>, commit: string, t: Instant, attempts: seq<Attempt>)
    requires attempts != [] && hs != []
    requires !Known(rows, commit) && !SameAsPrevious(rows, hs)
    ensures var (rows', r) := WithRetry(rows, hs, commit, t, attempts);
      var k, whole := Stored(|hs|, attempts), rows + NewRows(hs, commit, t);
      && k <= |hs|
      && (if !Blind(|hs|, attempts) then
            rows' == rows + NewRows(hs[..k], commit, t) && (r == Ok(Inserted) <==> k == |hs|)
          else
            && 0 < k < |hs| && rows + NewRows(hs[..k], commit, t) <= rows'
            && (r == Ok(Inserted) ==> EndsWith(rows'[|rows| + k..], NewRows(hs, commit, t))))
      && (r == Ok(Inserted) && !Blind(|hs|, attempts) ==> rows' == whole)
      && (rows' == whole && hs[0] !in hs[1..] ==> r == Ok(Inserted) && !Blind(|hs|, attempts))
    decreases attempts
  {
    NoNewRows(hs, commit, t);
    var k := Part(attempts[0], |hs|);
    var (rows', r) := InsertTrends(rows, hs, commit, t, attempts[0]);
    assert rows' == rows + NewRows(hs[..k], commit, t);
    if r == Err(true) && |attempts| > 1 {
      assert attempts[1] == attempts[1..][0];
      if k == 0 {
        assert rows' == rows;
        SnapshotStoredExactly(rows, hs, commit, t, attempts[1..]);
      } else {
        RetryAfterPart(rows, hs, k, commit, t, attempts[1..]);
      }
    }
  }

  /** A busy database after the first of several rows: one row stays, and the retry reports success. */
  lemma PartialSnapshotIsDeduped(h: Hotspot, more: seq<Hotspot>, commit: string, t: Instant)
    requires more != []
    ensures var attempts := [FAULTLESS.(stop := Some(1), busy := true), FAULTLESS, FAULTLESS, FAULTLESS];
      WithRetry([], [h] + more, commit, t, attempts) == ([TrendRow(h.path, h.score, commit, t)], Ok(Deduped))
  {
    var hs := [h] + more;
    var first := FAULTLESS.(stop := Some(1), busy := true);
    var rest := [FAULTLESS, FAULTLESS, FAULTLESS];
    var row := TrendRow(h.path, h.score, commit, t);
    assert hs[..1] == [h] && NewRows([h], commit, t) == [row] && [] + [row] == [row];
    assert InsertTrends([], hs, commit, t, first) == ([row], Err(true));
    assert row in [row] && Known([row], commit);
    assert ([first] + rest)[1..] == rest && [first] + rest == [first, FAULTLESS, FAULTLESS, FAULTLESS];
    assert WithRetry([row], hs, commit, t, rest) == ([row], Ok(Deduped));
  }

  /** The same, and the look-up of the second attempt fails: the first row is stored twice, as inserted. */
  lemma BlindRetryStoresTwice(h: Hotspot, more: seq<Hotspot>, commit: string, t: Instant)
    requires more != []
    ensures var attempts :=
      [FAULTLESS.(stop := Some(1), busy := true), FAULTLESS.(existsReads := false), FAULTLESS, FAULTLESS];
      WithRetry([], [h] + more, commit, t, attempts)
        == (NewRows([h] + ([h] + more), commit, t), Ok(Inserted))
  {
    var hs := [h] + more;
    var first, blind := FAULTLESS.(stop := Some(1), busy := true), FAULTLESS.(existsReads := false);
    var row := TrendRow(h.path, h.score, commit, t);
    assert hs[..1] == [h] && NewRows([h], commit, t) == [row] && [] + [row] == [row];
    assert InsertTrends([], hs, commit, t, first) == ([row], Err(true));
    assert [first, blind, FAULTLESS, FAULTLESS][1..] == [blind, FAULTLESS, FAULTLESS];
    assert SnapshotAt([row], t) == [h];
    assert hs[..|hs|] == hs;
    assert NewRows([h] + hs, commit, t) == [row] + NewRows(hs, commit, t);
  }

  /** There are four attempts: after three on a busy database the last still stores. */
  lemma FourthAttemptStores(hs: seq<Hotspot>, commit: string, t: Instant)
    ensures var busy := FAULTLESS.(previousReads := false, busy := true);
      var attempts := [busy, busy, busy, FAULTLESS];
      |attempts| == ATTEMPTS && WithRetry([], hs, commit, t, attempts) == (NewRows(hs, commit, t), Ok(Inserted))
  {
    var busy := FAULTLESS.(previousReads := false, busy := true);
    assert [busy, busy, busy, FAULTLESS][1..] == [busy, busy, FAULTLESS];
    assert [busy, busy, FAULTLESS][1..] == [busy, FAULTLESS] && [busy, FAULTLESS][1..] == [FAULTLESS];
    assert WithRetry([], hs, commit, t, [FAULTLESS]) == (NewRows(hs, commit, t), Ok(Inserted)) by {
      assert hs[..|hs|] == hs && [] + NewRows(hs, commit, t) == NewRows(hs, commit, t);
    }
    assert WithRetry([], hs, commit, t, [busy, FAULTLESS]) == WithRetry([], hs, commit, t, [FAULTLESS]);
  }

  predicate AllAt(rows: seq<TrendRow>, t: Instant) {
    forall i | 0 <= i < |rows| :: rows[i].at == t
  }

  lemma InsertAppends(rows: seq<TrendRow>, hs: seq<Hotspot>, commit: string, t: Instant, a: Attempt)
    returns (more: seq<TrendRow>)
    ensures InsertTrends(rows, hs, commit, t, a).0 == rows + more && AllAt(more, t)
  {
    more := if InsertTrends(rows, hs, commit, t, a).0 == rows then [] else NewRows(hs[..Reach(a, |hs|)], commit, t);
    assert rows + [] == rows;
  }

  lemma AllAtConcat(a: seq<TrendRow>, b: seq<TrendRow>, t: Instant)
    requires AllAt(a, t) && AllAt(b, t)
    ensures AllAt(a + b, t)
  {
  }

  /** Whatever the attempts meet, they only append rows of their own instant. */
  lemma {:induction false} RetryAppends(
      rows: seq<TrendRow>, hs: seq<Hotspot>, commit: string, t: Instant, attempts: seq<Attempt>)
    returns (more: seq<TrendRow>)
    requires attempts != []
    ensures WithRetry(rows, hs, commit, t, attempts).0 == rows + more && AllAt(more, t)
    decreases attempts
  {
    more := InsertAppends(rows, hs, commit, t, attempts[0]);
    var (rows', r) := InsertTrends(rows, hs, commit, t, attempts[0]);
    if r == Err(true) && |attempts| > 1 {
      var later := RetryAppends(rows', hs, commit, t, attempts[1..]);
      AllAtConcat(more, later, t);
      assert (rows + more) + later == rows + (more + later);
      more := more + later;
    }
  }

  lemma AppendRow(rows: seq<TrendRow>, before: seq<TrendRow>, added: seq<TrendRow>, row: TrendRow)
    requires rows == before + added
    ensures rows + [row] == before + (added + [row])
  {
  }

  class TrendStore {
    const norm: real -> real
    var rows: seq<TrendRow>
    var days: map<nat, Rollup>

    constructor (norm: real -> real)
      ensures this.norm == norm && rows == [] && days == map[]
    {
      this.norm, rows, days := norm, [], map[];
    }

    /** One attempt: two look-ups, then one statement for each row. */
    method InsertHotspotTrends(hs: seq<Hotspot>, commit: string, t: Instant, a: Attempt)
      returns (r: Result<TrendInsert, bool>)
      modifies `rows
      ensures (rows, r) == InsertTrends(old(rows), hs, commit, t, a)
    {
      if a.existsReads && Known(rows, commit) {
        return Ok(Deduped);
      }
      if !a.previousReads {
        return Err(a.busy);
      }
      if SameAsPrevious(rows, hs) {
        return Ok(Deduped);
      }
      var k := StoreRows(hs, commit, t, a.stop);
      return if k < |hs| then Err(a.busy) else Ok(Inserted);
    }

    /** Stores the rows one by one, up to the one the database refuses. */
    method StoreRows(hs: seq<Hotspot>, commit: string, t: Instant, stop: Option<nat>) returns (k: nat)
      modifies `rows
      ensures k == (if stop.Some? && stop.value < |hs| then stop.value else |hs|)
      ensures rows == old(rows) + NewRows(hs[..k], commit, t)
    {
      ghost var added := [];
      k := 0;
      while k < |hs| && stop != Some(k)
        invariant k <= |hs| && (stop.Some? ==> k <= stop.value)
        invariant added == NewRows(hs[..k], commit, t)
        invariant rows == old(rows) + added
      {
        var row := TrendRow(hs[k].path, hs[k].score, commit, t);
        AppendRow(rows, old(rows), added, row);
        rows := rows + [row];
        added := added + [row];
        k := k + 1;
      }
    }

    /** Up to four attempts. */
    method InsertHotspotTrendsWithRetry(hs: seq<Hotspot>, commit: string, t: Instant, attempts: seq<Attempt>)
      returns (r: Result<TrendInsert, bool>)
      requires |attempts| == ATTEMPTS
      modifies `rows
      ensures (rows, r) == WithRetry(old(rows), hs, commit, t, attempts)
    {
      r := Err(true);
      for i := 0 to ATTEMPTS
        invariant r == Err(true)
        invariant i < ATTEMPTS ==>
          WithRetry(rows, hs, commit, t, attempts[i..]) == WithRetry(old(rows), hs, commit, t, attempts)
        invariant i == ATTEMPTS ==> (rows, r) == WithRetry(old(rows), hs, commit, t, attempts)
      {
        assert attempts[i..][1..] == attempts[i + 1..];
        r := InsertHotspotTrends(hs, commit, t, attempts[i]);
        if r != Err(true) {
          return;
        }
      }
    }

    method AggregateSnapshot(hs: seq<Hotspot>) returns (r: Rollup)
      ensures r == Aggregate(norm, hs)
    {
      var score := ProjectScoreFromHotspots(norm, hs);
      var highRisk := HighRiskCountFromHotspots(norm, hs);
      r := Rollup(score, |hs|, highRisk);
    }

    /** Re-aggregates the latest snapshot of the timestamp's day, or writes the empty rollup. */
    method UpsertProjectTrendDay(t: Instant)
      modifies `days
      ensures days == old(days)[DayOf(t) := RollupOf(norm, rows, DayOf(t))]
    {
      var latest := Latest(rows, DayOf(t), 0);
      var hs := match latest case None => [] case Some(m) => SnapshotAt(rows, m);
      var r := AggregateSnapshot(hs);
      days := days[DayOf(t) := r];
    }

    /** Rewrites every day that has a row at or after the cutoff, in whatever order the query lists them. */
    method CatchUpProjectTrends(cutoff: Instant)
      modifies `days
      ensures days == CaughtUp(norm, rows, old(days), cutoff)
    {
      var todo := DaysSince(rows, cutoff);
      ghost var was := days;
      while todo != {}
        invariant todo <= DaysSince(rows, cutoff)
        invariant days.Keys == was.Keys + (DaysSince(rows, cutoff) - todo)
        invariant forall d | d in days ::
          days[d] == if d in DaysSince(rows, cutoff) - todo then CutoffRollup(norm, rows, d, cutoff) else was[d]
      {
        var d :| d in todo;
        DaysSinceHaveLatest(rows, cutoff, d);
        var maxRecorded := Latest(rows, d, cutoff).value;
        var r := AggregateSnapshot(SnapshotAt(rows, maxRecorded));
        days := days[d := r];
        todo := todo - {d};
      }
    }
  }

  function CaughtUp(
      norm: real -> real, rows: seq<TrendRow>, days: map<nat, Rollup>, cutoff: Instant): map<nat, Rollup> {
    map d | d in days.Keys + DaysSince(rows, cutoff) ::
      if d in DaysSince(rows, cutoff) then CutoffRollup(norm, rows, d, cutoff) else days[d]
  }

  // ----- agreement over every run -----

  /** The cache agrees with the raw rows on day `d`. */
  predicate Fresh(norm: real -> real, rows: seq<TrendRow>, days: map<nat, Rollup>, d: nat) {
    d in days && days[d] == RollupOf(norm, rows, d)
  }

  type Attempts = s: seq<Attempt> | |s| == ATTEMPTS witness [FAULTLESS, FAULTLESS, FAULTLESS, FAULTLESS]

  datatype Op =
    | Record(hs: seq<Hotspot>, commit: string, at: Instant, attempts: Attempts, upserts: bool)
      // the upsert is best-effort
    | CatchUp(cutoff: Instant)

  datatype Table = Table(rows: seq<TrendRow>, days: map<nat, Rollup>)

  /** The upsert follows an insert that succeeded, deduplicated or not. */
  function Apply(norm: real -> real, s: Table, op: Op): Table {
    match op
    case Record(hs, commit, t, attempts, upserts) =>
      var (rows, r) := WithRetry(s.rows, hs, commit, t, attempts);
      Table(rows, if r.Ok? && upserts then s.days[DayOf(t) := RollupOf(norm, rows, DayOf(t))] else s.days)
    case CatchUp(cutoff) => Table(s.rows, CaughtUp(norm, s.rows, s.days, cutoff))
  }

  function Run(norm: real -> real, s: Table, ops: seq<Op>): Table
    decreases ops
  {
    if ops == [] then s else Run(norm, Apply(norm, s, ops[0]), ops[1..])
  }

  /** The days whose cached row may lag behind: those whose latest insert was not followed by an upsert or a
      catch-up that reaches it. */
  function StaleAfter(norm: real -> real, s: Table, stale: set<nat>, ops: seq<Op>): set<nat>
    decreases ops
  {
    if ops == [] then stale
    else StaleAfter(norm, Apply(norm, s, ops[0]), StaleStep(norm, s, stale, ops[0]), ops[1..])
  }

  function StaleStep(norm: real -> real, s: Table, stale: set<nat>, op: Op): set<nat> {
    match op
    case Record(hs, commit, t, attempts, upserts) =>
      var (rows, r) := WithRetry(s.rows, hs, commit, t, attempts);
      if r.Ok? && upserts then stale - {DayOf(t)}
      else if rows == s.rows then stale
      else stale + {DayOf(t)}
    case CatchUp(cutoff) => stale - DaysSince(s.rows, cutoff)
  }

  predicate FreshExcept(norm: real -> real, s: Table, stale: set<nat>) {
    forall d | d in DaysSince(s.rows, 0) && d !in stale :: Fresh(norm, s.rows, s.days, d)
  }

  /** Rows of another day do not change a day's rollup. */
  lemma {:induction false} AppendedRowsOfAnotherDay(rows: seq<TrendRow>, more: seq<TrendRow>, d: nat)
    requires forall r | r in more :: DayOf(r.at) != d
    ensures Latest(rows + more, d, 0) == Latest(rows, d, 0)
    ensures forall t | DayOf(t) == d :: SnapshotAt(rows + more, t) == SnapshotAt(rows, t)
  {
    if rows == [] {
      assert rows + more == more;
      if more != [] {
        assert more == [more[0]] + more[1..];
        AppendedRowsOfAnotherDay([], more[1..], d);
        assert [] + more[1..] == more[1..];
      }
    } else {
      assert (rows + more)[1..] == rows[1..] + more;
      AppendedRowsOfAnotherDay(rows[1..], more, d);
    }
  }

  lemma RecordKeepsOtherDays(norm: real -> real, rows: seq<TrendRow>, more: seq<TrendRow>, t: Instant, d: nat)
    requires d != DayOf(t) && AllAt(more, t)
    ensures RollupOf(norm, rows + more, d) == RollupOf(norm, rows, d)
    ensures d in DaysSince(rows + more, 0) <==> d in DaysSince(rows, 0)
  {
    AppendedRowsOfAnotherDay(rows, more, d);
    LatestIsLatest(rows, d, 0);
    DaysSinceHaveLatest(rows, 0, d);
    DaysSinceHaveLatest(rows + more, 0, d);
  }

  lemma CaughtUpIsFresh(norm: real -> real, rows: seq<TrendRow>, days: map<nat, Rollup>, cutoff: Instant, d: nat)
    ensures d in DaysSince(rows, cutoff) ==> Fresh(norm, rows, CaughtUp(norm, rows, days, cutoff), d)
  {
    if d in DaysSince(rows, cutoff) {
      DaysSinceHaveLatest(rows, cutoff, d);
      CutoffKeepsLatest(rows, d, cutoff);
    }
  }

  lemma StepKeepsAgreement(norm: real -> real, s: Table, stale: set<nat>, op: Op)
    requires FreshExcept(norm, s, stale)
    ensures FreshExcept(norm, Apply(norm, s, op), StaleStep(norm, s, stale, op))
  {
    var s' := Apply(norm, s, op);
    forall d | d in DaysSince(s'.rows, 0) && d !in StaleStep(norm, s, stale, op)
      ensures Fresh(norm, s'.rows, s'.days, d)
    {
      match op
      case Record(hs, commit, t, attempts, _) =>
        if d != DayOf(t) {
          var more := RetryAppends(s.rows, hs, commit, t, attempts);
          RecordKeepsOtherDays(norm, s.rows, more, t, d);
        }
      case CatchUp(cutoff) => CaughtUpIsFresh(norm, s.rows, s.days, cutoff, d);
    }
  }

  /** After any run, every day with rows whose last insert was followed by its upsert (or reached by a
      catch-up) holds exactly the rollup of its latest snapshot. */
  lemma {:induction false} RunKeepsAgreement(norm: real -> real, s: Table, stale: set<nat>, ops: seq<Op>)
    requires FreshExcept(norm, s, stale)
    ensures FreshExcept(norm, Run(norm, s, ops), StaleAfter(norm, s, stale, ops))
    decreases ops
  {
    if ops != [] {
      StepKeepsAgreement(norm, s, stale, ops[0]);
      RunKeepsAgreement(norm, Apply(norm, s, ops[0]), StaleStep(norm, s, stale, ops[0]), ops[1..]);
    }
  }

  /** Every record of the run succeeds, or stores nothing, and is upserted if it succeeds. */
  predicate AllUpsert(norm: real -> real, s: Table, ops: seq<Op>)
    decreases ops
  {
    ops == [] ||
    ((match ops[0]
      case Record(hs, commit, t, attempts, upserts) =>
        var (rows, r) := WithRetry(s.rows, hs, commit, t, attempts); if r.Ok? then upserts else rows == s.rows
      case CatchUp(_) => true)
     && AllUpsert(norm, Apply(norm, s, ops[0]), ops[1..]))
  }

  /** In particular, when every insert and its upsert succeed, no day is ever stale. */
  lemma {:induction false} UpsertedRunsAgree(norm: real -> real, s: Table, ops: seq<Op>)
    requires FreshExcept(norm, s, {})
    requires AllUpsert(norm, s, ops)
    ensures FreshExcept(norm, Run(norm, s, ops), {})
    decreases ops
  {
    if ops != [] {
      StepKeepsAgreement(norm, s, {}, ops[0]);
      assert StaleStep(norm, s, {}, ops[0]) == {};
      UpsertedRunsAgree(norm, Apply(norm, s, ops[0]), ops[1..]);
    }
  }

  /** Catch-up writes what the upsert would, also for the day the cutoff falls into; touches no day
      whose snapshots all precede the cutoff; and run twice equals run once. */
  lemma CatchUpAgrees(norm: real -> real, rows: seq<TrendRow>, days: map<nat, Rollup>, cutoff: Instant, d: nat)
    ensures (exists r :: r in rows && DayOf(r.at) == d && cutoff <= r.at)
      ==> Fresh(norm, rows, CaughtUp(norm, rows, days, cutoff), d)
    ensures (forall r | r in rows && DayOf(r.at) == d :: r.at < cutoff) ==>
      if d in days then d in CaughtUp(norm, rows, days, cutoff) && CaughtUp(norm, rows, days, cutoff)[d] == days[d]
      else d !in CaughtUp(norm, rows, days, cutoff)
    ensures CaughtUp(norm, rows, CaughtUp(norm, rows, days, cutoff), cutoff) == CaughtUp(norm, rows, days, cutoff)
  {
    CaughtUpIsFresh(norm, rows, days, cutoff, d);
  }
}
