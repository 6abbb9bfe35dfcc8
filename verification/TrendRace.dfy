/**
  Several post-commit hooks on one database. An upsert reads a day's rows and writes its rollup in separate
  statements; a catch-up first lists the days and their latest instants, then reads and writes one day after
  the other. Other hooks may store rows and write rollups in between.
 */
module TrendRace {
  import opened Wrappers
  import opened Text
  import opened TrendRollup

  /** What a hook has read and not yet written, and what its catch-up has listed. */
  datatype Pending = Pending(day: nat, value: Rollup)

  datatype Shared = Shared(
    rows: seq<TrendRow>, days: map<nat, Rollup>,
    pending: map<nat, Pending>, listing: map<nat, map<nat, Instant>>)

  datatype Event =
    | Insert(hs: seq<Hotspot>, commit: string, at: Instant)   // the rows stored, a snapshot or a part of one
    | Read(hook: nat, day: nat)
    | List(hook: nat, cutoff: Instant)
    | Fetch(hook: nat, day: nat)
    | Write(hook: nat)

  /** `SELECT day, MAX(recorded_at) ... WHERE recorded_at >= cutoff GROUP BY day` */
  function Listing(rows: seq<TrendRow>, cutoff: Instant): map<nat, Instant> {
    map d | d in DaysSince(rows, cutoff) :: LatestSince(rows, d, cutoff)
  }

  function LatestSince(rows: seq<TrendRow>, d: nat, cutoff: Instant): Instant {
    match Latest(rows, d, cutoff) case Some(t) => t case None => 0
  }

  function Step(norm: real -> real, s: Shared, e: Event): Shared {
    match e
    case Insert(hs, commit, t) => s.(rows := s.rows + NewRows(hs, commit, t))
    case Read(h, d) => s.(pending := s.pending[h := Pending(d, RollupOf(norm, s.rows, d))])
    case List(h, cutoff) => s.(listing := s.listing[h := Listing(s.rows, cutoff)])
    case Fetch(h, d) =>
      if h in s.listing && d in s.listing[h]
      then s.(pending := s.pending[h := Pending(d, Aggregate(norm, SnapshotAt(s.rows, s.listing[h][d])))])
      else s
    case Write(h) =>
      if h in s.pending
      then s.(days := s.days[s.pending[h].day := s.pending[h].value], pending := s.pending - {h})
      else s
  }

  function Run(norm: real -> real, s: Shared, events: seq<Event>): Shared
    decreases events
  {
    if events == [] then s else Run(norm, Step(norm, s, events[0]), events[1..])
  }

  /** The rows the events store, in order. */
  function RowsOf(events: seq<Event>): seq<TrendRow> {
    if events == [] then []
    else (if events[0].Insert? then NewRows(events[0].hs, events[0].commit, events[0].at) else []) + RowsOf(events[1..])
  }

  predicate Concerns(e: Event, h: nat) { !e.Insert? && e.hook == h }

  ghost predicate NoneConcerns(events: seq<Event>, h: nat) {
    forall i | 0 <= i < |events| :: !Concerns(events[i], h)
  }

  /** Hook `h` lists no days; it may fetch and write those it has listed. */
  ghost predicate NoList(events: seq<Event>, h: nat) {
    forall i | 0 <= i < |events| :: !(events[i].List? && events[i].hook == h)
  }

  // ----- what a run leaves alone -----

  lemma {:induction false} RunStores(norm: real -> real, s: Shared, events: seq<Event>)
    ensures Run(norm, s, events).rows == s.rows + RowsOf(events)
    decreases events
  {
    if events != [] {
      RunStores(norm, Step(norm, s, events[0]), events[1..]);
      var first := if events[0].Insert? then NewRows(events[0].hs, events[0].commit, events[0].at) else [];
      Associates(s.rows, first, RowsOf(events[1..]));
    }
  }

  /** A hook's own read survives whatever other hooks do. */
  lemma {:induction false} RunKeepsOwn(norm: real -> real, s: Shared, h: nat, events: seq<Event>)
    requires NoneConcerns(events, h) && h in s.pending
    ensures var s' := Run(norm, s, events); h in s'.pending && s'.pending[h] == s.pending[h]
    decreases events
  {
    if events != [] {
      assert !Concerns(events[0], h);
      RunKeepsOwn(norm, Step(norm, s, events[0]), h, events[1..]);
    }
  }

  /** Its listing also survives what it fetches and writes itself. */
  lemma {:induction false} RunKeepsListing(norm: real -> real, s: Shared, h: nat, events: seq<Event>)
    requires NoList(events, h) && h in s.listing
    ensures var s' := Run(norm, s, events); h in s'.listing && s'.listing[h] == s.listing[h]
    decreases events
  {
    if events != [] {
      assert !(events[0].List? && events[0].hook == h);
      RunKeepsListing(norm, Step(norm, s, events[0]), h, events[1..]);
    }
  }

  predicate WritesDay(s: Shared, e: Event, d: nat) {
    e.Write? && e.hook in s.pending && s.pending[e.hook].day == d
  }

  /** No event writes the rollup of day `d`. */
  predicate NoWrite(norm: real -> real, s: Shared, events: seq<Event>, d: nat)
    decreases events
  {
    events == [] || (!WritesDay(s, events[0], d) && NoWrite(norm, Step(norm, s, events[0]), events[1..], d))
  }

  ghost predicate IsFresh(norm: real -> real, s: Shared, d: nat) {
    Fresh(norm, s.rows, s.days, d)
  }

  lemma {:induction false} NoWriteKeepsDay(norm: real -> real, s: Shared, events: seq<Event>, d: nat)
    requires NoWrite(norm, s, events, d) && d in s.days
    ensures var days := Run(norm, s, events).days; d in days && days[d] == s.days[d]
    decreases events
  {
    if events != [] {
      NoWriteKeepsDay(norm, Step(norm, s, events[0]), events[1..], d);
    }
  }

  // ----- what new rows do to a day's rollup -----

  lemma {:induction false} NoSnapshot(rows: seq<TrendRow>, t: Instant)
    requires forall r | r in rows :: r.at != t
    ensures SnapshotAt(rows, t) == []
  {
    if rows != [] {
      NoSnapshot(rows[1..], t);
    }
  }

  lemma NoSnapshotPastLatest(rows: seq<TrendRow>, d: nat, t: Instant)
    requires DayOf(t) == d && (Latest(rows, d, 0).None? || Latest(rows, d, 0).value < t)
    ensures SnapshotAt(rows, t) == []
  {
    LatestIsLatest(rows, d, 0);
    NoSnapshot(rows, t);
  }

  lemma {:induction false} LatestConcat(a: seq<TrendRow>, b: seq<TrendRow>, d: nat)
    ensures Latest(a + b, d, 0) ==
      if Latest(a, d, 0).None? then Latest(b, d, 0)
      else if Latest(b, d, 0).Some? && Latest(a, d, 0).value < Latest(b, d, 0).value then Latest(b, d, 0)
      else Latest(a, d, 0)
  {
    if a == [] {
      assert a + b == b;
    } else {
      assert (a + b)[1..] == a[1..] + b;
      LatestConcat(a[1..], b, d);
    }
  }

  /** The sample that makes the day's latest snapshot once `added` is stored, if it is not an old one: the
      rows at the latest instant added, unless that lies before what was there. */
  function NewSample(rows: seq<TrendRow>, added: seq<TrendRow>, d: nat): Option<seq<Hotspot>> {
    match Latest(added, d, 0)
    case None => None
    case Some(t) =>
      if Latest(rows, d, 0).Some? && t < Latest(rows, d, 0).value then None
      else Some(SnapshotAt(rows, t) + SnapshotAt(added, t))
  }

  lemma RollupAfter(norm: real -> real, rows: seq<TrendRow>, added: seq<TrendRow>, d: nat)
    ensures RollupOf(norm, rows + added, d) ==
      match NewSample(rows, added, d) case None => RollupOf(norm, rows, d) case Some(hs) => Aggregate(norm, hs)
  {
    LatestConcat(rows, added, d);
    match Latest(rows + added, d, 0)
    case None =>
    case Some(t) =>
      SnapshotConcat(rows, added, t);
      LatestIsLatest(rows + added, d, 0);
      if NewSample(rows, added, d).None? {
        NoSnapshotPastLatest(added, d, t);
        assert SnapshotAt(rows, t) + [] == SnapshotAt(rows, t);
      }
  }

  /** A write puts down what its hook read, whatever others did since. */
  lemma WriteWrites(norm: real -> real, s: Shared, h: nat, events: seq<Event>)
    requires h in s.pending && NoneConcerns(events, h)
    ensures var end := Step(norm, Run(norm, s, events), Write(h));
      && end.rows == s.rows + RowsOf(events)
      && s.pending[h].day in end.days && end.days[s.pending[h].day] == s.pending[h].value
  {
    RunKeepsOwn(norm, s, h, events);
    RunStores(norm, s, events);
  }

  // ----- the upsert -----

  function UpsertRun(norm: real -> real, s: Shared, h: nat, d: nat, between: seq<Event>): Shared {
    Step(norm, Run(norm, Step(norm, s, Read(h, d)), between), Write(h))
  }

  /** Whatever other hooks do between its read and its write, an upsert leaves its day fresh exactly when
      the rows stored in between make no new latest snapshot of the day, or one with the same rollup. */
  lemma UpsertFreshExactly(norm: real -> real, s: Shared, h: nat, d: nat, between: seq<Event>)
    requires NoneConcerns(between, h)
    ensures var sample := NewSample(s.rows, RowsOf(between), d);
      IsFresh(norm, UpsertRun(norm, s, h, d, between), d) <==>
        (sample.None? || Aggregate(norm, sample.value) == RollupOf(norm, s.rows, d))
  {
    WriteWrites(norm, Step(norm, s, Read(h, d)), h, between);
    RollupAfter(norm, s.rows, RowsOf(between), d);
  }

  /** And so on, until the day's rollup is written again: the rows stored since the read decide. */
  lemma SharedRunsAgree(norm: real -> real, s: Shared, h: nat, d: nat, between: seq<Event>, rest: seq<Event>)
    requires NoneConcerns(between, h) && NoWrite(norm, UpsertRun(norm, s, h, d, between), rest, d)
    ensures var sample := NewSample(s.rows, RowsOf(between) + RowsOf(rest), d);
      IsFresh(norm, Run(norm, UpsertRun(norm, s, h, d, between), rest), d) <==>
        (sample.None? || Aggregate(norm, sample.value) == RollupOf(norm, s.rows, d))
  {
    var written := UpsertRun(norm, s, h, d, between);
    WriteWrites(norm, Step(norm, s, Read(h, d)), h, between);
    NoWriteKeepsDay(norm, written, rest, d);
    RunStores(norm, written, rest);
    Associates(s.rows, RowsOf(between), RowsOf(rest));
    RollupAfter(norm, s.rows, RowsOf(between) + RowsOf(rest), d);
  }

  // ----- the catch-up -----

  /** One day of a catch-up: listed, later fetched at the listed instant, later written. The catch-up lists all
      days at once, so for every day but the first `before` holds its own work on the earlier ones. */
  function CatchUpRun(
      norm: real -> real, s: Shared, h: nat, cutoff: Instant, d: nat, before: seq<Event>, after: seq<Event>): Shared {
    Step(norm, Run(norm, Fetched(norm, s, h, cutoff, d, before), after), Write(h))
  }

  function Fetched(norm: real -> real, s: Shared, h: nat, cutoff: Instant, d: nat, before: seq<Event>): Shared {
    Step(norm, Run(norm, Step(norm, s, List(h, cutoff)), before), Fetch(h, d))
  }

  /** The rollup a catch-up writes: of the snapshot at the listed instant, as it is when it is fetched. */
  function CaughtValue(norm: real -> real, rows: seq<TrendRow>, d: nat, before: seq<Event>): Rollup {
    var t := LatestSince(rows, d, 0);
    Aggregate(norm, SnapshotAt(rows, t) + SnapshotAt(RowsOf(before), t))
  }

  lemma FetchReads(norm: real -> real, s: Shared, h: nat, cutoff: Instant, d: nat, before: seq<Event>)
    requires d in DaysSince(s.rows, cutoff) && NoList(before, h)
    ensures var fetched := Fetched(norm, s, h, cutoff, d, before);
      && fetched.rows == s.rows + RowsOf(before)
      && h in fetched.pending && fetched.pending[h] == Pending(d, CaughtValue(norm, s.rows, d, before))
  {
    var listed := Step(norm, s, List(h, cutoff));
    DaysSinceHaveLatest(s.rows, cutoff, d);
    CutoffKeepsLatest(s.rows, d, cutoff);
    assert listed.listing[h][d] == LatestSince(s.rows, d, 0);
    RunKeepsListing(norm, listed, h, before);
    RunStores(norm, listed, before);
    SnapshotConcat(s.rows, RowsOf(before), LatestSince(s.rows, d, 0));
  }

  lemma CatchUpWrites(
      norm: real -> real, s: Shared, h: nat, cutoff: Instant, d: nat, before: seq<Event>, after: seq<Event>)
    requires d in DaysSince(s.rows, cutoff) && NoList(before, h) && NoneConcerns(after, h)
    ensures var end := CatchUpRun(norm, s, h, cutoff, d, before, after);
      && end.rows == s.rows + (RowsOf(before) + RowsOf(after))
      && d in end.days && end.days[d] == CaughtValue(norm, s.rows, d, before)
  {
    FetchReads(norm, s, h, cutoff, d, before);
    WriteWrites(norm, Fetched(norm, s, h, cutoff, d, before), h, after);
    Associates(s.rows, RowsOf(before), RowsOf(after));
  }

  /** If the rows added make no new sample, those fetched with the listed instant are the day's latest. */
  lemma OldSampleIsCaught(
      norm: real -> real, rows: seq<TrendRow>, cutoff: Instant, d: nat, before: seq<Event>, more: seq<TrendRow>)
    requires d in DaysSince(rows, cutoff) && NewSample(rows, RowsOf(before) + more, d).None?
    ensures CaughtValue(norm, rows, d, before) == RollupOf(norm, rows, d)
  {
    var t := LatestSince(rows, d, 0);
    DaysSinceHaveLatest(rows, cutoff, d);
    CutoffKeepsLatest(rows, d, cutoff);
    LatestConcat(RowsOf(before), more, d);
    LatestIsLatest(rows, d, 0);
    NoSnapshotPastLatest(RowsOf(before), d, t);
    assert SnapshotAt(rows, t) + [] == SnapshotAt(rows, t);
  }

  /** A catch-up leaves a listed day fresh exactly when the rows stored from the listing to the write make no
      new latest snapshot of the day, or one with the rollup it writes. */
  lemma CatchUpFreshExactly(
      norm: real -> real, s: Shared, h: nat, cutoff: Instant, d: nat, before: seq<Event>, after: seq<Event>)
    requires d in DaysSince(s.rows, cutoff) && NoList(before, h) && NoneConcerns(after, h)
    ensures var sample := NewSample(s.rows, RowsOf(before) + RowsOf(after), d);
      IsFresh(norm, CatchUpRun(norm, s, h, cutoff, d, before, after), d) <==>
        (sample.None? || Aggregate(norm, sample.value) == CaughtValue(norm, s.rows, d, before))
  {
    CatchUpWrites(norm, s, h, cutoff, d, before, after);
    RollupAfter(norm, s.rows, RowsOf(before) + RowsOf(after), d);
    if NewSample(s.rows, RowsOf(before) + RowsOf(after), d).None? {
      OldSampleIsCaught(norm, s.rows, cutoff, d, before, RowsOf(after));
    }
  }

  /** And so on, until the day's rollup is written again: the rows stored since the listing decide. */
  lemma SharedCatchUpsAgree(norm: real -> real, s: Shared, h: nat, cutoff: Instant, d: nat,
                            before: seq<Event>, after: seq<Event>, rest: seq<Event>)
    requires d in DaysSince(s.rows, cutoff) && NoList(before, h) && NoneConcerns(after, h)
    requires NoWrite(norm, CatchUpRun(norm, s, h, cutoff, d, before, after), rest, d)
    ensures var sample := NewSample(s.rows, RowsOf(before) + (RowsOf(after) + RowsOf(rest)), d);
      IsFresh(norm, Run(norm, CatchUpRun(norm, s, h, cutoff, d, before, after), rest), d) <==>
        (sample.None? || Aggregate(norm, sample.value) == CaughtValue(norm, s.rows, d, before))
  {
    var written, more := CatchUpRun(norm, s, h, cutoff, d, before, after), RowsOf(after) + RowsOf(rest);
    CatchUpWrites(norm, s, h, cutoff, d, before, after);
    NoWriteKeepsDay(norm, written, rest, d);
    RunStores(norm, written, rest);
    Associates(RowsOf(before), RowsOf(after), RowsOf(rest));
    Associates(s.rows, RowsOf(before) + RowsOf(after), RowsOf(rest));
    RollupAfter(norm, s.rows, RowsOf(before) + more, d);
    if NewSample(s.rows, RowsOf(before) + more, d).None? {
      OldSampleIsCaught(norm, s.rows, cutoff, d, before, more);
    }
  }

  // ----- it does go stale -----

  const FIRST := [Hotspot("a", 1.0)]
  const SECOND := [Hotspot("a", 2.0), Hotspot("b", 2.0)]

  lemma SampleRows()
    ensures NewRows(FIRST, "c1", 10) == [TrendRow("a", 1.0, "c1", 10)]
    ensures NewRows(SECOND, "c2", 20) == [TrendRow("a", 2.0, "c2", 20), TrendRow("b", 2.0, "c2", 20)]
    ensures Latest(NewRows(FIRST, "c1", 10), 0, 0) == Some(10) && Latest(NewRows(SECOND, "c2", 20), 0, 0) == Some(20)
    ensures SnapshotAt(NewRows(FIRST, "c1", 10), 10) == FIRST && SnapshotAt(NewRows(FIRST, "c1", 10), 20) == []
    ensures SnapshotAt(NewRows(SECOND, "c2", 20), 20) == SECOND && SnapshotAt(NewRows(SECOND, "c2", 20), 10) == []
  {
    var b, c := TrendRow("a", 2.0, "c2", 20), TrendRow("b", 2.0, "c2", 20);
    assert [b, c][1..] == [c];
    assert Latest([c], 0, 0) == Some(20);
    assert SnapshotAt([c], 20) == [Hotspot("b", 2.0)] && SnapshotAt([c], 10) == [];
  }

  lemma SecondIsNewSample()
    ensures var rows, added := NewRows(FIRST, "c1", 10), RowsOf([Insert(SECOND, "c2", 20)]);
      NewSample(rows, added, 0) == Some(SECOND)
  {
    SampleRows();
    assert [Insert(SECOND, "c2", 20)][1..] == [];
    assert NewRows(SECOND, "c2", 20) + [] == NewRows(SECOND, "c2", 20) && [] + SECOND == SECOND;
  }

  const EMPTY := Shared([], map[], map[], map[])

  /** Hook 1 stores a snapshot and reads it back, hook 2 stores the next one, hook 1 writes: the day keeps
      the rollup of the superseded snapshot. */
  lemma UpsertGoesStale(norm: real -> real)
    ensures !IsFresh(norm,
      Run(norm, EMPTY, [Insert(FIRST, "c1", 10), Read(1, 0), Insert(SECOND, "c2", 20), Write(1)]), 0)
  {
    var a, b, c, e := Insert(FIRST, "c1", 10), Read(1, 0), Insert(SECOND, "c2", 20), Write(1);
    var s := Step(norm, EMPTY, a);
    RunFour(norm, EMPTY, a, b, c, e);
    SampleRows();
    assert s.rows == NewRows(FIRST, "c1", 10);
    SecondIsNewSample();
    UpsertFreshExactly(norm, s, 1, 0, [c]);
    RunOne(norm, Step(norm, s, b), c);
    assert RollupOf(norm, s.rows, 0).changes == 1 && Aggregate(norm, SECOND).changes == 2;
  }

  /** The same for a catch-up that has listed the day before the second snapshot is stored. */
  lemma CatchUpGoesStale(norm: real -> real)
    ensures !IsFresh(norm,
      CatchUpRun(norm, Step(norm, EMPTY, Insert(FIRST, "c1", 10)), 1, 0, 0, [Insert(SECOND, "c2", 20)], []), 0)
  {
    var s, c := Step(norm, EMPTY, Insert(FIRST, "c1", 10)), Insert(SECOND, "c2", 20);
    SampleRows();
    assert s.rows == NewRows(FIRST, "c1", 10);
    DaysSinceHaveLatest(s.rows, 0, 0);
    SecondIsNewSample();
    CatchUpFreshExactly(norm, s, 1, 0, 0, [c], []);
    assert RowsOf([c]) + RowsOf([]) == RowsOf([c]) == NewRows(SECOND, "c2", 20) + RowsOf([]) by {
      assert [c][1..] == [];
    }
    assert RowsOf([c]) == NewRows(SECOND, "c2", 20);
    assert CaughtValue(norm, s.rows, 0, [c]) == Aggregate(norm, FIRST + []) && FIRST + [] == FIRST;
    assert Aggregate(norm, FIRST).changes == 1 && Aggregate(norm, SECOND).changes == 2;
  }

  const TWO_DAYS := Shared(
    [TrendRow("a", 1.0, "c1", 10), TrendRow("a", 1.0, "c2", DAY + 10)], map[], map[], map[])

  lemma TwoDayRows()
    ensures var rows, added := TWO_DAYS.rows, NewRows(SECOND, "c3", DAY + 20);
      && Latest(rows, 1, 0) == Some(DAY + 10) && Latest(added, 1, 0) == Some(DAY + 20)
      && SnapshotAt(rows, DAY + 10) == FIRST && SnapshotAt(rows, DAY + 20) == []
      && SnapshotAt(added, DAY + 20) == SECOND && SnapshotAt(added, DAY + 10) == []
  {
    var a, b := TWO_DAYS.rows[0], TWO_DAYS.rows[1];
    assert [a, b][1..] == [b] && [b][1..] == [];
    assert Latest([b], 1, 0) == Some(DAY + 10);
    assert SnapshotAt([b], DAY + 10) == FIRST && SnapshotAt([b], DAY + 20) == [];
    var c, e := TrendRow("a", 2.0, "c3", DAY + 20), TrendRow("b", 2.0, "c3", DAY + 20);
    assert NewRows(SECOND, "c3", DAY + 20) == [c, e];
    assert [c, e][1..] == [e] && [e][1..] == [];
    assert Latest([e], 1, 0) == Some(DAY + 20);
    assert SnapshotAt([e], DAY + 20) == [Hotspot("b", 2.0)] && SnapshotAt([e], DAY + 10) == [];
  }

  /** A catch-up over two days: while it works on day 0, another hook stores a new snapshot of day 1. The
      catch-up then writes day 1 from the listed instant, and leaves it stale. */
  lemma SecondDayGoesStale(norm: real -> real)
    ensures var before := [Fetch(1, 0), Write(1), Insert(SECOND, "c3", DAY + 20)];
      NoList(before, 1) && !IsFresh(norm, CatchUpRun(norm, TWO_DAYS, 1, 0, 1, before, []), 1)
  {
    var f, w, i := Fetch(1, 0), Write(1), Insert(SECOND, "c3", DAY + 20);
    var before, added := [f, w, i], NewRows(SECOND, "c3", DAY + 20);
    TwoDayRows();
    assert RowsOf(before) == added by {
      assert before[1..] == [w, i] && [w, i][1..] == [i] && [i][1..] == [];
      assert RowsOf([i]) == added + [] == added;
      assert RowsOf([w, i]) == [] + added == added;
    }
    assert RowsOf(before) + RowsOf([]) == added;
    assert [] + SECOND == SECOND && FIRST + [] == FIRST;
    DaysSinceHaveLatest(TWO_DAYS.rows, 0, 1);
    CatchUpFreshExactly(norm, TWO_DAYS, 1, 0, 1, before, []);
    assert CaughtValue(norm, TWO_DAYS.rows, 1, before) == Aggregate(norm, FIRST);
    assert Aggregate(norm, FIRST).changes == 1 && Aggregate(norm, SECOND).changes == 2;
  }

  lemma RunOne(norm: real -> real, s: Shared, e: Event)
    ensures Run(norm, s, [e]) == Step(norm, s, e)
  {
    assert [e][1..] == [];
  }

  lemma RunFour(norm: real -> real, s: Shared, a: Event, b: Event, c: Event, e: Event)
    ensures Run(norm, s, [a, b, c, e]) == Step(norm, Step(norm, Step(norm, Step(norm, s, a), b), c), e)
  {
    assert [a, b, c, e][1..] == [b, c, e] && [b, c, e][1..] == [c, e] && [c, e][1..] == [e];
    var s3 := Step(norm, Step(norm, Step(norm, s, a), b), c);
    RunOne(norm, s3, e);
    assert Run(norm, s, [a, b, c, e]) == Run(norm, Step(norm, s, a), [b, c, e]);
    assert Run(norm, Step(norm, s, a), [b, c, e]) == Run(norm, Step(norm, Step(norm, s, a), b), [c, e]);
  }
}
