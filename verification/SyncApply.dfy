/**
  Applying a peer's bundle: tombstones first, then entries, each under the clock of what is already there.
  Bundles arrive in any order and may arrive again. The module proves which part of the outcome does not
  depend on the order, which part does, and exactly when.
 */
module SyncApply {
  import opened Wrappers
  import opened SyncClock
  import HookTrail

  type TxStatus = HookTrail.TxStatus

  datatype Tombstone = Tombstone(clock: Clock, reason: string)

  /** `fixed` stands for the columns that an update leaves alone. */
  datatype Entry = Entry(fixed: string, status: Option<string>, notes: Option<string>, clock: Clock)

  /** A ledger row; one never exported or imported has no clock. */
  datatype Row = Row(
    origin: string, fixed: string, trace: Option<string>,
    status: Option<string>, notes: Option<string>, clock: Option<Clock>)

  /** What the three tables hold on one transaction. */
  datatype TxData = TxData(tomb: Option<Tombstone>, status: Option<TxStatus>, rows: seq<Row>)

  const NOTHING := TxData(None, None, [])

  datatype Op = Bury(tomb: Tombstone) | Enter(entry: Entry, device: string)
  {
    function At(): Clock { match this case Bury(t) => t.clock case Enter(e, _) => e.clock }
  }

  // ----- one operation on one transaction -----

  function Inserted(e: Entry, device: string): Row {
    Row("PEER", e.fixed, Some(device), e.status, e.notes, Some(e.clock))
  }

  function Updated(r: Row, e: Entry, device: string): Row {
    r.(trace := Some(device), status := e.status, notes := e.notes, clock := Some(e.clock))
  }

  /** The clocks of rows and tombstones are compared as text here. */
  function Buried(r: Row, t: Tombstone): Row {
    if r.clock.Some? && ShownLess(r.clock.value, t.clock)
    then r.(status := Some("ROLLED_BACK"), notes := Some("Tombstoned: " + t.reason)) else r
  }

  function BuriedRows(rows: seq<Row>, t: Tombstone): seq<Row> {
    seq(|rows|, i requires 0 <= i < |rows| => Buried(rows[i], t))
  }

  function UpdatedRows(rows: seq<Row>, e: Entry, device: string): seq<Row> {
    seq(|rows|, i requires 0 <= i < |rows| => Updated(rows[i], e, device))
  }

  function TombClock(x: TxData): Option<Clock> {
    match x.tomb case None => None case Some(t) => Some(t.clock)
  }

  /** The row the look-up finds decides. */
  function RowClock(x: TxData): Option<Clock> {
    if x.rows == [] then None else x.rows[0].clock
  }

  predicate Reaches(c: Option<Clock>, least: Clock) { c.Some? && !Less(c.value, least) }

  /** The operation finds its tombstone, or one at least as late, or its entry or a later one. */
  predicate Skips(x: TxData, o: Op) {
    match o
    case Bury(t) => Reaches(TombClock(x), t.clock)
    case Enter(e, _) => Reaches(TombClock(x), e.clock) || Reaches(RowClock(x), e.clock)
  }

  /** A row without a clock makes the look-up fail, and with it the bundle. */
  predicate Fails(x: TxData, o: Op) {
    o.Enter? && !Skips(x, o) && x.rows != [] && x.rows[0].clock.None?
  }

  function Next(x: TxData, o: Op): TxData {
    if Skips(x, o) || Fails(x, o) then x
    else match o
    case Bury(t) =>
      TxData(Some(t), if x.status.Some? then Some(HookTrail.ROLLED_BACK) else None, BuriedRows(x.rows, t))
    case Enter(e, device) =>
      if x.rows == [] then
        x.(status := if x.status.Some? then x.status else Some(HookTrail.COMMITTED), rows := [Inserted(e, device)])
      else
        x.(status := Some(HookTrail.COMMITTED), rows := UpdatedRows(x.rows, e, device))
  }

  /** No operation ever fails on it. */
  predicate Stamped(x: TxData) { x.rows == [] || x.rows[0].clock.Some? }

  function Run(x: TxData, ops: seq<Op>): TxData {
    if ops == [] then x else Next(Run(x, ops[..|ops| - 1]), ops[|ops| - 1])
  }

  lemma {:induction false} RunConcat(x: TxData, a: seq<Op>, b: seq<Op>)
    ensures Run(x, a + b) == Run(Run(x, a), b)
    decreases |b|
  {
    if b == [] {
      assert a + b == a;
    } else {
      assert (a + b)[..|a + b| - 1] == a + b[..|b| - 1];
      RunConcat(x, a, b[..|b| - 1]);
    }
  }

  /** Whether the row looked up has a clock never changes, and the tombstone kept is the latest. */
  lemma {:induction false} RunKeepsStamp(x: TxData, ops: seq<Op>)
    ensures Stamped(Run(x, ops)) <==> Stamped(x)
    ensures TombClock(Run(x, ops)) == LastTomb(TombClock(x), ops)
    decreases |ops|
  {
    if ops != [] {
      RunKeepsStamp(x, ops[..|ops| - 1]);
    }
  }

  lemma {:induction false} UnstampedStays(x: TxData, ops: seq<Op>)
    requires !Stamped(x)
    ensures RowClock(Run(x, ops)).None?
    decreases |ops|
  {
    if ops != [] {
      UnstampedStays(x, ops[..|ops| - 1]);
      RunKeepsStamp(x, ops[..|ops| - 1]);
    }
  }

  // ----- arriving again -----

  lemma StepsAbsorb(x: TxData, o: Op, p: Op)
    ensures (!Fails(x, o) ==> Skips(Next(x, o), o)) && (Skips(x, p) ==> Skips(Next(x, o), p))
  {
    var least, now := p.At(), o.At();
    ClocksAreOrdered(now, now, now);
    ClocksAreOrdered(least, now, now);
    if TombClock(x).Some? {
      ClocksAreOrdered(least, TombClock(x).value, now);
    }
    if RowClock(x).Some? {
      ClocksAreOrdered(least, RowClock(x).value, now);
    }
  }

  // ----- what the order of arrival does not change -----

  function Raised(c: Option<Clock>, next: Clock): Option<Clock> { Some(Later(c, next)) }

  /** The latest tombstone of `ops`, or `c`. */
  function LastTomb(c: Option<Clock>, ops: seq<Op>): Option<Clock> {
    if ops == [] then c
    else
      var before, o := LastTomb(c, ops[..|ops| - 1]), ops[|ops| - 1];
      if o.Bury? then Raised(before, o.tomb.clock) else before
  }

  /** The latest entry of `ops`, or `c`. */
  function LastEntry(c: Option<Clock>, ops: seq<Op>): Option<Clock> {
    if ops == [] then c
    else
      var before, o := LastEntry(c, ops[..|ops| - 1]), ops[|ops| - 1];
      if o.Enter? then Raised(before, o.entry.clock) else before
  }

  /** The clock of the ledger row, if no tombstone is as late. */
  function Live(entry: Option<Clock>, tomb: Option<Clock>): Option<Clock> {
    if entry.Some? && !Reaches(tomb, entry.value) then entry else None
  }

  predicate Behind(c: Option<Clock>, d: Option<Clock>) { c.None? || Reaches(d, c.value) }

  /** The tombstone kept is the latest, and the row is live exactly if the latest entry is later still, with
      the clock of that entry. */
  lemma {:induction false} LiveExactly(x: TxData, ops: seq<Op>)
    requires Stamped(x)
    ensures var y, entry := Run(x, ops), LastEntry(RowClock(x), ops);
      && TombClock(y) == LastTomb(TombClock(x), ops) && Behind(RowClock(y), entry)
      && Live(RowClock(y), TombClock(y)) == Live(entry, LastTomb(TombClock(x), ops))
    decreases |ops|
  {
    if ops == [] {
      if RowClock(x).Some? {
        ClocksAreOrdered(RowClock(x).value, RowClock(x).value, RowClock(x).value);
      }
    } else {
      var front, o := ops[..|ops| - 1], ops[|ops| - 1];
      LiveExactly(x, front);
      RunKeepsStamp(x, front);
      LiveStep(Run(x, front), o, LastEntry(RowClock(x), front));
    }
  }

  lemma LiveStep(y: TxData, o: Op, entry: Option<Clock>)
    requires Stamped(y) && Behind(RowClock(y), entry)
    requires Live(RowClock(y), TombClock(y)) == Live(entry, TombClock(y))
    ensures var (z, tomb') := (Next(y, o), if o.Bury? then Raised(TombClock(y), o.tomb.clock) else TombClock(y));
      var entry' := if o.Enter? then Raised(entry, o.entry.clock) else entry;
      && TombClock(z) == tomb' && Behind(RowClock(z), entry')
      && Live(RowClock(z), TombClock(z)) == Live(entry', tomb')
  {
    var now := o.At();
    ClocksAreOrdered(now, now, now);
    var row, tomb := RowClock(y), TombClock(y);
    if row.Some? {
      ClocksAreOrdered(row.value, entry.value, now);
      ClocksAreOrdered(now, row.value, entry.value);
    }
    if tomb.Some? && entry.Some? {
      ClocksAreOrdered(tomb.value, entry.value, now);
      ClocksAreOrdered(entry.value, tomb.value, now);
      ClocksAreOrdered(now, entry.value, tomb.value);
    }
    if tomb.Some? && row.Some? {
      ClocksAreOrdered(row.value, tomb.value, now);
      ClocksAreOrdered(tomb.value, row.value, now);
    }
  }

  lemma {:induction false} LastTombIsLast(c: Option<Clock>, ops: seq<Op>)
    ensures var last := LastTomb(c, ops);
      && Behind(c, last) && (forall o | o in ops && o.Bury? :: Reaches(last, o.tomb.clock))
      && (last == c || exists o :: o in ops && o.Bury? && last == Some(o.tomb.clock))
    decreases |ops|
  {
    if c.Some? {
      ClocksAreOrdered(c.value, c.value, c.value);
    }
    if ops != [] {
      var front, o := ops[..|ops| - 1], ops[|ops| - 1];
      LastTombIsLast(c, front);
      assert ops == front + [o];
      if o.Bury? {
        RaisedReaches(LastTomb(c, front), o.tomb.clock);
      }
    }
  }

  lemma {:induction false} LastEntryIsLast(c: Option<Clock>, ops: seq<Op>)
    ensures var last := LastEntry(c, ops);
      && Behind(c, last) && (forall o | o in ops && o.Enter? :: Reaches(last, o.entry.clock))
      && (last == c || exists o :: o in ops && o.Enter? && last == Some(o.entry.clock))
    decreases |ops|
  {
    if c.Some? {
      ClocksAreOrdered(c.value, c.value, c.value);
    }
    if ops != [] {
      var front, o := ops[..|ops| - 1], ops[|ops| - 1];
      LastEntryIsLast(c, front);
      assert ops == front + [o];
      if o.Enter? {
        RaisedReaches(LastEntry(c, front), o.entry.clock);
      }
    }
  }

  lemma RaisedReaches(c: Option<Clock>, next: Clock)
    ensures var d := Raised(c, next);
      Reaches(d, next) && Behind(c, d) && forall least | Reaches(c, least) :: Reaches(d, least)
  {
    ClocksAreOrdered(next, next, next);
    if c.Some? {
      ClocksAreOrdered(c.value, c.value, next);
      forall least | Reaches(c, least) ensures Reaches(Raised(c, next), least) {
        ClocksAreOrdered(least, c.value, next);
        ClocksAreOrdered(least, next, next);
      }
    }
  }

  lemma BehindEachOther(c: Option<Clock>, d: Option<Clock>)
    requires Behind(c, d) && Behind(d, c)
    ensures c == d
  {
    if c.Some? && d.Some? {
      ClocksAreOrdered(c.value, d.value, c.value);
    }
  }

  ghost predicate SameOps(a: seq<Op>, b: seq<Op>) { forall o :: o in a <==> o in b }

  lemma SameLast(c: Option<Clock>, a: seq<Op>, b: seq<Op>)
    requires SameOps(a, b)
    ensures LastTomb(c, a) == LastTomb(c, b) && LastEntry(c, a) == LastEntry(c, b)
  {
    LastTombIsLast(c, a);
    LastTombIsLast(c, b);
    LastEntryIsLast(c, a);
    LastEntryIsLast(c, b);
    BehindEachOther(LastTomb(c, a), LastTomb(c, b));
    BehindEachOther(LastEntry(c, a), LastEntry(c, b));
  }

  /** All that the outcome for the tombstone and the live entry depends on. */
  predicate Agree(x: TxData, y: TxData) {
    TombClock(x) == TombClock(y) && RowClock(x) == RowClock(y) && (Stamped(x) <==> Stamped(y))
  }

  /** In whatever order the same operations arrive, and however often: the same tombstone clock, and the same
      row is live. */
  lemma OrderDoesNotMatter(x: TxData, x': TxData, a: seq<Op>, b: seq<Op>)
    requires Agree(x, x') && SameOps(a, b)
    ensures var (y, z) := (Run(x, a), Run(x', b));
      TombClock(y) == TombClock(z) && Live(RowClock(y), TombClock(y)) == Live(RowClock(z), TombClock(z))
  {
    RunKeepsStamp(x, a);
    RunKeepsStamp(x', b);
    SameLast(TombClock(x), a, b);
    SameLast(RowClock(x), a, b);
    if Stamped(x) {
      LiveExactly(x, a);
      LiveExactly(x', b);
    } else {
      UnstampedStays(x, a);
      UnstampedStays(x', b);
    }
  }

  // ----- what it does change -----

  /** The tombstones of `ops` that take effect after one with clock `c`. */
  function Raising(c: Option<Clock>, ops: seq<Op>): seq<Tombstone> {
    if ops == [] then []
    else
      var front, o := ops[..|ops| - 1], ops[|ops| - 1];
      Raising(c, front) + if o.Bury? && !Reaches(LastTomb(c, front), o.tomb.clock) then [o.tomb] else []
  }

  /** Some tombstone shows as later than `clock`. */
  predicate ShownPast(clock: Clock, ts: seq<Tombstone>) {
    exists t | t in ts :: ShownLess(clock, t.clock)
  }

  predicate AllAt(rows: seq<Row>, clock: Clock) {
    forall i | 0 <= i < |rows| :: rows[i].clock == Some(clock)
  }

  predicate EndsAs(was: seq<Row>, rows: seq<Row>, buried: bool) {
    |rows| == |was| && forall i | 0 <= i < |rows| ::
      if buried then rows[i] == was[i].(status := Some("ROLLED_BACK"), notes := rows[i].notes) else rows[i] == was[i]
  }

  /** Nothing in `ops` comes after `clock`, and no tombstone at it. */
  predicate NoneAfter(clock: Clock, ops: seq<Op>) {
    forall o | o in ops :: !Less(clock, o.At()) && (o.Bury? ==> o.At() != clock)
  }

  lemma {:induction false} AfterNewest(y: TxData, clock: Clock, ops: seq<Op>)
    requires y.rows != [] && AllAt(y.rows, clock) && !Reaches(TombClock(y), clock) && NoneAfter(clock, ops)
    ensures var z, ts := Run(y, ops), Raising(TombClock(y), ops);
      && AllAt(z.rows, clock) && EndsAs(y.rows, z.rows, ShownPast(clock, ts))
      && z.status == if ts == [] || y.status.None? then y.status else Some(HookTrail.ROLLED_BACK)
    decreases |ops|
  {
    if ops != [] {
      var front, o := ops[..|ops| - 1], ops[|ops| - 1];
      AfterNewest(y, clock, front);
      RunKeepsStamp(y, front);
      assert o in ops;
    }
  }

  /** An entry later than all there is takes effect. */
  lemma NewestIsTaken(x: TxData, before: seq<Op>, e: Entry, device: string)
    requires Stamped(x) && !Reaches(TombClock(x), e.clock) && !Reaches(RowClock(x), e.clock)
    requires forall o | o in before :: Less(o.At(), e.clock)
    ensures !Skips(Run(x, before), Enter(e, device)) && Stamped(Run(x, before))
  {
    LiveExactly(x, before);
    RunKeepsStamp(x, before);
    LastTombIsLast(TombClock(x), before);
    LastEntryIsLast(RowClock(x), before);
    ClocksAreOrdered(e.clock, e.clock, e.clock);
    var row, entry := RowClock(Run(x, before)), LastEntry(RowClock(x), before);
    if row.Some? {
      ClocksAreOrdered(e.clock, row.value, entry.value);
    }
    if TombClock(Run(x, before)).Some? {
      ClocksAreOrdered(e.clock, TombClock(Run(x, before)).value, e.clock);
    }
  }

  /** The row holds what the entry brought, or the mark of a tombstone. */
  predicate Carries(r: Row, e: Entry, device: string, buried: bool) {
    && r.clock == Some(e.clock) && r.trace == Some(device)
    && if buried then r.status == Some("ROLLED_BACK") else r.status == e.status && r.notes == e.notes
  }

  lemma TakenSets(m: TxData, e: Entry, device: string)
    requires Stamped(m) && !Skips(m, Enter(e, device))
    ensures var y := Next(m, Enter(e, device));
      && y.rows != [] && AllAt(y.rows, e.clock) && (forall r | r in y.rows :: Carries(r, e, device, false))
      && y.tomb == m.tomb && !Reaches(TombClock(y), e.clock)
      && y.status == if m.rows == [] && m.status.Some? then m.status else Some(HookTrail.COMMITTED)
  {
  }

  lemma RunAround(x: TxData, before: seq<Op>, o: Op, after: seq<Op>)
    ensures Run(x, before + [o] + after) == Run(Next(Run(x, before), o), after)
  {
    RunSnoc(x, before, o);
    RunConcat(x, before + [o], after);
  }

  lemma CarriesOn(was: seq<Row>, rows: seq<Row>, e: Entry, device: string, buried: bool)
    requires EndsAs(was, rows, buried) && forall r | r in was :: Carries(r, e, device, false)
    ensures forall r | r in rows :: Carries(r, e, device, buried)
  {
    forall i | 0 <= i < |rows| ensures Carries(rows[i], e, device, buried) {
      assert was[i] in was;
    }
  }

  /** An entry later than everything else, wherever it comes in the order: every row of the transaction ends
      with it, and the transaction is committed unless a tombstone takes effect after it. */
  lemma NewestEntryWins(x: TxData, before: seq<Op>, e: Entry, device: string, after: seq<Op>)
    requires Stamped(x) && !Reaches(TombClock(x), e.clock) && !Reaches(RowClock(x), e.clock)
    requires (forall o | o in before :: Less(o.At(), e.clock)) && NoneAfter(e.clock, after)
    ensures var m, z := Run(x, before), Run(x, before + [Enter(e, device)] + after);
      var ts := Raising(TombClock(m), after);
      && z.rows != [] && (forall r | r in z.rows :: Carries(r, e, device, ShownPast(e.clock, ts)))
      && z.status == if ts != [] then Some(HookTrail.ROLLED_BACK)
                     else if m.rows == [] && m.status.Some? then m.status else Some(HookTrail.COMMITTED)
  {
    var m, o := Run(x, before), Enter(e, device);
    NewestIsTaken(x, before, e, device);
    TakenSets(m, e, device);
    RunAround(x, before, o, after);
    AfterNewest(Next(m, o), e.clock, after);
    CarriesOn(Next(m, o).rows, Run(Next(m, o), after).rows, e, device,
              ShownPast(e.clock, Raising(TombClock(m), after)));
  }

  lemma {:induction false} RaisingIsLater(c: Option<Clock>, ops: seq<Op>)
    ensures forall t | t in Raising(c, ops) :: Bury(t) in ops && !Reaches(c, t.clock)
    ensures Raising(c, ops) == [] ==> forall o | o in ops && o.Bury? :: Reaches(c, o.tomb.clock)
    ensures Raising(c, ops) == [] ==> LastTomb(c, ops) == c
    decreases |ops|
  {
    if ops != [] {
      var front, o := ops[..|ops| - 1], ops[|ops| - 1];
      RaisingIsLater(c, front);
      LastTombIsLast(c, front);
      assert ops == front + [o];
      if o.Bury? && c.Some? {
        ClocksAreOrdered(o.tomb.clock, c.value, LastTomb(c, front).value);
      }
    }
  }

  /** So the newest entry leaves its transaction committed exactly when every tombstone that comes after it is
      no later than one that came before, and it did not meet a transaction that had no row but another status. */
  lemma CommittedExactly(x: TxData, before: seq<Op>, e: Entry, device: string, after: seq<Op>)
    requires Stamped(x) && !Reaches(TombClock(x), e.clock) && !Reaches(RowClock(x), e.clock)
    requires (forall o | o in before :: Less(o.At(), e.clock)) && NoneAfter(e.clock, after)
    ensures var m, z := Run(x, before), Run(x, before + [Enter(e, device)] + after);
      z.status == Some(HookTrail.COMMITTED) <==>
        && (forall o | o in after && o.Bury? :: Reaches(LastTomb(TombClock(x), before), o.tomb.clock))
        && (m.rows == [] ==> m.status.None? || m.status == Some(HookTrail.COMMITTED))
  {
    NewestEntryWins(x, before, e, device, after);
    RunKeepsStamp(x, before);
    RaisingIsLater(TombClock(Run(x, before)), after);
    var ts := Raising(TombClock(Run(x, before)), after);
    if ts != [] {
      assert ts[0] in ts && Bury(ts[0]) in after;
    }
  }

  /** Among clocks of one width the rows keep what the newest entry brought. */
  lemma NewestEntryIsKept(x: TxData, before: seq<Op>, e: Entry, device: string, after: seq<Op>)
    requires Stamped(x) && !Reaches(TombClock(x), e.clock) && !Reaches(RowClock(x), e.clock)
    requires (forall o | o in before :: Less(o.At(), e.clock)) && NoneAfter(e.clock, after)
    requires forall o | o in after && o.Bury? :: SameWidth(e.clock, o.At())
    ensures forall r | r in Run(x, before + [Enter(e, device)] + after).rows :: Carries(r, e, device, false)
  {
    NewestEntryWins(x, before, e, device, after);
    var ts := Raising(TombClock(Run(x, before)), after);
    RaisingIsLater(TombClock(Run(x, before)), after);
    forall t | t in ts ensures !ShownLess(e.clock, t.clock) {
      assert Bury(t) in after && Bury(t).At() == t.clock;
      ShownInOrder(e.clock, t.clock);
    }
  }

  lemma {:induction false} EarlierIsSkipped(x: TxData, clock: Clock, ops: seq<Op>)
    requires Reaches(TombClock(x), clock) && forall o | o in ops :: !Less(clock, o.At())
    ensures Run(x, ops) == x
    decreases |ops|
  {
    if ops != [] {
      var o := ops[|ops| - 1];
      EarlierIsSkipped(x, clock, ops[..|ops| - 1]);
      assert o in ops;
      ClocksAreOrdered(o.At(), clock, TombClock(x).value);
    }
  }

  /** Some entry of `ops` comes before any tombstone as late as itself. */
  predicate EntersUnburied(c: Option<Clock>, ops: seq<Op>) {
    exists i | 0 <= i < |ops| :: ops[i].Enter? && !Reaches(LastTomb(c, ops[..i]), ops[i].At())
  }

  lemma {:induction false} ExistsExactly(x: TxData, ops: seq<Op>)
    requires x.rows != [] ==> x.status.Some?
    ensures var y := Run(x, ops);
      && (y.status.Some? <==> x.status.Some? || EntersUnburied(TombClock(x), ops))
      && (y.rows != [] <==> x.rows != [] || EntersUnburied(TombClock(x), ops))
    decreases |ops|
  {
    if ops != [] {
      var n := |ops| - 1;
      var front := ops[..n];
      ExistsExactly(x, front);
      RunKeepsStamp(x, front);
      assert forall i | 0 <= i < n :: ops[..i] == front[..i] && ops[i] == front[i];
      assert EntersUnburied(TombClock(x), ops) <==>
        EntersUnburied(TombClock(x), front) || (ops[n].Enter? && !Reaches(LastTomb(TombClock(x), front), ops[n].At()));
    }
  }

  /** A tombstone later than everything else: the transaction ends rolled back, its rows marked as far as
      their clocks show as earlier, exactly if it was there before or some entry came before any tombstone as
      late as itself. Otherwise it does not exist. That rows come with their transaction is the foreign key. */
  lemma NewestTombstoneWins(x: TxData, before: seq<Op>, t: Tombstone, after: seq<Op>)
    requires (x.rows != [] ==> x.status.Some?) && !Reaches(TombClock(x), t.clock)
    requires (forall o | o in before :: Less(o.At(), t.clock)) && forall o | o in after :: !Less(t.clock, o.At())
    ensures var m, z := Run(x, before), Run(x, before + [Bury(t)] + after);
      var there := x.status.Some? || EntersUnburied(TombClock(x), before);
      && z.tomb == Some(t) && z.rows == BuriedRows(m.rows, t)
      && z.status == (if there then Some(HookTrail.ROLLED_BACK) else None)
      && (z.rows != [] <==> x.rows != [] || EntersUnburied(TombClock(x), before))
  {
    var m := Run(x, before);
    RunKeepsStamp(x, before);
    ExistsExactly(x, before);
    LastTombIsLast(TombClock(x), before);
    ClocksAreOrdered(t.clock, t.clock, t.clock);
    assert !Skips(m, Bury(t)) by {
      if TombClock(m).Some? {
        ClocksAreOrdered(t.clock, TombClock(m).value, t.clock);
      }
    }
    RunAround(x, before, Bury(t), after);
    EarlierIsSkipped(Next(m, Bury(t)), t.clock, after);
  }

  predicate Unburied(c: Option<Clock>, ops: seq<Op>, i: nat)
    requires i < |ops|
  {
    ops[i].Enter? && !Reaches(LastTomb(c, ops[..i]), ops[i].At())
  }

  predicate FirstUnburied(c: Option<Clock>, ops: seq<Op>, i: nat)
    requires i < |ops|
  {
    Unburied(c, ops, i) && forall j | 0 <= j < i :: !Unburied(c, ops, j)
  }

  ghost predicate FixedAs(x: TxData, ops: seq<Op>, rows: seq<Row>) {
    if x.rows != [] then
      |rows| == |x.rows| &&
      forall k | 0 <= k < |rows| :: rows[k].origin == x.rows[k].origin && rows[k].fixed == x.rows[k].fixed
    else rows != [] ==>
      |rows| == 1 && rows[0].origin == "PEER"
      && exists i | 0 <= i < |ops| :: FirstUnburied(TombClock(x), ops, i) && rows[0].fixed == ops[i].entry.fixed
  }

  lemma UnburiedInFront(c: Option<Clock>, ops: seq<Op>, i: nat)
    requires i < |ops| - 1
    ensures Unburied(c, ops, i) <==> Unburied(c, ops[..|ops| - 1], i)
  {
    assert ops[..|ops| - 1][..i] == ops[..i];
  }

  /** What no update touches. Rows that were there keep their origin and their fixed columns; a transaction
      that had none gets one row, from a peer, with the fixed columns of the first entry not buried when it
      came, however much later entries change. */
  lemma {:induction false} RowsKeepFixed(x: TxData, ops: seq<Op>)
    ensures FixedAs(x, ops, Run(x, ops).rows)
    ensures x.rows == [] && Run(x, ops).rows == [] ==> forall i | 0 <= i < |ops| :: !Unburied(TombClock(x), ops, i)
    decreases |ops|
  {
    if ops != [] {
      var n := |ops| - 1;
      var front := ops[..n];
      RowsKeepFixed(x, front);
      RunKeepsStamp(x, front);
      forall i | 0 <= i < n ensures Unburied(TombClock(x), ops, i) <==> Unburied(TombClock(x), front, i) {
        UnburiedInFront(TombClock(x), ops, i);
      }
      if x.rows == [] && Run(x, ops).rows != [] {
        if Run(x, front).rows == [] {
          assert FirstUnburied(TombClock(x), ops, n);
        } else {
          var i :| 0 <= i < |front| && FirstUnburied(TombClock(x), front, i)
            && Run(x, front).rows[0].fixed == front[i].entry.fixed;
          assert FirstUnburied(TombClock(x), ops, i);
        }
      }
    }
  }

  /** What a tombstone leaves of a row. */
  lemma BuriedMeans(r: Row, t: Tombstone)
    ensures var b := Buried(r, t);
      && b.origin == r.origin && b.fixed == r.fixed && b.trace == r.trace && b.clock == r.clock
      && (r.clock.Some? && ShownLess(r.clock.value, t.clock) ==>
            b.status == Some("ROLLED_BACK") && b.notes == Some("Tombstoned: " + t.reason))
      && (!(r.clock.Some? && ShownLess(r.clock.value, t.clock)) ==> b == r)
  {
  }

  lemma RunTwo(a: Op, b: Op)
    ensures Run(NOTHING, [a, b]) == Next(Next(NOTHING, a), b)
  {
    assert [a, b][..1] == [a] && [a][..0] == [];
    assert Run(NOTHING, [a]) == Next(NOTHING, a);
  }

  /** An entry and an earlier tombstone: one order leaves the transaction rolled back, the other committed,
      though the entry's row is live in both. */
  lemma OrderShowsInStatus(e: Entry, device: string, t: Tombstone)
    requires Less(t.clock, e.clock)
    ensures var y, z := Run(NOTHING, [Enter(e, device), Bury(t)]), Run(NOTHING, [Bury(t), Enter(e, device)]);
      && y.status == Some(HookTrail.ROLLED_BACK) && z.status == Some(HookTrail.COMMITTED)
      && Live(RowClock(y), TombClock(y)) == Live(RowClock(z), TombClock(z)) == Some(e.clock)
  {
    RunTwo(Enter(e, device), Bury(t));
    RunTwo(Bury(t), Enter(e, device));
    ClocksAreOrdered(t.clock, e.clock, t.clock);
  }

  /** An entry and a later tombstone: one order leaves a transaction, rolled back, with its row; the other
      leaves none. */
  lemma OrderShowsInExistence(e: Entry, device: string, t: Tombstone)
    requires Less(e.clock, t.clock)
    ensures var y, z := Run(NOTHING, [Enter(e, device), Bury(t)]), Run(NOTHING, [Bury(t), Enter(e, device)]);
      && y.status == Some(HookTrail.ROLLED_BACK) && |y.rows| == 1
      && z.status.None? && z.rows == []
  {
    RunTwo(Enter(e, device), Bury(t));
    RunTwo(Bury(t), Enter(e, device));
    ClocksAreOrdered(t.clock, e.clock, t.clock);
  }

  /** And where the text of the clocks is not in their order, the live row itself is marked rolled back. */
  lemma WidthShowsInRow(e: Entry, device: string, reason: string)
    requires e.clock.logical == 10000
    ensures var y := Run(NOTHING, [Enter(e, device), Bury(Tombstone(e.clock.(logical := 9999), reason))]);
      Live(RowClock(y), TombClock(y)) == Some(e.clock) && y.rows[0].status == Some("ROLLED_BACK")
  {
    var t := Tombstone(e.clock.(logical := 9999), reason);
    LongLogicalShowsFirst(e.clock.physical, e.clock.node);
    RunTwo(Enter(e, device), Bury(t));
    ClocksAreOrdered(t.clock, e.clock, t.clock);
  }

  // ----- bundles -----

  type Store = map<string, TxData>

  datatype Delivery = Delivery(txId: string, op: Op)

  datatype Bundle = Bundle(
    device: string, clock: Clock, tombstones: seq<(string, Tombstone)>, entries: seq<(string, Entry)>)

  datatype Db = Db(store: Store, lastApply: Option<Clock>)

  function Of(s: Store, txId: string): TxData { if txId in s then s[txId] else NOTHING }

  function Burials(b: Bundle): seq<Delivery> {
    seq(|b.tombstones|, i requires 0 <= i < |b.tombstones| => Delivery(b.tombstones[i].0, Bury(b.tombstones[i].1)))
  }

  function Entering(b: Bundle): seq<Delivery> {
    seq(|b.entries|, i requires 0 <= i < |b.entries| => Delivery(b.entries[i].0, Enter(b.entries[i].1, b.device)))
  }

  function Deliveries(b: Bundle): seq<Delivery> { Burials(b) + Entering(b) }

  function Deliver(s: Store, d: Delivery): Store {
    if Skips(Of(s, d.txId), d.op) then s else s[d.txId := Next(Of(s, d.txId), d.op)]
  }

  /** All of them, or nothing if one fails. */
  function DeliverAll(s: Store, ds: seq<Delivery>): Option<Store> {
    if ds == [] then Some(s)
    else
      var d := ds[|ds| - 1];
      match DeliverAll(s, ds[..|ds| - 1])
      case None => None
      case Some(t) => if Fails(Of(t, d.txId), d.op) then None else Some(Deliver(t, d))
  }

  function OpsFor(ds: seq<Delivery>, txId: string): seq<Op> {
    if ds == [] then []
    else
      var d := ds[|ds| - 1];
      OpsFor(ds[..|ds| - 1], txId) + if d.txId == txId then [d.op] else []
  }

  /** Each transaction sees only its own operations. */
  lemma {:induction false} DeliveriesArePointwise(s: Store, ds: seq<Delivery>, txId: string)
    requires DeliverAll(s, ds).Some?
    ensures Of(DeliverAll(s, ds).value, txId) == Run(Of(s, txId), OpsFor(ds, txId))
    decreases |ds|
  {
    if ds != [] {
      var front, d := ds[..|ds| - 1], ds[|ds| - 1];
      DeliveriesArePointwise(s, front, txId);
      DeliverTo(DeliverAll(s, front).value, d, txId);
      RunSnoc(Of(s, txId), OpsFor(front, txId), d.op);
      assert OpsFor(front, txId) + [] == OpsFor(front, txId);
    }
  }

  lemma DeliverTo(s: Store, d: Delivery, txId: string)
    ensures Of(Deliver(s, d), txId) == if d.txId == txId then Next(Of(s, txId), d.op) else Of(s, txId)
  {
  }

  lemma RunSnoc(x: TxData, ops: seq<Op>, o: Op)
    ensures Run(x, ops + [o]) == Next(Run(x, ops), o)
  {
    assert (ops + [o])[..|ops|] == ops;
  }

  /** Entry `i` comes for a transaction whose row has no clock and is not under a tombstone by then. */
  predicate Blocked(s: Store, ds: seq<Delivery>, i: nat)
    requires i < |ds|
  {
    var x := Of(s, ds[i].txId);
    && ds[i].op.Enter? && !Stamped(x)
    && !Reaches(LastTomb(TombClock(x), OpsFor(ds[..i], ds[i].txId)), ds[i].op.At())
  }

  /** A bundle fails as a whole exactly when one of its entries is blocked: the transaction has a ledger row
      that was never exported. */
  lemma {:induction false} FailsExactly(s: Store, ds: seq<Delivery>)
    ensures DeliverAll(s, ds).None? <==> exists i | 0 <= i < |ds| :: Blocked(s, ds, i)
    decreases |ds|
  {
    if ds != [] {
      var n := |ds| - 1;
      var front := ds[..n];
      FailsExactly(s, front);
      forall i | 0 <= i < n ensures Blocked(s, ds, i) <==> Blocked(s, front, i) {
        assert ds[..i] == front[..i];
      }
      if DeliverAll(s, front).Some? {
        var x, ops := Of(s, ds[n].txId), OpsFor(front, ds[n].txId);
        DeliveriesArePointwise(s, front, ds[n].txId);
        RunKeepsStamp(x, ops);
        if !Stamped(x) {
          UnstampedStays(x, ops);
        }
        assert Fails(Run(x, ops), ds[n].op) <==> Blocked(s, ds, n);
      }
    }
  }

  // ----- bundles in any order, and again -----

  /** A bundle that fails is rolled back. */
  function ApplyBundle(db: Db, b: Bundle): Db {
    match DeliverAll(db.store, Deliveries(b))
    case None => db
    case Some(s) => Db(s, Raised(db.lastApply, b.clock))
  }

  function Receive(db: Db, bundles: seq<Bundle>): Db {
    if bundles == [] then db else ApplyBundle(Receive(db, bundles[..|bundles| - 1]), bundles[|bundles| - 1])
  }

  function AllDeliveries(bundles: seq<Bundle>): seq<Delivery> {
    if bundles == [] then [] else AllDeliveries(bundles[..|bundles| - 1]) + Deliveries(bundles[|bundles| - 1])
  }

  lemma {:induction false} DeliverConcat(s: Store, a: seq<Delivery>, b: seq<Delivery>)
    requires DeliverAll(s, a).Some?
    ensures DeliverAll(s, a + b) == DeliverAll(DeliverAll(s, a).value, b)
    decreases |b|
  {
    if b == [] {
      assert a + b == a;
    } else {
      assert (a + b)[..|a + b| - 1] == a + b[..|b| - 1];
      DeliverConcat(s, a, b[..|b| - 1]);
    }
  }

  /** The bundles that did not fail, in order. */
  function Applied(db: Db, bundles: seq<Bundle>): seq<Bundle> {
    if bundles == [] then []
    else
      var front, b := bundles[..|bundles| - 1], bundles[|bundles| - 1];
      Applied(db, front) + if DeliverAll(Receive(db, front).store, Deliveries(b)).Some? then [b] else []
  }

  lemma AllDeliveriesSnoc(bundles: seq<Bundle>, b: Bundle)
    ensures AllDeliveries(bundles + [b]) == AllDeliveries(bundles) + Deliveries(b)
  {
    assert (bundles + [b])[..|bundles|] == bundles;
  }

  lemma {:induction false} ReceivedAtOnce(db: Db, bundles: seq<Bundle>)
    ensures DeliverAll(db.store, AllDeliveries(Applied(db, bundles))) == Some(Receive(db, bundles).store)
    decreases |bundles|
  {
    if bundles != [] {
      var front, b := bundles[..|bundles| - 1], bundles[|bundles| - 1];
      var applied := Applied(db, front);
      ReceivedAtOnce(db, front);
      AllDeliveriesSnoc(applied, b);
      DeliverConcat(db.store, AllDeliveries(applied), Deliveries(b));
      assert applied + [] == applied;
    }
  }

  lemma DeliveredInTwo(s: Store, a: seq<Delivery>, b: seq<Delivery>)
    requires DeliverAll(s, a + b).Some?
    ensures DeliverAll(s, a).Some? && DeliverAll(DeliverAll(s, a).value, b).Some?
  {
    assert (a + b)[..|a|] == a;
    if DeliverAll(s, a).None? {
      FailedStaysFailed(s, a + b, |a|);
    }
    DeliverConcat(s, a, b);
  }

  lemma LastIsApplied(db: Db, front: seq<Bundle>, b: Bundle)
    requires DeliverAll(db.store, AllDeliveries(front + [b])).Some?
    ensures DeliverAll(db.store, AllDeliveries(front)).Some?
    ensures Applied(db, front) == front ==> Applied(db, front + [b]) == front + [b]
  {
    AllDeliveriesSnoc(front, b);
    DeliveredInTwo(db.store, AllDeliveries(front), Deliveries(b));
    ReceivedAtOnce(db, front);
    assert (front + [b])[..|front|] == front;
  }

  lemma {:induction false} DeliveredAllApplied(db: Db, bundles: seq<Bundle>)
    requires DeliverAll(db.store, AllDeliveries(bundles)).Some?
    ensures Applied(db, bundles) == bundles
    decreases |bundles|
  {
    if bundles != [] {
      var front, b := bundles[..|bundles| - 1], bundles[|bundles| - 1];
      assert bundles == front + [b];
      LastIsApplied(db, front, b);
      DeliveredAllApplied(db, front);
    }
  }

  lemma AppliedIffDelivered(db: Db, bundles: seq<Bundle>)
    ensures Applied(db, bundles) == bundles <==> DeliverAll(db.store, AllDeliveries(bundles)).Some?
  {
    if Applied(db, bundles) == bundles {
      ReceivedAtOnce(db, bundles);
    }
    if DeliverAll(db.store, AllDeliveries(bundles)).Some? {
      DeliveredAllApplied(db, bundles);
    }
  }

  /** All bundles of a run are applied exactly when none of their entries is blocked. */
  lemma AllApplyExactly(db: Db, bundles: seq<Bundle>)
    ensures var ds := AllDeliveries(bundles);
      Applied(db, bundles) == bundles <==> !exists i | 0 <= i < |ds| :: Blocked(db.store, ds, i)
  {
    AppliedIffDelivered(db, bundles);
    FailsExactly(db.store, AllDeliveries(bundles));
  }

  /** In particular when no entry is for a transaction whose row has no clock. */
  lemma StampedAllApply(db: Db, bundles: seq<Bundle>)
    requires forall d | d in AllDeliveries(bundles) && d.op.Enter? :: Stamped(Of(db.store, d.txId))
    ensures Applied(db, bundles) == bundles
  {
    var ds := AllDeliveries(bundles);
    AllApplyExactly(db, bundles);
    forall i | 0 <= i < |ds| ensures !Blocked(db.store, ds, i) {
      assert ds[i] in ds;
    }
  }

  lemma {:induction false} OpsForHolds(ds: seq<Delivery>, txId: string, o: Op)
    ensures o in OpsFor(ds, txId) <==> Delivery(txId, o) in ds
    decreases |ds|
  {
    if ds != [] {
      OpsForHolds(ds[..|ds| - 1], txId, o);
      assert ds == ds[..|ds| - 1] + [ds[|ds| - 1]];
    }
  }

  lemma {:induction false} AllDeliveriesHolds(bundles: seq<Bundle>, d: Delivery)
    ensures d in AllDeliveries(bundles) <==> exists b :: b in bundles && d in Deliveries(b)
    decreases |bundles|
  {
    if bundles != [] {
      AllDeliveriesHolds(bundles[..|bundles| - 1], d);
      assert bundles == bundles[..|bundles| - 1] + [bundles[|bundles| - 1]];
    }
  }

  ghost predicate SameBundles(a: seq<Bundle>, b: seq<Bundle>) { forall x :: x in a <==> x in b }

  /** Two devices that agree on a transaction and then apply the same bundles, in any order and however often,
      agree on it again: on the clock of its tombstone and on which entry is live. Nothing is asked of other
      transactions, or of bundles that failed. */
  lemma BundlesConverge(db: Db, db': Db, a: seq<Bundle>, b: seq<Bundle>, txId: string)
    requires Agree(Of(db.store, txId), Of(db'.store, txId)) && SameBundles(Applied(db, a), Applied(db', b))
    ensures var y, z := Of(Receive(db, a).store, txId), Of(Receive(db', b).store, txId);
      TombClock(y) == TombClock(z) && Live(RowClock(y), TombClock(y)) == Live(RowClock(z), TombClock(z))
  {
    var ds, es := AllDeliveries(Applied(db, a)), AllDeliveries(Applied(db', b));
    ReceivedAtOnce(db, a);
    ReceivedAtOnce(db', b);
    DeliveriesArePointwise(db.store, ds, txId);
    DeliveriesArePointwise(db'.store, es, txId);
    forall o ensures o in OpsFor(ds, txId) <==> o in OpsFor(es, txId) {
      OpsForHolds(ds, txId, o);
      OpsForHolds(es, txId, o);
      AllDeliveriesHolds(Applied(db, a), Delivery(txId, o));
      AllDeliveriesHolds(Applied(db', b), Delivery(txId, o));
    }
    OrderDoesNotMatter(Of(db.store, txId), Of(db'.store, txId), OpsFor(ds, txId), OpsFor(es, txId));
  }

  datatype Report = Report(inserted: nat, updated: nat, skipped: nat)

  function Counted(r: Report, x: TxData, o: Op): Report {
    if Skips(x, o) then r.(skipped := r.skipped + 1)
    else if x.rows == [] then r.(inserted := r.inserted + 1)
    else r.(updated := r.updated + 1)
  }

  /** What becomes of each entry of `ds`. */
  function Tally(s: Store, ds: seq<Delivery>): Report {
    if ds == [] then Report(0, 0, 0)
    else
      var front, d := ds[..|ds| - 1], ds[|ds| - 1];
      match DeliverAll(s, front)
      case None => Tally(s, front)
      case Some(t) => Counted(Tally(s, front), Of(t, d.txId), d.op)
  }

  /** One entry is counted by what it does: skipped if nothing changes, inserted if the transaction gets its
      first row, updated if it had one and now has the clock of the entry. */
  lemma CountsByEffect(s: Store, txId: string, e: Entry, device: string)
    requires !Fails(Of(s, txId), Enter(e, device))
    ensures var d := Delivery(txId, Enter(e, device));
      var (r, before, after) := (Counted(Report(0, 0, 0), Of(s, txId), d.op), Of(s, txId), Of(Deliver(s, d), txId));
      && r.inserted + r.updated + r.skipped == 1
      && (r.skipped == 1 <==> Deliver(s, d) == s)
      && (r.inserted == 1 <==> before.rows == [] && after.rows != [])
      && (r.updated == 1 <==> before.rows != [] && after.rows != before.rows && RowClock(after) == Some(e.clock))
  {
    var x := Of(s, txId);
    if x.rows != [] && !Skips(x, Enter(e, device)) {
      ClocksAreOrdered(e.clock, e.clock, e.clock);
      assert Next(x, Enter(e, device)).rows[0].clock == Some(e.clock) != x.rows[0].clock;
    }
  }

  lemma {:induction false} SkippedAll(s: Store, ds: seq<Delivery>)
    requires forall d | d in ds :: Skips(Of(s, d.txId), d.op)
    ensures DeliverAll(s, ds) == Some(s) && Tally(s, ds) == Report(0, 0, |ds|)
    decreases |ds|
  {
    if ds != [] {
      assert ds[|ds| - 1] in ds;
      SkippedAll(s, ds[..|ds| - 1]);
    }
  }

  lemma ApplyRaises(db: Db, b: Bundle)
    ensures var after := ApplyBundle(db, b).lastApply;
      && (forall least | Reaches(db.lastApply, least) :: Reaches(after, least))
      && (DeliverAll(db.store, Deliveries(b)).Some? ==> Reaches(after, b.clock))
  {
    RaisedReaches(db.lastApply, b.clock);
  }

  lemma {:induction false} LastApplyIsLast(db: Db, bundles: seq<Bundle>)
    ensures forall b | b in Applied(db, bundles) :: Reaches(Receive(db, bundles).lastApply, b.clock)
    decreases |bundles|
  {
    if bundles != [] {
      LastApplyIsLast(db, bundles[..|bundles| - 1]);
      ApplyRaises(Receive(db, bundles[..|bundles| - 1]), bundles[|bundles| - 1]);
    }
  }

  /** What has been delivered once is skipped for ever after. */
  lemma {:induction false} DeliveredIsSkipped(s: Store, ds: seq<Delivery>, d: Delivery)
    requires DeliverAll(s, ds).Some? && d in ds
    ensures Skips(Of(DeliverAll(s, ds).value, d.txId), d.op)
    decreases |ds|
  {
    var front, last := ds[..|ds| - 1], ds[|ds| - 1];
    var before := DeliverAll(s, front).value;
    DeliverTo(before, last, d.txId);
    StepsAbsorb(Of(before, d.txId), last.op, d.op);
    if d != last {
      DeliveredIsSkipped(s, front, d);
    }
  }

  /** A bundle that has been applied and arrives again, at once or after any others, applied or not, changes
      nothing and reports all as skipped. */
  lemma ReapplyChangesNothing(db: Db, bundles: seq<Bundle>, b: Bundle)
    requires b in Applied(db, bundles)
    ensures var now := Receive(db, bundles);
      && ApplyBundle(now, b) == now && DeliverAll(now.store, Burials(b)) == Some(now.store)
      && Tally(now.store, Entering(b)) == Report(0, 0, |b.entries|)
  {
    var now, ds := Receive(db, bundles), AllDeliveries(Applied(db, bundles));
    ReceivedAtOnce(db, bundles);
    forall d | d in Deliveries(b) ensures Skips(Of(now.store, d.txId), d.op) {
      AllDeliveriesHolds(Applied(db, bundles), d);
      DeliveredIsSkipped(db.store, ds, d);
    }
    SkippedAll(now.store, Deliveries(b));
    forall d | d in Burials(b) || d in Entering(b) ensures d in Deliveries(b) {
    }
    SkippedAll(now.store, Burials(b));
    SkippedAll(now.store, Entering(b));
    LastApplyIsLast(db, bundles);
  }

  /** A bundle that fails in one order only makes the devices differ: `x` has an entry for a transaction whose
      row has no clock, and one for another transaction; `y` has a later tombstone for the first. If `y` comes
      first all is applied, if `x` comes first it fails, and the other entry is missing. */
  lemma BlockedBundleDiverges(row: Row, e: Entry, f: Entry, t: Tombstone, c: Clock)
    requires row.clock.None? && Less(e.clock, t.clock)
    ensures var db := Db(map["t" := TxData(None, Some(HookTrail.COMMITTED), [row])], None);
      var x, y := Bundle("d", c, [], [("t", e), ("u", f)]), Bundle("d", c, [("t", t)], []);
      && Applied(db, [y, x]) == [y, x] && Of(Receive(db, [y, x]).store, "u").rows == [Inserted(f, "d")]
      && Applied(db, [x, y]) == [y] && Of(Receive(db, [x, y]).store, "u") == NOTHING
  {
    var db := Db(map["t" := TxData(None, Some(HookTrail.COMMITTED), [row])], None);
    var x, y := Bundle("d", c, [], [("t", e), ("u", f)]), Bundle("d", c, [("t", t)], []);
    var te, uf, tt := Delivery("t", Enter(e, "d")), Delivery("u", Enter(f, "d")), Delivery("t", Bury(t));
    var buried := Deliver(db.store, tt);
    ClocksAreOrdered(e.clock, t.clock, e.clock);
    assert Deliveries(x) == [te] + [uf] && Deliveries(y) == [tt];
    DeliverOne(db.store, tt);
    DeliverOne(db.store, te);
    DeliverOne(buried, te);
    DeliverOne(buried, uf);
    assert ([te] + [uf])[..1] == [te];
    ReceiveTwo(db, y, x);
    ReceiveTwo(db, x, y);
  }

  /** Within a bundle tombstones come first: an entry it buries itself never gets in. */
  lemma TombstonesComeFirst(e: Entry, t: Tombstone, c: Clock)
    requires !Less(t.clock, e.clock)
    ensures var db := ApplyBundle(Db(map[], None), Bundle("d", c, [("t", t)], [("t", e)]));
      Of(db.store, "t") == TxData(Some(t), None, []) && db.lastApply == Some(c)
  {
    var b := Bundle("d", c, [("t", t)], [("t", e)]);
    var tt, te := Delivery("t", Bury(t)), Delivery("t", Enter(e, "d"));
    assert Deliveries(b) == [tt] + [te];
    DeliverOne(map[], tt);
    DeliverOne(Deliver(map[], tt), te);
    assert ([tt] + [te])[..1] == [tt];
    assert BuriedRows([], t) == [];
  }

  lemma DeliverOne(s: Store, d: Delivery)
    ensures DeliverAll(s, [d]) == if Fails(Of(s, d.txId), d.op) then None else Some(Deliver(s, d))
  {
    assert [d][..0] == [];
  }

  lemma ReceiveTwo(db: Db, a: Bundle, b: Bundle)
    ensures Receive(db, [a, b]) == ApplyBundle(ApplyBundle(db, a), b)
    ensures Applied(db, [a, b]) ==
      (if DeliverAll(db.store, Deliveries(a)).Some? then [a] else [])
      + (if DeliverAll(ApplyBundle(db, a).store, Deliveries(b)).Some? then [b] else [])
  {
    assert [a, b][..1] == [a] && [a][..0] == [];
    assert Receive(db, [a]) == ApplyBundle(db, a);
    assert Applied(db, [a]) == if DeliverAll(db.store, Deliveries(a)).Some? then [a] else [];
  }

  // ----- the loops of the program -----

  lemma DeliverNext(s: Store, ds: seq<Delivery>, i: nat, t: Store)
    requires i < |ds| && DeliverAll(s, ds[..i]) == Some(t)
    ensures var x := Of(t, ds[i].txId);
      && DeliverAll(s, ds[..i + 1]) == (if Fails(x, ds[i].op) then None else Some(Deliver(t, ds[i])))
      && Tally(s, ds[..i + 1]) == Counted(Tally(s, ds[..i]), x, ds[i].op)
  {
    assert ds[..i + 1][..i] == ds[..i];
  }

  lemma {:induction false} FailedStaysFailed(s: Store, ds: seq<Delivery>, i: nat)
    requires i <= |ds| && DeliverAll(s, ds[..i]).None?
    ensures DeliverAll(s, ds).None?
    decreases |ds|
  {
    if i < |ds| {
      assert ds[..|ds| - 1][..i] == ds[..i];
      FailedStaysFailed(s, ds[..|ds| - 1], i);
    } else {
      assert ds[..i] == ds;
    }
  }

  method ProcessTombstone(s: Store, txId: string, t: Tombstone) returns (tx: Store)
    ensures tx == Deliver(s, Delivery(txId, Bury(t)))
  {
    var x := Of(s, txId);
    tx := s;
    if x.tomb.None? || Less(x.tomb.value.clock, t.clock) {
      var status := if x.status.Some? then Some(HookTrail.ROLLED_BACK) else None;
      tx := s[txId := TxData(Some(t), status, BuriedRows(x.rows, t))];
    }
  }

  method ProcessEntry(s: Store, txId: string, e: Entry, device: string, report0: Report)
    returns (tx: Store, report: Report, ok: bool)
    ensures ok <==> !Fails(Of(s, txId), Enter(e, device))
    ensures ok ==> tx == Deliver(s, Delivery(txId, Enter(e, device)))
    ensures ok ==> report == Counted(report0, Of(s, txId), Enter(e, device))
  {
    var x := Of(s, txId);
    tx, report, ok := s, report0, true;
    if x.tomb.Some? && !Less(x.tomb.value.clock, e.clock) {
      report := report.(skipped := report.skipped + 1);
    } else if x.rows != [] {
      if x.rows[0].clock.None? {
        ok := false;
      } else if Less(x.rows[0].clock.value, e.clock) {
        tx := s[txId := x.(status := Some(HookTrail.COMMITTED), rows := UpdatedRows(x.rows, e, device))];
        report := report.(updated := report.updated + 1);
      } else {
        report := report.(skipped := report.skipped + 1);
      }
    } else {
      var status := if x.status.Some? then x.status else Some(HookTrail.COMMITTED);
      tx := s[txId := x.(status := status, rows := [Inserted(e, device)])];
      report := report.(inserted := report.inserted + 1);
    }
  }

  method ProcessTombstones(s: Store, b: Bundle) returns (tx: Store)
    ensures DeliverAll(s, Burials(b)) == Some(tx)
  {
    ghost var ds := Burials(b);
    tx := s;
    for i := 0 to |b.tombstones|
      invariant DeliverAll(s, ds[..i]) == Some(tx)
    {
      DeliverNext(s, ds, i, tx);
      tx := ProcessTombstone(tx, b.tombstones[i].0, b.tombstones[i].1);
    }
    assert ds[..|b.tombstones|] == ds;
  }

  method ProcessEntries(s: Store, b: Bundle) returns (tx: Store, report: Report, ok: bool)
    ensures DeliverAll(s, Entering(b)) == if ok then Some(tx) else None
    ensures ok ==> report == Tally(s, Entering(b))
  {
    ghost var ds := Entering(b);
    tx, report, ok := s, Report(0, 0, 0), true;
    for i := 0 to |b.entries|
      invariant DeliverAll(s, ds[..i]) == Some(tx) && Tally(s, ds[..i]) == report && ok
    {
      DeliverNext(s, ds, i, tx);
      tx, report, ok := ProcessEntry(tx, b.entries[i].0, b.entries[i].1, b.device, report);
      if !ok {
        FailedStaysFailed(s, ds, i + 1);
        return;
      }
    }
    assert ds[..|b.entries|] == ds;
  }

  class SyncDb {
    var store: Store
    var lastApply: Option<Clock>

    constructor (s: Store, c: Option<Clock>)
      ensures store == s && lastApply == c
    {
      store, lastApply := s, c;
    }

    /** One database transaction: everything is done on its own copy until it commits. */
    method Apply(b: Bundle) returns (r: Result<Report, string>)
      modifies this
      ensures Db(store, lastApply) == ApplyBundle(old(Db(store, lastApply)), b)
      ensures r.Ok? <==> DeliverAll(old(store), Deliveries(b)).Some?
      ensures var s := DeliverAll(old(store), Burials(b));
        s.Some? && (r.Ok? ==> r.value == Tally(s.value, Entering(b)))
    {
      var tx := ProcessTombstones(store, b);
      DeliverConcat(store, Burials(b), Entering(b));
      var after, report, ok := ProcessEntries(tx, b);
      if !ok {
        return Err("Invalid column type Null");
      }
      store := after;
      if lastApply.None? || Less(lastApply.value, b.clock) {
        lastApply := Some(b.clock);
      }
      r := Ok(report);
    }
  }
}
