/**
  The import command on disk: it loads the bridge state, runs the automaton over the file, merges what it
  accepted into the impact report and then saves the state. Both files are written whole and may be torn.
 */
module BridgeCommand {
  import opened Wrappers
  import opened Text
  import opened BridgeModel
  import opened HotspotMerge
  import opened BridgePacket
  import opened BridgeImport

  /** The functions that are parameters: the record hash, the JSON parser, and those of the hotspot merge. */
  datatype Program = Program(hash: Hasher, parse: Parser, codec: Codec)

  datatype Report = CleanTree | Impact(packet: Packet)

  datatype Disk = Disk(state: JsonFile<BridgeState>, report: JsonFile<Report>)

  const NO_STATE := BridgeState(None, None, None)

  /** A missing state file is the default state; a torn one stops the command. */
  function Loaded(f: JsonFile<BridgeState>): Option<BridgeState> {
    match f
    case Absent => Some(NO_STATE)
    case Torn => None
    case Holds(s) => Some(s)
  }

  datatype ImportEnv = ImportEnv(
    stateReads: bool, fileReads: bool, reportReads: bool, reportWrite: WriteFault, stateWrite: WriteFault)

  datatype Stage = LoadingState | ReadingInput | ReadingReport | WritingReport | WritingState

  datatype ImportResult = Imported | NothingImported | RejectedAll | Failed(at: Stage)

  /** The report after a merge; a clean-tree tombstone or a missing report is left alone. */
  function MergedReport(c: Codec, report: JsonFile<Report>, b: Batch, w: WriteFault): JsonFile<Report> {
    match report
    case Holds(Impact(p)) => WriteFile(report, Impact(Merge(c, p, b)), w)
    case _ => report
  }

  predicate HasPacket(report: JsonFile<Report>) { report.Holds? && report.value.Impact? }

  function ImportCommand(x: Program, d: Disk, lines: seq<string>, e: ImportEnv): (Disk, ImportResult) {
    if !e.stateReads || d.state.Torn? then (d, Failed(LoadingState))
    else
      var p := ImportLines(x.hash, x.parse, Start(Loaded(d.state).value), lines);
      if !e.fileReads then (d, Failed(ReadingInput))
      else if p.accepted == [] then (d, if p.rejected > 0 then RejectedAll else NothingImported)
      else if !e.reportReads || d.report.Torn? then (d, Failed(ReadingReport))
      else
        var d1 := d.(report := MergedReport(x.codec, d.report, Collected(p.accepted), e.reportWrite));
        if HasPacket(d.report) && e.reportWrite != Written then (d1, Failed(WritingReport))
        else (d1.(state := WriteFile(d.state, p.state, e.stateWrite)),
              if e.stateWrite == Written then Imported else Failed(WritingState))
  }

  // ----- runs of imports -----

  datatype Import = Import(lines: seq<string>, env: ImportEnv)

  function After(x: Program, d: Disk, i: Import): Disk {
    ImportCommand(x, d, i.lines, i.env).0
  }

  function ResultOf(x: Program, d: Disk, i: Import): ImportResult {
    ImportCommand(x, d, i.lines, i.env).1
  }

  function RunImports(x: Program, d: Disk, imports: seq<Import>): Disk
    decreases imports
  {
    if imports == [] then d else RunImports(x, After(x, d, imports[0]), imports[1..])
  }

  /** The lines of the imports that did not fail, in order. */
  function SurvivingLines(x: Program, d: Disk, imports: seq<Import>): seq<string>
    decreases imports
  {
    if imports == [] then []
    else
      (if ResultOf(x, d, imports[0]).Failed? then [] else imports[0].lines)
      + SurvivingLines(x, After(x, d, imports[0]), imports[1..])
  }

  /** Some write of the state is cut short. */
  predicate TearsState(x: Program, d: Disk, imports: seq<Import>)
    decreases imports
  {
    imports != [] &&
    ((ResultOf(x, d, imports[0]) == Failed(WritingState) && imports[0].env.stateWrite == CutShort)
     || TearsState(x, After(x, d, imports[0]), imports[1..]))
  }

  lemma {:induction false} TornStaysTorn(x: Program, d: Disk, imports: seq<Import>)
    requires d.state.Torn?
    ensures RunImports(x, d, imports) == d
    ensures SurvivingLines(x, d, imports) == []
    ensures !TearsState(x, d, imports)
    decreases imports
  {
    if imports != [] {
      TornStaysTorn(x, d, imports[1..]);
    }
  }

  /** One import, seen from the state: it advances with the lines, stays, or is torn. */
  lemma ImportAdvances(x: Program, d: Disk, i: Import)
    requires !d.state.Torn?
    ensures var p := ImportLines(x.hash, x.parse, Start(Loaded(d.state).value), i.lines);
      var (d', r) := (After(x, d, i), ResultOf(x, d, i));
      if r == Failed(WritingState) && i.env.stateWrite == CutShort then d'.state == Torn
      else if r.Failed? then d'.state == d.state
      else !d'.state.Torn? && Loaded(d'.state) == Some(p.state)
  {
    var s := Loaded(d.state).value;
    if ImportLines(x.hash, x.parse, Start(s), i.lines).accepted == [] {
      NothingAcceptedChangesNothing(x.hash, x.parse, s, i.lines);
    }
  }

  /** What the state file holds after a run: torn if a write of it was cut short, else the state of `p`. */
  predicate Leaves(d: Disk, torn: bool, s: BridgeState) {
    if torn then d.state.Torn? else !d.state.Torn? && Loaded(d.state) == Some(s)
  }

  /** Any sequence of imports, whatever fails, leaves the state that one import of the lines of those that
      did not fail would leave, with a chain unbroken across files; or a torn state file, exactly if a write
      of it was cut short. */
  lemma {:induction false} RunIsOneImport(x: Program, d: Disk, imports: seq<Import>)
    requires !d.state.Torn?
    ensures var s := Loaded(d.state).value;
      var p := ImportLines(x.hash, x.parse, Start(s), SurvivingLines(x, d, imports));
      && Leaves(RunImports(x, d, imports), TearsState(x, d, imports), p.state)
      && Consistent(x.hash, s, p)
    decreases imports
  {
    var s := Loaded(d.state).value;
    ImportIsLinked(x.hash, x.parse, s, SurvivingLines(x, d, imports));
    if imports != [] {
      var d', rest := After(x, d, imports[0]), imports[1..];
      ImportAdvances(x, d, imports[0]);
      if d'.state.Torn? {
        TornStaysTorn(x, d', rest);
      } else {
        RunIsOneImport(x, d', rest);
        var later := SurvivingLines(x, d', rest);
        if ResultOf(x, d, imports[0]).Failed? {
          assert [] + later == later;
        } else {
          TwoImportsAreOne(x.hash, x.parse, s, imports[0].lines, later);
        }
      }
    }
  }

  lemma PrivacyNeverLoosens(x: Program, d: Disk, imports: seq<Import>)
    requires d.state.Holds? && d.state.value.privacy.Some? && !TearsState(x, d, imports)
    ensures var s := Loaded(RunImports(x, d, imports).state);
      s.Some? && s.value.privacy.Some? && NoLooser(d.state.value.privacy.value, s.value.privacy.value)
  {
    RunIsOneImport(x, d, imports);
    var s := d.state.value;
    StrictestIsStrictest(s.privacy, ImportLines(x.hash, x.parse, Start(s), SurvivingLines(x, d, imports)).accepted);
  }

  /** The privacy stored after a run, by name: the strictest of the one stored before and those of the records
      accepted by the imports that did not fail. */
  lemma StrictestWins(x: Program, d: Disk, imports: seq<Import>)
    requires !d.state.Torn? && !TearsState(x, d, imports)
    ensures var stored := if d.state.Holds? then d.state.value.privacy else None;
      var after := RunImports(x, d, imports).state;
      && !after.Torn?
      && IsStrictestSeen(stored, AcceptedOverall(x, d, imports), if after.Holds? then after.value.privacy else None)
  {
    var s := Loaded(d.state).value;
    RunIsOneImport(x, d, imports);
    StrictestByName(s.privacy, AcceptedOverall(x, d, imports));
  }

  // ----- what reaches the report -----

  function AcceptedBy(x: Program, d: Disk, i: Import): seq<BridgeRecord>
    requires !d.state.Torn?
  {
    ImportLines(x.hash, x.parse, Start(Loaded(d.state).value), i.lines).accepted
  }

  /** The import got past the report: its records are merged, whether or not the state is saved. */
  predicate Merges(x: Program, d: Disk, i: Import) {
    ResultOf(x, d, i) == Imported || ResultOf(x, d, i) == Failed(WritingState)
  }

  /** The records merged by the imports of a run, in order. */
  function Applied(x: Program, d: Disk, imports: seq<Import>): seq<BridgeRecord>
    decreases imports
  {
    if imports == [] then []
    else
      (if Merges(x, d, imports[0]) then AcceptedBy(x, d, imports[0]) else [])
      + Applied(x, After(x, d, imports[0]), imports[1..])
  }

  predicate TearsReport(x: Program, d: Disk, imports: seq<Import>)
    decreases imports
  {
    imports != [] &&
    ((ResultOf(x, d, imports[0]) == Failed(WritingReport) && imports[0].env.reportWrite == CutShort)
     || TearsReport(x, After(x, d, imports[0]), imports[1..]))
  }

  lemma {:induction false} NothingApplied(x: Program, d: Disk, imports: seq<Import>)
    requires d.state.Torn? || d.report.Torn?
    ensures RunImports(x, d, imports).report == d.report && !TearsReport(x, d, imports)
    ensures Applied(x, d, imports) == []
    decreases imports
  {
    if imports != [] {
      NothingApplied(x, After(x, d, imports[0]), imports[1..]);
    }
  }

  /** The report ends with exactly what the imports that got past it collected, or torn, exactly if a write
      of it was cut short. */
  lemma {:induction false} ReportHoldsApplied(x: Program, d: Disk, imports: seq<Import>)
    requires HasPacket(d.report)
    ensures RunImports(x, d, imports).report ==
      if TearsReport(x, d, imports) then Torn
      else Holds(Impact(Merge(x.codec, d.report.value.packet, Collected(Applied(x, d, imports)))))
    decreases imports
  {
    if imports == [] {
      MergeNothing(x.codec, d.report.value.packet);
    } else {
      var d', rest := After(x, d, imports[0]), imports[1..];
      if d'.report.Torn? {
        NothingApplied(x, d', rest);
      } else {
        ReportHoldsApplied(x, d', rest);
        var first := if Merges(x, d, imports[0]) then AcceptedBy(x, d, imports[0]) else [];
        MergeNothing(x.codec, d.report.value.packet);
        MergeInTwo(x.codec, d.report.value.packet, Collected(first), Collected(Applied(x, d', rest)));
        CollectedConcat(first, Applied(x, d', rest));
      }
    }
  }

  /** A clean-tree report, or none, is left as it is. */
  lemma OtherReportsStay(x: Program, d: Disk, i: Import)
    requires !HasPacket(d.report)
    ensures After(x, d, i).report == d.report && ResultOf(x, d, i) != Failed(WritingReport)
  {
  }

  /** What the command says: nothing accepted is "rejected" exactly if some record was, and the state is saved
      exactly when it says imported. */
  lemma ResultMeans(x: Program, d: Disk, i: Import)
    requires !d.state.Torn?
    ensures var p := ImportLines(x.hash, x.parse, Start(Loaded(d.state).value), i.lines);
      var r := ResultOf(x, d, i);
      && (r == RejectedAll ==> p.accepted == [] && p.rejected > 0 && After(x, d, i) == d)
      && (r == NothingImported ==> p.accepted == [] && p.rejected == 0 && After(x, d, i) == d)
      && (r == Imported ==> p.accepted != [] && After(x, d, i).state == Holds(p.state))
      && (r == Failed(LoadingState) <==> !i.env.stateReads)
      && (r == Failed(ReadingInput) <==> i.env.stateReads && !i.env.fileReads)
      && (r == Failed(ReadingReport) <==>
            i.env.stateReads && i.env.fileReads && p.accepted != [] && (!i.env.reportReads || d.report.Torn?))
  {
  }

  // ----- when the report agrees with the state -----

  /** The import merged its records into the report and then failed to save the state. */
  predicate Unsaved(x: Program, d: Disk, i: Import) {
    ResultOf(x, d, i) == Failed(WritingState)
  }

  /** An unsaved import added an insight, a verification or a decision. */
  predicate ExtendsInVain(x: Program, d: Disk, imports: seq<Import>)
    decreases imports
  {
    imports != [] &&
    ((Unsaved(x, d, imports[0]) && Collected(AcceptedBy(x, d, imports[0])).Extending() > 0)
     || ExtendsInVain(x, After(x, d, imports[0]), imports[1..]))
  }

  /** The records of the imports that did not fail. */
  function AcceptedOverall(x: Program, d: Disk, imports: seq<Import>): seq<BridgeRecord>
    requires !d.state.Torn?
  {
    ImportLines(x.hash, x.parse, Start(Loaded(d.state).value), SurvivingLines(x, d, imports)).accepted
  }

  function AcceptedAfter(x: Program, d: Disk, imports: seq<Import>): seq<BridgeRecord> {
    if d.state.Torn? then [] else AcceptedOverall(x, d, imports)
  }

  function ScoreIn(x: Program, rs: seq<BridgeRecord>, key: string): Option<real> {
    LastScore(x.codec, Collected(rs).hotspots, key)
  }

  /** The score an unsaved import gave `key` that no later saved import gave another. */
  function UnsavedScore(x: Program, d: Disk, imports: seq<Import>, key: string): Option<real>
    decreases imports
  {
    if imports == [] then None
    else
      var d', rest := After(x, d, imports[0]), imports[1..];
      if UnsavedScore(x, d', rest, key).Some? then UnsavedScore(x, d', rest, key)
      else if ScoreIn(x, AcceptedAfter(x, d', rest), key).Some? || !Unsaved(x, d, imports[0]) then None
      else ScoreIn(x, AcceptedBy(x, d, imports[0]), key)
  }

  lemma AcceptedStep(x: Program, d: Disk, imports: seq<Import>)
    requires !d.state.Torn? && imports != []
    ensures var rest := AcceptedAfter(x, After(x, d, imports[0]), imports[1..]);
      AcceptedOverall(x, d, imports) ==
        if ResultOf(x, d, imports[0]).Failed? then rest else AcceptedBy(x, d, imports[0]) + rest
  {
    var s, d' := Loaded(d.state).value, After(x, d, imports[0]);
    var later := SurvivingLines(x, d', imports[1..]);
    ImportAdvances(x, d, imports[0]);
    if d'.state.Torn? {
      TornStaysTorn(x, d', imports[1..]);
    } else {
      TwoImportsAreOne(x.hash, x.parse, s, imports[0].lines, later);
    }
    assert [] + later == later;
  }

  lemma {:induction false} NothingInVainOnTorn(x: Program, d: Disk, imports: seq<Import>, key: string)
    requires d.state.Torn?
    ensures !ExtendsInVain(x, d, imports) && UnsavedScore(x, d, imports, key).None?
    decreases imports
  {
    if imports != [] {
      NothingInVainOnTorn(x, d, imports[1..], key);
    }
  }

  /** What was merged against what was accepted: more entries, exactly by the unsaved imports. */
  lemma {:induction false} AppliedExtends(x: Program, d: Disk, imports: seq<Import>)
    requires !d.state.Torn?
    ensures var applied, accepted := Collected(Applied(x, d, imports)), Collected(AcceptedOverall(x, d, imports));
      if ExtendsInVain(x, d, imports) then applied.Extending() > accepted.Extending()
      else applied == accepted.(hotspots := applied.hotspots)
    decreases imports
  {
    if imports != [] {
      var d', rest, own := After(x, d, imports[0]), imports[1..], AcceptedBy(x, d, imports[0]);
      AcceptedStep(x, d, imports);
      if d'.state.Torn? {
        NothingApplied(x, d', rest);
        NothingInVainOnTorn(x, d', rest, "");
      } else {
        AppliedExtends(x, d', rest);
      }
      CollectedConcat(own, Applied(x, d', rest));
      CollectedConcat(own, AcceptedAfter(x, d', rest));
      assert [] + Applied(x, d', rest) == Applied(x, d', rest);
    }
  }

  /** The last score merged for a path: that of an unsaved import, if it was the last, else the accepted one. */
  lemma {:induction false} AppliedScore(x: Program, d: Disk, imports: seq<Import>, key: string)
    requires !d.state.Torn?
    ensures ScoreIn(x, Applied(x, d, imports), key) ==
      if UnsavedScore(x, d, imports, key).Some? then UnsavedScore(x, d, imports, key)
      else ScoreIn(x, AcceptedOverall(x, d, imports), key)
    decreases imports
  {
    if imports != [] {
      var d', rest, own := After(x, d, imports[0]), imports[1..], AcceptedBy(x, d, imports[0]);
      AcceptedStep(x, d, imports);
      if d'.state.Torn? {
        NothingApplied(x, d', rest);
        NothingInVainOnTorn(x, d', rest, key);
      } else {
        AppliedScore(x, d', rest, key);
      }
      ScoreConcat(x, own, Applied(x, d', rest), key);
      ScoreConcat(x, own, AcceptedAfter(x, d', rest), key);
      assert [] + Applied(x, d', rest) == Applied(x, d', rest);
    }
  }

  lemma ScoreConcat(x: Program, a: seq<BridgeRecord>, b: seq<BridgeRecord>, key: string)
    ensures ScoreIn(x, a + b, key) == if ScoreIn(x, b, key).Some? then ScoreIn(x, b, key) else ScoreIn(x, a, key)
  {
    CollectedConcat(a, b);
    LastScoreConcat(x.codec, Collected(a).hotspots, Collected(b).hotspots, key);
  }

  /** No unsaved import scored the row last, or the score it gave is the last one accepted for it, or, if
      none was, the one the row had before the run. */
  predicate RowSettled(x: Program, d: Disk, imports: seq<Import>, row: HotspotRow)
    requires !d.state.Torn?
  {
    var c, key := x.codec, x.codec.normalizePath(row.path);
    match UnsavedScore(x, d, imports, key)
    case None => true
    case Some(score) =>
      match ScoreIn(x, AcceptedOverall(x, d, imports), key)
      case Some(accepted) => c.cast(score) == c.cast(accepted)
      case None => row.score == c.cast(score) && row.displayScore == c.display(c.cast(score))
  }

  predicate RowsSettled(x: Program, d: Disk, imports: seq<Import>, rows: seq<HotspotRow>)
    requires !d.state.Torn?
  {
    forall i | 0 <= i < |rows| :: RowSettled(x, d, imports, rows[i])
  }

  lemma RowAgreesExactly(x: Program, d: Disk, imports: seq<Import>, row: HotspotRow)
    requires !d.state.Torn?
    ensures MergedRow(x.codec, Collected(Applied(x, d, imports)).hotspots, row)
         == MergedRow(x.codec, Collected(AcceptedOverall(x, d, imports)).hotspots, row)
        <==> RowSettled(x, d, imports, row)
  {
    AppliedScore(x, d, imports, x.codec.normalizePath(row.path));
  }

  lemma RowsAgreeExactly(x: Program, d: Disk, imports: seq<Import>, rows: seq<HotspotRow>)
    requires !d.state.Torn?
    ensures MergedRows(x.codec, Collected(Applied(x, d, imports)).hotspots, rows)
         == MergedRows(x.codec, Collected(AcceptedOverall(x, d, imports)).hotspots, rows)
        <==> RowsSettled(x, d, imports, rows)
  {
    var a := MergedRows(x.codec, Collected(Applied(x, d, imports)).hotspots, rows);
    var b := MergedRows(x.codec, Collected(AcceptedOverall(x, d, imports)).hotspots, rows);
    forall i | 0 <= i < |rows| ensures a[i] == b[i] <==> RowSettled(x, d, imports, rows[i]) {
      RowAgreesExactly(x, d, imports, rows[i]);
    }
  }

  /** The report agrees with the state, holding just what the accepted records amount to, exactly when no
      unsaved import added an insight, a verification or a decision, and every row an unsaved import was the
      last to score has the score it would have without that import. */
  lemma ReportAgreesExactly(x: Program, d: Disk, imports: seq<Import>)
    requires !d.state.Torn? && HasPacket(d.report) && !TearsReport(x, d, imports)
    ensures var p := d.report.value.packet;
      RunImports(x, d, imports).report
        == Holds(Impact(Merge(x.codec, p, Collected(AcceptedOverall(x, d, imports)))))
      <==> (!ExtendsInVain(x, d, imports) && RowsSettled(x, d, imports, p.hotspots))
  {
    ReportHoldsApplied(x, d, imports);
    AppliedExtends(x, d, imports);
    RowsAgreeExactly(x, d, imports, d.report.value.packet.hotspots);
    MergedSize(x.codec, d.report.value.packet, Collected(Applied(x, d, imports)));
    MergedSize(x.codec, d.report.value.packet, Collected(AcceptedOverall(x, d, imports)));
  }

  lemma MergedSize(c: Codec, p: Packet, b: Batch)
    ensures Merge(c, p, b).Size() == p.Size() + b.Extending()
  {
  }

  const FAULTLESS := ImportEnv(true, true, true, Written, Written)

  /** A failed save and a retry: the state moves once. The rows are those of one merge, but the three vectors
      are extended twice, so the report is not that of one import if any record extends them. */
  lemma RetryMergesTwice(x: Program, d: Disk, lines: seq<string>)
    requires !d.state.Torn? && HasPacket(d.report)
    requires Collected(AcceptedBy(x, d, Import(lines, FAULTLESS))).Extending() > 0
    ensures var b := Collected(AcceptedBy(x, d, Import(lines, FAULTLESS)));
      var p := d.report.value.packet;
      var d' := RunImports(x, d, [Import(lines, FAULTLESS.(stateWrite := Refused)), Import(lines, FAULTLESS)]);
      && d'.state == Holds(ImportLines(x.hash, x.parse, Start(Loaded(d.state).value), lines).state)
      && d'.report == Holds(Impact(Merge(x.codec, Merge(x.codec, p, b), b)))
      && d'.report.value.packet.hotspots == Merge(x.codec, p, b).hotspots
      && d'.report.value.packet.Size() == Merge(x.codec, p, b).Size() + b.Extending()
  {
    var b := Collected(AcceptedBy(x, d, Import(lines, FAULTLESS)));
    RetryRun(x, d, lines);
    MergeTwiceIsOnce(x.codec, b.hotspots, d.report.value.packet.hotspots);
  }

  /** Hotspot records alone: the retry leaves exactly the report of one import. */
  lemma RetryOfHotspotsIsHarmless(x: Program, d: Disk, lines: seq<string>)
    requires !d.state.Torn? && HasPacket(d.report)
    requires AcceptedBy(x, d, Import(lines, FAULTLESS)) != []
    requires Collected(AcceptedBy(x, d, Import(lines, FAULTLESS))).Extending() == 0
    ensures RunImports(x, d, [Import(lines, FAULTLESS.(stateWrite := Refused)), Import(lines, FAULTLESS)])
         == RunImports(x, d, [Import(lines, FAULTLESS)])
  {
    var b := Collected(AcceptedBy(x, d, Import(lines, FAULTLESS)));
    RetryRun(x, d, lines);
    var p, once := d.report.value.packet, [Import(lines, FAULTLESS)];
    assert b.insights == [] && b.verifications == [] && b.decisions == [];
    MergeTwiceIsOnce(x.codec, b.hotspots, p.hotspots);
    assert Merge(x.codec, Merge(x.codec, p, b), b) == Merge(x.codec, p, b);
    assert RunImports(x, d, once) == After(x, d, once[0]);
  }

  lemma RetryRun(x: Program, d: Disk, lines: seq<string>)
    requires !d.state.Torn? && HasPacket(d.report)
    requires AcceptedBy(x, d, Import(lines, FAULTLESS)) != []
    ensures var b := Collected(AcceptedBy(x, d, Import(lines, FAULTLESS)));
      RunImports(x, d, [Import(lines, FAULTLESS.(stateWrite := Refused)), Import(lines, FAULTLESS)])
      == Disk(Holds(ImportLines(x.hash, x.parse, Start(Loaded(d.state).value), lines).state),
              Holds(Impact(Merge(x.codec, Merge(x.codec, d.report.value.packet, b), b))))
  {
    var first, second := Import(lines, FAULTLESS.(stateWrite := Refused)), Import(lines, FAULTLESS);
    assert [first, second][1..] == [second] && [second][1..] == [];
    var d1 := After(x, d, first);
    assert RunImports(x, d, [first, second]) == RunImports(x, d1, [second]) == After(x, d1, second);
  }

  // ----- the loop of the command -----

  /** One state, two counters and four vectors, updated line by line. */
  class Importer {
    var state: BridgeState
    var insights: seq<AiInsight>
    var hotspots: seq<ImportedHotspot>
    var verifications: seq<VerificationResult>
    var decisions: seq<RelevantDecision>
    var others: nat
    var rejected: nat

    constructor (s: BridgeState)
      ensures state == s && Follows(Start(s))
    {
      state := s;
      insights, hotspots, verifications, decisions := [], [], [], [];
      others, rejected := 0, 0;
    }

    function Vectors(): Batch
      reads this
    {
      Batch(insights, hotspots, verifications, decisions)
    }

    /** The fields are what the automaton's progress amounts to. */
    ghost predicate Follows(p: Progress)
      reads this
    {
      && state == p.state && rejected == p.rejected
      && Vectors() == Collected(p.accepted) && |p.accepted| == Vectors().Size() + others
    }

    method Collect(r: BridgeRecord)
      modifies `insights, `hotspots, `verifications, `decisions, `others
      ensures Vectors() == Add(old(Vectors()), r)
      ensures Vectors().Size() + others == old(Vectors().Size() + others) + 1
    {
      match r.payload
      case Insight(id, relevance, content) => insights := insights + [AiInsight(id, relevance, content)];
      case Hotspot(path, score) => hotspots := hotspots + [ImportedHotspot(path, score)];
      case VerifyOutcome(success, command, snippet) =>
        var exitCode := if success then 0 else 1;
        var stderr := if snippet.Some? then snippet.value else "";
        verifications := verifications + [VerificationResult("Bridge Verify: " + command, command, exitCode, stderr)];
      case LedgerDelta(tx, intent, n) =>
        decisions := decisions + [RelevantDecision("tx/" + tx, "Ledger Delta: " + intent, n)];
      case _ => others := others + 1;
    }

    method Line(x: Program, line: string, ghost p: Progress)
      requires Follows(p)
      modifies this
      ensures Follows(ImportLine(x.hash, x.parse, p, line))
    {
      if Trim(line) == "" {
        return;
      }
      var decoded := DeserializeRecord(x.parse, line);
      if decoded.Err? {
        return;
      }
      var r := decoded.value;
      if r.parentHash.Some? {
        if state.lastInbound.None? || r.parentHash.value != state.lastInbound.value {
          rejected := rejected + 1;
          return;
        }
      }
      var privacy := if state.privacy.Some? then state.privacy.value.Combine(r.privacy) else r.privacy;
      state := state.(privacy := Some(privacy));
      Collect(r);
      assert (p.accepted + [r])[..|p.accepted|] == p.accepted;
      state := state.(lastInbound := Some(x.hash(r)));
    }

    method Lines(x: Program, lines: seq<string>, ghost s: BridgeState)
      requires Follows(Start(s))
      modifies this
      ensures Follows(ImportLines(x.hash, x.parse, Start(s), lines))
    {
      for i := 0 to |lines|
        invariant Follows(ImportLines(x.hash, x.parse, Start(s), lines[..i]))
      {
        assert lines[..i + 1][..i] == lines[..i];
        Line(x, lines[i], ImportLines(x.hash, x.parse, Start(s), lines[..i]));
      }
      assert lines[..|lines|] == lines;
    }
  }

  method ExecuteImport(x: Program, d: Disk, lines: seq<string>, e: ImportEnv) returns (saved: Disk, r: ImportResult)
    ensures (saved, r) == ImportCommand(x, d, lines, e)
  {
    saved := d;
    if !e.stateReads || d.state.Torn? {
      return saved, Failed(LoadingState);
    }
    var loaded := Loaded(d.state).value;
    var importer := new Importer(loaded);
    importer.Lines(x, lines, loaded);
    if !e.fileReads {
      return saved, Failed(ReadingInput);
    }
    if importer.Vectors().Size() == 0 && importer.others == 0 {
      return saved, if importer.rejected > 0 then RejectedAll else NothingImported;
    }
    if !e.reportReads || d.report.Torn? {
      return saved, Failed(ReadingReport);
    }
    if d.report.Holds? && d.report.value.Impact? {
      var packet := d.report.value.packet;
      var rows := new HotspotRow[|packet.hotspots|](i requires 0 <= i < |packet.hotspots| => packet.hotspots[i]);
      assert rows[..] == packet.hotspots;
      var _ := MergeImportedHotspots(x.codec, rows, importer.hotspots);
      assert rows[..] == MergedRows(x.codec, importer.hotspots, packet.hotspots);
      packet := Packet(packet.insights + importer.insights, rows[..],
                       packet.verifications + importer.verifications, packet.decisions + importer.decisions);
      saved := saved.(report := WriteFile(d.report, Impact(packet), e.reportWrite));
      if e.reportWrite != Written {
        return saved, Failed(WritingReport);
      }
    }
    saved := saved.(state := WriteFile(d.state, importer.state, e.stateWrite));
    return saved, if e.stateWrite == Written then Imported else Failed(WritingState);
  }
}
