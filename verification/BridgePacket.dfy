/** What accepted bridge records add to the impact report. */
module BridgePacket {
  import opened Wrappers
  import opened BridgeModel
  import opened HotspotMerge

  datatype AiInsight = AiInsight(memoryId: string, relevance: real, content: string)
  datatype VerificationResult = VerificationResult(name: string, command: string, exitCode: int, stderr: string)
  datatype RelevantDecision = RelevantDecision(filePath: string, heading: string, filesChanged: nat)

  /** The vectors one import collects. */
  datatype Batch = Batch(
    insights: seq<AiInsight>, hotspots: seq<ImportedHotspot>,
    verifications: seq<VerificationResult>, decisions: seq<RelevantDecision>)
  {
    function Plus(more: Batch): Batch {
      Batch(insights + more.insights, hotspots + more.hotspots,
            verifications + more.verifications, decisions + more.decisions)
    }

    function Size(): nat { Extending() + |hotspots| }

    /** How many entries it adds to the report; hotspots only rescore rows. */
    function Extending(): nat { |insights| + |verifications| + |decisions| }
  }

  const NOTHING := Batch([], [], [], [])

  /** One record's contribution; records of the other kinds are counted and dropped. */
  function Add(b: Batch, r: BridgeRecord): Batch {
    match r.payload
    case Insight(id, relevance, content) => b.(insights := b.insights + [AiInsight(id, relevance, content)])
    case Hotspot(path, score) => b.(hotspots := b.hotspots + [ImportedHotspot(path, score)])
    case VerifyOutcome(success, command, snippet) =>
      b.(verifications := b.verifications +
           [VerificationResult("Bridge Verify: " + command, command, if success then 0 else 1,
                               if snippet.Some? then snippet.value else "")])
    case LedgerDelta(tx, intent, n) =>
      b.(decisions := b.decisions + [RelevantDecision("tx/" + tx, "Ledger Delta: " + intent, n)])
    case _ => b
  }

  function Collected(rs: seq<BridgeRecord>): Batch {
    if rs == [] then NOTHING else Add(Collected(rs[..|rs| - 1]), rs[|rs| - 1])
  }

  lemma {:induction false} CollectedConcat(a: seq<BridgeRecord>, b: seq<BridgeRecord>)
    ensures Collected(a + b) == Collected(a).Plus(Collected(b))
    decreases |b|
  {
    if b == [] {
      assert a + b == a;
    } else {
      assert (a + b)[..|a + b| - 1] == a + b[..|b| - 1];
      CollectedConcat(a, b[..|b| - 1]);
    }
  }

  /** What one record of each kind adds; a failed verification shows as exit code 1. */
  lemma CollectsOne(r: BridgeRecord)
    ensures var b := Collected([r]);
      && (r.payload.Insight? ==>
            b == NOTHING.(insights := [AiInsight(r.payload.memoryId, r.payload.relevance, r.payload.content)]))
      && (r.payload.Hotspot? ==> b == NOTHING.(hotspots := [ImportedHotspot(r.payload.path, r.payload.score)]))
      && (r.payload.VerifyOutcome? ==>
            && b == NOTHING.(verifications := b.verifications) && |b.verifications| == 1
            && b.verifications[0].name == "Bridge Verify: " + r.payload.command
            && b.verifications[0].command == r.payload.command
            && (b.verifications[0].exitCode == if r.payload.success then 0 else 1)
            && (r.payload.errorSnippet.Some? ==> b.verifications[0].stderr == r.payload.errorSnippet.value)
            && (r.payload.errorSnippet.None? ==> b.verifications[0].stderr == ""))
      && (r.payload.LedgerDelta? ==>
            && b == NOTHING.(decisions := b.decisions) && |b.decisions| == 1
            && b.decisions[0] == RelevantDecision(
                 "tx/" + r.payload.txId, "Ledger Delta: " + r.payload.intent, r.payload.filesChanged))
      && (r.payload.Query? || r.payload.Madr? || r.payload.RiskAlert? || r.payload.Snapshot? ==> b == NOTHING)
  {
    assert [r][..0] == [] && [r][0] == r;
    assert Collected([r]) == Add(NOTHING, r);
  }

  /** The parts of the report that imports change. */
  datatype Packet = Packet(
    insights: seq<AiInsight>, hotspots: seq<HotspotRow>,
    verifications: seq<VerificationResult>, decisions: seq<RelevantDecision>)
  {
    function Size(): nat { |insights| + |verifications| + |decisions| }
  }

  /** Three vectors are extended; the hotspot lines rescore the rows of their paths. */
  function Merge(c: Codec, p: Packet, b: Batch): Packet {
    Packet(p.insights + b.insights, MergedRows(c, b.hotspots, p.hotspots),
           p.verifications + b.verifications, p.decisions + b.decisions)
  }

  /** Merging in two goes is merging at once. */
  lemma MergeInTwo(c: Codec, p: Packet, a: Batch, b: Batch)
    ensures Merge(c, Merge(c, p, a), b) == Merge(c, p, a.Plus(b))
  {
    MergeRowsSplits(c, a.hotspots, b.hotspots, p.hotspots);
  }

  lemma MergeNothing(c: Codec, p: Packet)
    ensures Merge(c, p, NOTHING) == p
  {
    assert MergedRows(c, [], p.hotspots) == p.hotspots;
  }
}
