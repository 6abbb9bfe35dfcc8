/** Bridge records: the privacy lattice, the version gate and the uninterpreted codec. */
module BridgeModel {
  import opened Wrappers

  datatype Privacy = Public | ProjectLocal | Private | Sealed
  {
    function Rank(): nat {
      match this case Public => 0 case ProjectLocal => 1 case Private => 2 case Sealed => 3
    }

    /** Strictest wins. */
    function Combine(other: Privacy): Privacy {
      if Rank() <= other.Rank() then other else this
    }
  }

  datatype BridgePayload =
    | Hotspot(path: string, score: real)
    | LedgerDelta(txId: string, intent: string, filesChanged: nat)
    | Insight(memoryId: string, relevance: real, content: string)
    | VerifyOutcome(success: bool, command: string, errorSnippet: Option<string>)
    | Query(text: string)
    | Madr(title: string)
    | RiskAlert(riskLevel: string)
    | Snapshot(projectId: string)

  datatype BridgeRecord = BridgeRecord(
    bridgeVersion: string, parentHash: Option<string>, payload: BridgePayload, privacy: Privacy, rest: string)

  const VERSION := "0.3"

  /** JSON parsing is `parse`; the version gate is the program's. */
  function DeserializeRecord(parse: string -> Option<BridgeRecord>, json: string): Result<BridgeRecord, string> {
    match parse(json)
    case None => Err("invalid JSON")
    case Some(r) => if r.bridgeVersion != VERSION then Err("version mismatch") else Ok(r)
  }
}
