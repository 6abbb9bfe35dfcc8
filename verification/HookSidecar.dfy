/**
  The pending-hook sidecar: one JSON file that carries a ledger transaction from the
  commit-msg hook to the post-commit hook, and the policy that decides when it is garbage.
 */
module HookSidecar {
  import opened Wrappers

  datatype PendingHookTx = PendingHookTx(
    txId: string,
    commitMsgHash: string,
    summary: string,
    reason: string,
    committedAt: Option<string>,
    risk: Option<string>,
    relatedTickets: Option<string>,
    signature: Option<string>,
    publicKey: Option<string>,
    snapshotId: Option<int>,
    observed: Option<bool>,
    promoteFailed: Option<bool>,
    promoteError: Option<string>)
  {
    predicate IsPromoteFailed() { promoteFailed == Some(true) }

    /** Everything but the promote marks: what a promotion writes to the ledger. */
    function Payload(): PendingHookTx {
      this.(promoteFailed := None, promoteError := None)
    }
  }

  type SidecarFile = JsonFile<PendingHookTx>

  function Marked(p: PendingHookTx, error: string): PendingHookTx {
    p.(promoteFailed := Some(true), promoteError := Some(error))
  }

  /** Hashes of the cleaned HEAD message and of the active COMMIT_EDITMSG, where readable. */
  datatype GcContext = GcContext(headMsgHash: Option<string>, editMsgHash: Option<string>)

  predicate IsGcEligible(sidecar: PendingHookTx, ctx: GcContext) {
    if sidecar.IsPromoteFailed() then false
    else if ctx.headMsgHash == Some(sidecar.commitMsgHash) then false
    else if ctx.editMsgHash == Some(sidecar.commitMsgHash) then false
    else true
  }
}
