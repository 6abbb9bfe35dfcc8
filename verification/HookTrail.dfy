/**
  The ledger trail of a commit: the sidecar file, the ledger, HEAD and COMMIT_EDITMSG as one
  state machine, with the hooks, hook-repair and the ledger commands that settle a transaction
  as steps. Each step carries the faults its environment may inject: an unreadable file, a
  refused delete, a torn write, a database that does not open, a ledger that rejects the commit.
 */
module HookTrail {
  import opened Wrappers
  import opened HookSidecar
  import opened Text

  // ----- state -----

  /** `ROLLBACK` is what a forced hook-repair writes: not the status a rollback writes, and without a ledger row. */
  datatype TxStatus = PENDING | COMMITTED | ROLLED_BACK | ROLLBACK

  datatype Verification = Verified | Unverified

  /** Rows of the append-only ledger. */
  datatype Entry =
    | Commit(txId: string, payload: PendingHookTx, verification: Option<Verification>)
    | ManualCommit(txId: string)
    | Rollback(txId: string)
    | Abandon(txId: string, maintenance: string, why: string)   // the row belongs to a transaction of its own

  datatype Repo = Repo(
    sidecar: SidecarFile,
    txs: map<string, TxStatus>,
    entries: seq<Entry>,
    head: Option<string>,     // hash of the cleaned HEAD message; None for an unborn HEAD
    editMsg: Option<string>,
    enforce: bool)

  /** A hash read best-effort: a reading that fails looks like a message that is not there. */
  function Seen(hash: Option<string>, readable: bool): Option<string> {
    if readable then hash else None
  }

  /** SHA-256 of the empty message, which is what an unborn HEAD hashes to. */
  const HASH_OF_EMPTY := "e3b0c44298fc1c149afbf4c8996fb92427ae41e4649b934ca495991b7852b855"

  function HeadHash(s: Repo): string {
    match s.head case Some(h) => h case None => HASH_OF_EMPTY
  }

  // ----- the ledger operations the steps call -----

  function CommitChange(s: Repo, e: Entry, fault: Option<string>): Result<Repo, string> {
    if e.txId !in s.txs then Err("not found")
    else if s.txs[e.txId] != PENDING then Err("invalid state")
    else match fault
      case Some(error) => Err(error)
      case None => Ok(s.(txs := s.txs[e.txId := COMMITTED], entries := s.entries + [e]))
  }

  function RollbackChange(s: Repo, t: string, fault: Option<string>): Result<Repo, string> {
    if t !in s.txs then Err("not found")
    else if s.txs[t] != PENDING then Err("invalid state")
    else match fault
      case Some(error) => Err(error)
      case None => Ok(s.(txs := s.txs[t := ROLLED_BACK], entries := s.entries + [Rollback(t)]))
  }

  function RemoveFile(s: Repo, removes: bool): Repo {
    if removes then s.(sidecar := Absent) else s
  }

  /** A promotion never claims verification: skipped coverage is Unverified even when trivial. */
  function PromotedVerification(p: PendingHookTx): Option<Verification> {
    if "[SKIPPED]" <= p.summary then Some(Unverified)
    else if p.risk == Some("TRIVIAL") then None
    else Some(Unverified)
  }

  // ----- post-commit -----

  datatype PromoteEnv = PromoteEnv(
    configLoads: bool, sidecarReads: bool, gitRuns: bool, storageOpens: bool,
    commitFault: Option<string>, mark: WriteFault, removes: bool)

  datatype PromoteResult = Idle | Aborted | Discarded | OrphanKept | Promoted | PromoteFailed(critical: bool)

  function Promote(s: Repo, e: PromoteEnv): (Repo, PromoteResult) {
    if !e.configLoads then (s, Aborted)
    else match s.sidecar
      case Absent => (s, Idle)
      case Torn => (s, Aborted)
      case Holds(p) =>
        if !e.sidecarReads || !e.gitRuns then (s, Aborted)
        else if p.commitMsgHash != HeadHash(s) then
          if p.IsPromoteFailed() then (s, OrphanKept) else (RemoveFile(s, e.removes), Discarded)
        else if !e.storageOpens then (s, Aborted)
        else match CommitChange(s, Commit(p.txId, p.Payload(), PromotedVerification(p)), e.commitFault)
          case Ok(s') => (RemoveFile(s', e.removes), Promoted)
          case Err(error) =>
            (s.(sidecar := WriteFile(s.sidecar, Marked(p, error), e.mark)), PromoteFailed(s.enforce))
  }

  // ----- commit-msg -----

  /** What the hook records once the old sidecar is out of the way. */
  datatype RecordPlan =
    | Nothing
    | LinkPending(linked: PendingHookTx)
    | StartFresh(started: PendingHookTx)

  datatype CommitMsgEnv = CommitMsgEnv(
    intentNever: bool, sidecarReads: bool, gitRuns: bool, editReads: bool, storageOpens: bool,
    rollbackFault: Option<string>, removes: bool, plan: RecordPlan, write: WriteFault)

  datatype GcOutcome = Proceed | EarlyReturnOk | Blocked

  function GcPendingSidecar(s: Repo, e: CommitMsgEnv): (Repo, GcOutcome) {
    if s.sidecar.Absent? then (s, Proceed)
    else if !e.sidecarReads || s.sidecar.Torn? then (RemoveFile(s, e.removes), Proceed)
    else
      var p, head, editMsg := s.sidecar.value, Seen(s.head, e.gitRuns), Seen(s.editMsg, e.editReads);
      if editMsg == Some(p.commitMsgHash) && !p.IsPromoteFailed() then (s, EarlyReturnOk)
      else if p.IsPromoteFailed() || head == Some(p.commitMsgHash) then
        (s, if s.enforce then Blocked else EarlyReturnOk)
      else if IsGcEligible(p, GcContext(head, editMsg)) then
        if !e.storageOpens then (s, Blocked)
        else match RollbackChange(s, p.txId, e.rollbackFault)
          case Err(_) => (s, Blocked)
          case Ok(s') => (RemoveFile(s', e.removes), Proceed)
      else (s, Proceed)
  }

  /** Link only to a PENDING transaction; a fresh one gets an id the ledger does not know. */
  function Record(s: Repo, plan: RecordPlan, w: WriteFault): Repo {
    match plan
    case Nothing => s
    case LinkPending(p) =>
      if p.txId in s.txs && s.txs[p.txId] == PENDING
      then s.(sidecar := WriteFile(s.sidecar, p.Payload(), w)) else s
    case StartFresh(p) =>
      if p.txId in s.txs then s
      else s.(txs := s.txs[p.txId := PENDING], sidecar := WriteFile(s.sidecar, p.Payload(), w))
  }

  function CommitMsg(s: Repo, e: CommitMsgEnv): (Repo, GcOutcome) {
    if e.intentNever then (s, if s.enforce then Blocked else EarlyReturnOk)
    else
      var (s', outcome) := GcPendingSidecar(s, e);
      (if outcome == Proceed then Record(s', e.plan, e.write) else s', outcome)
  }

  // ----- repair, manual commit, recovery -----

  datatype RepairEnv = RepairEnv(
    sidecarReads: bool, gitRuns: bool, storageOpens: bool, statusWrites: bool, removes: bool)

  /** `ledger hook-repair`: the status write touches only a transaction that is still pending. */
  function HookRepair(s: Repo, force: bool, e: RepairEnv): Repo {
    if !s.sidecar.Holds? || !e.sidecarReads || !e.gitRuns then s
    else
      var p := s.sidecar.value;
      if p.commitMsgHash == HeadHash(s) then s
      else if !IsGcEligible(p, GcContext(Some(HeadHash(s)), None)) then s
      else if !force || !e.storageOpens then s
      else RemoveFile(
        if e.statusWrites && p.txId in s.txs && s.txs[p.txId] == PENDING
          then s.(txs := s.txs[p.txId := ROLLBACK]) else s,
        e.removes)
  }

  /** `ledger commit`: drops the sidecar only when it is readable and names the same transaction. */
  function LedgerCommit(s: Repo, t: string, fault: Option<string>, sidecarReads: bool, removes: bool): Repo {
    match CommitChange(s, ManualCommit(t), fault)
    case Err(_) => s
    case Ok(s') =>
      if s'.sidecar.Holds? && sidecarReads && s'.sidecar.value.txId == t then RemoveFile(s', removes) else s'
  }

  /** `maintenance` is the id drawn for the transaction of the abandon row. */
  datatype RecoverEnv = RecoverEnv(
    sidecarReads: bool, gitRuns: bool, storageOpens: bool, maintenance: string, startFails: bool, noteFails: bool,
    fault: Option<string>, removes: bool)

  function RecoverPromote(s: Repo, e: RecoverEnv): Repo {
    if !s.sidecar.Holds? || !e.sidecarReads then s
    else
      var p := s.sidecar.value;
      if Seen(s.head, e.gitRuns) != Some(p.commitMsgHash) || !e.storageOpens then s
      else match CommitChange(s, Commit(p.txId, p.Payload(), PromotedVerification(p)), e.fault)
        case Err(_) => s
        case Ok(s') => RemoveFile(s', e.removes)
  }

  /** The MAINTENANCE row comes first; a rollback that fails afterwards does not stop the delete. */
  function RecoverAbandon(s: Repo, why: string, e: RecoverEnv): Repo {
    if Trim(why) == "" || !s.sidecar.Holds? || !e.sidecarReads || !e.storageOpens then s
    else if e.startFails || e.maintenance in s.txs then s
    else if e.noteFails then s.(txs := s.txs[e.maintenance := PENDING])
    else
      var noted := Noted(s, why, e.maintenance);
      match RollbackChange(noted, s.sidecar.value.txId, e.fault)
      case Err(_) => RemoveFile(noted, e.removes)
      case Ok(s') => RemoveFile(s', e.removes)
  }

  function Noted(s: Repo, why: string, maintenance: string): Repo
    requires s.sidecar.Holds?
  {
    s.(txs := s.txs[maintenance := COMMITTED], entries := s.entries + [Abandon(s.sidecar.value.txId, maintenance, why)])
  }

  // ----- runs -----

  datatype Step =
    | PostCommitStep(promote: PromoteEnv)
    | CommitMsgStep(commitMsg: CommitMsgEnv)
    | HookRepairStep(force: bool, repair: RepairEnv)
    | LedgerCommitStep(committed: string, commitFault: Option<string>, sidecarReads: bool, removes: bool)
    | RecoverPromoteStep(recover: RecoverEnv)
    | RecoverAbandonStep(why: string, recover: RecoverEnv)
    | StartStep(txId: string)
    | RollbackStep(rolledBack: string, rollbackFault: Option<string>)
    | MoveHead(head: Option<string>)
    | MoveEditMsg(editMsg: Option<string>)
    | SetGate(enforce: bool)

  function Apply(s: Repo, step: Step): Repo {
    match step
    case PostCommitStep(e) => Promote(s, e).0
    case CommitMsgStep(e) => CommitMsg(s, e).0
    case HookRepairStep(force, e) => HookRepair(s, force, e)
    case LedgerCommitStep(t, fault, readable, removes) => LedgerCommit(s, t, fault, readable, removes)
    case RecoverPromoteStep(e) => RecoverPromote(s, e)
    case RecoverAbandonStep(why, e) => RecoverAbandon(s, why, e)
    case StartStep(t) => if t in s.txs then s else s.(txs := s.txs[t := PENDING])
    case RollbackStep(t, fault) => (match RollbackChange(s, t, fault) case Ok(s') => s' case Err(_) => s)
    case MoveHead(h) => s.(head := h)
    case MoveEditMsg(h) => s.(editMsg := h)
    case SetGate(enforce) => s.(enforce := enforce)
  }

  function Run(s: Repo, steps: seq<Step>): Repo
    decreases steps
  {
    if steps == [] then s else Run(Apply(s, steps[0]), steps[1..])
  }
}
