/**
  What each command of the trail machine does, in terms of files, rows and statuses alone: when it takes
  effect, what it then leaves, and what it records.
 */
module HookCommands {
  import opened Wrappers
  import opened HookSidecar
  import opened HookTrail
  import opened Text

  const EMPTY_MESSAGE := "e3b0c44298fc1c149afbf4c8996fb92427ae41e4649b934ca495991b7852b855"

  /** A promotion never claims verification: the row is unverified, or has no status when the commit was
      trivial and its coverage was not skipped. */
  predicate RecordsUnverified(payload: PendingHookTx, v: Option<Verification>) {
    && v != Some(Verified)
    && (v.None? <==> payload.risk == Some("TRIVIAL") && !("[SKIPPED]" <= payload.summary))
  }

  /** The sidecar without its two marks. */
  function Unmarked(p: PendingHookTx): PendingHookTx {
    p.(promoteFailed := None, promoteError := None)
  }

  predicate IsPending(s: Repo, t: string) { t in s.txs && s.txs[t] == PENDING }

  /** HEAD carries the message of the sidecar, if `git log` runs; an unborn HEAD has the empty message. */
  predicate OfHead(s: Repo, p: PendingHookTx) {
    p.commitMsgHash == if s.head.Some? then s.head.value else EMPTY_MESSAGE
  }

  predicate RowAdded(s: Repo, s': Repo, p: PendingHookTx) {
    && |s'.entries| == |s.entries| + 1 && s.entries <= s'.entries
    && var row := s'.entries[|s.entries|];
       row.Commit? && row.txId == p.txId && row.payload == Unmarked(p) && RecordsUnverified(p, row.verification)
  }

  function SidecarAfter(s: Repo, removes: bool): SidecarFile {
    if removes then Absent else s.sidecar
  }

  // ----- promotion -----

  /** The promotion gets as far as comparing the sidecar with HEAD. */
  predicate Compares(s: Repo, e: PromoteEnv) {
    e.configLoads && s.sidecar.Holds? && e.sidecarReads && e.gitRuns
  }

  lemma PromotesExactly(s: Repo, e: PromoteEnv)
    ensures var (s', r) := Promote(s, e);
      && (r == Promoted <==>
            Compares(s, e) && OfHead(s, s.sidecar.value) && e.storageOpens
            && IsPending(s, s.sidecar.value.txId) && e.commitFault.None?)
      && (r == Promoted ==>
            && RowAdded(s, s', s.sidecar.value) && s'.txs == s.txs[s.sidecar.value.txId := COMMITTED]
            && s'.sidecar == SidecarAfter(s, e.removes))
      && (r != Promoted ==> s'.entries == s.entries && s'.txs == s.txs)
  {
  }

  /** What a promotion that does not commit leaves of the sidecar, and whether it stops the commit. */
  lemma FailsExactly(s: Repo, e: PromoteEnv)
    ensures var (s', r) := Promote(s, e);
      && (r.PromoteFailed? <==>
            Compares(s, e) && OfHead(s, s.sidecar.value) && e.storageOpens
            && (!IsPending(s, s.sidecar.value.txId) || e.commitFault.Some?))
      && (r.PromoteFailed? ==>
            && (r.critical <==> s.enforce)
            && (match e.mark
                case Refused => s'.sidecar == s.sidecar
                case CutShort => s'.sidecar == Torn
                case Written =>
                  && s'.sidecar.Holds? && s'.sidecar.value.promoteFailed == Some(true)
                  && s'.sidecar.value.promoteError.Some? && Unmarked(s'.sidecar.value) == Unmarked(s.sidecar.value)))
      && (r == Discarded <==>
            Compares(s, e) && !OfHead(s, s.sidecar.value) && s.sidecar.value.promoteFailed != Some(true))
      && (r == Discarded ==> s'.sidecar == SidecarAfter(s, e.removes))
      && (r == OrphanKept <==>
            Compares(s, e) && !OfHead(s, s.sidecar.value) && s.sidecar.value.promoteFailed == Some(true))
      && (r == OrphanKept || r == Aborted || r == Idle ==> s' == s)
      && (r == Idle <==> e.configLoads && s.sidecar == Absent)
  {
  }

  /** Garbage is a sidecar that is not marked and whose message is neither HEAD's nor the one being written. */
  lemma GarbageExactly(p: PendingHookTx, head: Option<string>, editMsg: Option<string>)
    ensures IsGcEligible(p, GcContext(head, editMsg)) <==>
      p.promoteFailed != Some(true) && head != Some(p.commitMsgHash) && editMsg != Some(p.commitMsgHash)
  {
  }

  // ----- the commit-msg hook -----

  /** What becomes of a sidecar an earlier commit left behind. */
  lemma CleansUpExactly(s: Repo, e: CommitMsgEnv)
    requires s.sidecar.Holds? && e.sidecarReads
    ensures var (p, (s', r)) := (s.sidecar.value, GcPendingSidecar(s, e));
      var marked, ofHead := p.promoteFailed == Some(true), e.gitRuns && s.head == Some(p.commitMsgHash);
      var ofEdit := e.editReads && s.editMsg == Some(p.commitMsgHash);
      var rollsBack := e.storageOpens && IsPending(s, p.txId) && e.rollbackFault.None?;
      && (r == EarlyReturnOk <==> if !marked && ofEdit then true else (marked || ofHead) && !s.enforce)
      && (r == Blocked <==>
            if marked then s.enforce else !ofEdit && (if ofHead then s.enforce else !rollsBack))
      && (r != Proceed ==> s' == s)
      && (r == Proceed ==>
            && !marked && !ofEdit && !ofHead && rollsBack && s'.txs == s.txs[p.txId := ROLLED_BACK]
            && s'.entries == s.entries + [Entry.Rollback(p.txId)] && s'.sidecar == SidecarAfter(s, e.removes))
  {
  }

  lemma UnreadableIsRemoved(s: Repo, e: CommitMsgEnv)
    requires !s.sidecar.Holds? || !e.sidecarReads
    ensures GcPendingSidecar(s, e) == (s.(sidecar := SidecarAfter(s, e.removes)), Proceed)
  {
  }

  /** What the hook records: a link to a pending transaction or a fresh one, unmarked, and nothing when the
      commit is not to be recorded or the old sidecar stays. */
  lemma RecordsExactly(s: Repo, e: CommitMsgEnv)
    ensures var ((s', r), (cleaned, outcome)) := (CommitMsg(s, e), GcPendingSidecar(s, e));
      if e.intentNever then s' == s && r == (if s.enforce then Blocked else EarlyReturnOk)
      else
        && r == outcome
        && (r == Proceed && e.plan.LinkPending? && IsPending(cleaned, e.plan.linked.txId) ==>
              s' == cleaned.(sidecar := WriteFile(cleaned.sidecar, Unmarked(e.plan.linked), e.write)))
        && (r == Proceed && e.plan.StartFresh? && e.plan.started.txId !in cleaned.txs ==>
              s' == cleaned.(txs := cleaned.txs[e.plan.started.txId := PENDING],
                             sidecar := WriteFile(cleaned.sidecar, Unmarked(e.plan.started), e.write)))
        && (match e.plan
            case Nothing => s' == cleaned
            case LinkPending(q) => r != Proceed || !IsPending(cleaned, q.txId) ==> s' == cleaned
            case StartFresh(q) => r != Proceed || q.txId in cleaned.txs ==> s' == cleaned)
  {
  }

  // ----- repair, manual commit, recovery -----

  lemma RepairsExactly(s: Repo, force: bool, e: RepairEnv)
    ensures var s' := HookRepair(s, force, e);
      if s.sidecar.Holds? && e.sidecarReads && e.gitRuns && !OfHead(s, s.sidecar.value)
         && s.sidecar.value.promoteFailed != Some(true) && force && e.storageOpens then
        var t := s.sidecar.value.txId;
        && s'.sidecar == SidecarAfter(s, e.removes) && s'.entries == s.entries
        && s'.txs == if e.statusWrites && IsPending(s, t) then s.txs[t := ROLLBACK] else s.txs
      else s' == s
  {
  }

  lemma CommitsByHandExactly(s: Repo, t: string, fault: Option<string>, sidecarReads: bool, removes: bool)
    ensures var s' := LedgerCommit(s, t, fault, sidecarReads, removes);
      if IsPending(s, t) && fault.None? then
        && s'.txs == s.txs[t := COMMITTED] && s'.entries == s.entries + [ManualCommit(t)]
        && s'.sidecar == if s.sidecar.Holds? && sidecarReads && s.sidecar.value.txId == t then SidecarAfter(s, removes)
                         else s.sidecar
      else s' == s
  {
  }

  lemma RecoversExactly(s: Repo, e: RecoverEnv)
    ensures var s' := RecoverPromote(s, e);
      if s.sidecar.Holds? && e.sidecarReads && e.gitRuns && s.head == Some(s.sidecar.value.commitMsgHash)
         && e.storageOpens && IsPending(s, s.sidecar.value.txId) && e.fault.None? then
        && RowAdded(s, s', s.sidecar.value) && s'.txs == s.txs[s.sidecar.value.txId := COMMITTED]
        && s'.sidecar == SidecarAfter(s, e.removes)
      else s' == s
  {
  }

  /** With a reason, the orphan is explained in a committed transaction of its own, then rolled back if it is
      pending, and its sidecar removed. */
  lemma AbandonsExactly(s: Repo, why: string, e: RecoverEnv)
    requires s.sidecar.Holds? && e.sidecarReads && e.storageOpens && !e.startFails && !e.noteFails
    requires e.maintenance !in s.txs && exists i | 0 <= i < |why| :: !IsSpace(why[i])
    ensures var (s', t) := (RecoverAbandon(s, why, e), s.sidecar.value.txId);
      var noted := s.entries + [Abandon(t, e.maintenance, why)];
      && s'.sidecar == SidecarAfter(s, e.removes)
      && if IsPending(s, t) && e.fault.None? then
           s'.entries == noted + [Entry.Rollback(t)] && s'.txs == s.txs[e.maintenance := COMMITTED][t := ROLLED_BACK]
         else s'.entries == noted && s'.txs == s.txs[e.maintenance := COMMITTED]
  {
    TrimIsBlank(why);
  }

  lemma WithoutReasonNothingIsAbandoned(s: Repo, why: string, e: RecoverEnv)
    requires forall i | 0 <= i < |why| :: IsSpace(why[i])
    ensures RecoverAbandon(s, why, e) == s
  {
    TrimIsBlank(why);
  }

  // ----- what any run records -----

  ghost predicate AddsUnverified(before: seq<Entry>, after: seq<Entry>) {
    before <= after &&
    forall i | |before| <= i < |after| && after[i].Commit? :: RecordsUnverified(after[i].payload, after[i].verification)
  }

  lemma StepAddsUnverified(s: Repo, step: Step)
    ensures AddsUnverified(s.entries, Apply(s, step).entries)
  {
    match step
    case PostCommitStep(e) => PromotesExactly(s, e);
    case CommitMsgStep(e) => CommitMsgAddsUnverified(s, e);
    case RecoverPromoteStep(e) => RecoversExactly(s, e);
    case _ =>
  }

  lemma CommitMsgAddsUnverified(s: Repo, e: CommitMsgEnv)
    ensures AddsUnverified(s.entries, CommitMsg(s, e).0.entries)
  {
    RecordsExactly(s, e);
    if s.sidecar.Holds? && e.sidecarReads {
      CleansUpExactly(s, e);
    }
  }

  /** Along every run, no row a promotion adds claims verification, and it has no status exactly when the commit
      was trivial and its coverage not skipped. */
  lemma {:induction false} RunRecordsUnverified(s: Repo, steps: seq<Step>)
    ensures AddsUnverified(s.entries, Run(s, steps).entries)
    decreases steps
  {
    if steps != [] {
      StepAddsUnverified(s, steps[0]);
      RunRecordsUnverified(Apply(s, steps[0]), steps[1..]);
      AddsTwice(s.entries, Apply(s, steps[0]).entries, Run(s, steps).entries);
    }
  }

  lemma AddsTwice(a: seq<Entry>, b: seq<Entry>, c: seq<Entry>)
    requires AddsUnverified(a, b) && AddsUnverified(b, c)
    ensures AddsUnverified(a, c)
  {
    forall i | |a| <= i < |c| && c[i].Commit? ensures RecordsUnverified(c[i].payload, c[i].verification) {
      if i < |b| {
        assert c[i] == b[i];
      }
    }
  }
}
