/**
  The ledger's books over runs of the trail machine: a transaction is resolved at most once, its
  status says how, and once it is resolved no command changes it.
 */
module HookAccounting {
  import opened Wrappers
  import opened HookSidecar
  import opened HookTrail

  /** The transaction a row resolves: the abandon row resolves its own, not the orphan's. */
  function ResolvedTx(e: Entry): string {
    match e
    case Abandon(_, maintenance, _) => maintenance
    case _ => e.txId
  }

  /** The rows that resolve `t`. */
  function Resolving(entries: seq<Entry>, t: string): seq<Entry> {
    if entries == [] then []
    else
      var front, last := entries[..|entries| - 1], entries[|entries| - 1];
      if ResolvedTx(last) == t then Resolving(front, t) + [last] else Resolving(front, t)
  }

  /** A committed transaction has exactly one row and it commits, a rolled back one exactly one rollback
      row, any other none. */
  predicate Accounted(s: Repo, t: string) {
    var rows := Resolving(s.entries, t);
    if t !in s.txs then rows == []
    else match s.txs[t]
      case COMMITTED => |rows| == 1 && !rows[0].Rollback?
      case ROLLED_BACK => |rows| == 1 && rows[0].Rollback?
      case PENDING => rows == []
      case ROLLBACK => rows == []
  }

  lemma ResolvingSnoc(entries: seq<Entry>, e: Entry, t: string)
    ensures Resolving(entries + [e], t) ==
      if ResolvedTx(e) == t then Resolving(entries, t) + [e] else Resolving(entries, t)
  {
    assert (entries + [e])[..|entries|] == entries;
  }

  lemma CommitAccounts(s: Repo, e: Entry, fault: Option<string>, t: string)
    requires Accounted(s, t) && (e.Commit? || e.ManualCommit?)
    ensures CommitChange(s, e, fault).Ok? ==> Accounted(CommitChange(s, e, fault).value, t)
  {
    ResolvingSnoc(s.entries, e, t);
  }

  lemma RollbackAccounts(s: Repo, r: string, fault: Option<string>, t: string)
    requires Accounted(s, t)
    ensures RollbackChange(s, r, fault).Ok? ==> Accounted(RollbackChange(s, r, fault).value, t)
  {
    ResolvingSnoc(s.entries, Entry.Rollback(r), t);
  }

  lemma NotedAccounts(s: Repo, why: string, maintenance: string, t: string)
    requires Accounted(s, t) && s.sidecar.Holds? && (maintenance == t ==> t !in s.txs)
    ensures Accounted(Noted(s, why, maintenance), t)
  {
    ResolvingSnoc(s.entries, Abandon(s.sidecar.value.txId, maintenance, why), t);
  }

  lemma PromoteAccounts(s: Repo, e: PromoteEnv, t: string)
    requires Accounted(s, t)
    ensures Accounted(Promote(s, e).0, t)
  {
    if s.sidecar.Holds? {
      var q := s.sidecar.value;
      CommitAccounts(s, Commit(q.txId, q.Payload(), PromotedVerification(q)), e.commitFault, t);
    }
  }

  lemma GcAccounts(s: Repo, e: CommitMsgEnv, t: string)
    requires Accounted(s, t)
    ensures Accounted(GcPendingSidecar(s, e).0, t)
  {
    if s.sidecar.Holds? {
      RollbackAccounts(s, s.sidecar.value.txId, e.rollbackFault, t);
    }
  }

  lemma RecordAccounts(s: Repo, plan: RecordPlan, w: WriteFault, t: string)
    requires Accounted(s, t)
    ensures Accounted(Record(s, plan, w), t)
  {
  }

  lemma CommitMsgAccounts(s: Repo, e: CommitMsgEnv, t: string)
    requires Accounted(s, t)
    ensures Accounted(CommitMsg(s, e).0, t)
  {
    GcAccounts(s, e, t);
    RecordAccounts(GcPendingSidecar(s, e).0, e.plan, e.write, t);
  }

  lemma RecoverAccounts(s: Repo, why: string, e: RecoverEnv, t: string)
    requires Accounted(s, t)
    ensures Accounted(RecoverPromote(s, e), t)
    ensures Accounted(RecoverAbandon(s, why, e), t)
  {
    if s.sidecar.Holds? {
      var q := s.sidecar.value;
      CommitAccounts(s, Commit(q.txId, q.Payload(), PromotedVerification(q)), e.fault, t);
      if e.maintenance !in s.txs {
        NotedAccounts(s, why, e.maintenance, t);
        RollbackAccounts(Noted(s, why, e.maintenance), q.txId, e.fault, t);
      }
    }
  }

  lemma StepAccounts(s: Repo, step: Step, t: string)
    requires Accounted(s, t)
    ensures Accounted(Apply(s, step), t)
  {
    match step
    case PostCommitStep(e) => PromoteAccounts(s, e, t);
    case CommitMsgStep(e) => CommitMsgAccounts(s, e, t);
    case RecoverPromoteStep(e) => RecoverAccounts(s, "", e, t);
    case RecoverAbandonStep(why, e) => RecoverAccounts(s, why, e, t);
    case LedgerCommitStep(c, fault, _, _) => CommitAccounts(s, ManualCommit(c), fault, t);
    case RollbackStep(r, fault) => RollbackAccounts(s, r, fault, t);
    case _ =>
  }

  /** The books balance after any run: no promotion, manual commit, recovery or rollback ever resolves
      a transaction a second time, whatever fails and whatever is retried. */
  lemma {:induction false} RunAccounts(s: Repo, steps: seq<Step>, t: string)
    requires Accounted(s, t)
    ensures Accounted(Run(s, steps), t)
    decreases steps
  {
    if steps != [] {
      StepAccounts(s, steps[0], t);
      RunAccounts(Apply(s, steps[0]), steps[1..], t);
    }
  }

  // ----- resolved stays resolved -----

  predicate HasStatus(s: Repo, t: string, status: TxStatus) {
    t in s.txs && s.txs[t] == status
  }

  lemma CommitMsgKeepsResolved(s: Repo, e: CommitMsgEnv, t: string, status: TxStatus)
    requires HasStatus(s, t, status) && status != PENDING
    ensures HasStatus(CommitMsg(s, e).0, t, status)
  {
    assert HasStatus(GcPendingSidecar(s, e).0, t, status);
  }

  lemma StepKeepsResolved(s: Repo, step: Step, t: string, status: TxStatus)
    requires HasStatus(s, t, status) && status != PENDING
    ensures HasStatus(Apply(s, step), t, status)
  {
    match step
    case PostCommitStep(e) => assert HasStatus(Promote(s, e).0, t, status);
    case CommitMsgStep(e) => CommitMsgKeepsResolved(s, e, t, status);
    case _ =>
  }

  lemma {:induction false} StatusIsFinal(s: Repo, steps: seq<Step>, t: string, status: TxStatus)
    requires HasStatus(s, t, status) && status != PENDING
    ensures HasStatus(Run(s, steps), t, status)
    decreases steps
  {
    if steps != [] {
      StepKeepsResolved(s, steps[0], t, status);
      StatusIsFinal(Apply(s, steps[0]), steps[1..], t, status);
    }
  }

  /** The ledger only grows. */
  lemma {:induction false} LedgerIsAppendOnly(s: Repo, steps: seq<Step>)
    ensures s.entries <= Run(s, steps).entries
    decreases steps
  {
    if steps != [] {
      StepAppends(s, steps[0]);
      LedgerIsAppendOnly(Apply(s, steps[0]), steps[1..]);
    }
  }

  lemma StepAppends(s: Repo, step: Step)
    ensures s.entries <= Apply(s, step).entries
  {
    match step
    case CommitMsgStep(e) => assert s.entries <= GcPendingSidecar(s, e).0.entries;
    case _ =>
  }

  lemma {:induction false} ResolvingGrows(entries: seq<Entry>, more: seq<Entry>, t: string)
    requires entries <= more
    ensures Resolving(entries, t) <= Resolving(more, t)
    decreases |more|
  {
    if entries != more {
      ResolvingGrows(entries, more[..|more| - 1], t);
    }
  }

  /** Along any run a resolved transaction keeps its status and its rows: a sidecar whose delete failed
      after the commit can neither commit it again nor roll it back. */
  lemma ResolvedIsFinal(s: Repo, steps: seq<Step>, t: string, status: TxStatus)
    requires Accounted(s, t) && HasStatus(s, t, status) && status != PENDING
    ensures HasStatus(Run(s, steps), t, status)
    ensures Resolving(Run(s, steps).entries, t) == Resolving(s.entries, t)
  {
    StatusIsFinal(s, steps, t, status);
    RunAccounts(s, steps, t);
    LedgerIsAppendOnly(s, steps);
    ResolvingGrows(s.entries, Run(s, steps).entries, t);
  }
}
