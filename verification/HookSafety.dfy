/**
  What the trail machine keeps. A mark is what protects a transaction: a marked orphan survives every run
  but for two faults, and this module says exactly when a failed promotion leaves a mark and what happens
  to the sidecars that carry none.
 */
module HookSafety {
  import opened Wrappers
  import opened HookSidecar
  import opened HookTrail
  import opened HookCommands

  // ----- never lose the trail -----

  /** The sidecar holds transaction `t` as a promote-failure orphan. */
  predicate MarkedFor(s: Repo, t: string) {
    s.sidecar.Holds? && s.sidecar.value.IsPromoteFailed() && s.sidecar.value.txId == t
  }

  /** The first row that accounts for `t`: a commit of it or an explicit abandonment. */
  function FirstSettling(entries: seq<Entry>, t: string): Option<Entry> {
    if entries == [] then None
    else if Settles(entries[0], t) then Some(entries[0])
    else FirstSettling(entries[1..], t)
  }

  predicate Settles(e: Entry, t: string) { e.txId == t && !e.Rollback? }

  lemma {:induction false} SettlingAppend(entries: seq<Entry>, e: Entry, t: string)
    ensures FirstSettling(entries + [e], t) ==
      if FirstSettling(entries, t).Some? then FirstSettling(entries, t)
      else if Settles(e, t) then Some(e) else None
  {
    if entries != [] {
      assert (entries + [e])[1..] == entries[1..] + [e];
      SettlingAppend(entries[1..], e, t);
    }
  }

  /** The ledger accounts for `t` or the sidecar still does. */
  predicate Covered(s: Repo, t: string) {
    MarkedFor(s, t) || FirstSettling(s.entries, t).Some?
  }

  /** The two faults that destroy an orphan: a mark cut short after a failed commit, and a
      commit-msg hook that cannot read the sidecar and so takes it for garbage. */
  predicate DestroysOrphan(s: Repo, step: Step) {
    match step
    case PostCommitStep(e) => e.mark == CutShort && Promote(s, e).1.PromoteFailed?
    case CommitMsgStep(e) =>
      !e.intentNever && !e.sidecarReads && (e.removes || Record(s, e.plan, e.write).sidecar != s.sidecar)
    case _ => false
  }

  lemma CommitSettles(s: Repo, e: Entry, fault: Option<string>, t: string)
    requires !e.Rollback?
    ensures CommitChange(s, e, fault).Ok? ==>
      FirstSettling(CommitChange(s, e, fault).value.entries, t) ==
        if FirstSettling(s.entries, t).Some? then FirstSettling(s.entries, t)
        else if e.txId == t then Some(e) else None
  {
    SettlingAppend(s.entries, e, t);
  }

  lemma RollbackSettlesNothing(s: Repo, r: string, fault: Option<string>, t: string)
    ensures RollbackChange(s, r, fault).Ok? ==>
      FirstSettling(RollbackChange(s, r, fault).value.entries, t) == FirstSettling(s.entries, t)
  {
    SettlingAppend(s.entries, Rollback(r), t);
  }

  /** The sidecar names `t`, marked or not. */
  predicate Names(s: Repo, t: string) {
    s.sidecar.Holds? && s.sidecar.value.txId == t
  }

  /** The trail of `p`: until its transaction is settled the sidecar holds it, otherwise unchanged, and it is
      marked (or, where `bound` is allowed, belongs to HEAD); and if it is settled by a promotion the entry
      is the original one. */
  predicate TrailKept(p: PendingHookTx, s: Repo, bound: bool) {
    match FirstSettling(s.entries, p.txId)
    case None =>
      && Names(s, p.txId) && Unmarked(s.sidecar.value) == Unmarked(p)
      && (s.sidecar.value.IsPromoteFailed() || (bound && s.head == Some(p.commitMsgHash)))
    case Some(Commit(_, payload, v)) => payload == Unmarked(p) && RecordsUnverified(p, v)
    case Some(_) => true
  }

  lemma PromoteKeepsTrail(p: PendingHookTx, s: Repo, e: PromoteEnv, bound: bool)
    requires TrailKept(p, s, bound)
    requires FirstSettling(s.entries, p.txId).None? ==> !DestroysOrphan(s, PostCommitStep(e))
    ensures TrailKept(p, Promote(s, e).0, bound)
  {
    if s.sidecar.Holds? {
      var q := s.sidecar.value;
      CommitSettles(s, Commit(q.txId, q.Payload(), PromotedVerification(q)), e.commitFault, p.txId);
    }
  }

  lemma CommitMsgKeepsTrail(p: PendingHookTx, s: Repo, e: CommitMsgEnv, bound: bool)
    requires TrailKept(p, s, bound) && (bound ==> e.gitRuns)
    requires FirstSettling(s.entries, p.txId).None? ==> !DestroysOrphan(s, CommitMsgStep(e))
    ensures TrailKept(p, CommitMsg(s, e).0, bound)
  {
    if s.sidecar.Holds? {
      RollbackSettlesNothing(s, s.sidecar.value.txId, e.rollbackFault, p.txId);
    }
  }

  lemma RecoverKeepsTrail(p: PendingHookTx, s: Repo, why: string, e: RecoverEnv, bound: bool)
    requires TrailKept(p, s, bound)
    ensures TrailKept(p, RecoverPromote(s, e), bound)
    ensures TrailKept(p, RecoverAbandon(s, why, e), bound)
  {
    if s.sidecar.Holds? {
      var q := s.sidecar.value;
      CommitSettles(s, Commit(q.txId, q.Payload(), PromotedVerification(q)), e.fault, p.txId);
      SettlingAppend(s.entries, Abandon(q.txId, e.maintenance, why), p.txId);
      RollbackSettlesNothing(Noted(s, why, e.maintenance), q.txId, e.fault, p.txId);
    }
  }

  /** HEAD stays where it is, and the commit-msg hook, whose reading of it is best-effort, sees it. */
  predicate SeesSameHead(step: Step) {
    !step.MoveHead? && (step.CommitMsgStep? ==> step.commitMsg.gitRuns)
  }

  lemma StepKeepsTrail(p: PendingHookTx, s: Repo, step: Step, bound: bool)
    requires TrailKept(p, s, bound) && (bound ==> SeesSameHead(step))
    requires FirstSettling(s.entries, p.txId).None? ==> !DestroysOrphan(s, step)
    ensures TrailKept(p, Apply(s, step), bound)
  {
    match step
    case PostCommitStep(e) => PromoteKeepsTrail(p, s, e, bound);
    case CommitMsgStep(e) => CommitMsgKeepsTrail(p, s, e, bound);
    case RecoverPromoteStep(e) => RecoverKeepsTrail(p, s, "", e, bound);
    case RecoverAbandonStep(why, e) => RecoverKeepsTrail(p, s, why, e, bound);
    case LedgerCommitStep(t, fault, _, _) => CommitSettles(s, ManualCommit(t), fault, p.txId);
    case RollbackStep(t, fault) => RollbackSettlesNothing(s, t, fault, p.txId);
    case _ =>
  }

  /** An orphan the ledger has not settled is lost by a step exactly when one of the two faults strikes. */
  lemma OrphanLostExactly(s: Repo, step: Step, t: string)
    requires MarkedFor(s, t) && FirstSettling(s.entries, t).None?
    ensures !Covered(Apply(s, step), t) <==> DestroysOrphan(s, step)
  {
    if DestroysOrphan(s, step) {
      assert Apply(s, step).entries == s.entries;
    } else {
      StepKeepsTrail(s.sidecar.value, s, step, false);
    }
  }

  /** Commit-msg reads succeed and promote marks are never cut short. */
  predicate SoundIo(step: Step) {
    match step
    case PostCommitStep(e) => e.mark != CutShort
    case CommitMsgStep(e) => e.sidecarReads
    case _ => true
  }

  /** Never lose the trail: along any run of any commands, with any other faults. A sidecar that is not
      marked but belongs to HEAD is as safe while HEAD stays where it is and is seen. */
  lemma {:induction false} RunKeepsTrail(p: PendingHookTx, s: Repo, steps: seq<Step>, bound: bool)
    requires TrailKept(p, s, bound)
    requires forall i | 0 <= i < |steps| :: SoundIo(steps[i]) && (bound ==> SeesSameHead(steps[i]))
    ensures TrailKept(p, Run(s, steps), bound)
    decreases steps
  {
    if steps != [] {
      assert SoundIo(steps[0]);
      StepKeepsTrail(p, s, steps[0], bound);
      RunKeepsTrail(p, Apply(s, steps[0]), steps[1..], bound);
    }
  }

  /** Under the hooks alone a marked sidecar leaves only in the step that commits its own transaction. */
  lemma OrphanLeavesByOwnCommit(s: Repo, step: Step, t: string)
    requires step.PostCommitStep? || step.CommitMsgStep? || step.HookRepairStep?
    requires MarkedFor(s, t) && !MarkedFor(Apply(s, step), t) && SoundIo(step)
    ensures step.PostCommitStep? && Promote(s, step.promote).1 == Promoted
    ensures t in s.txs && s.txs[t] == PENDING && Apply(s, step).txs == s.txs[t := COMMITTED]
    ensures RowAdded(s, Apply(s, step), s.sidecar.value)
  {
  }

  // ----- exactly which sidecars have a safe trail -----

  /** The ledger accounts for `t`, or the sidecar still names it. */
  predicate Tracked(s: Repo, t: string) {
    Names(s, t) || FirstSettling(s.entries, t).Some?
  }

  ghost predicate AllSound(steps: seq<Step>) {
    forall i | 0 <= i < |steps| :: SoundIo(steps[i])
  }

  /** No sound run loses `t`. */
  ghost predicate Safe(s: Repo, t: string) {
    forall steps | AllSound(steps) :: Tracked(Run(s, steps), t)
  }

  /** A message hash other than `h`. */
  function OtherHash(h: string): string { h + "x" }

  const FAULTLESS := PromoteEnv(true, true, true, true, None, Written, true)

  /** HEAD moves to another commit and its post-commit hook runs without any fault. */
  function LosingRun(p: PendingHookTx): seq<Step> {
    [MoveHead(Some(OtherHash(p.commitMsgHash))), PostCommitStep(FAULTLESS)]
  }

  lemma RunTwo(s: Repo, a: Step, b: Step)
    ensures Run(s, [a, b]) == Apply(Apply(s, a), b)
  {
    assert [a, b][1..] == [b] && [b][1..] == [];
    assert Run(s, [a, b]) == Run(Apply(s, a), [b]) == Run(Apply(Apply(s, a), b), []);
  }

  /** An unmarked sidecar is discarded by that run. */
  lemma UnmarkedIsDiscarded(s: Repo)
    requires s.sidecar.Holds? && !s.sidecar.value.IsPromoteFailed()
    ensures AllSound(LosingRun(s.sidecar.value))
    ensures Run(s, LosingRun(s.sidecar.value)) ==
      s.(head := Some(OtherHash(s.sidecar.value.commitMsgHash)), sidecar := Absent)
  {
    var p := s.sidecar.value;
    assert OtherHash(p.commitMsgHash) != p.commitMsgHash;
    RunTwo(s, MoveHead(Some(OtherHash(p.commitMsgHash))), PostCommitStep(FAULTLESS));
  }

  lemma MarkedIsSafe(s: Repo, t: string)
    requires MarkedFor(s, t) && FirstSettling(s.entries, t).None?
    ensures Safe(s, t)
  {
    forall steps | AllSound(steps) ensures Tracked(Run(s, steps), t) {
      RunKeepsTrail(s.sidecar.value, s, steps, false);
    }
  }

  /** An unsettled transaction is safe exactly when the sidecar names it and is marked: HEAD-bound or not,
      an unmarked sidecar can be lost without any fault. */
  lemma SafeExactlyWhenMarked(s: Repo, t: string)
    requires FirstSettling(s.entries, t).None?
    ensures Safe(s, t) <==> MarkedFor(s, t)
  {
    if MarkedFor(s, t) {
      MarkedIsSafe(s, t);
    } else if Names(s, t) {
      UnmarkedIsDiscarded(s);
      assert !Tracked(Run(s, LosingRun(s.sidecar.value)), t);
    } else {
      assert AllSound([]) && Run(s, []) == s;
    }
  }

  /** The promotion leaves a mark: it wrote one, or could not rewrite the one that was there. */
  predicate LeavesMark(s: Repo, e: PromoteEnv)
    requires s.sidecar.Holds?
  {
    var marked := s.sidecar.value.IsPromoteFailed();
    if Promote(s, e).1.PromoteFailed? then e.mark == Written || (e.mark == Refused && marked) else marked
  }

  lemma LeavesMarkExactly(s: Repo, e: PromoteEnv)
    requires s.sidecar.Holds? && Promote(s, e).1 != Promoted
    ensures MarkedFor(Promote(s, e).0, s.sidecar.value.txId) <==> LeavesMark(s, e)
    ensures Promote(s, e).0.entries == s.entries
    ensures LeavesMark(s, e) ==> Promote(s, e).0.sidecar.value.Payload() == s.sidecar.value.Payload()
  {
  }

  /** A promotion that does not commit starts a safe trail exactly when it leaves a mark, and then any later
      promotion records what this one tried to record. In particular it starts none when the database does
      not open, and none when the mark is refused on a fresh sidecar, although both are reported as failures
      that retain the trail. */
  lemma FailedPromotionStartsTrail(s: Repo, e: PromoteEnv)
    requires s.sidecar.Holds? && FirstSettling(s.entries, s.sidecar.value.txId).None?
    requires Promote(s, e).1 != Promoted
    ensures Safe(Promote(s, e).0, s.sidecar.value.txId) <==> LeavesMark(s, e)
    ensures LeavesMark(s, e) ==>
      forall steps | AllSound(steps) :: TrailKept(s.sidecar.value, Run(Promote(s, e).0, steps), false)
  {
    LeavesMarkExactly(s, e);
    SafeExactlyWhenMarked(Promote(s, e).0, s.sidecar.value.txId);
    if LeavesMark(s, e) {
      forall steps | AllSound(steps) ensures TrailKept(s.sidecar.value, Run(Promote(s, e).0, steps), false) {
        RunKeepsTrail(s.sidecar.value, Promote(s, e).0, steps, false);
      }
    }
  }

  /** The promotion of a HEAD-bound fresh sidecar fails without leaving a mark. */
  predicate FailsUnmarked(s: Repo, e: PromoteEnv) {
    && s.sidecar.Holds? && !s.sidecar.value.IsPromoteFailed() && s.head == Some(s.sidecar.value.commitMsgHash)
    && e.configLoads && e.sidecarReads && e.gitRuns
    && (!e.storageOpens || (e.commitFault.Some? && e.mark == Refused && HasPending(s, s.sidecar.value.txId)))
  }

  predicate HasPending(s: Repo, t: string) { t in s.txs && s.txs[t] == PENDING }

  /** Such a run: the promotion fails, the next commit-msg hook keeps the sidecar and, under observe, lets
      the commit through, HEAD moves, and the next post-commit hook discards what was to be retained. */
  lemma UnmarkedFailureIsLost(s: Repo, e: PromoteEnv, c: CommitMsgEnv)
    requires FailsUnmarked(s, e) && e.mark != CutShort && c.sidecarReads && c.gitRuns && !c.intentNever
    requires FirstSettling(s.entries, s.sidecar.value.txId).None?
    ensures Promote(s, e).0 == s
    ensures Promote(s, e).1 == if e.storageOpens then PromoteFailed(s.enforce) else Aborted
    ensures CommitMsg(s, c).0 == s && (!s.enforce ==> CommitMsg(s, c).1 == EarlyReturnOk)
    ensures var steps := [PostCommitStep(e), CommitMsgStep(c)] + LosingRun(s.sidecar.value);
      && AllSound(steps) && Run(s, steps).sidecar == Absent && !Tracked(Run(s, steps), s.sidecar.value.txId)
  {
    var p := s.sidecar.value;
    var steps := [PostCommitStep(e), CommitMsgStep(c)] + LosingRun(p);
    assert steps[1..] == [CommitMsgStep(c)] + LosingRun(p) && steps[1..][1..] == LosingRun(p);
    assert Run(s, steps) == Run(s, LosingRun(p));
    UnmarkedIsDiscarded(s);
  }

  /** A concrete repository and promotion that fail in this way. */
  lemma UnmarkedFailureExists()
    ensures exists s, e ::
      FailsUnmarked(s, e) && e.mark != CutShort && FirstSettling(s.entries, s.sidecar.value.txId).None?
  {
    var s := Repo(Holds(Fresh("t", "h")), map["t" := PENDING], [], Some("h"), None, false);
    assert FailsUnmarked(s, FAULTLESS.(storageOpens := false));
  }

  function Fresh(txId: string, hash: string): PendingHookTx {
    PendingHookTx(txId, hash, "summary", "reason", None, None, None, None, None, None, None, None, None)
  }

  // ----- a sidecar bound to HEAD -----

  /** What the commit-msg hook leaves in place of a sidecar it takes for garbage does not name `t`. */
  predicate Supplants(s: Repo, e: CommitMsgEnv, t: string) {
    match RecordedSidecar(s, e.plan)
    case None => e.removes
    case Some(q) =>
      match e.write
      case Written => q.txId != t
      case Refused => e.removes
      case CutShort => true
  }

  /** The sidecar the plan writes, if its transaction allows it. */
  function RecordedSidecar(s: Repo, plan: RecordPlan): Option<PendingHookTx> {
    match plan
    case Nothing => None
    case LinkPending(q) => if HasPending(s, q.txId) then Some(q) else None
    case StartFresh(q) => if q.txId in s.txs then None else Some(q)
  }

  /** The commit-msg hook can see neither that the sidecar belongs to HEAD nor that it belongs to the message
      being committed, and rolls its transaction back. */
  predicate TakesForStale(s: Repo, e: CommitMsgEnv)
    requires s.sidecar.Holds?
  {
    var p := s.sidecar.value;
    && !e.gitRuns && Seen(s.editMsg, e.editReads) != Some(p.commitMsgHash)
    && e.storageOpens && e.rollbackFault.None? && HasPending(s, p.txId)
  }

  /** As `DestroysOrphan`, for an unmarked sidecar: what replaces it may name the transaction again. A `git log`
      that fails inside the commit-msg hook is a third fault. */
  predicate DestroysHeadBound(s: Repo, step: Step, t: string)
    requires Names(s, t)
  {
    match step
    case PostCommitStep(e) => e.mark == CutShort && Promote(s, e).1.PromoteFailed?
    case CommitMsgStep(e) =>
      && !e.intentNever
      && (if !e.sidecarReads then Supplants(s, e, t)
          else TakesForStale(s, e) && Supplants(RollbackChange(s, t, None).value, e, t))
    case _ => false
  }

  lemma UnseenLostExactly(s: Repo, e: CommitMsgEnv, t: string)
    requires Names(s, t) && !s.sidecar.value.IsPromoteFailed() && s.head == Some(s.sidecar.value.commitMsgHash)
    requires FirstSettling(s.entries, t).None? && (!e.sidecarReads || !e.gitRuns)
    ensures !Tracked(CommitMsg(s, e).0, t) <==> DestroysHeadBound(s, CommitMsgStep(e), t)
  {
    if !e.sidecarReads {
      assert CommitMsg(s, e).0.entries == s.entries;
    } else {
      RollbackSettlesNothing(s, t, e.rollbackFault, t);
    }
  }

  /** An unmarked HEAD-bound sidecar is lost by a single step exactly under those three faults. */
  lemma HeadBoundLostExactly(s: Repo, step: Step, t: string)
    requires Names(s, t) && !s.sidecar.value.IsPromoteFailed() && s.head == Some(s.sidecar.value.commitMsgHash)
    requires FirstSettling(s.entries, t).None?
    ensures !Tracked(Apply(s, step), t) <==> DestroysHeadBound(s, step, t)
  {
    match step
    case PostCommitStep(e) =>
      if !DestroysHeadBound(s, step, t) {
        PromoteKeepsTrail(s.sidecar.value, s, e, true);
      }
    case CommitMsgStep(e) =>
      if !e.sidecarReads || !e.gitRuns {
        UnseenLostExactly(s, e, t);
      } else {
        CommitMsgKeepsTrail(s.sidecar.value, s, e, true);
      }
    case MoveHead(_) =>
    case _ => StepKeepsTrail(s.sidecar.value, s, step, true);
  }

  // ----- the two faults do destroy an orphan -----

  const ORPHAN := Repo(Holds(Marked(Fresh("t", "h"), "locked")), map["t" := PENDING], [], Some("h"), None, true)

  const UNREADABLE := CommitMsgEnv(false, false, true, true, true, None, true, Nothing, Written)

  /** A commit that fails again, and a mark whose rewrite is cut short. */
  lemma CutShortMarkLosesOrphan()
    ensures var step := PostCommitStep(FAULTLESS.(commitFault := Some("locked"), mark := CutShort));
      && MarkedFor(ORPHAN, "t") && FirstSettling(ORPHAN.entries, "t").None?
      && DestroysOrphan(ORPHAN, step) && Apply(ORPHAN, step).sidecar == Torn && !Covered(Apply(ORPHAN, step), "t")
  {
    var step := PostCommitStep(FAULTLESS.(commitFault := Some("locked"), mark := CutShort));
    assert Promote(ORPHAN, step.promote).1 == PromoteFailed(true);
    OrphanLostExactly(ORPHAN, step, "t");
  }

  /** A commit-msg hook that cannot read the sidecar. */
  lemma UnreadableSidecarLosesOrphan()
    ensures var step := CommitMsgStep(UNREADABLE);
      && MarkedFor(ORPHAN, "t") && FirstSettling(ORPHAN.entries, "t").None?
      && DestroysOrphan(ORPHAN, step) && Apply(ORPHAN, step).sidecar == Absent && !Covered(Apply(ORPHAN, step), "t")
  {
    OrphanLostExactly(ORPHAN, CommitMsgStep(UNREADABLE), "t");
  }

  /** A `git log` that fails in the commit-msg hook: the marked orphan stays, an unmarked sidecar of the same
      HEAD is rolled back and removed. */
  lemma FailingGitLosesHeadBound()
    ensures var step := CommitMsgStep(UNREADABLE.(sidecarReads := true, gitRuns := false));
      var s := ORPHAN.(sidecar := Holds(Fresh("t", "h")));
      && s.head == Some("h") && DestroysHeadBound(s, step, "t") && SoundIo(step)
      && Apply(s, step) == s.(sidecar := Absent, txs := s.txs["t" := ROLLED_BACK], entries := [Entry.Rollback("t")])
      && Apply(ORPHAN, step) == ORPHAN
  {
  }
}
