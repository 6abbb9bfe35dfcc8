/**
  The sidecar commands as the hooks run them: methods that read the file, call the ledger and
  rewrite or delete the file in place. Each is proved against its step of the trail machine.
 */
module HookPostCommit {
  import opened Wrappers
  import opened HookSidecar
  import opened HookTrail
  import opened HookCommands

  class HookRepo {
    var sidecar: SidecarFile
    var txs: map<string, TxStatus>
    var entries: seq<Entry>
    var head: Option<string>
    var editMsg: Option<string>
    var enforce: bool

    function View(): Repo
      reads this
    {
      Repo(sidecar, txs, entries, head, editMsg, enforce)
    }

    constructor ()
      ensures View() == Repo(Absent, map[], [], None, None, true)
    {
      sidecar, txs, entries := Absent, map[], [];
      head, editMsg, enforce := None, None, true;
    }

    method Commit(e: Entry, fault: Option<string>) returns (r: Result<(), string>)
      modifies `txs, `entries
      ensures match CommitChange(old(View()), e, fault)
        case Ok(s') => r == Ok(()) && View() == s'
        case Err(error) => r == Err(error) && View() == old(View())
    {
      if e.txId !in txs {
        return Err("not found");
      }
      if txs[e.txId] != PENDING {
        return Err("invalid state");
      }
      if fault.Some? {
        return Err(fault.value);
      }
      txs := txs[e.txId := COMMITTED];
      entries := entries + [e];
      return Ok(());
    }

    method Rollback(t: string, fault: Option<string>) returns (r: Result<(), string>)
      modifies `txs, `entries
      ensures match RollbackChange(old(View()), t, fault)
        case Ok(s') => r == Ok(()) && View() == s'
        case Err(error) => r == Err(error) && View() == old(View())
    {
      if t !in txs {
        return Err("not found");
      }
      if txs[t] != PENDING {
        return Err("invalid state");
      }
      if fault.Some? {
        return Err(fault.value);
      }
      txs := txs[t := ROLLED_BACK];
      entries := entries + [Entry.Rollback(t)];
      return Ok(());
    }

    /** Never deletes: sets the two marks on `pending` and rewrites the file. */
    method MarkPromoteFailed(pending: PendingHookTx, error: string, w: WriteFault) returns (marked: PendingHookTx)
      modifies `sidecar
      ensures marked.IsPromoteFailed() && marked.promoteError == Some(error)
      ensures marked.Payload() == pending.Payload()
      ensures sidecar == WriteFile(old(sidecar), marked, w)
      ensures w != CutShort ==> sidecar == old(sidecar) || sidecar == Holds(Marked(pending, error))
    {
      marked := pending.(promoteFailed := Some(true));
      marked := marked.(promoteError := Some(error));
      sidecar := WriteFile(sidecar, marked, w);
    }

    /** Promote the sidecar's transaction when it belongs to the current HEAD. */
    method PromotePendingLedgerTx(e: PromoteEnv) returns (r: PromoteResult)
      modifies this
      ensures (View(), r) == Promote(old(View()), e)
      ensures r == Promoted ==>
        && |entries| == |old(entries)| + 1 && old(entries) <= entries && entries[|old(entries)|].Commit?
        && RecordsUnverified(old(sidecar.value), entries[|old(entries)|].verification)
    {
      PromotesExactly(View(), e);
      if !e.configLoads {
        return Aborted;
      }
      if sidecar == Absent {
        return Idle;
      }
      if sidecar.Torn? || !e.sidecarReads {
        return Aborted;
      }
      var pending := sidecar.value;
      if !e.gitRuns {
        return Aborted;
      }
      var currentHash := if head.Some? then head.value else HASH_OF_EMPTY;
      if pending.commitMsgHash != currentHash {
        if pending.IsPromoteFailed() {
          return OrphanKept;
        }
        if e.removes {
          sidecar := Absent;
        }
        return Discarded;
      }
      var status := Some(Unverified);
      if !("[SKIPPED]" <= pending.summary) && pending.risk == Some("TRIVIAL") {
        status := None;
      }
      if !e.storageOpens {
        return Aborted;
      }
      var committed := Commit(Entry.Commit(pending.txId, pending.Payload(), status), e.commitFault);
      match committed
      case Ok(_) =>
        if e.removes {
          sidecar := Absent;
        }
        return Promoted;
      case Err(error) =>
        var _ := MarkPromoteFailed(pending, error, e.mark);
        return PromoteFailed(enforce);
    }

    /** The commit-msg hook's clean-up of a sidecar an earlier commit left behind. */
    method GcSidecar(e: CommitMsgEnv) returns (outcome: GcOutcome)
      modifies this
      ensures (View(), outcome) == GcPendingSidecar(old(View()), e)
    {
      if sidecar == Absent {
        return Proceed;
      }
      if !e.sidecarReads || sidecar.Torn? {
        if e.removes {
          sidecar := Absent;
        }
        return Proceed;
      }
      var pending := sidecar.value;
      var headHash, editHash := Seen(head, e.gitRuns), Seen(editMsg, e.editReads);
      var matchesEditMsg := editHash.Some? && editHash.value == pending.commitMsgHash;
      var matchesHead := headHash.Some? && headHash.value == pending.commitMsgHash;
      if matchesEditMsg && !pending.IsPromoteFailed() {
        return EarlyReturnOk;
      }
      if pending.IsPromoteFailed() || matchesHead {
        return if enforce then Blocked else EarlyReturnOk;
      }
      if IsGcEligible(pending, GcContext(headHash, editHash)) {
        if !e.storageOpens {
          return Blocked;
        }
        var rolledBack := Rollback(pending.txId, e.rollbackFault);
        if rolledBack.Err? {
          return Blocked;
        }
        if e.removes {
          sidecar := Absent;
        }
      }
      return Proceed;
    }
  }
}
