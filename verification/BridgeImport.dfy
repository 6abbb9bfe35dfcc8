/**
  Import of a bridge file: a hash-linked acceptance automaton with a privacy lattice, run line by
  line. SHA-256 and the JSON codec are parameters.
 */
module BridgeImport {
  import opened Wrappers
  import opened Text
  import opened BridgeModel

  type Hasher = BridgeRecord -> string
  type Parser = string -> Option<BridgeRecord>

  datatype BridgeState = BridgeState(
    lastInbound: Option<string>, lastOutbound: Option<string>, privacy: Option<Privacy>)

  // ----- the automaton -----

  /** A record without a parent always enters; one with a parent only behind the record it names. */
  predicate Accepts(s: BridgeState, r: BridgeRecord) {
    r.parentHash.None? || r.parentHash == s.lastInbound
  }

  function Accept(hash: Hasher, s: BridgeState, r: BridgeRecord): BridgeState {
    BridgeState(Some(hash(r)), s.lastOutbound,
                match s.privacy case Some(p) => Some(p.Combine(r.privacy)) case None => Some(r.privacy))
  }

  datatype Progress = Progress(state: BridgeState, accepted: seq<BridgeRecord>, rejected: nat)

  function Start(s: BridgeState): Progress { Progress(s, [], 0) }

  function ImportLine(hash: Hasher, parse: Parser, p: Progress, line: string): Progress {
    if Trim(line) == "" then p
    else match DeserializeRecord(parse, line)
      case Err(_) => p
      case Ok(r) =>
        if Accepts(p.state, r) then Progress(Accept(hash, p.state, r), p.accepted + [r], p.rejected)
        else p.(rejected := p.rejected + 1)
  }

  function ImportLines(hash: Hasher, parse: Parser, p: Progress, lines: seq<string>): Progress {
    if lines == [] then p
    else ImportLine(hash, parse, ImportLines(hash, parse, p, lines[..|lines| - 1]), lines[|lines| - 1])
  }

  // ----- the fold splits anywhere -----

  lemma {:induction false} ImportSplits(hash: Hasher, parse: Parser, p: Progress, a: seq<string>, b: seq<string>)
    ensures ImportLines(hash, parse, p, a + b) == ImportLines(hash, parse, ImportLines(hash, parse, p, a), b)
    decreases |b|
  {
    if b == [] {
      assert a + b == a;
    } else {
      assert (a + b)[..|a + b| - 1] == a + b[..|b| - 1];
      ImportSplits(hash, parse, p, a, b[..|b| - 1]);
    }
  }

  /** The automaton's moves depend on its state alone: what was accepted before only precedes. */
  lemma {:induction false} ImportFromState(hash: Hasher, parse: Parser, p: Progress, lines: seq<string>)
    ensures var q, own := ImportLines(hash, parse, p, lines), ImportLines(hash, parse, Start(p.state), lines);
      q == Progress(own.state, p.accepted + own.accepted, p.rejected + own.rejected)
    decreases |lines|
  {
    if lines != [] {
      ImportFromState(hash, parse, p, lines[..|lines| - 1]);
    }
  }

  /** Importing `a` and then `b` is importing `a` followed by `b`. */
  lemma TwoImportsAreOne(hash: Hasher, parse: Parser, s: BridgeState, a: seq<string>, b: seq<string>)
    ensures
      var first := ImportLines(hash, parse, Start(s), a);
      var second := ImportLines(hash, parse, Start(first.state), b);
      ImportLines(hash, parse, Start(s), a + b)
        == Progress(second.state, first.accepted + second.accepted, first.rejected + second.rejected)
  {
    ImportSplits(hash, parse, Start(s), a, b);
    ImportFromState(hash, parse, ImportLines(hash, parse, Start(s), a), b);
  }

  // ----- what acceptance means -----

  /** Each record with a parent names the hash of the one before it, the first the hash `last`. */
  predicate Linked(hash: Hasher, last: Option<string>, rs: seq<BridgeRecord>) {
    forall i | 0 <= i < |rs| :: rs[i].parentHash.Some? ==> rs[i].parentHash == HashBefore(hash, last, rs, i)
  }

  function HashBefore(hash: Hasher, last: Option<string>, rs: seq<BridgeRecord>, i: nat): Option<string>
    requires i < |rs|
  {
    if i == 0 then last else Some(hash(rs[i - 1]))
  }

  function LastHash(hash: Hasher, last: Option<string>, rs: seq<BridgeRecord>): Option<string> {
    if rs == [] then last else Some(hash(rs[|rs| - 1]))
  }

  function Strictest(p: Option<Privacy>, rs: seq<BridgeRecord>): Option<Privacy> {
    if rs == [] then p
    else match Strictest(p, rs[..|rs| - 1])
      case None => Some(rs[|rs| - 1].privacy)
      case Some(q) => Some(q.Combine(rs[|rs| - 1].privacy))
  }

  /** `q` is at least as strict as `p`. */
  predicate NoLooser(p: Privacy, q: Privacy) {
    match p
    case Public => true
    case ProjectLocal => q != Public
    case Private => q == Private || q == Sealed
    case Sealed => q == Sealed
  }

  /** `q` is as strict as `p` and every record, and no stricter than one of them. */
  predicate IsStrictest(p: Option<Privacy>, rs: seq<BridgeRecord>, q: Option<Privacy>) {
    && (p.None? && rs == [] <==> q.None?)
    && (q.Some? ==>
          && (p.Some? ==> NoLooser(p.value, q.value))
          && (forall i | 0 <= i < |rs| :: NoLooser(rs[i].privacy, q.value))
          && (p == q || exists i | 0 <= i < |rs| :: rs[i].privacy == q.value))
  }

  lemma StrictestSnoc(p: Option<Privacy>, rs: seq<BridgeRecord>, q: Privacy, r: BridgeRecord)
    requires IsStrictest(p, rs, Some(q))
    ensures IsStrictest(p, rs + [r], Some(q.Combine(r.privacy)))
  {
    var all, c := rs + [r], q.Combine(r.privacy);
    assert all[|rs|] == r;
    if c == q && p != Some(q) {
      var i :| 0 <= i < |rs| && rs[i].privacy == q;
      assert all[i].privacy == c;
    }
  }

  lemma {:induction false} StrictestIsStrictest(p: Option<Privacy>, rs: seq<BridgeRecord>)
    ensures IsStrictest(p, rs, Strictest(p, rs))
    decreases |rs|
  {
    if rs != [] {
      var front, r := rs[..|rs| - 1], rs[|rs| - 1];
      StrictestIsStrictest(p, front);
      assert rs == front + [r];
      if Strictest(p, front).Some? {
        StrictestSnoc(p, front, Strictest(p, front).value, r);
      } else {
        assert front == [] && rs == [r];
      }
    }
  }

  /** The privacy `q` was stored or came with a record. */
  predicate Seen(p: Option<Privacy>, rs: seq<BridgeRecord>, q: Privacy) {
    p == Some(q) || exists i | 0 <= i < |rs| :: rs[i].privacy == q
  }

  /** `r` is what was seen of the strictest: sealed before private before project-local before public. */
  predicate IsStrictestSeen(p: Option<Privacy>, rs: seq<BridgeRecord>, r: Option<Privacy>) {
    && (r == Some(Sealed) <==> Seen(p, rs, Sealed))
    && (r == Some(Private) <==> Seen(p, rs, Private) && !Seen(p, rs, Sealed))
    && (r == Some(ProjectLocal) <==> Seen(p, rs, ProjectLocal) && !Seen(p, rs, Private) && !Seen(p, rs, Sealed))
    && (r == Some(Public) <==>
          Seen(p, rs, Public) && !Seen(p, rs, ProjectLocal) && !Seen(p, rs, Private) && !Seen(p, rs, Sealed))
    && (r == None <==> p == None && rs == [])
  }

  lemma SeenSnoc(p: Option<Privacy>, rs: seq<BridgeRecord>, r: BridgeRecord, q: Privacy)
    ensures Seen(p, rs + [r], q) <==> Seen(p, rs, q) || r.privacy == q
  {
    var all := rs + [r];
    assert all[|rs|] == r;
    if i :| 0 <= i < |rs| && rs[i].privacy == q {
      assert all[i].privacy == q;
    }
  }

  lemma SeenMore(p: Option<Privacy>, rs: seq<BridgeRecord>, r: BridgeRecord)
    ensures forall q :: Seen(p, rs + [r], q) <==> Seen(p, rs, q) || r.privacy == q
  {
    forall q ensures Seen(p, rs + [r], q) <==> Seen(p, rs, q) || r.privacy == q {
      SeenSnoc(p, rs, r, q);
    }
  }

  lemma StrictestSeenNext(p: Option<Privacy>, rs: seq<BridgeRecord>, q: Option<Privacy>, r: BridgeRecord)
    requires IsStrictestSeen(p, rs, q)
    ensures IsStrictestSeen(p, rs + [r], Some(if q.Some? then q.value.Combine(r.privacy) else r.privacy))
  {
    SeenMore(p, rs, r);
  }

  lemma {:induction false} StrictestByName(p: Option<Privacy>, rs: seq<BridgeRecord>)
    ensures IsStrictestSeen(p, rs, Strictest(p, rs))
    decreases |rs|
  {
    if rs != [] {
      var front, r := rs[..|rs| - 1], rs[|rs| - 1];
      StrictestByName(p, front);
      assert rs == front + [r];
      StrictestSeenNext(p, front, Strictest(p, front), r);
    }
  }

  /** The state is a function of what was accepted: the last hash, the strictest privacy, and an
      unbroken chain from the hash the state held before. */
  predicate Consistent(hash: Hasher, s: BridgeState, p: Progress) {
    && Linked(hash, s.lastInbound, p.accepted)
    && p.state == BridgeState(LastHash(hash, s.lastInbound, p.accepted), s.lastOutbound,
                          Strictest(s.privacy, p.accepted))
  }

  lemma AcceptKeepsConsistent(hash: Hasher, s: BridgeState, p: Progress, r: BridgeRecord)
    requires Consistent(hash, s, p) && Accepts(p.state, r)
    ensures Consistent(hash, s, Progress(Accept(hash, p.state, r), p.accepted + [r], p.rejected))
  {
    var rs, n := p.accepted + [r], |p.accepted|;
    assert rs[..|rs| - 1] == p.accepted && rs[|rs| - 1] == r;
    assert LastHash(hash, s.lastInbound, rs) == Some(hash(r));
    assert Strictest(s.privacy, rs) == Accept(hash, p.state, r).privacy;
    forall i | 0 <= i < |rs| && rs[i].parentHash.Some?
      ensures rs[i].parentHash == HashBefore(hash, s.lastInbound, rs, i)
    {
      if i < n {
        assert rs[i] == p.accepted[i];
        assert HashBefore(hash, s.lastInbound, rs, i) == HashBefore(hash, s.lastInbound, p.accepted, i);
      }
    }
  }

  lemma {:induction false} ImportIsLinked(hash: Hasher, parse: Parser, s: BridgeState, lines: seq<string>)
    ensures Consistent(hash, s, ImportLines(hash, parse, Start(s), lines))
    decreases |lines|
  {
    if lines != [] {
      var front, line := lines[..|lines| - 1], lines[|lines| - 1];
      ImportIsLinked(hash, parse, s, front);
      var p := ImportLines(hash, parse, Start(s), front);
      if Trim(line) != "" && DeserializeRecord(parse, line).Ok?
         && Accepts(p.state, DeserializeRecord(parse, line).value) {
        AcceptKeepsConsistent(hash, s, p, DeserializeRecord(parse, line).value);
      }
    }
  }

  /** What one more line does. A line is decoded when it is not blank, parses, and is of version 0.3; a
      decoded record is accepted exactly when it names no parent or the last accepted hash, and rejected
      otherwise; a line that is not decoded leaves no trace. */
  lemma LineDecides(hash: Hasher, parse: Parser, p: Progress, line: string)
    ensures var q := ImportLine(hash, parse, p, line);
      var decoded := (exists i | 0 <= i < |line| :: !IsSpace(line[i]))
        && parse(line).Some? && parse(line).value.bridgeVersion == "0.3";
      var accepted := decoded
        && (parse(line).value.parentHash == None || parse(line).value.parentHash == p.state.lastInbound);
      && (q.accepted == if accepted then p.accepted + [parse(line).value] else p.accepted)
      && (q.rejected == if decoded && !accepted then p.rejected + 1 else p.rejected)
      && (if accepted then q.state.lastInbound == Some(hash(parse(line).value)) else q.state == p.state)
      && q.state.lastOutbound == p.state.lastOutbound
  {
    TrimIsBlank(line);
  }

  /** The early return without saving loses nothing: with nothing accepted the state is the old one. */
  lemma NothingAcceptedChangesNothing(hash: Hasher, parse: Parser, s: BridgeState, lines: seq<string>)
    requires ImportLines(hash, parse, Start(s), lines).accepted == []
    ensures ImportLines(hash, parse, Start(s), lines).state == s
  {
    ImportIsLinked(hash, parse, s, lines);
  }
}
