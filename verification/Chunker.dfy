/**
  Splitting a source file into overlapping chunks for the model: byte offsets into UTF-8 text,
  floored to character boundaries. The module proves exactly for which window and overlap the
  loop ends on every text, and that the chunks then cover the text and rebuild it.
 */
module Chunker {
  import opened Wrappers
  import opened Order

  type Byte = b: int | 0 <= b < 256

  predicate IsContinuation(b: Byte) { 0x80 <= b < 0xC0 }

  /** Length of the character a lead byte announces (RFC 3629, section 4); 0 for a byte that cannot lead. */
  function CharLen(b: Byte): nat {
    if b < 0x80 then 1
    else if 0xC2 <= b < 0xE0 then 2
    else if 0xE0 <= b < 0xF0 then 3
    else if 0xF0 <= b < 0xF5 then 4
    else 0
  }

  /** A sequence of characters, each a lead byte and its continuation bytes. Wider than UTF-8:
      overlong forms and surrogates are not excluded, so everything below holds for UTF-8. */
  predicate ValidText(t: seq<Byte>)
    decreases |t|
  {
    t == [] ||
    var n := CharLen(t[0]);
    1 <= n <= |t| && (forall i | 1 <= i < n :: IsContinuation(t[i])) && ValidText(t[n..])
  }

  /** `str::is_char_boundary` */
  predicate IsBoundary(t: seq<Byte>, i: nat) {
    i == 0 || i == |t| || (i < |t| && !IsContinuation(t[i]))
  }

  /** `str::floor_char_boundary` */
  function Floor(t: seq<Byte>, i: nat): (f: nat)
    ensures f <= i && f <= |t| && IsBoundary(t, f)
  {
    if i >= |t| then |t|
    else if IsBoundary(t, i) then i
    else Floor(t, i - 1)
  }

  /** Nothing between the floor and the index is a boundary. */
  lemma {:induction false} FloorAtLeast(t: seq<Byte>, b: nat, i: nat)
    requires b <= i && b <= |t| && IsBoundary(t, b)
    ensures b <= Floor(t, i)
  {
    if i < |t| && !IsBoundary(t, i) {
      FloorAtLeast(t, b, i - 1);
    }
  }

  lemma {:induction false} BoundaryAtNextChar(t: seq<Byte>, i: nat)
    requires ValidText(t) && i < |t| && IsBoundary(t, i)
    ensures 1 <= CharLen(t[i]) && i + CharLen(t[i]) <= |t| && IsBoundary(t, i + CharLen(t[i]))
    ensures forall j | i < j < i + CharLen(t[i]) :: IsContinuation(t[j])
    decreases |t|
  {
    var n := CharLen(t[0]);
    var rest := t[n..];
    if i == 0 {
      if n < |t| {
        assert rest[0] == t[n] && 1 <= CharLen(rest[0]);
      }
    } else {
      assert i >= n;
      assert rest[i - n] == t[i];
      BoundaryAtNextChar(rest, i - n);
      forall j | i < j < i + CharLen(t[i]) ensures IsContinuation(t[j]) {
        assert t[j] == rest[j - n];
      }
      var next := i + CharLen(t[i]);
      if next < |t| {
        assert t[next] == rest[next - n];
      }
    }
  }

  /** Characters are at most four bytes long, so flooring moves back at most three. */
  lemma {:induction false} FloorIsNear(t: seq<Byte>, i: nat)
    requires ValidText(t) && i <= |t|
    ensures i <= Floor(t, i) + 3
  {
    var f := Floor(t, i);
    if f < |t| {
      BoundaryAtNextChar(t, f);
      assert CharLen(t[f]) <= 4;
      if f + CharLen(t[f]) <= i {
        FloorAtLeast(t, f + CharLen(t[f]), i);
      }
    }
  }

  /** A position is a boundary unless the byte there is 0x80 to 0xBF; how long a character is its first byte
      says, as in RFC 3629. */
  lemma BoundariesByByte(t: seq<Byte>, i: nat)
    requires 0 < i < |t|
    ensures IsBoundary(t, i) <==> t[i] < 0x80 || 0xBF < t[i]
    ensures 1 <= CharLen(t[i]) ==> IsBoundary(t, i)
    ensures CharLen(t[i]) == 1 <==> t[i] <= 0x7F
    ensures CharLen(t[i]) == 2 <==> 0xC2 <= t[i] <= 0xDF
    ensures CharLen(t[i]) == 3 <==> 0xE0 <= t[i] <= 0xEF
    ensures CharLen(t[i]) == 4 <==> 0xF0 <= t[i] <= 0xF4
  {
  }

  /** Flooring gives the last boundary not after the index. */
  lemma FloorIsLast(t: seq<Byte>, i: nat, b: nat)
    requires IsBoundary(t, b) && b <= i && b <= |t|
    ensures IsBoundary(t, Floor(t, i)) && b <= Floor(t, i) <= i
  {
    FloorAtLeast(t, b, i);
  }

  // ----- one turn of the loop -----

  function SaturatingSub(a: nat, b: nat): nat { if a < b then 0 else a - b }

  function ChunkEnd(t: seq<Byte>, maxChars: nat, start: nat): nat {
    Floor(t, Min(start + maxChars, |t|))
  }

  /** Where the next chunk starts, `None` when the loop breaks. */
  function NextStart(t: seq<Byte>, maxChars: nat, overlap: nat, start: nat): Option<nat> {
    var end := ChunkEnd(t, maxChars, start);
    if end >= |t| then None
    else
      var back := Floor(t, SaturatingSub(end, overlap));
      var next := if back <= start then Floor(t, start + 1) else back;
      if next >= |t| then None else Some(next)
  }

  /** The window exceeds the overlap by enough to absorb two floorings; without overlap a whole
      character suffices. */
  predicate MakesProgress(maxChars: nat, overlap: nat) {
    4 <= maxChars && (overlap == 0 || overlap + 7 <= maxChars)
  }

  lemma EndAdvances(t: seq<Byte>, maxChars: nat, start: nat)
    requires ValidText(t) && start < |t| && IsBoundary(t, start) && 4 <= maxChars
    ensures var end := ChunkEnd(t, maxChars, start);
      && start < end <= |t| && end <= start + maxChars && IsBoundary(t, end)
      && (end < |t| ==> start + maxChars <= end + 3)
  {
    BoundaryAtNextChar(t, start);
    assert CharLen(t[start]) <= 4;
    FloorAtLeast(t, start + CharLen(t[start]), Min(start + maxChars, |t|));
    FloorIsNear(t, Min(start + maxChars, |t|));
  }

  /** Going back by the overlap and flooring lands at most three bytes short of it. */
  lemma FlooredBack(t: seq<Byte>, end: nat, overlap: nat)
    requires ValidText(t) && end <= |t| && IsBoundary(t, end) && overlap <= end
    ensures var back := Floor(t, SaturatingSub(end, overlap));
      overlap <= end - back <= if overlap == 0 then 0 else overlap + 3
  {
    if overlap == 0 {
      FloorAtLeast(t, end, end);
    } else {
      FloorIsNear(t, end - overlap);
    }
  }

  lemma StartAdvances(t: seq<Byte>, maxChars: nat, overlap: nat, start: nat)
    requires ValidText(t) && start < |t| && IsBoundary(t, start) && MakesProgress(maxChars, overlap)
    ensures var end := ChunkEnd(t, maxChars, start);
      end < |t| ==>
        var next := NextStart(t, maxChars, overlap, start);
        && next == Some(Floor(t, SaturatingSub(end, overlap))) && start < next.value <= end && IsBoundary(t, next.value)
        && overlap <= end - next.value <= if overlap == 0 then 0 else overlap + 3
  {
    EndAdvances(t, maxChars, start);
    var end := ChunkEnd(t, maxChars, start);
    if end < |t| {
      FlooredBack(t, end, overlap);
    }
  }

  lemma PassesBoundary(t: seq<Byte>, b: nat, i: nat)
    requires ValidText(t) && b < |t| && IsBoundary(t, b) && b + 4 <= i
    ensures b < Floor(t, Min(i, |t|))
  {
    BoundaryAtNextChar(t, b);
    assert CharLen(t[b]) <= 4;
    FloorAtLeast(t, b + CharLen(t[b]), Min(i, |t|));
  }

  lemma EndPasses(t: seq<Byte>, maxChars: nat, overlap: nat, end: nat, next: nat)
    requires ValidText(t) && end < |t| && IsBoundary(t, end) && MakesProgress(maxChars, overlap)
    requires next <= end && overlap <= end - next <= if overlap == 0 then 0 else overlap + 3
    ensures end < ChunkEnd(t, maxChars, next)
  {
    PassesBoundary(t, end, next + maxChars);
  }

  lemma EndsIncrease(t: seq<Byte>, maxChars: nat, overlap: nat, start: nat)
    requires ValidText(t) && start < |t| && IsBoundary(t, start) && MakesProgress(maxChars, overlap)
    requires ChunkEnd(t, maxChars, start) < |t|
    ensures NextStart(t, maxChars, overlap, start).Some?
    ensures ChunkEnd(t, maxChars, start) < ChunkEnd(t, maxChars, NextStart(t, maxChars, overlap, start).value)
  {
    EndAdvances(t, maxChars, start);
    StartAdvances(t, maxChars, overlap, start);
    EndPasses(t, maxChars, overlap, ChunkEnd(t, maxChars, start), NextStart(t, maxChars, overlap, start).value);
  }

  // ----- exactly when the loop ends -----

  /** Where the loop stands after `turns` turns, `None` once it has ended. */
  function StartAfter(t: seq<Byte>, maxChars: nat, overlap: nat, turns: nat): Option<nat> {
    if turns == 0 then if t == [] then None else Some(0)
    else match StartAfter(t, maxChars, overlap, turns - 1)
      case None => None
      case Some(start) => NextStart(t, maxChars, overlap, start)
  }

  ghost predicate Terminates(t: seq<Byte>, maxChars: nat, overlap: nat) {
    exists turns: nat :: StartAfter(t, maxChars, overlap, turns).None?
  }

  lemma {:induction false} StartsGrow(t: seq<Byte>, maxChars: nat, overlap: nat, turns: nat)
    requires ValidText(t) && MakesProgress(maxChars, overlap)
    ensures var s := StartAfter(t, maxChars, overlap, turns);
      s.Some? ==> turns <= s.value < |t| && IsBoundary(t, s.value)
  {
    if turns > 0 {
      StartsGrow(t, maxChars, overlap, turns - 1);
      var before := StartAfter(t, maxChars, overlap, turns - 1);
      if before.Some? && ChunkEnd(t, maxChars, before.value) < |t| {
        StartAdvances(t, maxChars, overlap, before.value);
      }
    }
  }

  const WIDE: seq<Byte> := [0xF0, 0x9F, 0x98, 0x80]

  /** `n` ASCII letters. */
  function Letters(n: nat): (r: seq<Byte>)
    ensures |r| == n && forall i | 0 <= i < n :: r[i] == 0x61
  {
    if n == 0 then [] else [0x61] + Letters(n - 1)
  }

  lemma {:induction false} LettersValid(n: nat, tail: seq<Byte>)
    requires ValidText(tail)
    ensures ValidText(Letters(n) + tail)
  {
    if n == 0 {
      assert Letters(0) + tail == tail;
    } else {
      LettersValid(n - 1, tail);
      assert (Letters(n) + tail)[1..] == Letters(n - 1) + tail;
    }
  }

  lemma WideValid(tail: seq<Byte>)
    requires ValidText(tail)
    ensures ValidText(WIDE + tail)
  {
    assert (WIDE + tail)[4..] == tail;
  }

  /** A text longer than the window on which the very first turn stalls. */
  function StallingText(maxChars: nat, overlap: nat): seq<Byte>
    requires !MakesProgress(maxChars, overlap)
  {
    if maxChars < 4 || maxChars <= overlap + 3 then WIDE + (Letters(maxChars) + [])
    else WIDE + (Letters(overlap - 1) + WIDE)
  }

  lemma FloorInWide(tail: seq<Byte>, i: nat)
    requires i < 4
    ensures Floor(WIDE + tail, i) == 0
  {
    var t := WIDE + tail;
    assert !IsBoundary(t, 1) && !IsBoundary(t, 2) && !IsBoundary(t, 3);
    assert Floor(t, 1) == 0 && Floor(t, 2) == 0;
  }

  /** Once the end lies within a wide character's length of the overlap, the turn stays at 0. */
  lemma StaysAtZero(tail: seq<Byte>, maxChars: nat, overlap: nat)
    requires maxChars < 4 + |tail|
    requires Floor(WIDE + tail, maxChars) <= overlap + 3
    ensures NextStart(WIDE + tail, maxChars, overlap, 0) == Some(0)
  {
    FloorInWide(tail, SaturatingSub(Floor(WIDE + tail, maxChars), overlap));
    FloorInWide(tail, 1);
  }

  lemma LongStall(maxChars: nat, overlap: nat)
    requires 1 <= overlap && overlap + 3 < maxChars < overlap + 7
    ensures Floor(WIDE + (Letters(overlap - 1) + WIDE), maxChars) == overlap + 3
  {
    var t := WIDE + (Letters(overlap - 1) + WIDE);
    assert t[overlap + 4] == 0x9F && t[overlap + 5] == 0x98 && t[overlap + 6] == 0x80;
    assert !IsBoundary(t, overlap + 4) && !IsBoundary(t, overlap + 5) && !IsBoundary(t, overlap + 6);
    assert t[overlap + 3] == 0xF0;
    assert Floor(t, overlap + 3) == overlap + 3 == Floor(t, overlap + 4);
    assert Floor(t, overlap + 5) == overlap + 3;
  }

  lemma StallingTextStalls(maxChars: nat, overlap: nat)
    requires !MakesProgress(maxChars, overlap)
    ensures var t := StallingText(maxChars, overlap);
      ValidText(t) && maxChars < |t| && NextStart(t, maxChars, overlap, 0) == Some(0)
  {
    if maxChars < 4 || maxChars <= overlap + 3 {
      LettersValid(maxChars, []);
      WideValid(Letters(maxChars) + []);
      StaysAtZero(Letters(maxChars) + [], maxChars, overlap);
    } else {
      WideValid([]);
      assert WIDE + [] == WIDE;
      LettersValid(overlap - 1, WIDE);
      WideValid(Letters(overlap - 1) + WIDE);
      LongStall(maxChars, overlap);
      StaysAtZero(Letters(overlap - 1) + WIDE, maxChars, overlap);
    }
  }

  lemma {:induction false} StalledForEver(t: seq<Byte>, maxChars: nat, overlap: nat, turns: nat)
    requires t != [] && NextStart(t, maxChars, overlap, 0) == Some(0)
    ensures StartAfter(t, maxChars, overlap, turns) == Some(0)
  {
    if turns > 0 {
      StalledForEver(t, maxChars, overlap, turns - 1);
    }
  }

  /** The loop ends on every text, equivalently on every text longer than the window, exactly when
      the window and the overlap make progress. */
  lemma TerminatesExactly(maxChars: nat, overlap: nat)
    ensures MakesProgress(maxChars, overlap) <==>
      forall t | ValidText(t) && maxChars < |t| :: Terminates(t, maxChars, overlap)
    ensures MakesProgress(maxChars, overlap) <==>
      forall t | ValidText(t) :: Terminates(t, maxChars, overlap)
  {
    if MakesProgress(maxChars, overlap) {
      forall t | ValidText(t) ensures Terminates(t, maxChars, overlap) {
        StartsGrow(t, maxChars, overlap, |t|);
        assert StartAfter(t, maxChars, overlap, |t|).None?;
      }
    } else {
      var t := StallingText(maxChars, overlap);
      StallingTextStalls(maxChars, overlap);
      forall turns: nat ensures !StartAfter(t, maxChars, overlap, turns).None? {
        StalledForEver(t, maxChars, overlap, turns);
      }
      assert !Terminates(t, maxChars, overlap);
    }
  }

  // ----- on which text the loop ends -----

  /** From `start` on every turn moves forward until the loop breaks. */
  predicate EndsFrom(t: seq<Byte>, maxChars: nat, overlap: nat, start: nat)
    requires start <= |t|
    decreases |t| - start
  {
    match NextStart(t, maxChars, overlap, start)
    case None => true
    case Some(next) => start < next && EndsFrom(t, maxChars, overlap, next)
  }

  /** No turn moves back. */
  lemma NeverMovesBack(t: seq<Byte>, maxChars: nat, overlap: nat, start: nat)
    requires start < |t| && IsBoundary(t, start)
    ensures var next := NextStart(t, maxChars, overlap, start);
      next.Some? ==> start <= next.value < |t| && IsBoundary(t, next.value)
  {
    FloorAtLeast(t, start, start + 1);
  }

  lemma {:induction false} EndsWithin(t: seq<Byte>, maxChars: nat, overlap: nat, turns: nat, start: nat)
    requires start < |t| && StartAfter(t, maxChars, overlap, turns) == Some(start)
      && EndsFrom(t, maxChars, overlap, start)
    ensures Terminates(t, maxChars, overlap)
    decreases |t| - start
  {
    var next := NextStart(t, maxChars, overlap, start);
    assert StartAfter(t, maxChars, overlap, turns + 1) == next;
    if next.Some? {
      EndsWithin(t, maxChars, overlap, turns + 1, next.value);
    }
  }

  lemma StuckTurn(t: seq<Byte>, maxChars: nat, overlap: nat, start: nat)
    requires start < |t| && IsBoundary(t, start) && !EndsFrom(t, maxChars, overlap, start)
    ensures var s := NextStart(t, maxChars, overlap, start);
      s.Some? && s.value < |t| && IsBoundary(t, s.value) && !EndsFrom(t, maxChars, overlap, s.value)
  {
    NeverMovesBack(t, maxChars, overlap, start);
  }

  lemma {:induction false} StaysStuck(t: seq<Byte>, maxChars: nat, overlap: nat, turns: nat)
    requires t != [] && !EndsFrom(t, maxChars, overlap, 0)
    ensures var s := StartAfter(t, maxChars, overlap, turns);
      s.Some? && s.value < |t| && IsBoundary(t, s.value) && !EndsFrom(t, maxChars, overlap, s.value)
  {
    if turns > 0 {
      StaysStuck(t, maxChars, overlap, turns - 1);
      StuckTurn(t, maxChars, overlap, StartAfter(t, maxChars, overlap, turns - 1).value);
    }
  }

  /** On a given text the loop ends exactly when every turn moves forward. */
  lemma EndsExactly(t: seq<Byte>, maxChars: nat, overlap: nat)
    ensures Terminates(t, maxChars, overlap) <==> EndsFrom(t, maxChars, overlap, 0)
  {
    if t == [] {
      assert StartAfter(t, maxChars, overlap, 0).None?;
    } else if EndsFrom(t, maxChars, overlap, 0) {
      EndsWithin(t, maxChars, overlap, 0, 0);
    } else {
      forall turns: nat ensures !StartAfter(t, maxChars, overlap, turns).None? {
        StaysStuck(t, maxChars, overlap, turns);
      }
    }
  }

  /** Inside the bound it does, from every boundary. */
  lemma {:induction false} ProgressEnds(t: seq<Byte>, maxChars: nat, overlap: nat, start: nat)
    requires ValidText(t) && MakesProgress(maxChars, overlap) && start <= |t| && IsBoundary(t, start)
    ensures EndsFrom(t, maxChars, overlap, start)
    decreases |t| - start
  {
    if start < |t| && ChunkEnd(t, maxChars, start) < |t| {
      StartAdvances(t, maxChars, overlap, start);
      ProgressEnds(t, maxChars, overlap, NextStart(t, maxChars, overlap, start).value);
    }
  }

  // ----- the chunks cover the text -----

  /** Byte ranges of the chunks from `start` on. */
  function Spans(t: seq<Byte>, maxChars: nat, overlap: nat, start: nat): seq<(nat, nat)>
    requires start <= |t| && EndsFrom(t, maxChars, overlap, start)
    decreases |t| - start
  {
    [(start, ChunkEnd(t, maxChars, start))] +
    match NextStart(t, maxChars, overlap, start)
    case None => []
    case Some(next) => Spans(t, maxChars, overlap, next)
  }

  predicate IsSpan(t: seq<Byte>, maxChars: nat, s: (nat, nat)) {
    s.0 < s.1 <= |t| && s.1 - s.0 <= maxChars && IsBoundary(t, s.0) && IsBoundary(t, s.1)
  }

  /** Starts and ends strictly increase, and the next chunk starts at or before the previous end,
      overlapping it by `overlap` to `overlap + 3` bytes. */
  predicate Overlapping(overlap: nat, a: (nat, nat), b: (nat, nat)) {
    a.0 < b.0 <= a.1 < b.1 && overlap <= a.1 - b.0 <= overlap + 3
  }

  /** What one turn contributes: a span on boundaries and how the next one overlaps it. */
  lemma TurnSpan(t: seq<Byte>, maxChars: nat, overlap: nat, start: nat)
    requires ValidText(t) && MakesProgress(maxChars, overlap) && start < |t| && IsBoundary(t, start)
    ensures IsSpan(t, maxChars, (start, ChunkEnd(t, maxChars, start)))
    ensures ChunkEnd(t, maxChars, start) < |t| ==>
      var next := NextStart(t, maxChars, overlap, start);
      && next.Some? && start < next.value < |t| && IsBoundary(t, next.value)
      && Overlapping(overlap, (start, ChunkEnd(t, maxChars, start)), (next.value, ChunkEnd(t, maxChars, next.value)))
  {
    EndAdvances(t, maxChars, start);
    if ChunkEnd(t, maxChars, start) < |t| {
      StartAdvances(t, maxChars, overlap, start);
      EndsIncrease(t, maxChars, overlap, start);
    }
  }

  predicate Covers(t: seq<Byte>, maxChars: nat, overlap: nat, spans: seq<(nat, nat)>) {
    && spans != [] && spans[|spans| - 1].1 == |t|
    && (forall i | 0 <= i < |spans| :: IsSpan(t, maxChars, spans[i]))
    && (forall i | 0 <= i < |spans| - 1 :: Overlapping(overlap, spans[i], spans[i + 1]))
  }

  lemma CoversCons(t: seq<Byte>, maxChars: nat, overlap: nat, s: (nat, nat), rest: seq<(nat, nat)>)
    requires Covers(t, maxChars, overlap, rest)
    requires IsSpan(t, maxChars, s) && Overlapping(overlap, s, rest[0])
    ensures Covers(t, maxChars, overlap, [s] + rest)
  {
    var all := [s] + rest;
    forall i | 0 <= i < |all| - 1 ensures Overlapping(overlap, all[i], all[i + 1]) {
      if i > 0 {
        assert all[i] == rest[i - 1] && all[i + 1] == rest[i];
      }
    }
  }

  lemma {:induction false} SpansCover(t: seq<Byte>, maxChars: nat, overlap: nat, start: nat)
    requires ValidText(t) && MakesProgress(maxChars, overlap) && start < |t| && IsBoundary(t, start)
    ensures EndsFrom(t, maxChars, overlap, start)
    ensures var s := Spans(t, maxChars, overlap, start);
      Covers(t, maxChars, overlap, s) && s[0] == (start, ChunkEnd(t, maxChars, start))
    decreases |t| - start
  {
    ProgressEnds(t, maxChars, overlap, start);
    TurnSpan(t, maxChars, overlap, start);
    var end := ChunkEnd(t, maxChars, start);
    if end < |t| {
      var next := NextStart(t, maxChars, overlap, start).value;
      SpansCover(t, maxChars, overlap, next);
      CoversCons(t, maxChars, overlap, (start, end), Spans(t, maxChars, overlap, next));
    }
  }

  predicate Within(t: seq<Byte>, spans: seq<(nat, nat)>) {
    forall i | 0 <= i < |spans| :: spans[i].0 <= spans[i].1 <= |t|
  }

  /** The texts of the chunks. */
  function Slices(t: seq<Byte>, spans: seq<(nat, nat)>): seq<seq<Byte>>
    requires Within(t, spans)
  {
    seq(|spans|, i requires 0 <= i < |spans| => t[spans[i].0..spans[i].1])
  }

  /** Append each chunk without the part that repeats what is already there. */
  function Reassemble(soFar: seq<Byte>, spans: seq<(nat, nat)>, chunks: seq<seq<Byte>>): seq<Byte>
    requires |spans| == |chunks|
    decreases |chunks|
  {
    if chunks == [] then soFar
    else
      var repeated := SaturatingSub(|soFar|, spans[0].0);
      var added := if repeated <= |chunks[0]| then chunks[0][repeated..] else [];
      Reassemble(soFar + added, spans[1..], chunks[1..])
  }

  lemma {:induction false} ChunksRebuild(t: seq<Byte>, spans: seq<(nat, nat)>, done: nat)
    requires done <= |t| && (spans == [] ==> done == |t|)
    requires spans != [] ==> spans[0].0 <= done <= spans[0].1 && spans[|spans| - 1].1 == |t|
    requires Within(t, spans)
    requires forall i | 0 <= i < |spans| - 1 :: spans[i + 1].0 <= spans[i].1 <= spans[i + 1].1
    ensures Reassemble(t[..done], spans, Slices(t, spans)) == t
    decreases |spans|
  {
    if spans == [] {
      assert t[..done] == t;
    } else {
      var (a, b) := spans[0];
      var rest := spans[1..];
      assert t[a..b][done - a..] == t[done..b];
      assert t[..done] + t[done..b] == t[..b];
      assert Slices(t, spans)[1..] == Slices(t, rest);
      ChunksRebuild(t, rest, b);
    }
  }

  lemma SlicesSnoc(t: seq<Byte>, spans: seq<(nat, nat)>, a: nat, b: nat)
    requires Within(t, spans) && a <= b <= |t|
    ensures Within(t, spans + [(a, b)])
    ensures Slices(t, spans + [(a, b)]) == Slices(t, spans) + [t[a..b]]
  {
  }

  /** The spans still to come when the loop stands at `start`. */
  ghost function SpansFrom(t: seq<Byte>, maxChars: nat, overlap: nat, start: nat): seq<(nat, nat)>
    requires start <= |t| && EndsFrom(t, maxChars, overlap, start)
  {
    if start == |t| then [] else Spans(t, maxChars, overlap, start)
  }

  /** The whole result: spans on boundaries within the window, advancing and overlapping as asked,
      whose chunks rebuild the text. */
  lemma SpansRebuild(t: seq<Byte>, maxChars: nat, overlap: nat)
    requires ValidText(t) && MakesProgress(maxChars, overlap)
    ensures EndsFrom(t, maxChars, overlap, 0)
    ensures var spans := SpansFrom(t, maxChars, overlap, 0);
      && (t != [] ==> Covers(t, maxChars, overlap, spans))
      && Within(t, spans) && Reassemble([], spans, Slices(t, spans)) == t
  {
    ProgressEnds(t, maxChars, overlap, 0);
    if t != [] {
      SpansCover(t, maxChars, overlap, 0);
      var spans := SpansFrom(t, maxChars, overlap, 0);
      ChunksRebuild(t, spans, 0);
      assert t[..0] == [];
    }
  }

  // ----- outside the bound, where the loop still ends -----

  lemma EndsKeepOrder(t: seq<Byte>, maxChars: nat, a: nat, b: nat)
    requires a <= b
    ensures ChunkEnd(t, maxChars, a) <= ChunkEnd(t, maxChars, b)
  {
    FloorAtLeast(t, ChunkEnd(t, maxChars, a), Min(b + maxChars, |t|));
  }

  /** The next byte starts a character, or flooring it goes back to this one. */
  lemma NextByte(t: seq<Byte>, start: nat)
    requires ValidText(t) && start < |t| && IsBoundary(t, start)
    ensures IsBoundary(t, start + 1) || Floor(t, start + 1) == start
  {
    BoundaryAtNextChar(t, start);
    if CharLen(t[start]) > 1 {
      assert IsContinuation(t[start + 1]);
      assert Floor(t, start) == start;
    }
  }

  /** A window that ends where it starts is narrower than the character there: the turn is stuck. */
  lemma NoCharNoMove(t: seq<Byte>, maxChars: nat, overlap: nat, start: nat)
    requires ValidText(t) && start < |t| && IsBoundary(t, start) && 1 <= maxChars
    requires ChunkEnd(t, maxChars, start) <= start
    ensures NextStart(t, maxChars, overlap, start) == Some(start)
  {
    NextByte(t, start);
    if IsBoundary(t, start + 1) {
      FloorAtLeast(t, start + 1, Min(start + maxChars, |t|));
    } else {
      FloorAtLeast(t, start, Min(start + maxChars, |t|));
    }
  }

  /** A turn of a loop that ends, with any window: it takes at least a character, and the next chunk starts
      inside this one. */
  lemma EndingTurn(t: seq<Byte>, maxChars: nat, overlap: nat, start: nat)
    requires ValidText(t) && start < |t| && IsBoundary(t, start) && 1 <= maxChars
      && EndsFrom(t, maxChars, overlap, start)
    ensures var end := ChunkEnd(t, maxChars, start);
      && start < end <= |t|
      && (end < |t| ==>
            var next := NextStart(t, maxChars, overlap, start);
            next.Some? && start < next.value <= end && IsBoundary(t, next.value))
  {
    if ChunkEnd(t, maxChars, start) <= start {
      NoCharNoMove(t, maxChars, overlap, start);
    }
  }

  /** The fallback: when no boundary after this start is far enough back, the next chunk starts one byte on if
      that is a character, and otherwise here again. */
  lemma FallsBackByOne(t: seq<Byte>, maxChars: nat, overlap: nat, start: nat)
    requires ValidText(t) && start + 1 < |t| && IsBoundary(t, start) && ChunkEnd(t, maxChars, start) < |t|
    requires forall b: nat | IsBoundary(t, b) && b + overlap <= ChunkEnd(t, maxChars, start) :: b <= start
    ensures NextStart(t, maxChars, overlap, start) == Some(if IsBoundary(t, start + 1) then start + 1 else start)
  {
    NextByte(t, start);
    var end := ChunkEnd(t, maxChars, start);
    var back := Floor(t, SaturatingSub(end, overlap));
    if overlap <= end {
      assert IsBoundary(t, back) && back + overlap <= end;
    }
  }

  predicate Chained(t: seq<Byte>, spans: seq<(nat, nat)>) {
    && Within(t, spans)
    && (forall i | 0 <= i < |spans| - 1 :: spans[i + 1].0 <= spans[i].1 <= spans[i + 1].1)
    && (spans != [] ==> spans[|spans| - 1].1 == |t|)
  }

  lemma ChainedCons(t: seq<Byte>, s: (nat, nat), rest: seq<(nat, nat)>)
    requires Chained(t, rest) && s.0 <= s.1 <= |t|
    requires if rest == [] then s.1 == |t| else rest[0].0 <= s.1 <= rest[0].1
    ensures Chained(t, [s] + rest)
  {
    var all := [s] + rest;
    forall i | 0 <= i < |all| - 1 ensures all[i + 1].0 <= all[i].1 <= all[i + 1].1 {
      assert all[i + 1] == rest[i];
      if i > 0 {
        assert all[i] == rest[i - 1];
      }
    }
  }

  lemma {:induction false} SpansChained(t: seq<Byte>, maxChars: nat, overlap: nat, start: nat)
    requires ValidText(t) && start < |t| && IsBoundary(t, start) && 1 <= maxChars
      && EndsFrom(t, maxChars, overlap, start)
    ensures var spans := Spans(t, maxChars, overlap, start);
      spans[0] == (start, ChunkEnd(t, maxChars, start)) && Chained(t, spans)
    decreases |t| - start
  {
    EndingTurn(t, maxChars, overlap, start);
    var s := (start, ChunkEnd(t, maxChars, start));
    match NextStart(t, maxChars, overlap, start)
    case None => ChainedCons(t, s, []);
    case Some(next) =>
      SpansChained(t, maxChars, overlap, next);
      EndsKeepOrder(t, maxChars, start, next);
      ChainedCons(t, s, Spans(t, maxChars, overlap, next));
  }

  /** A window of no bytes cuts empty chunks. */
  lemma {:induction false} SpansEmpty(t: seq<Byte>, overlap: nat, start: nat)
    requires start < |t| && IsBoundary(t, start) && EndsFrom(t, 0, overlap, start)
    ensures var spans := Spans(t, 0, overlap, start);
      Within(t, spans) && forall i | 0 <= i < |spans| :: spans[i].0 == spans[i].1
    decreases |t| - start
  {
    assert ChunkEnd(t, 0, start) == start;
    var next := NextStart(t, 0, overlap, start);
    if next.Some? {
      NeverMovesBack(t, 0, overlap, start);
      SpansEmpty(t, overlap, next.value);
    }
  }

  lemma EmptyFirstChunk(spans: seq<(nat, nat)>, chunks: seq<seq<Byte>>)
    requires |spans| == |chunks| && chunks != [] && chunks[0] == []
    ensures Reassemble([], spans, chunks) == Reassemble([], spans[1..], chunks[1..])
  {
    var nothing: seq<Byte> := [];
    assert nothing[0..] == nothing && nothing + nothing == nothing;
  }

  lemma {:induction false} EmptyChunks(spans: seq<(nat, nat)>, chunks: seq<seq<Byte>>)
    requires |spans| == |chunks| && forall i | 0 <= i < |chunks| :: chunks[i] == []
    ensures Reassemble([], spans, chunks) == []
    decreases |chunks|
  {
    if chunks != [] {
      EmptyFirstChunk(spans, chunks);
      EmptyChunks(spans[1..], chunks[1..]);
    }
  }

  /** Whenever the loop ends, its chunks rebuild the text exactly when the window is not zero. */
  lemma RebuildsExactly(t: seq<Byte>, maxChars: nat, overlap: nat)
    requires ValidText(t) && EndsFrom(t, maxChars, overlap, 0)
    ensures var spans := SpansFrom(t, maxChars, overlap, 0);
      Within(t, spans) && (Reassemble([], spans, Slices(t, spans)) == t <==> 1 <= maxChars || t == [])
  {
    if t != [] {
      var spans := SpansFrom(t, maxChars, overlap, 0);
      if maxChars == 0 {
        SpansEmpty(t, overlap, 0);
        EmptyChunks(spans, Slices(t, spans));
      } else {
        SpansChained(t, maxChars, overlap, 0);
        ChunksRebuild(t, spans, 0);
        assert t[..0] == [];
      }
    }
  }

  lemma MoveFirst<T>(a: seq<T>, x: T, b: seq<T>)
    ensures a + ([x] + b) == (a + [x]) + b
  {
  }

  /** The loop stands at `start`, having cut `spans`: the rest of the spans is still to come. */
  ghost predicate StandsAt(t: seq<Byte>, maxChars: nat, overlap: nat, start: nat, spans: seq<(nat, nat)>)
    requires EndsFrom(t, maxChars, overlap, 0)
  {
    && start <= |t| && IsBoundary(t, start) && EndsFrom(t, maxChars, overlap, start) && Within(t, spans)
    && spans + SpansFrom(t, maxChars, overlap, start) == SpansFrom(t, maxChars, overlap, 0)
  }

  lemma Turn(t: seq<Byte>, maxChars: nat, overlap: nat, start: nat, spans: seq<(nat, nat)>)
    requires EndsFrom(t, maxChars, overlap, 0) && StandsAt(t, maxChars, overlap, start, spans) && start < |t|
    ensures var end := ChunkEnd(t, maxChars, start);
      && start <= end <= |t| && Within(t, spans + [(start, end)])
      && Slices(t, spans + [(start, end)]) == Slices(t, spans) + [t[start..end]]
      && (match NextStart(t, maxChars, overlap, start)
          case None => spans + [(start, end)] == SpansFrom(t, maxChars, overlap, 0)
          case Some(next) => start < next && StandsAt(t, maxChars, overlap, next, spans + [(start, end)]))
  {
    var end := ChunkEnd(t, maxChars, start);
    FloorAtLeast(t, start, Min(start + maxChars, |t|));
    SlicesSnoc(t, spans, start, end);
    match NextStart(t, maxChars, overlap, start)
    case None =>
      assert [(start, end)] + [] == [(start, end)];
    case Some(next) =>
      NeverMovesBack(t, maxChars, overlap, start);
      MoveFirst(spans, (start, end), Spans(t, maxChars, overlap, next));
  }

  method ChunkContent(content: seq<Byte>, maxChars: nat, overlap: nat) returns (chunks: seq<seq<Byte>>)
    requires EndsFrom(content, maxChars, overlap, 0)
    ensures Within(content, SpansFrom(content, maxChars, overlap, 0))
    ensures chunks == Slices(content, SpansFrom(content, maxChars, overlap, 0))
  {
    chunks := [];
    ghost var spans: seq<(nat, nat)> := [];
    var start := 0;
    while start < |content|
      invariant StandsAt(content, maxChars, overlap, start, spans)
      invariant chunks == Slices(content, spans)
      decreases |content| - start
    {
      Turn(content, maxChars, overlap, start, spans);
      var end := Floor(content, Min(start + maxChars, |content|));
      chunks := chunks + [content[start..end]];
      spans := spans + [(start, end)];
      if end >= |content| {
        break;
      }
      var nextStart := Floor(content, SaturatingSub(end, overlap));
      if nextStart <= start {
        nextStart := Floor(content, start + 1);
      }
      if nextStart >= |content| {
        break;
      }
      start := nextStart;
    }
    assert spans + [] == spans;
  }

  // ----- the caller -----

  const DEFAULT_OVERLAP: nat := 1000

  /** The window for the model's reported context size, in bytes. */
  function MaxChars(contextWindow: nat): nat {
    4 * if contextWindow >= 64000 then 24000 else if contextWindow >= 16000 then 8000 else 4000
  }

  /** The window in bytes, by the model's context in tokens. */
  lemma WindowSizes(contextWindow: nat)
    ensures MaxChars(contextWindow) ==
      if contextWindow < 16_000 then 16_000 else if contextWindow < 64_000 then 32_000 else 96_000
  {
  }

  /** The file fits into the window, or the loop ends on it. */
  predicate FileEnds(content: seq<Byte>, contextWindow: nat, overlap: nat) {
    |content| > MaxChars(contextWindow) ==> EndsFrom(content, MaxChars(contextWindow), overlap, 0)
  }

  /** No file hangs exactly when the overlap is at least 7 bytes short of the window, as the default is
      whatever the model's context. */
  lemma FilesEndExactly(contextWindow: nat, overlap: nat)
    ensures (forall t | ValidText(t) :: FileEnds(t, contextWindow, overlap)) <==> overlap + 7 <= MaxChars(contextWindow)
    ensures DEFAULT_OVERLAP == 1_000 && DEFAULT_OVERLAP + 7 <= MaxChars(contextWindow)
  {
    var maxChars := MaxChars(contextWindow);
    if overlap + 7 <= maxChars {
      forall t | ValidText(t) ensures FileEnds(t, contextWindow, overlap) {
        ProgressEnds(t, maxChars, overlap, 0);
      }
    } else {
      var t := StallingText(maxChars, overlap);
      StallingTextStalls(maxChars, overlap);
      assert ValidText(t) && !FileEnds(t, contextWindow, overlap);
    }
  }

  ghost function FileSpans(content: seq<Byte>, contextWindow: nat, overlap: nat): seq<(nat, nat)>
    requires FileEnds(content, contextWindow, overlap)
  {
    var maxChars := MaxChars(contextWindow);
    if |content| <= maxChars then [(0, |content|)] else SpansFrom(content, maxChars, overlap, 0)
  }

  lemma {:induction false} SpansFit(t: seq<Byte>, maxChars: nat, overlap: nat, start: nat)
    requires start <= |t| && EndsFrom(t, maxChars, overlap, start)
    ensures forall s | s in Spans(t, maxChars, overlap, start) :: s.1 <= s.0 + maxChars
    decreases |t| - start
  {
    var next := NextStart(t, maxChars, overlap, start);
    if next.Some? {
      SpansFit(t, maxChars, overlap, next.value);
    }
  }

  /** A file that fits is one chunk; a longer one is split with the configured overlap. On every file on which
      that ends, no chunk exceeds the window and together they rebuild the file. */
  method FileChunks(content: seq<Byte>, contextWindow: nat, overlap: nat) returns (chunks: seq<seq<Byte>>)
    requires ValidText(content) && FileEnds(content, contextWindow, overlap)
    ensures forall i | 0 <= i < |chunks| :: |chunks[i]| <= MaxChars(contextWindow)
    ensures var spans := FileSpans(content, contextWindow, overlap);
      && Within(content, spans) && chunks == Slices(content, spans)
      && Reassemble([], spans, chunks) == content
  {
    var maxChars := MaxChars(contextWindow);
    ghost var spans := FileSpans(content, contextWindow, overlap);
    if |content| <= maxChars {
      chunks := [content];
      assert content[0..] == content && [] + content == content && content[0..|content|] == content;
      assert chunks[1..] == [] && spans[1..] == [];
    } else {
      RebuildsExactly(content, maxChars, overlap);
      chunks := ChunkContent(content, maxChars, overlap);
      SpansFit(content, maxChars, overlap, 0);
      forall i | 0 <= i < |chunks| ensures |chunks[i]| <= maxChars {
        assert spans[i] in spans && chunks[i] == content[spans[i].0..spans[i].1];
      }
    }
  }
}
