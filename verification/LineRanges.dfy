/**
  Removing ranges of lines one after the other, all numbered in the file as it was before the first
  removal. The lines are of any type, so a file can be followed by the original line numbers alone.
 */
module LineRanges {
  import opened Wrappers
  import opened Order

  /** 1-based and inclusive. */
  datatype Range = Range(start: nat, end: nat)

  predicate Valid(r: Range) { 0 < r.start <= r.end }

  /** Drops the lines of `r`; a file left without lines keeps one `blank`. Fails on an invalid range and
      on one that starts past the end. */
  function Remove<T>(blank: T, lines: seq<T>, r: Range): Option<seq<T>> {
    if !Valid(r) || r.start > |lines| then None
    else
      var kept := lines[..r.start - 1] + lines[Min(r.end, |lines|)..];
      Some(if kept == [] then [blank] else kept)
  }

  /** Removes the ranges in turn; the second result lists those that succeeded. */
  function RemoveAll<T>(blank: T, lines: seq<T>, rs: seq<Range>): (seq<T>, seq<Range>)
    decreases rs
  {
    if rs == [] then (lines, [])
    else match Remove(blank, lines, rs[0])
      case None => RemoveAll(blank, lines, rs[1..])
      case Some(kept) =>
        var (out, done) := RemoveAll(blank, kept, rs[1..]);
        (out, [rs[0]] + done)
  }

  /** One removal: it fails on a range that is empty, starts at line 0 or starts past the end; otherwise the
      lines before and after the range stay, or one blank line if there are none. */
  lemma RemovesExactly<T>(blank: T, lines: seq<T>, start: nat, end: nat)
    ensures var r := Remove(blank, lines, Range(start, end));
      && (r == None <==> start == 0 || end < start || |lines| < start)
      && (start == 1 <= |lines| <= end ==> r == Some([blank]))
      && (1 <= start <= end < |lines| ==> r == Some(lines[..start - 1] + lines[end..]))
      && (2 <= start <= |lines| <= end ==> r == Some(lines[..start - 1]))
  {
    if 2 <= start <= |lines| <= end {
      assert lines[..start - 1] + lines[|lines|..] == lines[..start - 1];
    }
  }

  /** Later valid ranges lie entirely below earlier ones. */
  predicate Ascending(rs: seq<Range>) {
    forall i, j | 0 <= i < j < |rs| && Valid(rs[i]) && Valid(rs[j]) :: rs[i].end < rs[j].start
  }

  predicate AllBelow(line: nat, rs: seq<Range>) {
    forall i | 0 <= i < |rs| && Valid(rs[i]) :: line < rs[i].start
  }

  // ----- following the original line numbers -----

  const BLANK: int := -1

  function Numbers(n: nat): seq<int> { seq(n, i => i) }

  /** 0-based numbers of the lines the ranges name. */
  function Named(n: nat, rs: seq<Range>): set<int> {
    set k: int | 0 <= k < n && NamedBy(k, rs)
  }

  predicate NamedBy(k: int, rs: seq<Range>) {
    exists i | 0 <= i < |rs| :: rs[i].start <= k + 1 <= rs[i].end
  }

  function Surviving(lines: seq<int>): set<int> {
    set k | k in lines && k != BLANK
  }

  /** Lines above every remaining range stay where they are. */
  lemma {:induction false} LinesAboveStay(lines: seq<int>, rs: seq<Range>, k: nat)
    requires k < |lines| && AllBelow(k + 1, rs)
    ensures k < |RemoveAll(BLANK, lines, rs).0| && RemoveAll(BLANK, lines, rs).0[k] == lines[k]
    decreases rs
  {
    if rs != [] {
      match Remove(BLANK, lines, rs[0])
      case None => LinesAboveStay(lines, rs[1..], k);
      case Some(kept) =>
        assert kept[k] == lines[k];
        LinesAboveStay(kept, rs[1..], k);
    }
  }

  /** The file after one removal: lines above the range in place, lines below moved up. */
  lemma AfterOneRemoval(n: nat, first: Range)
    requires first.end < n && Remove(BLANK, Numbers(n), first).Some?
    ensures var gone, lines := first.end - first.start + 1, Remove(BLANK, Numbers(n), first).value;
      |lines| == n - gone && forall k | 0 <= k < |lines| :: lines[k] == if k < first.start - 1 then k else k + gone
  {
  }

  /** So the next range hits the original lines that far below the ones it names. */
  lemma LaterRangeIsShifted(n: nat, first: Range, next: Range, lines: seq<int>, after: seq<int>)
    requires first.end < next.start
    requires Remove(BLANK, Numbers(n), first) == Some(lines) && Remove(BLANK, lines, next) == Some(after)
    ensures var gone := first.end - first.start + 1;
      forall k :: k in lines && k !in after <==> next.start - 1 + gone <= k < Min(next.end + gone, n)
  {
    var gone, top, cut := first.end - first.start + 1, next.start - 1, Min(next.end, |lines|);
    AfterOneRemoval(n, first);
    var kept := lines[..top] + lines[cut..];
    assert kept != [] ==> after == kept;
    forall k ensures k in lines && k !in after <==> top + gone <= k < Min(next.end + gone, n) {
      if top + gone <= k < Min(next.end + gone, n) {
        assert lines[k - gone] == k;
        assert k !in kept;
      } else if k in lines {
        var i :| 0 <= i < |lines| && lines[i] == k;
        assert i < top || cut <= i;
        assert kept[if i < top then i else i - (cut - top)] == k;
      }
    }
  }

  lemma NumbersAll(n: nat)
    ensures forall k :: k in Surviving(Numbers(n)) <==> 0 <= k < n
  {
    forall k: int ensures k in Numbers(n) <==> 0 <= k < n {
      if 0 <= k < n {
        assert Numbers(n)[k] == k;
      }
    }
  }

  lemma NamedByOne(k: int, r: Range)
    ensures NamedBy(k, [r]) <==> r.start <= k + 1 <= r.end
  {
    assert [r][0] == r;
  }

  lemma OneRemovalIsExact(n: nat, r: Range)
    requires Remove(BLANK, Numbers(n), r).Some?
    ensures Surviving(Remove(BLANK, Numbers(n), r).value) == Surviving(Numbers(n)) - Named(n, [r])
  {
    var lines, cut := Numbers(n), Min(r.end, n);
    var kept := lines[..r.start - 1] + lines[cut..];
    NumbersAll(n);
    forall k: int ensures k in kept <==> k in Surviving(lines) - Named(n, [r]) {
      NamedByOne(k, r);
      if 0 <= k < r.start - 1 {
        assert kept[k] == k;
      } else if cut <= k < n {
        assert kept[r.start - 1 + (k - cut)] == k;
      }
    }
  }

  // ----- exactly when a sequence of removals does what it names -----

  predicate SortedStarts(rs: seq<Range>) {
    forall i, j | 0 <= i < j < |rs| && Valid(rs[i]) && Valid(rs[j]) :: rs[i].start <= rs[j].start
  }

  predicate AllFrom(a: nat, rs: seq<Range>) {
    forall i | 0 <= i < |rs| && Valid(rs[i]) :: a <= rs[i].start
  }

  /** After removals whose last one started at line `a`, `gone` lines in all: from there on every line has
      moved up by `gone`; once nothing is left there is only a blank. */
  predicate Shifted(n: nat, lines: seq<int>, a: nat, gone: nat) {
    && 1 <= a && gone <= n
    && if gone == n && n > 0 then lines == [BLANK]
       else
         && |lines| == n - gone
         && (forall i | a - 1 <= i < |lines| :: lines[i] == i + gone)
         && (forall i | 0 <= i < a - 1 && i < |lines| :: lines[i] < a - 1 + gone)
  }

  lemma NumbersShifted(n: nat, a: nat)
    requires 1 <= a
    ensures n > 0 ==> Shifted(n, Numbers(n), a, 0)
  {
  }

  function Took(lines: seq<int>, r: Range): int { Min(r.end, |lines|) - r.start + 1 }

  lemma ShiftStep(n: nat, lines: seq<int>, a: nat, gone: nat, r: Range, kept: seq<int>)
    requires Shifted(n, lines, a, gone) && gone < n && a <= r.start && Remove(BLANK, lines, r) == Some(kept)
    ensures Took(lines, r) >= 1 && Shifted(n, kept, r.start, gone + Took(lines, r))
  {
    var cut := Min(r.end, |lines|);
    var rest := lines[..r.start - 1] + lines[cut..];
    forall i | r.start - 1 <= i < |rest| ensures rest[i] == i + gone + Took(lines, r) {
      assert rest[i] == lines[i + (cut - r.start + 1)];
    }
  }

  lemma {:induction false} GoneStays(lines: seq<int>, rs: seq<Range>, k: int)
    requires k != BLANK && k !in lines
    ensures k !in RemoveAll(BLANK, lines, rs).0
    decreases rs
  {
    if rs != [] {
      match Remove(BLANK, lines, rs[0])
      case None => GoneStays(lines, rs[1..], k);
      case Some(kept) => GoneStays(kept, rs[1..], k);
    }
  }

  lemma {:induction false} DoneStarts(lines: seq<int>, rs: seq<Range>, a: nat)
    requires AllFrom(a, rs)
    ensures AllFrom(a, RemoveAll(BLANK, lines, rs).1)
    ensures forall r | r in RemoveAll(BLANK, lines, rs).1 :: r in rs && Valid(r)
    decreases rs
  {
    if rs != [] {
      match Remove(BLANK, lines, rs[0])
      case None => DoneStarts(lines, rs[1..], a);
      case Some(kept) =>
        DoneStarts(kept, rs[1..], a);
    }
  }

  /** On a file of one line only ranges from line 1 succeed; on one that ends before `a`, none from `a` on. */
  lemma {:induction false} ShortFile(lines: seq<int>, rs: seq<Range>, a: nat)
    requires AllFrom(a, rs)
    ensures lines == [BLANK] ==> forall r | r in RemoveAll(BLANK, lines, rs).1 :: r.start == 1
    ensures |lines| < a ==> RemoveAll(BLANK, lines, rs) == (lines, [])
    decreases rs
  {
    if rs != [] {
      match Remove(BLANK, lines, rs[0])
      case None => ShortFile(lines, rs[1..], a);
      case Some(kept) => ShortFile(kept, rs[1..], a);
    }
  }

  predicate EndsBy(rs: seq<Range>, b: nat) {
    forall i | 0 <= i < |rs| :: rs[i].end <= b
  }

  predicate HasEnd(rs: seq<Range>, b: nat) {
    exists i | 0 <= i < |rs| :: rs[i].end == b
  }

  /** When no range reaches the end, a removal after the first takes a line past everything named. */
  lemma {:induction false} Overrun(n: nat, lines: seq<int>, a: nat, gone: nat, rs: seq<Range>, b: nat) returns (k: int)
    requires Shifted(n, lines, a, gone) && 1 <= gone && AllFrom(a, rs) && SortedStarts(rs) && b < n
    requires RemoveAll(BLANK, lines, rs).1 != []
    requires b <= a - 1 + gone || HasEnd(RemoveAll(BLANK, lines, rs).1, b)
    ensures b <= k < n && k !in RemoveAll(BLANK, lines, rs).0
    decreases rs
  {
    if gone == n {
      k := b;
      GoneStays(lines, rs, k);
      return;
    }
    match Remove(BLANK, lines, rs[0])
    case None => k := Overrun(n, lines, a, gone, rs[1..], b);
    case Some(kept) =>
      var r, done := rs[0], RemoveAll(BLANK, kept, rs[1..]).1;
      ShiftStep(n, lines, a, gone, r, kept);
      if b <= a - 1 + gone || r.end == b {
        k := if b <= a - 1 + gone then r.start - 1 + gone else Min(b, |lines|) - 1 + gone;
        RemovedIsGone(n, lines, a, gone, r, kept, k);
        GoneStays(kept, rs[1..], k);
      } else {
        HasEndTail(r, done, b);
        k := Overrun(n, kept, r.start, gone + Took(lines, r), rs[1..], b);
      }
  }

  lemma HasEndTail(r: Range, rs: seq<Range>, b: nat)
    requires HasEnd([r] + rs, b) && r.end != b
    ensures HasEnd(rs, b) && rs != []
  {
    var i :| 0 <= i < |[r] + rs| && ([r] + rs)[i].end == b;
    assert rs[i - 1].end == b;
  }

  lemma RemovedIsGone(n: nat, lines: seq<int>, a: nat, gone: nat, r: Range, kept: seq<int>, k: int)
    requires Shifted(n, lines, a, gone) && gone < n && a <= r.start && Remove(BLANK, lines, r) == Some(kept)
    requires r.start - 1 + gone <= k < Min(r.end, |lines|) + gone
    ensures k !in kept
  {
    var cut := Min(r.end, |lines|);
    var rest := lines[..r.start - 1] + lines[cut..];
    forall i | 0 <= i < |rest| ensures rest[i] != k {
      if i >= r.start - 1 {
        assert rest[i] == lines[i + (cut - r.start + 1)];
      }
    }
  }

  /** When the range that reaches the end starts below the first one, a line it names survives. */
  lemma {:induction false} Survivor(n: nat, lines: seq<int>, a: nat, gone: nat, rs: seq<Range>, j: Range)
    returns (k: int)
    requires Shifted(n, lines, a, gone) && 1 <= gone && AllFrom(a, rs) && SortedStarts(rs)
    requires j in RemoveAll(BLANK, lines, rs).1 && j.start > a && j.end >= n
    ensures k in RemoveAll(BLANK, lines, rs).0 && j.start <= k + 1 <= n
    decreases rs
  {
    if gone == n {
      ShortFile(lines, rs, a);
      assert false;
    } else {
      match Remove(BLANK, lines, rs[0])
      case None => k := Survivor(n, lines, a, gone, rs[1..], j);
      case Some(kept) =>
        var r := rs[0];
        ShiftStep(n, lines, a, gone, r, kept);
        if r.start > a && j.start <= r.start - 1 + gone {
          k := r.start - 2 + gone;
          assert kept[r.start - 2] == lines[r.start - 2] == k;
          LinesAboveStay(kept, rs[1..], r.start - 2);
        } else {
          k := Survivor(n, kept, r.start, gone + Took(lines, r), rs[1..], j);
        }
    }
  }

  predicate StartsAt(rs: seq<Range>, a: nat) {
    forall i | 0 <= i < |rs| :: rs[i].start == a
  }

  /** When the range that reaches the end starts with the first one, all that succeed do. */
  lemma {:induction false} ReachFixesStart(n: nat, lines: seq<int>, a: nat, gone: nat, rs: seq<Range>, j: Range)
    requires Shifted(n, lines, a, gone) && gone < n && AllFrom(a, rs) && SortedStarts(rs)
    requires j in RemoveAll(BLANK, lines, rs).1 && j.start == a && j.end >= n
    ensures StartsAt(RemoveAll(BLANK, lines, rs).1, a)
    decreases rs
  {
    DoneStarts(lines, rs, a);
    match Remove(BLANK, lines, rs[0])
    case None => ReachFixesStart(n, lines, a, gone, rs[1..], j);
    case Some(kept) =>
      var r := rs[0];
      ShiftStep(n, lines, a, gone, r, kept);
      assert r.start == a;
      if gone + Took(lines, r) == n {
        ShortFile(kept, rs[1..], a);
        assert a == 1;
      } else if r.end >= n {
        ShortFile(kept, rs[1..], a);
      } else {
        ReachFixesStart(n, kept, a, gone + Took(lines, r), rs[1..], j);
      }
  }

  /** Once the lines from `a` on are gone, nothing more happens to those above. */
  lemma TailIsGone(kept: seq<int>, a: nat, rs: seq<Range>)
    requires 1 <= a && AllFrom(a, rs)
    requires a - 1 <= |kept| && (forall i | 0 <= i < a - 1 :: kept[i] == i) && forall k | k in kept :: k < a - 1
    ensures forall k: int | 0 <= k :: k in RemoveAll(BLANK, kept, rs).0 <==> k < a - 1
  {
    forall k: int | 0 <= k ensures k in RemoveAll(BLANK, kept, rs).0 <==> k < a - 1 {
      if k < a - 1 {
        LinesAboveStay(kept, rs, k);
      } else {
        GoneStays(kept, rs, k);
      }
    }
  }

  /** Ranges that all start at `a`, one of which reaches the end, leave exactly the lines above. */
  lemma {:induction false} CutsOffTail(n: nat, lines: seq<int>, a: nat, gone: nat, rs: seq<Range>, j: Range)
    requires Shifted(n, lines, a, gone) && gone < n && AllFrom(a, rs)
    requires a - 1 <= |lines| && forall i | 0 <= i < a - 1 :: lines[i] == i
    requires j in RemoveAll(BLANK, lines, rs).1 && j.end >= n && StartsAt(RemoveAll(BLANK, lines, rs).1, a)
    ensures forall k: int | 0 <= k :: k in RemoveAll(BLANK, lines, rs).0 <==> k < a - 1
    decreases rs
  {
    match Remove(BLANK, lines, rs[0])
    case None => CutsOffTail(n, lines, a, gone, rs[1..], j);
    case Some(kept) =>
      var r := rs[0];
      StartsAtTail(r, RemoveAll(BLANK, kept, rs[1..]).1, a);
      ShiftStep(n, lines, a, gone, r, kept);
      if r.end >= n || gone + Took(lines, r) == n {
        TailIsGone(kept, a, rs[1..]);
      } else {
        CutsOffTail(n, kept, a, gone + Took(lines, r), rs[1..], j);
      }
  }

  lemma StartsAtTail(r: Range, rs: seq<Range>, a: nat)
    requires StartsAt([r] + rs, a)
    ensures r.start == a && StartsAt(rs, a)
  {
    assert ([r] + rs)[0] == r && forall i | 0 <= i < |rs| :: rs[i] == ([r] + rs)[i + 1];
  }

  /** Skipping the ranges that fail before the first success. */
  lemma {:induction false} FirstSuccess(lines: seq<int>, rs: seq<Range>) returns (tail: seq<Range>)
    requires SortedStarts(rs) && RemoveAll(BLANK, lines, rs).1 != []
    ensures tail != [] && SortedStarts(tail) && AllFrom(tail[0].start, tail)
    ensures Remove(BLANK, lines, tail[0]).Some? && RemoveAll(BLANK, lines, tail) == RemoveAll(BLANK, lines, rs)
    decreases rs
  {
    if Remove(BLANK, lines, rs[0]).Some? {
      tail := rs;
    } else {
      tail := FirstSuccess(lines, rs[1..]);
    }
  }

  lemma {:induction false} NothingDone(lines: seq<int>, rs: seq<Range>)
    requires RemoveAll(BLANK, lines, rs).1 == []
    ensures RemoveAll(BLANK, lines, rs).0 == lines
    decreases rs
  {
    if rs != [] {
      NothingDone(lines, rs[1..]);
    }
  }

  lemma {:induction false} LastEnd(rs: seq<Range>) returns (b: nat)
    requires rs != []
    ensures EndsBy(rs, b) && HasEnd(rs, b)
  {
    var rest := rs[1..];
    assert rs == [rs[0]] + rest && HasEnd([rs[0]], rs[0].end);
    if rest == [] || EndsBy(rest, rs[0].end) {
      b := rs[0].end;
      assert rs[0].end == b;
    } else {
      b := LastEnd(rest);
      var i :| 0 <= i < |rest| && rest[i].end == b;
      assert rs[i + 1].end == b;
    }
  }

  predicate Reaches(rs: seq<Range>, n: nat) {
    exists i | 0 <= i < |rs| :: rs[i].end >= n
  }

  /** At most one removal, or removals from one line on of which one reaches the end of the file. */
  predicate TakesWhatItNames(n: nat, done: seq<Range>) {
    |done| <= 1 || (StartsAt(done, done[0].start) && Reaches(done, n))
  }

  predicate Exact(n: nat, out: seq<int>, done: seq<Range>) {
    Surviving(out) == Surviving(Numbers(n)) - Named(n, done)
  }

  lemma OverrunIsInexact(n: nat, rest: seq<Range>, r: Range, lines: seq<int>)
    requires Remove(BLANK, Numbers(n), r) == Some(lines) && AllFrom(r.start, rest) && SortedStarts(rest)
    requires RemoveAll(BLANK, lines, rest).1 != [] && !Reaches([r] + RemoveAll(BLANK, lines, rest).1, n)
    ensures !Exact(n, RemoveAll(BLANK, lines, rest).0, [r] + RemoveAll(BLANK, lines, rest).1)
  {
    var (out, more) := RemoveAll(BLANK, lines, rest);
    var done := [r] + more;
    NumbersShifted(n, r.start);
    ShiftStep(n, Numbers(n), r.start, 0, r, lines);
    var b := LastEnd(done);
    assert b < n && done[0].end < n;
    if r.end != b {
      HasEndTail(r, more, b);
    }
    var k := Overrun(n, lines, r.start, Took(Numbers(n), r), rest, b);
    NumbersAll(n);
    assert !NamedBy(k, done);
    assert k in Surviving(Numbers(n)) && k !in Surviving(out);
  }

  lemma SurvivorIsInexact(n: nat, rest: seq<Range>, r: Range, lines: seq<int>, j: Range)
    requires Remove(BLANK, Numbers(n), r) == Some(lines) && AllFrom(r.start, rest) && SortedStarts(rest)
    requires j in RemoveAll(BLANK, lines, rest).1 && j.start > r.start && j.end >= n
    ensures !Exact(n, RemoveAll(BLANK, lines, rest).0, [r] + RemoveAll(BLANK, lines, rest).1)
  {
    var (out, more) := RemoveAll(BLANK, lines, rest);
    var done := [r] + more;
    NumbersShifted(n, r.start);
    ShiftStep(n, Numbers(n), r.start, 0, r, lines);
    var k := Survivor(n, lines, r.start, Took(Numbers(n), r), rest, j);
    var i :| 0 <= i < |more| && more[i] == j;
    assert done[i + 1] == j && NamedBy(k, done);
    assert k in Surviving(out) && k in Named(n, done);
  }

  lemma CutOffIsExact(n: nat, tail: seq<Range>)
    requires tail != [] && AllFrom(tail[0].start, tail) && Remove(BLANK, Numbers(n), tail[0]).Some?
    requires var done := RemoveAll(BLANK, Numbers(n), tail).1; StartsAt(done, tail[0].start) && Reaches(done, n)
    ensures Exact(n, RemoveAll(BLANK, Numbers(n), tail).0, RemoveAll(BLANK, Numbers(n), tail).1)
  {
    var (out, done) := RemoveAll(BLANK, Numbers(n), tail);
    var a := tail[0].start;
    var i :| 0 <= i < |done| && done[i].end >= n;
    NumbersShifted(n, a);
    CutsOffTail(n, Numbers(n), a, 0, tail, done[i]);
    NumbersAll(n);
    forall k: int ensures k in Surviving(out) <==> k in Surviving(Numbers(n)) - Named(n, done) {
      if a - 1 <= k < n {
        assert NamedBy(k, done);
      }
      if k < -1 {
        NegativeIsGone(n, tail, k);
      }
    }
  }

  lemma NegativeIsGone(n: nat, rs: seq<Range>, k: int)
    requires k < BLANK
    ensures k !in RemoveAll(BLANK, Numbers(n), rs).0
  {
    GoneStays(Numbers(n), rs, k);
  }

  lemma DifferentStartsAreInexact(n: nat, tail: seq<Range>, lines: seq<int>)
    requires tail != [] && SortedStarts(tail) && AllFrom(tail[0].start, tail)
    requires Remove(BLANK, Numbers(n), tail[0]) == Some(lines)
    requires var done := RemoveAll(BLANK, Numbers(n), tail).1; Reaches(done, n) && !StartsAt(done, tail[0].start)
    ensures !Exact(n, RemoveAll(BLANK, Numbers(n), tail).0, RemoveAll(BLANK, Numbers(n), tail).1)
  {
    var r, rest := tail[0], tail[1..];
    var more := RemoveAll(BLANK, lines, rest).1;
    var done := RemoveAll(BLANK, Numbers(n), tail).1;
    assert done == [r] + more;
    var i :| 0 <= i < |done| && done[i].end >= n;
    DoneStarts(Numbers(n), tail, r.start);
    assert done[i] in done && Valid(done[i]) && r.start <= done[i].start;
    if done[i].start == r.start {
      NumbersShifted(n, r.start);
      ReachFixesStart(n, Numbers(n), r.start, 0, tail, done[i]);
    } else {
      assert i > 0 && more[i - 1] == done[i];
      SurvivorIsInexact(n, rest, r, lines, done[i]);
    }
  }

  /** The case of a first removal `tail[0]`. */
  lemma RemovalsFromFirstExactly(n: nat, tail: seq<Range>, lines: seq<int>)
    requires tail != [] && SortedStarts(tail) && AllFrom(tail[0].start, tail)
    requires Remove(BLANK, Numbers(n), tail[0]) == Some(lines)
    ensures var (out, done) := RemoveAll(BLANK, Numbers(n), tail); Exact(n, out, done) <==> TakesWhatItNames(n, done)
  {
    var r, rest := tail[0], tail[1..];
    var more := RemoveAll(BLANK, lines, rest).1;
    var done := RemoveAll(BLANK, Numbers(n), tail).1;
    assert done == [r] + more;
    if more == [] {
      assert done == [r] && RemoveAll(BLANK, Numbers(n), tail).0 == lines by { NothingDone(lines, rest); }
      OneRemovalIsExact(n, r);
    } else if !Reaches(done, n) {
      OverrunIsInexact(n, rest, r, lines);
    } else if StartsAt(done, r.start) {
      CutOffIsExact(n, tail);
    } else {
      DifferentStartsAreInexact(n, tail, lines);
    }
  }

  /** Ranges sorted by their first line, overlapping or not: what is gone is what the successful removals
      name exactly when at most one succeeded, or all that did start at one line and one reaches the end. */
  lemma SortedRemovalsExactly(n: nat, rs: seq<Range>)
    requires SortedStarts(rs)
    ensures var (out, done) := RemoveAll(BLANK, Numbers(n), rs); Exact(n, out, done) <==> TakesWhatItNames(n, done)
  {
    if RemoveAll(BLANK, Numbers(n), rs).1 == [] {
      NothingDone(Numbers(n), rs);
      assert Named(n, []) == {};
    } else {
      var tail := FirstSuccess(Numbers(n), rs);
      RemovalsFromFirstExactly(n, tail, Remove(BLANK, Numbers(n), tail[0]).value);
    }
  }

  lemma {:induction false} DoneAscends(lines: seq<int>, rs: seq<Range>)
    requires Ascending(rs)
    ensures Ascending(RemoveAll(BLANK, lines, rs).1)
    ensures forall i | 0 <= i < |RemoveAll(BLANK, lines, rs).1| ::
      Valid(RemoveAll(BLANK, lines, rs).1[i]) && RemoveAll(BLANK, lines, rs).1[i] in rs
    decreases rs
  {
    if rs != [] {
      match Remove(BLANK, lines, rs[0])
      case None => DoneAscends(lines, rs[1..]);
      case Some(kept) =>
        DoneAscends(kept, rs[1..]);
        var done := RemoveAll(BLANK, kept, rs[1..]).1;
        forall i | 0 <= i < |done| ensures rs[0].end < done[i].start {
          var m :| 0 <= m < |rs[1..]| && rs[1..][m] == done[i];
          assert rs[m + 1] == done[i];
        }
    }
  }

  /** In particular, for disjoint ranges: exactly when at most one of them succeeded. */
  lemma ExactIffOneRemoval(n: nat, rs: seq<Range>)
    requires Ascending(rs)
    ensures var (out, done) := RemoveAll(BLANK, Numbers(n), rs); Exact(n, out, done) <==> |done| <= 1
  {
    SortedRemovalsExactly(n, rs);
    DoneAscends(Numbers(n), rs);
    var done := RemoveAll(BLANK, Numbers(n), rs).1;
    if |done| > 1 {
      assert done[0].end < done[1].start;
    }
  }

  // ----- from line numbers to lines -----

  lemma {:induction false} RemoveAllMaps<T, U>(f: T -> U, blank: T, lines: seq<T>, rs: seq<Range>)
    ensures RemoveAll(f(blank), Mapped(f, lines), rs).0 == Mapped(f, RemoveAll(blank, lines, rs).0)
    ensures RemoveAll(f(blank), Mapped(f, lines), rs).1 == RemoveAll(blank, lines, rs).1
    decreases rs
  {
    if rs != [] {
      match Remove(blank, lines, rs[0])
      case None => RemoveAllMaps(f, blank, lines, rs[1..]);
      case Some(kept) =>
        var cut := Min(rs[0].end, |lines|);
        MappedSlices(f, lines, rs[0].start - 1, cut);
        assert Mapped(f, [blank]) == [f(blank)];
        assert Remove(f(blank), Mapped(f, lines), rs[0]) == Some(Mapped(f, kept));
        RemoveAllMaps(f, blank, kept, rs[1..]);
    }
  }
}
