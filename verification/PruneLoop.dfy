/**
  The interactive prune loop over all files: targets sorted by file and first line, each confirmed and
  then cut out of its file with the line numbers of the scan.
 */
module PruneLoop {
  import opened Wrappers
  import opened Order
  import opened TextLines
  import opened LineRanges
  import opened LinePrune

  datatype Finding = Finding(
    symbol: string, file: string, lineStart: Option<nat>, lineEnd: Option<nat>, confidence: real)

  datatype PruneTarget = PruneTarget(symbol: string, file: string, range: Range, confidence: real)

  // ----- targets -----

  type TargetKey = (string, nat)

  function KeyOf(t: PruneTarget): TargetKey { (t.file, t.range.start) }

  predicate TargetLe(a: TargetKey, b: TargetKey) {
    if a.0 == b.0 then a.1 <= b.1 else StrLe(a.0, b.0)
  }

  /** A finding becomes a target when it is strictly above the threshold and both line numbers are known. */
  function TargetOf(f: Finding, threshold: real): Option<PruneTarget> {
    if f.confidence <= threshold || f.lineStart.None? || f.lineEnd.None? then None
    else Some(PruneTarget(f.symbol, f.file, Range(f.lineStart.value, f.lineEnd.value), f.confidence))
  }

  function Eligible(fs: seq<Finding>, threshold: real): seq<PruneTarget> {
    if fs == [] then []
    else
      var last := TargetOf(fs[|fs| - 1], threshold);
      Eligible(fs[..|fs| - 1], threshold) + if last.Some? then [last.value] else []
  }

  /** The target is the finding. */
  predicate IsTargetFor(f: Finding, t: PruneTarget) {
    t.symbol == f.symbol && t.file == f.file && t.confidence == f.confidence
    && f.lineStart == Some(t.range.start) && f.lineEnd == Some(t.range.end)
  }

  /** Targets are the findings with confidence strictly above the threshold and both lines known. */
  lemma {:induction false} EligibleExactly(fs: seq<Finding>, threshold: real, t: PruneTarget)
    ensures t in Eligible(fs, threshold) <==>
      t.confidence > threshold && exists f :: f in fs && IsTargetFor(f, t)
    decreases |fs|
  {
    if fs != [] {
      var front, last := fs[..|fs| - 1], fs[|fs| - 1];
      EligibleExactly(front, threshold, t);
      assert fs == front + [last];
      if TargetOf(last, threshold) == Some(t) {
        assert last in fs && IsTargetFor(last, t);
      }
      if f :| f in front && IsTargetFor(f, t) {
        assert f in fs;
      }
    }
  }

  /** Files in order, and the targets of one file by their first line. */
  predicate InPruneOrder(t: PruneTarget, u: PruneTarget) {
    if t.file == u.file then t.range.start <= u.range.start else StrLe(t.file, u.file)
  }

  method BuildPruneTargets(fs: seq<Finding>, threshold: real) returns (targets: seq<PruneTarget>)
    ensures multiset(targets) == multiset(Eligible(fs, threshold))
    ensures SortedBy(KeyOf, TargetLe, targets)
    ensures forall i, j | 0 <= i < j < |targets| :: InPruneOrder(targets[i], targets[j])
  {
    targets := [];
    for i := 0 to |fs|
      invariant targets == Eligible(fs[..i], threshold)
    {
      assert fs[..i + 1][..i] == fs[..i];
      if fs[i].confidence <= threshold {
        continue;
      }
      if fs[i].lineStart.None? {
        continue;
      }
      if fs[i].lineEnd.None? {
        continue;
      }
      targets := targets +
        [PruneTarget(fs[i].symbol, fs[i].file, Range(fs[i].lineStart.value, fs[i].lineEnd.value), fs[i].confidence)];
    }
    assert fs[..|fs|] == fs;
    ghost var pushed := targets;
    targets := Sort(KeyOf, TargetLe, targets);
    StringOrderIsTotal();
    SortSorts(KeyOf, TargetLe, pushed);
    forall i, j | 0 <= i < j < |targets| ensures InPruneOrder(targets[i], targets[j]) {
      assert TargetLe(KeyOf(targets[i]), KeyOf(targets[j]));
    }
  }

  // ----- the loop -----

  /** How the disk takes the edit: it works, the file cannot be read or opened for writing, or the write, which
      truncates the file first, ends after so many characters. */
  datatype DiskTurn = Works | Refuses | CutsShort(written: nat)

  /** What the user and the disk do with one target. */
  datatype Turn = Approved(disk: DiskTurn) | Declined | PromptFails

  type Files = map<string, string>

  /** The disk after `remove_line_range`, when that succeeds. */
  function Cut(files: Files, path: string, r: Range): Option<Files> {
    if path !in files then None
    else match RemoveLineRange(files[path], r)
      case None => None
      case Some(content) => Some(files[path := content])
  }

  /** The disk after the edit, whether or not it succeeds. */
  function Edited(files: Files, t: PruneTarget, disk: DiskTurn): Files {
    match Cut(files, t.file, t.range)
    case None => files
    case Some(cut) =>
      match disk
      case Works => cut
      case Refuses => files
      case CutsShort(n) => files[t.file := cut[t.file][..Min(n, |cut[t.file]|)]]
  }

  predicate Succeeds(files: Files, t: PruneTarget, disk: DiskTurn) {
    disk.Works? && Cut(files, t.file, t.range).Some?
  }

  /** Files left, targets reported as removed, and whether a failing prompt ended the loop. */
  function RunLoop(files: Files, targets: seq<PruneTarget>, turns: seq<Turn>): (Files, seq<PruneTarget>, bool)
    requires |targets| == |turns|
    decreases |targets|
  {
    if targets == [] then (files, [], false)
    else match turns[0]
      case PromptFails => (files, [], true)
      case Declined => RunLoop(files, targets[1..], turns[1..])
      case Approved(disk) =>
        var (left, removed, aborted) := RunLoop(Edited(files, targets[0], disk), targets[1..], turns[1..]);
        (left, (if Succeeds(files, targets[0], disk) then [targets[0]] else []) + removed, aborted)
  }

  class Disk {
    var files: Files

    constructor (files: Files)
      ensures this.files == files
    {
      this.files := files;
    }

    /** Reads the file, drains the lines, and writes the rest back. */
    method RemoveLines(t: PruneTarget, disk: DiskTurn) returns (ok: bool)
      modifies this
      ensures ok == Succeeds(old(files), t, disk)
      ensures files == Edited(old(files), t, disk)
    {
      var path, r := t.file, t.range;
      if r.start == 0 || r.end == 0 || r.start > r.end {
        return false;
      }
      if path !in files || disk.Refuses? {
        return false;
      }
      var content := files[path];
      var lines := Lines(content);
      var endsWithNewline := Terminated(content);
      var start, end := r.start - 1, Min(r.end, |lines|);
      if start >= |lines| || start >= end {
        return false;
      }
      lines := lines[..start] + lines[end..];
      var out := "\n";
      if lines != [] {
        out := Join(lines) + if endsWithNewline then "\n" else "";
      }
      if disk.CutsShort? {
        files := files[path := out[..Min(disk.written, |out|)]];
        return false;
      }
      files := files[path := out];
      return true;
    }

    method RunPruneLoop(targets: seq<PruneTarget>, turns: seq<Turn>) returns (result: Result<seq<PruneTarget>, string>)
      requires |targets| == |turns|
      modifies this
      ensures var (left, removed, aborted) := RunLoop(old(files), targets, turns);
        && files == left
        && result == if aborted then Err("prompt failed") else Ok(removed)
    {
      var removed := [];
      ghost var whole := RunLoop(files, targets, turns);
      for i := 0 to |targets|
        invariant var rest := RunLoop(files, targets[i..], turns[i..]);
          whole.0 == rest.0 && whole.1 == removed + rest.1 && whole.2 == rest.2
      {
        assert targets[i..][1..] == targets[i + 1..] && turns[i..][1..] == turns[i + 1..];
        match turns[i] {
          case PromptFails => return Err("prompt failed");
          case Declined => continue;
          case Approved(disk) =>
            var ok := RemoveLines(targets[i], disk);
            if ok {
              removed := removed + [targets[i]];
            }
        }
      }
      assert removed + [] == removed;
      return Ok(removed);
    }
  }

  // ----- what it leaves of one file -----

  /** The ranges the loop attempts in file `f`, in order. */
  function Attempted(f: string, targets: seq<PruneTarget>, turns: seq<Turn>): seq<Range>
    requires |targets| == |turns|
    decreases |targets|
  {
    if targets == [] || turns[0] == PromptFails then []
    else
      var rest := Attempted(f, targets[1..], turns[1..]);
      if turns[0] == Approved(Works) && targets[0].file == f then [targets[0].range] + rest else rest
  }

  function RangesIn(f: string, removed: seq<PruneTarget>): seq<Range> {
    if removed == [] then []
    else
      var rest := RangesIn(f, removed[1..]);
      if removed[0].file == f then [removed[0].range] + rest else rest
  }

  /** Some write of file `f` is cut short. */
  predicate CutShortIn(f: string, files: Files, targets: seq<PruneTarget>, turns: seq<Turn>)
    requires |targets| == |turns|
    decreases |targets|
  {
    targets != [] &&
    match turns[0]
    case PromptFails => false
    case Declined => CutShortIn(f, files, targets[1..], turns[1..])
    case Approved(disk) =>
      || (disk.CutsShort? && targets[0].file == f && Cut(files, f, targets[0].range).Some?)
      || CutShortIn(f, Edited(files, targets[0], disk), targets[1..], turns[1..])
  }

  lemma {:induction false} NoneCutShort(f: string, files: Files, targets: seq<PruneTarget>, turns: seq<Turn>)
    requires |targets| == |turns| && forall i | 0 <= i < |turns| :: turns[i].Approved? ==> !turns[i].disk.CutsShort?
    ensures !CutShortIn(f, files, targets, turns)
    decreases |targets|
  {
    if targets != [] {
      var next := if turns[0].Approved? then Edited(files, targets[0], turns[0].disk) else files;
      NoneCutShort(f, next, targets[1..], turns[1..]);
    }
  }

  lemma {:induction false} FileByFile(files: Files, targets: seq<PruneTarget>, turns: seq<Turn>, f: string)
    requires |targets| == |turns| && f in files && Editable(files[f]) && !CutShortIn(f, files, targets, turns)
    ensures var (left, removed, _) := RunLoop(files, targets, turns);
      var (lines, done) := RemoveAll("", Lines(files[f]), Attempted(f, targets, turns));
      f in left && Editable(left[f]) && Lines(left[f]) == lines && RangesIn(f, removed) == done
    decreases |targets|
  {
    if targets != [] && turns[0] != PromptFails {
      var t := targets[0];
      var rest := Attempted(f, targets[1..], turns[1..]);
      if turns[0] == Approved(Works) && t.file == f {
        assert ([t.range] + rest)[1..] == rest;
        EditableRemoval(files[f], t.range);
      }
      var next := if turns[0].Approved? then Edited(files, t, turns[0].disk) else files;
      FileByFile(next, targets[1..], turns[1..], f);
      var later := RunLoop(next, targets[1..], turns[1..]).1;
      assert ([t] + later)[1..] == later && [] + later == later;
    }
  }

  function LineAt(lines: seq<string>, k: int): string {
    if 0 <= k < |lines| then lines[k] else ""
  }

  /** Two targets of one file never share a line. */
  predicate DisjointIn(f: string, targets: seq<PruneTarget>) {
    forall i, j | 0 <= i < j < |targets| && targets[i].file == f && targets[j].file == f ::
      Valid(targets[i].range) && Valid(targets[j].range) ==>
        targets[i].range.end < targets[j].range.start || targets[j].range.end < targets[i].range.start
  }

  lemma {:induction false} AttemptedAreTargets(f: string, targets: seq<PruneTarget>, turns: seq<Turn>, r: Range)
    requires |targets| == |turns| && r in Attempted(f, targets, turns)
    ensures exists i :: 0 <= i < |targets| && targets[i].file == f && targets[i].range == r
    decreases |targets|
  {
    if !(turns[0] == Approved(Works) && targets[0].file == f && targets[0].range == r) {
      AttemptedAreTargets(f, targets[1..], turns[1..], r);
      var i :| 0 <= i < |targets[1..]| && targets[1..][i].file == f && targets[1..][i].range == r;
      assert targets[i + 1].file == f && targets[i + 1].range == r;
    }
  }

  /** Sorting the targets puts the disjoint ranges of each file in ascending order. */
  lemma {:induction false} SortedTargetsAscend(f: string, targets: seq<PruneTarget>, turns: seq<Turn>)
    requires |targets| == |turns| && SortedBy(KeyOf, TargetLe, targets) && DisjointIn(f, targets)
    ensures Ascending(Attempted(f, targets, turns))
    decreases |targets|
  {
    if targets != [] && turns[0] != PromptFails {
      SortedTargetsAscend(f, targets[1..], turns[1..]);
      var rest := Attempted(f, targets[1..], turns[1..]);
      if turns[0] == Approved(Works) && targets[0].file == f {
        var r := targets[0].range;
        forall j | 0 <= j < |rest| && Valid(r) && Valid(rest[j]) ensures r.end < rest[j].start {
          AttemptedAreTargets(f, targets[1..], turns[1..], rest[j]);
          var i :| 0 <= i < |targets[1..]| && targets[1..][i].file == f && targets[1..][i].range == rest[j];
          assert targets[i + 1] == targets[1..][i];
          assert TargetLe(KeyOf(targets[0]), KeyOf(targets[i + 1]));
        }
        var all := [r] + rest;
        forall i, j | 0 <= i < j < |all| && Valid(all[i]) && Valid(all[j]) ensures all[i].end < all[j].start {
          if i > 0 {
            assert all[i] == rest[i - 1];
          }
          assert all[j] == rest[j - 1];
        }
      }
    }
  }

  /** Sorting the targets puts the ranges of each file in the order of their first lines. */
  lemma {:induction false} SortedTargetsSortStarts(f: string, targets: seq<PruneTarget>, turns: seq<Turn>)
    requires |targets| == |turns| && SortedBy(KeyOf, TargetLe, targets)
    ensures SortedStarts(Attempted(f, targets, turns))
    decreases |targets|
  {
    if targets != [] && turns[0] != PromptFails {
      SortedTargetsSortStarts(f, targets[1..], turns[1..]);
      var rest := Attempted(f, targets[1..], turns[1..]);
      if turns[0] == Approved(Works) && targets[0].file == f {
        forall j | 0 <= j < |rest| ensures targets[0].range.start <= rest[j].start {
          AttemptedAreTargets(f, targets[1..], turns[1..], rest[j]);
          var i :| 0 <= i < |targets[1..]| && targets[1..][i].file == f && targets[1..][i].range == rest[j];
          assert targets[i + 1] == targets[1..][i];
          assert TargetLe(KeyOf(targets[0]), KeyOf(targets[i + 1]));
        }
      }
    }
  }

  /** The loop over sorted targets, overlapping or not: each file is left with the lines `out` numbers, and
      those are all but the lines the reported removals name exactly when the file had at most one of them,
      or all of them start at one line and one reaches the end of the file. */
  lemma PruneIsExactly(files: Files, targets: seq<PruneTarget>, turns: seq<Turn>, f: string)
    requires |targets| == |turns| && SortedBy(KeyOf, TargetLe, targets)
    requires f in files && Editable(files[f]) && !CutShortIn(f, files, targets, turns)
    ensures var (left, removed, _) := RunLoop(files, targets, turns);
      var lines := Lines(files[f]);
      var out := RemoveAll(BLANK, Numbers(|lines|), Attempted(f, targets, turns)).0;
      && f in left && Lines(left[f]) == Mapped(k => LineAt(lines, k), out)
      && (TakesWhatItNames(|lines|, RangesIn(f, removed)) <==>
            Surviving(out) == Surviving(Numbers(|lines|)) - Named(|lines|, RangesIn(f, removed)))
  {
    var lines, rs := Lines(files[f]), Attempted(f, targets, turns);
    var at := k => LineAt(lines, k);
    FileByFile(files, targets, turns, f);
    SortedTargetsSortStarts(f, targets, turns);
    SortedRemovalsExactly(|lines|, rs);
    RemoveAllMaps(at, BLANK, Numbers(|lines|), rs);
    assert Mapped(at, Numbers(|lines|)) == lines;
  }

  /** When no two targets of the file share a line, that is: exactly when it had at most one removal. */
  lemma PruneIsExactIffOnePerFile(files: Files, targets: seq<PruneTarget>, turns: seq<Turn>, f: string)
    requires |targets| == |turns| && SortedBy(KeyOf, TargetLe, targets) && DisjointIn(f, targets)
    requires f in files && Editable(files[f]) && !CutShortIn(f, files, targets, turns)
    ensures var (left, removed, _) := RunLoop(files, targets, turns);
      var n := |Lines(files[f])|;
      var out := RemoveAll(BLANK, Numbers(n), Attempted(f, targets, turns)).0;
      |RangesIn(f, removed)| <= 1 <==> Surviving(out) == Surviving(Numbers(n)) - Named(n, RangesIn(f, removed))
  {
    var lines, rs := Lines(files[f]), Attempted(f, targets, turns);
    FileByFile(files, targets, turns, f);
    SortedTargetsAscend(f, targets, turns);
    ExactIffOneRemoval(|lines|, rs);
    RemoveAllMaps(k => LineAt(lines, k), BLANK, Numbers(|lines|), rs);
    assert Mapped(k => LineAt(lines, k), Numbers(|lines|)) == lines;
  }

  /** Two approved, disjoint targets in a file of three lines: the lines reported as removed are the first
      two, those removed are the first and the third. */
  lemma SecondRemovalMisses(a: string, b: string, c: string, t: PruneTarget, u: PruneTarget)
    requires CleanLine(a) && CleanLine(b) && CleanLine(c)
    requires t.file == u.file && t.range == Range(1, 1) && u.range == Range(2, 2)
    ensures var files := map[t.file := Unlines([a, b, c])];
      var (left, removed, _) := RunLoop(files, [t, u], [Approved(Works), Approved(Works)]);
      && SortedBy(KeyOf, TargetLe, [t, u]) && DisjointIn(t.file, [t, u]) && Editable(files[t.file])
      && RangesIn(t.file, removed) == [Range(1, 1), Range(2, 2)]
      && t.file in left && Lines(left[t.file]) == [b]
  {
    var files, yes, lines := map[t.file := Unlines([a, b, c])], Approved(Works), [a, b, c];
    LinesOfUnlines(lines);
    assert Unlines(lines) == a + "\n" + Unlines([b, c]) && Unlines([b, c]) == b + "\n" + Unlines([c]) by {
      assert lines[1..] == [b, c] && [b, c][1..] == [c];
    }
    assert Unlines([c]) == c + "\n" + Unlines([c][1..]);
    assert [t, u][1..] == [u] && [yes, yes][1..] == [yes];
    assert Attempted(t.file, [u], [yes]) == [u.range];
    assert Attempted(t.file, [t, u], [yes, yes]) == [Range(1, 1)] + [Range(2, 2)];
    NoneCutShort(t.file, files, [t, u], [yes, yes]);
    FileByFile(files, [t, u], [yes, yes], t.file);
    RemovesFirstAndThird(a, b, c);
  }

  /** A write cut short: the loop goes on and reports nothing, but the file is left with a prefix of what was to
      be written, in the worst case empty. */
  lemma CutShortIsUnreported(files: Files, t: PruneTarget, n: nat)
    requires Cut(files, t.file, t.range).Some?
    ensures var (left, removed, aborted) := RunLoop(files, [t], [Approved(CutsShort(n))]);
      && CutShortIn(t.file, files, [t], [Approved(CutsShort(n))])
      && removed == [] && !aborted && left.Keys == files.Keys
      && left[t.file] <= Cut(files, t.file, t.range).value[t.file] && (n == 0 ==> left[t.file] == "")
  {
    var targets, turns := [t], [Approved(CutsShort(n))];
    assert targets[1..] == [] && turns[1..] == [];
    assert RunLoop(Edited(files, t, CutsShort(n)), [], []) == (Edited(files, t, CutsShort(n)), [], false);
  }

  lemma RemovesFirstAndThird(a: string, b: string, c: string)
    ensures var rs := [Range(1, 1)] + [Range(2, 2)]; RemoveAll("", [a, b, c], rs) == ([b], rs)
  {
    var rs := [Range(1, 1)] + [Range(2, 2)];
    assert rs[1..] == [Range(2, 2)] && rs[1..][1..] == [];
    assert Remove("", [a, b, c], Range(1, 1)) == Some([b, c]) by {
      assert [a, b, c][..0] + [a, b, c][1..] == [b, c];
    }
    assert Remove("", [b, c], Range(2, 2)) == Some([b]) by {
      assert [b, c][..1] + [b, c][2..] == [b];
    }
    var last := [Range(2, 2)];
    assert last[1..] == [] && RemoveAll("", [b], []) == ([b], []);
    assert RemoveAll("", [b, c], last) == ([b], [last[0]] + []) && [last[0]] + [] == last;
    assert RemoveAll("", [a, b, c], rs).0 == RemoveAll("", [b, c], last).0;
  }
}
