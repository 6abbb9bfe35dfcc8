/**
  Merging imported hotspot scores into the persisted rows, in place. Path and score
  normalisation, the validity test and the narrowing cast are parameters.
 */
module HotspotMerge {
  import opened Wrappers

  datatype ImportedHotspot = ImportedHotspot(path: string, score: real)

  datatype HotspotRow = HotspotRow(path: string, score: real, displayScore: real, complexity: nat, frequency: real)

  datatype Codec = Codec(
    normalizePath: string -> string,
    valid: real -> bool,           // non-negative and finite after the cast
    cast: real -> real,            // f64 to f32
    display: real -> real)

  function WithScore(c: Codec, row: HotspotRow, score: real): HotspotRow {
    row.(score := c.cast(score), displayScore := c.display(c.cast(score)))
  }

  /** The line updates rows whose normalised path is `key`. */
  predicate Updates(c: Codec, line: ImportedHotspot, key: string) {
    key != "" && c.normalizePath(line.path) == key && c.valid(line.score)
  }

  /** The score of the last line that updates `key`. */
  function LastScore(c: Codec, imported: seq<ImportedHotspot>, key: string): Option<real> {
    if imported == [] then None
    else if Updates(c, imported[|imported| - 1], key) then Some(imported[|imported| - 1].score)
    else LastScore(c, imported[..|imported| - 1], key)
  }

  function MergedRow(c: Codec, imported: seq<ImportedHotspot>, row: HotspotRow): HotspotRow {
    match LastScore(c, imported, c.normalizePath(row.path))
    case Some(score) => WithScore(c, row, score)
    case None => row
  }

  /** Rows some line updates. */
  function TouchedRows(c: Codec, imported: seq<ImportedHotspot>, rows: seq<HotspotRow>): set<nat> {
    set i: nat | i < |rows| && LastScore(c, imported, c.normalizePath(rows[i].path)).Some?
  }

  datatype LineKind = Matched | Skipped | Invalid

  /** Every line falls under exactly one heading; an empty path is skipped before its score is looked at. */
  function KindOf(c: Codec, rows: seq<HotspotRow>, line: ImportedHotspot): LineKind {
    var key := c.normalizePath(line.path);
    if key == "" then Skipped
    else if !c.valid(line.score) then Invalid
    else if exists row :: row in rows && c.normalizePath(row.path) == key then Matched
    else Skipped
  }

  function Count(c: Codec, rows: seq<HotspotRow>, imported: seq<ImportedHotspot>, kind: LineKind): nat {
    if imported == [] then 0
    else Count(c, rows, imported[..|imported| - 1], kind)
         + if KindOf(c, rows, imported[|imported| - 1]) == kind then 1 else 0
  }

  lemma {:induction false} CountsPartition(c: Codec, rows: seq<HotspotRow>, imported: seq<ImportedHotspot>)
    ensures Count(c, rows, imported, Matched) + Count(c, rows, imported, Skipped) + Count(c, rows, imported, Invalid)
      == |imported|
    decreases |imported|
  {
    if imported != [] {
      CountsPartition(c, rows, imported[..|imported| - 1]);
    }
  }

  lemma {:induction false} LastScoreExists(c: Codec, imported: seq<ImportedHotspot>, key: string)
    ensures LastScore(c, imported, key).Some? <==> exists i | 0 <= i < |imported| :: Updates(c, imported[i], key)
    decreases |imported|
  {
    if imported != [] {
      var front := imported[..|imported| - 1];
      LastScoreExists(c, front, key);
      if LastScore(c, front, key).Some? {
        var i :| 0 <= i < |front| && Updates(c, front[i], key);
        assert Updates(c, imported[i], key);
      }
      if i :| 0 <= i < |imported| && Updates(c, imported[i], key) && i < |front| {
        assert Updates(c, front[i], key);
      }
    }
  }

  /** The line is for the path and has a score that can be used; an empty path has none. */
  predicate IsFor(c: Codec, line: ImportedHotspot, key: string) {
    c.normalizePath(line.path) == key && key != "" && c.valid(line.score)
  }

  lemma {:induction false} LastScoreIsLast(c: Codec, imported: seq<ImportedHotspot>, key: string, i: nat)
    requires i < |imported| && IsFor(c, imported[i], key)
    requires forall j | i < j < |imported| :: !IsFor(c, imported[j], key)
    ensures LastScore(c, imported, key) == Some(imported[i].score)
    decreases |imported|
  {
    if i < |imported| - 1 {
      LastScoreIsLast(c, imported[..|imported| - 1], key, i);
    }
  }

  /** What a merge leaves of a row: both of its scores are those of the last line for its path with a usable
      score, if there is one, and all else is as it was. */
  lemma MergedRowMeans(c: Codec, imported: seq<ImportedHotspot>, row: HotspotRow)
    ensures var merged, key := MergedRow(c, imported, row), c.normalizePath(row.path);
      && merged.path == row.path && merged.complexity == row.complexity && merged.frequency == row.frequency
      && ((forall i | 0 <= i < |imported| :: !IsFor(c, imported[i], key)) ==> merged == row)
      && (forall i | 0 <= i < |imported| && IsFor(c, imported[i], key)
                     && (forall j | i < j < |imported| :: !IsFor(c, imported[j], key)) ::
            merged.score == c.cast(imported[i].score) && merged.displayScore == c.display(c.cast(imported[i].score)))
  {
    var key := c.normalizePath(row.path);
    LastScoreExists(c, imported, key);
    forall i | 0 <= i < |imported| && IsFor(c, imported[i], key)
               && (forall j | i < j < |imported| :: !IsFor(c, imported[j], key))
      ensures LastScore(c, imported, key) == Some(imported[i].score)
    {
      LastScoreIsLast(c, imported, key, i);
    }
  }

  ghost function LinesWhere(imported: seq<ImportedHotspot>, p: ImportedHotspot -> bool): set<nat> {
    set i: nat | i < |imported| && p(imported[i])
  }

  lemma LinesWhereSnoc(imported: seq<ImportedHotspot>, p: ImportedHotspot -> bool)
    requires imported != []
    ensures |LinesWhere(imported, p)| ==
      |LinesWhere(imported[..|imported| - 1], p)| + if p(imported[|imported| - 1]) then 1 else 0
  {
    var n := |imported| - 1;
    assert LinesWhere(imported, p) == LinesWhere(imported[..n], p) + if p(imported[n]) then {n} else {};
  }

  lemma {:induction false} CountIsSize(
      c: Codec, rows: seq<HotspotRow>, imported: seq<ImportedHotspot>, kind: LineKind, p: ImportedHotspot -> bool)
    requires forall line :: p(line) <==> KindOf(c, rows, line) == kind
    ensures Count(c, rows, imported, kind) == |LinesWhere(imported, p)|
    decreases |imported|
  {
    if imported != [] {
      LinesWhereSnoc(imported, p);
      CountIsSize(c, rows, imported[..|imported| - 1], kind, p);
    }
  }

  predicate HasBadScore(c: Codec, line: ImportedHotspot) {
    c.normalizePath(line.path) != "" && !c.valid(line.score)
  }

  predicate GoesNowhere(c: Codec, rows: seq<HotspotRow>, line: ImportedHotspot) {
    var key := c.normalizePath(line.path);
    key == "" || (c.valid(line.score) && !HasRow(c, rows, key))
  }

  /** The two counters: lines with a path but no usable score, and lines without a path, or with a usable score
      for a path no row has. */
  lemma CountsMean(c: Codec, rows: seq<HotspotRow>, imported: seq<ImportedHotspot>)
    ensures Count(c, rows, imported, Invalid)
         == |LinesWhere(imported, (line: ImportedHotspot) => HasBadScore(c, line))|
    ensures Count(c, rows, imported, Skipped)
         == |LinesWhere(imported, (line: ImportedHotspot) => GoesNowhere(c, rows, line))|
  {
    forall key ensures HasRow(c, rows, key) <==> exists row :: row in rows && c.normalizePath(row.path) == key {
      if row :| row in rows && c.normalizePath(row.path) == key {
        var j :| 0 <= j < |rows| && rows[j] == row;
      }
    }
    CountIsSize(c, rows, imported, Invalid, (line: ImportedHotspot) => HasBadScore(c, line));
    CountIsSize(c, rows, imported, Skipped, (line: ImportedHotspot) => GoesNowhere(c, rows, line));
  }

  predicate HasRow(c: Codec, rows: seq<HotspotRow>, key: string) {
    exists j | 0 <= j < |rows| :: c.normalizePath(rows[j].path) == key
  }

  /** Importing in two goes merges to the same rows: the last valid line wins across imports. */
  lemma {:induction false} MergeSplits(c: Codec, a: seq<ImportedHotspot>, b: seq<ImportedHotspot>, row: HotspotRow)
    ensures MergedRow(c, b, MergedRow(c, a, row)) == MergedRow(c, a + b, row)
    decreases |b|
  {
    if b == [] {
      assert a + b == a;
    } else {
      assert (a + b)[..|a + b| - 1] == a + b[..|b| - 1];
      MergeSplits(c, a, b[..|b| - 1], row);
    }
  }

  lemma {:induction false} LastScoreConcat(c: Codec, a: seq<ImportedHotspot>, b: seq<ImportedHotspot>, key: string)
    ensures LastScore(c, a + b, key) ==
      if LastScore(c, b, key).Some? then LastScore(c, b, key) else LastScore(c, a, key)
    decreases |b|
  {
    if b == [] {
      assert a + b == a;
    } else {
      assert (a + b)[..|a + b| - 1] == a + b[..|b| - 1];
      LastScoreConcat(c, a, b[..|b| - 1], key);
    }
  }

  function MergedRows(c: Codec, imported: seq<ImportedHotspot>, rows: seq<HotspotRow>): seq<HotspotRow> {
    seq(|rows|, i requires 0 <= i < |rows| => MergedRow(c, imported, rows[i]))
  }

  lemma MergeRowsSplits(c: Codec, a: seq<ImportedHotspot>, b: seq<ImportedHotspot>, rows: seq<HotspotRow>)
    ensures MergedRows(c, b, MergedRows(c, a, rows)) == MergedRows(c, a + b, rows)
  {
    forall i | 0 <= i < |rows| ensures MergedRow(c, b, MergedRow(c, a, rows[i])) == MergedRow(c, a + b, rows[i]) {
      MergeSplits(c, a, b, rows[i]);
    }
  }

  /** Merging the same lines again changes no row. */
  lemma MergeTwiceIsOnce(c: Codec, a: seq<ImportedHotspot>, rows: seq<HotspotRow>)
    ensures MergedRows(c, a, MergedRows(c, a, rows)) == MergedRows(c, a, rows)
  {
    MergeRowsSplits(c, a, a, rows);
    forall i | 0 <= i < |rows| ensures MergedRow(c, a + a, rows[i]) == MergedRow(c, a, rows[i]) {
      LastScoreConcat(c, a, a, c.normalizePath(rows[i].path));
    }
  }

  datatype MergeCounts = MergeCounts(updated: nat, skipped: nat, invalidScore: nat)

  lemma LastScoreSnoc(c: Codec, imported: seq<ImportedHotspot>, i: nat)
    requires i < |imported|
    ensures forall k ::
      LastScore(c, imported[..i + 1], k) ==
        if Updates(c, imported[i], k) then Some(imported[i].score) else LastScore(c, imported[..i], k)
  {
    assert imported[..i + 1][..i] == imported[..i];
  }

  /** What one more line does to the rows and to which are touched. */
  lemma MergedSnoc(c: Codec, rows: seq<HotspotRow>, imported: seq<ImportedHotspot>, i: nat)
    requires i < |imported|
    ensures var line := imported[i];
      && (forall j | 0 <= j < |rows| :: MergedRow(c, imported[..i + 1], rows[j]) ==
            if Updates(c, line, c.normalizePath(rows[j].path)) then WithScore(c, rows[j], line.score)
            else MergedRow(c, imported[..i], rows[j]))
      && TouchedRows(c, imported[..i + 1], rows) == TouchedRows(c, imported[..i], rows)
           + (set j: nat | j < |rows| && Updates(c, line, c.normalizePath(rows[j].path)))
  {
    LastScoreSnoc(c, imported, i);
  }

  lemma CountSnoc(c: Codec, rows: seq<HotspotRow>, imported: seq<ImportedHotspot>, i: nat, kind: LineKind)
    requires i < |imported|
    ensures Count(c, rows, imported[..i + 1], kind) ==
      Count(c, rows, imported[..i], kind) + if KindOf(c, rows, imported[i]) == kind then 1 else 0
  {
    assert imported[..i + 1][..i] == imported[..i];
  }

  /** One valid line: every row with its path takes its score. */
  method ApplyLine(c: Codec, hotspots: array<HotspotRow>, key: string, line: ImportedHotspot, updated0: set<nat>)
    returns (updated: set<nat>, matched: bool)
    requires Updates(c, line, key)
    modifies hotspots
    ensures forall j | 0 <= j < hotspots.Length ::
      hotspots[j] ==
        if c.normalizePath(old(hotspots[j].path)) == key then WithScore(c, old(hotspots[j]), line.score)
        else old(hotspots[j])
    ensures updated == updated0 + (set j: nat | j < hotspots.Length && c.normalizePath(old(hotspots[j].path)) == key)
    ensures matched <==> exists j | 0 <= j < hotspots.Length :: c.normalizePath(old(hotspots[j].path)) == key
  {
    updated, matched := updated0, false;
    for j := 0 to hotspots.Length
      invariant forall m | j <= m < hotspots.Length :: hotspots[m] == old(hotspots[m])
      invariant forall m | 0 <= m < j ::
        hotspots[m] ==
          if c.normalizePath(old(hotspots[m].path)) == key then WithScore(c, old(hotspots[m]), line.score)
          else old(hotspots[m])
      invariant updated == updated0 + (set m: nat | m < j && c.normalizePath(old(hotspots[m].path)) == key)
      invariant matched <==> exists m | 0 <= m < j :: c.normalizePath(old(hotspots[m].path)) == key
    {
      if c.normalizePath(hotspots[j].path) == key {
        hotspots[j] := WithScore(c, hotspots[j], line.score);
        updated := updated + {j};
        matched := true;
      }
    }
  }

  /** Each row ends with the score of the last valid line for its path and is otherwise unchanged. */
  method MergeImportedHotspots(c: Codec, hotspots: array<HotspotRow>, imported: seq<ImportedHotspot>)
    returns (counts: MergeCounts)
    modifies hotspots
    ensures forall j | 0 <= j < hotspots.Length :: hotspots[j] == MergedRow(c, imported, old(hotspots[j]))
    ensures counts.updated == |TouchedRows(c, imported, old(hotspots[..]))|
    ensures counts.skipped == Count(c, old(hotspots[..]), imported, Skipped)
    ensures counts.invalidScore == Count(c, old(hotspots[..]), imported, Invalid)
  {
    var updatedRows: set<nat> := {};
    var skipped, invalidScore := 0, 0;
    ghost var rows := hotspots[..];
    for i := 0 to |imported|
      invariant forall j | 0 <= j < hotspots.Length :: hotspots[j] == MergedRow(c, imported[..i], rows[j])
      invariant updatedRows == TouchedRows(c, imported[..i], rows)
      invariant skipped == Count(c, rows, imported[..i], Skipped)
      invariant invalidScore == Count(c, rows, imported[..i], Invalid)
    {
      var line := imported[i];
      var key := c.normalizePath(line.path);
      MergedSnoc(c, rows, imported, i);
      CountSnoc(c, rows, imported, i, Skipped);
      CountSnoc(c, rows, imported, i, Invalid);
      if key == "" {
        skipped := skipped + 1;
      } else if !c.valid(line.score) {
        invalidScore := invalidScore + 1;
      } else {
        var matched;
        updatedRows, matched := ApplyLine(c, hotspots, key, line, updatedRows);
        assert matched <==> exists row :: row in rows && c.normalizePath(row.path) == key by {
          if j :| 0 <= j < |rows| && c.normalizePath(rows[j].path) == key {
            assert rows[j] in rows;
          }
        }
        if !matched {
          skipped := skipped + 1;
        }
      }
    }
    assert imported[..|imported|] == imported;
    counts := MergeCounts(|updatedRows|, skipped, invalidScore);
  }
}
