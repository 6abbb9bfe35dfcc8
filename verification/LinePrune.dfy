/**
  Pruning dead code: the 1-based inclusive line ranges of approved findings are cut out of files on
  disk, one target at a time, with the line numbers the scan reported.
 */
module LinePrune {
  import opened Wrappers
  import opened Order
  import opened TextLines
  import opened LineRanges

  // ----- removing one range from a text -----

  function RemoveLineRange(content: string, r: Range): Option<string> {
    var lines := Lines(content);
    if !Valid(r) || r.start > |lines| then None
    else
      var kept := lines[..r.start - 1] + lines[Min(r.end, |lines|)..];
      if kept == [] then Some("\n")
      else Some(Join(kept) + if Terminated(content) then "\n" else "")
  }

  // ----- what happens to the other bytes -----

  function KeptRaw(content: string, r: Range): seq<string>
    requires Valid(r) && r.start <= |RawLines(content)|
  {
    RawLines(content)[..r.start - 1] + RawLines(content)[Min(r.end, |RawLines(content)|)..]
  }

  lemma KeptJoined(content: string, r: Range)
    requires Valid(r) && r.start <= |RawLines(content)|
    ensures var kept := KeptRaw(content, r);
      RemoveLineRange(content, r) ==
        Some(if kept == [] then "\n" else Join(Mapped(Strip, kept)) + if Terminated(content) then "\n" else "")
  {
    MappedSlices(Strip, RawLines(content), r.start - 1, Min(r.end, |RawLines(content)|));
  }

  lemma KeptTerminated(raws: seq<string>, terminated: bool, a: nat, b: nat)
    requires WellCut(raws, terminated) && a < b <= |raws| && raws[..a] + raws[b..] != []
    ensures var kept := raws[..a] + raws[b..];
      && (forall i | 0 <= i < |kept| - 1 :: Terminated(kept[i]))
      && Newline(kept[|kept| - 1]) == if terminated || b == |raws| then "\n" else ""
  {
    var kept := raws[..a] + raws[b..];
    assert kept[|kept| - 1] == if b < |raws| then raws[|raws| - 1] else raws[a - 1];
  }

  /** The bytes of every other line survive exactly when none of those lines ends in CR LF and the file
      ends in a newline or keeps its last line; otherwise line ends are rewritten or lost. */
  lemma OtherBytesKeptExactly(content: string, r: Range)
    requires Valid(r) && r.start <= |RawLines(content)|
    ensures var kept := KeptRaw(content, r);
      if kept == [] then RemoveLineRange(content, r) == Some("\n")
      else RemoveLineRange(content, r) == Some(Concat(kept))
           <==> !AnyCrLf(kept) && (Terminated(content) || r.end < |RawLines(content)|)
  {
    var kept := KeptRaw(content, r);
    KeptJoined(content, r);
    if kept != [] {
      RawLinesWellCut(content);
      KeptTerminated(RawLines(content), Terminated(content), r.start - 1, Min(r.end, |RawLines(content)|));
      JoinStripped(kept);
    }
  }

  lemma TwoRawLines(a: string, b: string)
    requires '\n' !in a && '\n' !in b
    ensures RawLines(a + "\n" + (b + "\n")) == [a + "\n", b + "\n"]
  {
    RawLinesCons(a, b + "\n");
    RawLinesCons(b, "");
    assert b + "\n" + "" == b + "\n";
    assert [b + "\n"] + RawLines("") == [b + "\n"];
  }

  /** Two lines, `a` and `b`, that end in CR LF: removing the second also rewrites the end of the first. */
  lemma CrLfIsRewritten(a: string, b: string)
    requires '\n' !in a && '\n' !in b
    ensures var content, r := a + "\r" + "\n" + (b + "\r" + "\n"), Range(2, 2);
      && 2 <= |RawLines(content)| && KeptRaw(content, r) == [a + "\r" + "\n"]
      && RemoveLineRange(content, r) == Some(a + "\n") && a + "\n" != Concat(KeptRaw(content, r))
  {
    var first := a + "\r" + "\n";
    var content := first + (b + "\r" + "\n");
    TwoRawLines(a + "\r", b + "\r");
    assert KeptRaw(content, Range(2, 2)) == [first];
    KeptJoined(content, Range(2, 2));
    assert Strip(first) == a && Mapped(Strip, [first]) == [a] && content[|content| - 1] == '\n';
    assert [first][1..] == [] && Concat([first]) == first + Concat([first][1..]) == first;
    assert |a + "\n"| < |first|;
  }

  // ----- files edited line by line -----

  /** No line ends in a carriage return of its own, and the file ends in a newline or has no empty line.
      Lines may end in CR LF. */
  predicate Editable(s: string) {
    && (forall i | 0 <= i < |Lines(s)| :: CleanLine(Lines(s)[i]))
    && (Terminated(s) || forall i | 0 <= i < |Lines(s)| :: Lines(s)[i] != "")
  }

  lemma LinesOfText(kept: seq<string>, terminated: bool)
    requires kept != [] && forall i | 0 <= i < |kept| :: CleanLine(kept[i])
    requires terminated || kept[|kept| - 1] != ""
    ensures var text := Join(kept) + if terminated then "\n" else "";
      Lines(text) == kept && (terminated ==> Terminated(text) && text == Unlines(kept))
  {
    if terminated {
      LinesOfUnlines(kept);
      JoinIsUnlines(kept);
    } else {
      RawLinesOfJoin(kept);
      assert Join(kept) + "" == Join(kept);
    }
  }

  lemma OneBlankLine()
    ensures Lines("\n") == [""] && Terminated("\n") && Unlines([""]) == "\n"
  {
    LinesOfText([""], true);
    assert "" + "\n" == "\n";
  }

  /** On such a file the text operation is the removal of lines, and the file stays one. */
  lemma EditableRemoval(content: string, r: Range)
    requires Editable(content)
    ensures match Remove("", Lines(content), r)
      case None => RemoveLineRange(content, r).None?
      case Some(kept) =>
        && RemoveLineRange(content, r).Some?
        && Lines(RemoveLineRange(content, r).value) == kept && Editable(RemoveLineRange(content, r).value)
        && (Terminated(content) ==> RemoveLineRange(content, r).value == Unlines(kept))
  {
    var lines := Lines(content);
    if Valid(r) && r.start <= |lines| {
      var kept := lines[..r.start - 1] + lines[Min(r.end, |lines|)..];
      if kept == [] {
        OneBlankLine();
      } else {
        forall i | 0 <= i < |kept| ensures kept[i] in lines {
        }
        LinesOfText(kept, Terminated(content));
      }
    }
  }
}
