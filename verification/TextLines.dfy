/**
  Lines of a text, with and without their terminators: Rust's `split_inclusive('\n')`, `lines` and
  `join("\n")`, and how they invert each other.
 */
module TextLines {
  import opened Order
  import opened Text

  // ----- lines of a text -----

  function FirstNewline(s: string): (n: nat)
    ensures n <= |s| && (n < |s| ==> s[n] == '\n') && '\n' !in s[..n]
  {
    if s == "" || s[0] == '\n' then 0 else 1 + FirstNewline(s[1..])
  }

  /** `str::split_inclusive('\n')`: the lines with their terminators. */
  function RawLines(s: string): seq<string>
    decreases |s|
  {
    if s == "" then []
    else
      var n := FirstNewline(s);
      if n < |s| then [s[..n + 1]] + RawLines(s[n + 1..]) else [s]
  }

  predicate Terminated(raw: string) { raw != "" && raw[|raw| - 1] == '\n' }

  predicate CrLf(raw: string) { |raw| >= 2 && raw[|raw| - 2] == '\r' && raw[|raw| - 1] == '\n' }

  /** `str::lines` drops the newline and a carriage return before it. */
  function Strip(raw: string): string {
    if CrLf(raw) then raw[..|raw| - 2]
    else if Terminated(raw) then raw[..|raw| - 1]
    else raw
  }

  function Lines(s: string): seq<string> { Mapped(Strip, RawLines(s)) }

  /** `lines.join("\n")` */
  function Join(ls: seq<string>): string {
    if ls == [] then "" else if |ls| == 1 then ls[0] else ls[0] + "\n" + Join(ls[1..])
  }

  function Concat(ss: seq<string>): string {
    if ss == [] then "" else ss[0] + Concat(ss[1..])
  }

  // ----- splitting loses nothing -----

  /** The first line of a text and the rest of it. */
  lemma FirstLine(s: string) returns (raw: string, tail: string)
    requires s != ""
    ensures s == raw + tail && raw != "" && '\n' !in raw[..|raw| - 1] && |tail| < |s|
    ensures RawLines(s) == [raw] + RawLines(tail)
    ensures tail == "" || Terminated(raw)
  {
    var n := FirstNewline(s);
    if n < |s| {
      raw, tail := s[..n + 1], s[n + 1..];
      assert raw[..|raw| - 1] == s[..n] && raw[|raw| - 1] == s[n];
    } else {
      raw, tail := s, "";
      assert s[..n] == s && raw[..|raw| - 1] <= s;
    }
  }

  /** A newline can only end a line, and only the last line can lack one. */
  predicate WellCut(raws: seq<string>, terminated: bool) {
    && (forall i | 0 <= i < |raws| :: raws[i] != "" && '\n' !in raws[i][..|raws[i]| - 1])
    && (forall i | 0 <= i < |raws| - 1 :: Terminated(raws[i]))
    && (raws != [] ==> (Terminated(raws[|raws| - 1]) <==> terminated))
  }

  lemma WellCutCons(raw: string, raws: seq<string>, terminated: bool)
    requires WellCut(raws, terminated) && raw != "" && '\n' !in raw[..|raw| - 1]
    requires if raws == [] then Terminated(raw) == terminated else Terminated(raw)
    ensures WellCut([raw] + raws, terminated)
  {
    var all := [raw] + raws;
    forall i | 0 <= i < |all| - 1 ensures Terminated(all[i]) {
      if i > 0 {
        assert all[i] == raws[i - 1];
      }
    }
  }

  lemma {:induction false} RawLinesWellCut(s: string)
    ensures WellCut(RawLines(s), Terminated(s)) && (s != "" <==> RawLines(s) != [])
    decreases |s|
  {
    if s != "" {
      var raw, tail := FirstLine(s);
      RawLinesWellCut(tail);
      if tail == "" {
        assert s == raw;
      } else {
        assert tail[|tail| - 1] == s[|s| - 1];
      }
      WellCutCons(raw, RawLines(tail), Terminated(s));
    }
  }

  /** Splitting loses nothing, and a line loses its newline and a carriage return before that, nothing else. */
  lemma {:induction false} RawLinesKeepAll(s: string)
    ensures Concat(RawLines(s)) == s
    decreases |s|
  {
    if s != "" {
      var raw, tail := FirstLine(s);
      RawLinesKeepAll(tail);
      assert ([raw] + RawLines(tail))[1..] == RawLines(tail);
    }
  }

  lemma StripsTerminator(l: string)
    requires '\n' !in l
    ensures Strip(l) == l && Strip(l + "\r" + "\n") == l
    ensures l == "" || l[|l| - 1] != '\r' ==> Strip(l + "\n") == l
  {
    CutAfter(l, "\n");
    CutAfter(l, "\r" + "\n");
    Associates(l, "\r", "\n");
  }

  predicate AnyCrLf(raws: seq<string>) {
    exists i | 0 <= i < |raws| :: CrLf(raws[i])
  }

  function Newline(raw: string): string { if Terminated(raw) then "\n" else "" }

  lemma StripRestores(raw: string)
    ensures !CrLf(raw) ==> Strip(raw) + Newline(raw) == raw
    ensures CrLf(raw) ==> Terminated(raw) && |Strip(raw) + Newline(raw)| + 1 == |raw|
  {
  }

  /** Joining stripped lines gives back their bytes exactly when no line ended in CR LF. */
  lemma {:induction false} JoinStripped(raws: seq<string>)
    requires raws != [] && forall i | 0 <= i < |raws| - 1 :: Terminated(raws[i])
    ensures var joined := Join(Mapped(Strip, raws)) + Newline(raws[|raws| - 1]);
      && (AnyCrLf(raws) ==> |joined| < |Concat(raws)|)
      && (!AnyCrLf(raws) ==> joined == Concat(raws))
    decreases |raws|
  {
    var stripped := Mapped(Strip, raws);
    StripRestores(raws[0]);
    assert AnyCrLf(raws) ==> CrLf(raws[0]) || AnyCrLf(raws[1..]) by {
      if i :| 0 < i < |raws| && CrLf(raws[i]) {
        assert CrLf(raws[1..][i - 1]);
      }
    }
    assert AnyCrLf(raws[1..]) ==> AnyCrLf(raws) by {
      if i :| 0 <= i < |raws[1..]| && CrLf(raws[1..][i]) {
        assert CrLf(raws[i + 1]);
      }
    }
    if |raws| == 1 {
      assert Concat(raws) == raws[0] + Concat([]);
    } else {
      JoinStripped(raws[1..]);
      assert stripped[1..] == Mapped(Strip, raws[1..]);
      JoinCons(stripped[0], stripped[1..], Newline(raws[|raws| - 1]));
      assert stripped == [stripped[0]] + stripped[1..];
    }
  }

  lemma JoinCons(first: string, rest: seq<string>, tail: string)
    requires rest != []
    ensures Join([first] + rest) + tail == first + "\n" + (Join(rest) + tail)
  {
    assert ([first] + rest)[1..] == rest;
    assert (first + "\n" + Join(rest)) + tail == first + "\n" + (Join(rest) + tail);
  }

  // ----- texts written line by line -----

  /** A line that reads back as itself. */
  predicate CleanLine(l: string) {
    '\n' !in l && (l == "" || l[|l| - 1] != '\r')
  }

  function Unlines(ls: seq<string>): string {
    if ls == [] then "" else ls[0] + "\n" + Unlines(ls[1..])
  }

  lemma {:induction false} FirstNewlineOfLine(l: string, tail: string)
    requires '\n' !in l
    ensures FirstNewline(l + "\n" + tail) == |l|
  {
    if l != "" {
      assert (l + "\n" + tail)[1..] == l[1..] + "\n" + tail;
      FirstNewlineOfLine(l[1..], tail);
    }
  }

  lemma RawLinesOne(l: string)
    requires l != "" && '\n' !in l
    ensures RawLines(l) == [l]
  {
    assert l[..FirstNewline(l)] <= l;
  }

  lemma RawLinesCons(l: string, tail: string)
    requires '\n' !in l
    ensures RawLines(l + "\n" + tail) == [l + "\n"] + RawLines(tail)
  {
    FirstNewlineOfLine(l, tail);
    CutAfter(l + "\n", tail);
  }

  function AddNewline(l: string): string { l + "\n" }

  lemma {:induction false} RawLinesOfUnlines(ls: seq<string>)
    requires forall i | 0 <= i < |ls| :: '\n' !in ls[i]
    ensures RawLines(Unlines(ls)) == Mapped(AddNewline, ls)
    decreases |ls|
  {
    if ls != [] {
      var l, rest := ls[0], ls[1..];
      RawLinesCons(l, Unlines(rest));
      RawLinesOfUnlines(rest);
      assert ls == [l] + rest && Unlines(ls) == l + "\n" + Unlines(rest);
      MappedCons(AddNewline, l, rest);
    }
  }

  lemma StripAdded(l: string)
    requires CleanLine(l)
    ensures Strip(AddNewline(l)) == l && Terminated(AddNewline(l)) && !CrLf(AddNewline(l))
  {
    CutAfter(l, "\n");
  }

  lemma LinesOfUnlines(ls: seq<string>)
    requires forall i | 0 <= i < |ls| :: CleanLine(ls[i])
    ensures Lines(Unlines(ls)) == ls
  {
    RawLinesOfUnlines(ls);
    forall i | 0 <= i < |ls|
      ensures Strip(AddNewline(ls[i])) == ls[i] && Terminated(AddNewline(ls[i])) && !CrLf(AddNewline(ls[i])) {
      StripAdded(ls[i]);
    }
  }

  lemma {:induction false} JoinIsUnlines(ls: seq<string>)
    requires ls != []
    ensures Join(ls) + "\n" == Unlines(ls)
    decreases |ls|
  {
    if |ls| == 1 {
      assert Unlines(ls[1..]) == "";
    } else {
      JoinIsUnlines(ls[1..]);
      assert ls == [ls[0]] + ls[1..];
      JoinCons(ls[0], ls[1..], "\n");
    }
  }

  lemma {:induction false} RawLinesOfJoin(ls: seq<string>)
    requires ls != [] && ls[|ls| - 1] != "" && forall i | 0 <= i < |ls| :: CleanLine(ls[i])
    ensures Lines(Join(ls)) == ls
    decreases |ls|
  {
    var l, rest := ls[0], ls[1..];
    assert ls == [l] + rest;
    if rest == [] {
      RawLinesOne(l);
      assert Mapped(Strip, [l]) == [Strip(l)] && Strip(l) == l;
    } else {
      RawLinesOfJoin(rest);
      RawLinesCons(l, Join(rest));
      MappedCons(Strip, l + "\n", RawLines(Join(rest)));
      StripAdded(l);
    }
  }
}
