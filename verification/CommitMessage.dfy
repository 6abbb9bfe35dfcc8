/**
  Cleaning a commit message before it is hashed. The sidecar binds a transaction to a commit by this
  hash, so the text the commit-msg hook sees and the text `git log` prints later must clean alike.
 */
module CommitMessage {
  import opened Order
  import opened Text
  import opened TextLines

  // ----- the cleaner -----

  predicate IsComment(l: string) {
    var t := TrimStart(l);
    t != "" && t[0] == '#'
  }

  function WithoutComments(ls: seq<string>): seq<string> {
    if ls == [] then []
    else if IsComment(ls[0]) then WithoutComments(ls[1..])
    else [ls[0]] + WithoutComments(ls[1..])
  }

  /** Drops a blank line that follows a blank line. */
  function Collapse(ls: seq<string>, afterBlank: bool): seq<string> {
    if ls == [] then []
    else if ls[0] == "" && afterBlank then Collapse(ls[1..], true)
    else [ls[0]] + Collapse(ls[1..], ls[0] == "")
  }

  function DropLeading(ls: seq<string>): seq<string> {
    if ls != [] && ls[0] == "" then DropLeading(ls[1..]) else ls
  }

  function DropTrailing(ls: seq<string>): seq<string> {
    if ls != [] && ls[|ls| - 1] == "" then DropTrailing(ls[..|ls| - 1]) else ls
  }

  function Tidy(ls: seq<string>): seq<string> {
    DropTrailing(DropLeading(Collapse(ls, false)))
  }

  function CleanCommitMsg(msg: string): string {
    Join(Tidy(Mapped(TrimEnd, WithoutComments(Lines(msg)))))
  }

  /** The program's loops: collapse runs of blank lines, then trim both ends. */
  method Clean(msg: string) returns (cleaned: string)
    ensures cleaned == CleanCommitMsg(msg)
  {
    var lines := Mapped(TrimEnd, WithoutComments(Lines(msg)));
    var result := [];
    var afterBlank := false;
    for i := 0 to |lines|
      invariant result + Collapse(lines[i..], afterBlank) == Collapse(lines, false)
    {
      assert lines[i..][1..] == lines[i + 1..];
      if lines[i] == "" && afterBlank {
        continue;
      }
      Associates(result, [lines[i]], Collapse(lines[i + 1..], lines[i] == ""));
      result := result + [lines[i]];
      afterBlank := lines[i] == "";
    }
    assert result == Collapse(lines, false);
    while result != [] && result[0] == ""
      invariant DropLeading(result) == DropLeading(Collapse(lines, false))
      decreases |result|
    {
      result := result[1..];
    }
    while result != [] && result[|result| - 1] == ""
      invariant DropTrailing(result) == Tidy(lines)
      decreases |result|
    {
      result := result[..|result| - 1];
    }
    cleaned := Join(result);
  }

  /** Git's `commit.cleanup=whitespace`, as the program documents it: the same, comments kept. */
  function GitWhitespaceCleanup(msg: string): string {
    Join(Tidy(Mapped(TrimEnd, Lines(msg))))
  }

  // ----- tidying in one pass -----

  /** Blank lines are held back until a line follows them, and dropped until one has gone before. */
  function Paragraphs(ls: seq<string>, started: bool, pending: bool): seq<string> {
    if ls == [] then []
    else if ls[0] == "" then Paragraphs(ls[1..], started, true)
    else (if started && pending then [""] else []) + [ls[0]] + Paragraphs(ls[1..], true, false)
  }

  lemma {:induction false} DropTrailingCons(x: string, ls: seq<string>)
    ensures DropTrailing([x] + ls) == if DropTrailing(ls) == [] && x == "" then [] else [x] + DropTrailing(ls)
    decreases |ls|
  {
    if ls == [] {
      assert [x] + ls == [x] && [x][..0] == [];
    } else if ls[|ls| - 1] == "" {
      assert ([x] + ls)[..|ls|] == [x] + ls[..|ls| - 1];
      DropTrailingCons(x, ls[..|ls| - 1]);
    }
  }

  lemma {:induction false} CollapsedParagraphs(ls: seq<string>)
    ensures Paragraphs(ls, true, false) == DropTrailing(Collapse(ls, false))
    ensures Paragraphs(ls, true, true) ==
      if DropTrailing(Collapse(ls, true)) == [] then [] else [""] + DropTrailing(Collapse(ls, true))
  {
    if ls != [] {
      var x, rest := ls[0], ls[1..];
      CollapsedParagraphs(rest);
      CollapseCons(ls, false);
      CollapseCons(ls, true);
      DropTrailingCons(x, Collapse(rest, x == ""));
      if x != "" {
        Associates([""], [x], Paragraphs(rest, true, false));
        assert [] + [x] == [x];
      }
    }
  }

  lemma CollapseCons(ls: seq<string>, afterBlank: bool)
    requires ls != []
    ensures Collapse(ls, afterBlank) ==
      if ls[0] == "" && afterBlank then Collapse(ls[1..], true) else [ls[0]] + Collapse(ls[1..], ls[0] == "")
  {
  }

  lemma {:induction false} PendingUnstarted(ls: seq<string>, p: bool, q: bool)
    ensures Paragraphs(ls, false, p) == Paragraphs(ls, false, q)
  {
    if ls != [] && ls[0] == "" {
      PendingUnstarted(ls[1..], true, true);
    }
  }

  lemma {:induction false} LeadingParagraphs(ls: seq<string>, afterBlank: bool)
    ensures Paragraphs(ls, false, false) == DropTrailing(DropLeading(Collapse(ls, afterBlank)))
  {
    if ls != [] {
      if ls[0] == "" {
        LeadingParagraphs(ls[1..], true);
        PendingUnstarted(ls[1..], true, false);
        assert ([ls[0]] + Collapse(ls[1..], true))[1..] == Collapse(ls[1..], true);
      } else {
        CollapsedParagraphs(ls[1..]);
        DropTrailingCons(ls[0], Collapse(ls[1..], false));
      }
    }
  }

  lemma TidyIsParagraphs(ls: seq<string>)
    ensures Tidy(ls) == Paragraphs(ls, false, false)
  {
    LeadingParagraphs(ls, false);
  }

  // ----- tidying before dropping comments changes nothing -----

  /** A run of `Paragraphs` over text that starts with at most one blank and one line. */
  lemma ParagraphsStep(blank: bool, x: string, rest: seq<string>, started: bool, pending: bool)
    requires x != ""
    ensures Paragraphs(WithoutComments((if blank then [""] else []) + [x] + rest), started, pending) ==
      if IsComment(x) then Paragraphs(WithoutComments(rest), started, pending || blank)
      else (if started && (pending || blank) then [""] else []) + [x] + Paragraphs(WithoutComments(rest), true, false)
  {
    var tail := [x] + rest;
    assert tail[1..] == rest && tail[0] == x;
    assert (if blank then [""] else []) + [x] + rest == (if blank then [""] else []) + tail;
    if blank {
      assert ([""] + tail)[1..] == tail;
      assert ([""] + WithoutComments(tail))[1..] == WithoutComments(tail);
    } else {
      assert [] + tail == tail;
    }
    if !IsComment(x) {
      assert ([x] + WithoutComments(rest))[1..] == WithoutComments(rest);
    }
  }

  lemma {:induction false} OuterAfterInner(ls: seq<string>, p: bool, started: bool, pending: bool)
    ensures Paragraphs(WithoutComments(Paragraphs(ls, true, p)), started, pending)
         == Paragraphs(WithoutComments(ls), started, pending || p)
  {
    if ls != [] {
      var x, rest := ls[0], ls[1..];
      assert ls == [x] + rest;
      if x == "" {
        OuterAfterInner(rest, true, started, pending);
        assert ([""] + WithoutComments(rest))[1..] == WithoutComments(rest);
      } else {
        ParagraphsStep(p, x, Paragraphs(rest, true, false), started, pending);
        ParagraphsStep(false, x, rest, started, pending || p);
        assert [] + [x] + rest == ls;
        if IsComment(x) {
          OuterAfterInner(rest, false, started, pending || p);
        } else {
          OuterAfterInner(rest, false, true, false);
        }
      }
    }
  }

  lemma {:induction false} TidyFirst(ls: seq<string>, p: bool)
    ensures Paragraphs(WithoutComments(Paragraphs(ls, false, p)), false, false)
      == Paragraphs(WithoutComments(ls), false, false)
  {
    if ls != [] {
      var x, rest := ls[0], ls[1..];
      assert ls == [x] + rest;
      if x == "" {
        TidyFirst(rest, true);
        assert ([""] + WithoutComments(rest))[1..] == WithoutComments(rest);
        PendingUnstarted(WithoutComments(rest), true, false);
      } else {
        ParagraphsStep(false, x, Paragraphs(rest, true, false), false, false);
        ParagraphsStep(false, x, rest, false, false);
        assert [] + [x] + rest == ls;
        OuterAfterInner(rest, false, !IsComment(x), false);
      }
    }
  }

  // ----- what cleaning leaves -----

  /** The first character that is not white space is a '#'. */
  predicate StartsWithHash(l: string) {
    exists i | 0 <= i < |l| :: l[i] == '#' && forall j | 0 <= j < i :: IsSpace(l[j])
  }

  lemma {:induction false} CommentsStartWithHash(l: string)
    ensures IsComment(l) <==> StartsWithHash(l)
  {
    if l != "" && IsSpace(l[0]) {
      CommentsStartWithHash(l[1..]);
      if i :| 0 <= i < |l[1..]| && l[1..][i] == '#' && forall j | 0 <= j < i :: IsSpace(l[1..][j]) {
        assert l[i + 1] == '#' && forall j | 0 <= j < i + 1 :: IsSpace(l[j]);
      }
      if i :| 0 <= i < |l| && l[i] == '#' && forall j | 0 <= j < i :: IsSpace(l[j]) {
        assert i > 0 && l[1..][i - 1] == '#';
        assert forall j | 0 <= j < i - 1 :: IsSpace(l[1..][j]) by {
          assert forall j | 0 <= j < i - 1 :: l[1..][j] == l[j + 1];
        }
      }
    } else if l != "" && l[0] == '#' {
      assert StartsWithHash(l);
    }
  }

  /** The lines that say something: neither blank nor comments, without the white space at their ends. */
  function Said(ls: seq<string>): seq<string> {
    if ls == [] then []
    else (if StartsWithHash(ls[0]) || TrimEnd(ls[0]) == "" then [] else [TrimEnd(ls[0])]) + Said(ls[1..])
  }

  function NonBlank(ls: seq<string>): seq<string> {
    if ls == [] then [] else (if ls[0] == "" then [] else [ls[0]]) + NonBlank(ls[1..])
  }

  predicate Spaced(ls: seq<string>) {
    && (ls != [] ==> ls[|ls| - 1] != "")
    && forall i | 0 <= i < |ls| - 1 :: ls[i] != "" || ls[i + 1] != ""
  }

  lemma SpacedCons(x: string, ls: seq<string>)
    requires Spaced(ls) && (x != "" || (ls != [] && ls[0] != ""))
    ensures Spaced([x] + ls) && NonBlank([x] + ls) == (if x == "" then [] else [x]) + NonBlank(ls)
  {
    var all := [x] + ls;
    assert all[1..] == ls;
    forall i | 0 <= i < |all| - 1 ensures all[i] != "" || all[i + 1] != "" {
      if i > 0 {
        assert all[i] == ls[i - 1] && all[i + 1] == ls[i];
      }
    }
  }

  lemma {:induction false} ParagraphsSpaced(ls: seq<string>, started: bool, pending: bool)
    ensures var ps := Paragraphs(ls, started, pending);
      Spaced(ps) && NonBlank(ps) == NonBlank(ls) && (!started && ps != [] ==> ps[0] != "")
  {
    if ls != [] {
      if ls[0] == "" {
        ParagraphsSpaced(ls[1..], started, true);
      } else {
        var rest := Paragraphs(ls[1..], true, false);
        ParagraphsSpaced(ls[1..], true, false);
        SpacedCons(ls[0], rest);
        assert ([ls[0]] + rest)[0] == ls[0];
        if started && pending {
          SpacedCons("", [ls[0]] + rest);
          Associates([""], [ls[0]], rest);
        } else {
          assert [] + [ls[0]] + rest == [ls[0]] + rest;
        }
      }
    }
  }

  lemma {:induction false} SaysTheSame(ls: seq<string>)
    ensures NonBlank(Mapped(TrimEnd, WithoutComments(ls))) == Said(ls)
    ensures forall l | l in Mapped(TrimEnd, WithoutComments(ls)) ::
      !StartsWithHash(l) && (l == "" || !IsSpace(l[|l| - 1]))
  {
    if ls != [] {
      var x, rest := ls[0], WithoutComments(ls[1..]);
      SaysTheSame(ls[1..]);
      CommentsStartWithHash(x);
      TrimEndKeepsComment(x);
      CommentsStartWithHash(TrimEnd(x));
      TrimEndKeeps(x);
      if !IsComment(x) {
        MappedCons(TrimEnd, x, rest);
        assert ([TrimEnd(x)] + Mapped(TrimEnd, rest))[1..] == Mapped(TrimEnd, rest);
      }
    }
  }

  lemma {:induction false} ParagraphsFrom(ls: seq<string>, started: bool, pending: bool)
    ensures forall l | l in Paragraphs(ls, started, pending) :: l == "" || l in ls
  {
    if ls != [] {
      ParagraphsFrom(ls[1..], started, true);
      ParagraphsFrom(ls[1..], true, false);
      assert ls == [ls[0]] + ls[1..];
    }
  }

  /** A cleaned message: the lines that say something, in order, none of them a comment or with white space at its
      end; blank lines only between them and never two in a row. */
  lemma CleanedMeans(msg: string) returns (ls: seq<string>)
    ensures CleanCommitMsg(msg) == Join(ls) && NonBlank(ls) == Said(Lines(msg))
    ensures ls != [] ==> ls[0] != "" && ls[|ls| - 1] != ""
    ensures forall i | 0 <= i < |ls| - 1 :: ls[i] != "" || ls[i + 1] != ""
    ensures forall l | l in ls :: !StartsWithHash(l) && (l == "" || !IsSpace(l[|l| - 1]))
  {
    var said := Mapped(TrimEnd, WithoutComments(Lines(msg)));
    ls := Tidy(said);
    TidyIsParagraphs(said);
    ParagraphsSpaced(said, false, false);
    ParagraphsFrom(said, false, false);
    SaysTheSame(Lines(msg));
  }

  // ----- trimming the lines -----

  lemma {:induction false} TrimEndKeeps(l: string)
    ensures TrimEnd(l) <= l && TrimEnd(TrimEnd(l)) == TrimEnd(l)
    ensures TrimEnd(l) == "" || !IsSpace(TrimEnd(l)[|TrimEnd(l)| - 1])
    decreases |l|
  {
    if l != "" && IsSpace(l[|l| - 1]) {
      TrimEndKeeps(l[..|l| - 1]);
    }
  }

  lemma {:induction false} TrimStartSnoc(l: string, c: char)
    requires IsSpace(c)
    ensures IsComment(l + [c]) <==> IsComment(l)
    decreases |l|
  {
    if l == "" {
      assert l + [c] == [c] && [c][1..] == "";
    } else {
      assert (l + [c])[1..] == l[1..] + [c];
      if IsSpace(l[0]) {
        TrimStartSnoc(l[1..], c);
      }
    }
  }

  lemma {:induction false} TrimEndKeepsComment(l: string)
    ensures IsComment(TrimEnd(l)) <==> IsComment(l)
    decreases |l|
  {
    if l != "" && IsSpace(l[|l| - 1]) {
      TrimEndKeepsComment(l[..|l| - 1]);
      TrimStartSnoc(l[..|l| - 1], l[|l| - 1]);
      assert l == l[..|l| - 1] + [l[|l| - 1]];
    }
  }

  lemma {:induction false} TrimCommutes(ls: seq<string>)
    ensures Mapped(TrimEnd, WithoutComments(ls)) == WithoutComments(Mapped(TrimEnd, ls))
  {
    if ls != [] {
      var x, rest := ls[0], ls[1..];
      assert ls == [x] + rest;
      MappedCons(TrimEnd, x, rest);
      assert ([TrimEnd(x)] + Mapped(TrimEnd, rest))[1..] == Mapped(TrimEnd, rest);
      TrimEndKeepsComment(x);
      TrimCommutes(rest);
      if !IsComment(x) {
        MappedCons(TrimEnd, x, WithoutComments(rest));
      }
    }
  }

  /** Trimmed lines: one line each, nothing left to trim. */
  predicate AllTrimmed(ls: seq<string>) {
    forall i | 0 <= i < |ls| :: '\n' !in ls[i] && TrimEnd(ls[i]) == ls[i]
  }

  lemma TrimmedIsClean(l: string)
    requires '\n' !in l && TrimEnd(l) == l
    ensures CleanLine(l)
  {
    TrimEndKeeps(l);
  }

  lemma LinesHaveNoNewline(s: string)
    ensures AllTrimmed(Mapped(TrimEnd, Lines(s)))
  {
    var raws := RawLines(s);
    RawLinesWellCut(s);
    forall i | 0 <= i < |raws|
      ensures '\n' !in TrimEnd(Strip(raws[i])) && TrimEnd(TrimEnd(Strip(raws[i]))) == TrimEnd(Strip(raws[i])) {
      var raw := raws[i];
      TrimEndKeeps(Strip(raw));
      assert raw != "" && '\n' !in raw[..|raw| - 1];
      StrippedHasNoNewline(raw);
      forall k | 0 <= k < |TrimEnd(Strip(raw))| ensures TrimEnd(Strip(raw))[k] != '\n' {
        assert TrimEnd(Strip(raw))[k] == Strip(raw)[k];
      }
    }
  }

  lemma StrippedHasNoNewline(raw: string)
    requires raw != "" && '\n' !in raw[..|raw| - 1]
    ensures '\n' !in Strip(raw)
  {
    forall k | 0 <= k < |Strip(raw)| ensures Strip(raw)[k] != '\n' {
      if k < |raw| - 1 {
        assert Strip(raw)[k] == raw[..|raw| - 1][k];
      }
    }
  }

  lemma {:induction false} ParagraphsTrimmed(ls: seq<string>, started: bool, pending: bool)
    requires AllTrimmed(ls)
    ensures AllTrimmed(Paragraphs(ls, started, pending))
  {
    if ls != [] {
      ParagraphsTrimmed(ls[1..], started, true);
      ParagraphsTrimmed(ls[1..], true, false);
    }
  }

  lemma {:induction false} WithoutCommentsTrimmed(ls: seq<string>)
    requires AllTrimmed(ls)
    ensures AllTrimmed(WithoutComments(ls)) && Mapped(TrimEnd, ls) == ls
  {
    if ls != [] {
      assert ls == [ls[0]] + ls[1..];
      WithoutCommentsTrimmed(ls[1..]);
    }
  }

  // ----- cleaning twice -----

  /** A message of tidy trimmed lines, written with its final newline, cleans to those of its lines that
      are not comments. */
  lemma CleanOfTidy(ls: seq<string>)
    requires AllTrimmed(ls)
    ensures CleanCommitMsg(Join(Tidy(ls)) + "\n") == Join(Tidy(WithoutComments(ls)))
  {
    var tidy := Tidy(ls);
    TidyIsParagraphs(ls);
    ParagraphsTrimmed(ls, false, false);
    TidyFirst(ls, false);
    TidyIsParagraphs(WithoutComments(tidy));
    TidyIsParagraphs(WithoutComments(ls));
    if tidy == [] {
      BlankLineCleans();
    } else {
      JoinIsUnlines(tidy);
      forall i | 0 <= i < |tidy| ensures CleanLine(tidy[i]) {
        TrimmedIsClean(tidy[i]);
      }
      LinesOfUnlines(tidy);
      WithoutCommentsTrimmed(tidy);
      WithoutCommentsTrimmed(WithoutComments(tidy));
    }
  }

  lemma BlankLineCleans()
    ensures CleanCommitMsg("" + "\n") == ""
    ensures Join(Tidy(WithoutComments([]))) == ""
  {
    assert Unlines([""]) == "" + "\n" by {
      assert Unlines([""][1..]) == "";
    }
    LinesOfUnlines([""]);
    assert [""][1..] == [] && WithoutComments([""]) == [""];
    assert Mapped(TrimEnd, [""]) == [""];
    TidyIsParagraphs([""]);
    TidyIsParagraphs([]);
  }

  /** Cleaning what is already clean, as stored, changes nothing. */
  lemma CleanIsIdempotent(msg: string)
    ensures CleanCommitMsg(CleanCommitMsg(msg) + "\n") == CleanCommitMsg(msg)
  {
    var trimmed := Mapped(TrimEnd, Lines(msg));
    LinesHaveNoNewline(msg);
    TrimCommutes(Lines(msg));
    WithoutCommentsTrimmed(trimmed);
    CleanOfTidy(WithoutComments(trimmed));
    NoCommentsLeft(trimmed);
  }

  lemma {:induction false} NoCommentsLeft(ls: seq<string>)
    ensures WithoutComments(WithoutComments(ls)) == WithoutComments(ls)
  {
    if ls != [] {
      NoCommentsLeft(ls[1..]);
      if !IsComment(ls[0]) {
        assert ([ls[0]] + WithoutComments(ls[1..]))[1..] == WithoutComments(ls[1..]);
      }
    }
  }

  // ----- the hook trims the message file first -----

  /** The trimmed lines of a text, comments included. */
  function TrimmedLines(s: string): seq<string> { Mapped(TrimEnd, Lines(s)) }

  lemma CleanOfTrimmedLines(s: string)
    ensures CleanCommitMsg(s) == Join(Paragraphs(WithoutComments(TrimmedLines(s)), false, false))
  {
    TrimCommutes(Lines(s));
    TidyIsParagraphs(WithoutComments(TrimmedLines(s)));
  }

  lemma TrimmedLinesCons(l: string, tail: string)
    requires '\n' !in l
    ensures TrimmedLines(l + "\n" + tail) == [TrimEnd(l)] + TrimmedLines(tail)
  {
    RawLinesCons(l, tail);
    MappedCons(Strip, l + "\n", RawLines(tail));
    MappedCons(TrimEnd, Strip(l + "\n"), Lines(tail));
    StripThenTrim(l);
  }

  lemma StripThenTrim(l: string)
    ensures TrimEnd(Strip(l + "\n")) == TrimEnd(l)
  {
    CutAfter(l, "\n");
    if CrLf(l + "\n") {
      assert (l + "\n")[..|l + "\n"| - 2] == l[..|l| - 1];
      assert l[|l| - 1] == '\r';
    }
  }

  lemma TrimmedLinesOne(l: string)
    requires '\n' !in l
    ensures TrimmedLines(l) == if l == "" then [] else [TrimEnd(l)]
  {
    if l != "" {
      RawLinesOne(l);
      MappedCons(Strip, l, []);
      MappedCons(TrimEnd, l, []);
      assert Strip(l) == l && [l] + [] == [l] && [TrimEnd(l)] + [] == [TrimEnd(l)];
    }
  }

  /** A text is one line without a newline, or a line, a newline and the rest. */
  lemma HeadLine(s: string) returns (l: string, tail: string)
    requires '\n' in s
    ensures '\n' !in l && s == l + "\n" + tail && |tail| < |s|
  {
    var n := FirstNewline(s);
    assert s[..|s|] == s;
    l, tail := s[..n], s[n + 1..];
  }

  lemma TrailingNewlineOne(s: string)
    requires '\n' !in s
    ensures TrimmedLines(s + "\n") == [TrimEnd(s)]
  {
    TrimmedLinesCons(s, "");
    assert s + "\n" + "" == s + "\n";
    assert TrimmedLines("") == [] && [TrimEnd(s)] + [] == [TrimEnd(s)];
  }

  lemma TrimEndSnoc(s: string, c: char)
    requires IsSpace(c)
    ensures TrimEnd(s + [c]) == TrimEnd(s)
  {
    assert (s + [c])[..|s|] == s;
  }

  lemma TrailingSpaceOne(s: string, c: char)
    requires IsSpace(c) && '\n' !in s
    ensures TrimmedLines(s + [c]) == [TrimEnd(s)]
  {
    if c == '\n' {
      TrailingNewlineOne(s);
    } else {
      TrimmedLinesOne(s + [c]);
      TrimEndSnoc(s, c);
    }
  }

  /** A space or newline more at the end adds at most a blank line. */
  lemma {:induction false} TrailingSpace(s: string, c: char)
    requires IsSpace(c)
    ensures TrimmedLines(s + [c]) == TrimmedLines(s) || TrimmedLines(s + [c]) == TrimmedLines(s) + [""]
    decreases |s|
  {
    if '\n' in s {
      var l, tail := HeadLine(s);
      TrailingSpace(tail, c);
      Associates(l + "\n", tail, [c]);
      TrimmedLinesCons(l, tail);
      TrimmedLinesCons(l, tail + [c]);
      Associates([TrimEnd(l)], TrimmedLines(tail), [""]);
    } else {
      TrailingSpaceOne(s, c);
      TrimmedLinesOne(s);
    }
  }

  lemma {:induction false} BlankAtEnd(ls: seq<string>, started: bool, pending: bool)
    ensures Paragraphs(WithoutComments(ls + [""]), started, pending)
      == Paragraphs(WithoutComments(ls), started, pending)
  {
    if ls == [] {
      assert [] + [""] == [""] && [""][1..] == [];
    } else {
      assert (ls + [""])[1..] == ls[1..] + [""];
      var x, rest := ls[0], ls[1..];
      BlankAtEnd(rest, started, pending);
      BlankAtEnd(rest, started, true);
      BlankAtEnd(rest, true, false);
      if !IsComment(x) {
        assert ([x] + WithoutComments(rest))[1..] == WithoutComments(rest);
        assert ([x] + WithoutComments(rest + [""]))[1..] == WithoutComments(rest + [""]);
      }
    }
  }

  lemma {:induction false} TrimEndCleans(s: string)
    ensures CleanCommitMsg(TrimEnd(s)) == CleanCommitMsg(s)
    decreases |s|
  {
    if s != "" && IsSpace(s[|s| - 1]) {
      var front, c := s[..|s| - 1], s[|s| - 1];
      assert s == front + [c];
      TrimEndCleans(front);
      TrailingSpace(front, c);
      BlankAtEnd(TrimmedLines(front), false, false);
      CleanOfTrimmedLines(s);
      CleanOfTrimmedLines(front);
    }
  }

  // ----- the hash survives git -----

  predicate White(s: string) {
    forall i | 0 <= i < |s| :: IsSpace(s[i])
  }

  lemma {:induction false} TrimEndDropsWhite(s: string, tail: string)
    requires White(tail)
    ensures TrimEnd(s + tail) == TrimEnd(s)
    decreases |tail|
  {
    if tail == "" {
      assert s + tail == s;
    } else {
      assert (s + tail)[..|s + tail| - 1] == s + tail[..|tail| - 1];
      TrimEndDropsWhite(s, tail[..|tail| - 1]);
    }
  }

  lemma WhiteTailCleans(s: string, tail: string)
    requires White(tail)
    ensures CleanCommitMsg(s + tail) == CleanCommitMsg(s)
  {
    TrimEndDropsWhite(s, tail);
    TrimEndCleans(s);
    TrimEndCleans(s + tail);
  }

  /** What the commit-msg hook cleans from the message file, the post-commit hook cleans from `git log`:
      git stores the message with its white space cleaned up, and however many newlines storing and
      printing it put at its end do not show. */
  lemma HashSurvivesGit(msg: string, tail: string)
    requires White(tail)
    ensures CleanCommitMsg(GitWhitespaceCleanup(msg) + tail) == CleanCommitMsg(msg)
  {
    LinesHaveNoNewline(msg);
    CleanOfTidy(Mapped(TrimEnd, Lines(msg)));
    TrimCommutes(Lines(msg));
    WhiteTailCleans(GitWhitespaceCleanup(msg), tail);
    WhiteTailCleans(GitWhitespaceCleanup(msg), "\n");
  }

  /** The first line that is not blank is indented and no comment. */
  predicate IndentedSubject(ls: seq<string>) {
    if ls == [] then false
    else if ls[0] == "" then IndentedSubject(ls[1..])
    else IsSpace(ls[0][0]) && !IsComment(ls[0])
  }

  lemma TrimEndCons(c: char, l: string)
    ensures TrimEnd([c] + l) == if TrimEnd(l) == "" then TrimEnd([c]) else [c] + TrimEnd(l)
    decreases |l|
  {
    if l == "" {
      assert [c] + l == [c];
    } else {
      assert ([c] + l)[..|l|] == [c] + l[..|l| - 1];
      if IsSpace(l[|l| - 1]) {
        TrimEndCons(c, l[..|l| - 1]);
      }
    }
  }

  lemma CommentCons(c: char, l: string)
    requires IsSpace(c)
    ensures IsComment([c] + l) <==> IsComment(l)
  {
    assert ([c] + l)[1..] == l;
  }

  /** One space more at the front: a blank line more or less, a comment or a subject indented further. */
  lemma LeadingSpace(c: char, t: string)
    requires IsSpace(c)
    ensures var ls, ms := TrimmedLines(t), TrimmedLines([c] + t);
      || (ms == [""] + ls)
      || (ls != [] && ms[..] == (if ls[0] == "" then ls else [[c] + ls[0]] + ls[1..]))
  {
    var s := [c] + t;
    if c == '\n' {
      assert s == "" + "\n" + t;
      TrimmedLinesCons("", t);
    } else if '\n' in t {
      var l, tail := HeadLine(t);
      assert s == ([c] + l) + "\n" + tail;
      TrimmedLinesCons(l, tail);
      TrimmedLinesCons([c] + l, tail);
      TrimEndCons(c, l);
      assert TrimEnd([c]) == "" by {
        assert [c][..0] == "";
      }
    } else {
      TrimmedLinesOne(t);
      TrimmedLinesOne(s);
      TrimEndCons(c, t);
      assert TrimEnd([c]) == "" by {
        assert [c][..0] == "";
      }
      assert t == "" ==> TrimEnd(t) == "";
    }
  }

  /** Leading white space does not show unless it indents the subject. */
  lemma {:induction false} TrimStartCleans(s: string)
    requires !IndentedSubject(TrimmedLines(s))
    ensures CleanCommitMsg(TrimStart(s)) == CleanCommitMsg(s)
    decreases |s|
  {
    if s != "" && IsSpace(s[0]) {
      var c, t := s[0], s[1..];
      assert s == [c] + t;
      LeadingSpace(c, t);
      var ls, ms := TrimmedLines(t), TrimmedLines(s);
      if ms == [""] + ls {
        assert ms[1..] == ls;
        assert ([""] + WithoutComments(ls))[1..] == WithoutComments(ls);
        PendingUnstarted(WithoutComments(ls), true, false);
      } else if ls[0] != "" {
        CommentCons(c, ls[0]);
        assert ms[0] == [c] + ls[0] && ms[1..] == ls[1..];
      }
      TrimStartCleans(t);
      CleanOfTrimmedLines(s);
      CleanOfTrimmedLines(t);
    }
  }

  lemma {:induction false} SubjectIsFirst(ls: seq<string>)
    requires IndentedSubject(ls)
    ensures var ps := Paragraphs(WithoutComments(ls), false, false);
      ps != [] && ps[0] != "" && IsSpace(ps[0][0])
  {
    var x, rest := ls[0], ls[1..];
    if x == "" {
      SubjectIsFirst(rest);
      PendingUnstarted(WithoutComments(rest), true, false);
      assert ([""] + WithoutComments(rest))[1..] == WithoutComments(rest);
    }
  }

  /** The trimmed text of an indented subject starts with that subject, unindented. */
  lemma {:induction false} TrimStartUnindents(s: string)
    requires IndentedSubject(TrimmedLines(s))
    ensures var ls := TrimmedLines(TrimStart(s));
      ls != [] && ls[0] != "" && !IsSpace(ls[0][0]) && !IsComment(ls[0])
    decreases |s|
  {
    if s != "" && IsSpace(s[0]) {
      var c, t := s[0], s[1..];
      assert s == [c] + t;
      LeadingSpace(c, t);
      var ls, ms := TrimmedLines(t), TrimmedLines(s);
      if ms == [""] + ls {
        assert ms[1..] == ls;
      } else if ls[0] != "" {
        CommentCons(c, ls[0]);
        assert ms[0] == [c] + ls[0];
      }
      if IndentedSubject(ls) {
        TrimStartUnindents(t);
      } else {
        assert ls[0] != "" && !IsSpace(ls[0][0]);
        FirstCharOfLines(t);
      }
    } else {
      FirstCharOfLines(s);
    }
  }

  lemma TrimmedHead(s: string) returns (l: string)
    requires s != ""
    ensures TrimmedLines(s) != [] && TrimmedLines(s)[0] == TrimEnd(l) && l <= s
    ensures l == "" ==> s[0] == '\n'
  {
    if '\n' in s {
      var head, tail := HeadLine(s);
      TrimmedLinesCons(head, tail);
      l := head;
    } else {
      TrimmedLinesOne(s);
      l := s;
    }
  }

  lemma FirstCharOfLines(s: string)
    ensures TrimmedLines(s) != [] && TrimmedLines(s)[0] != "" ==> s != "" && TrimmedLines(s)[0][0] == s[0]
    ensures s != "" && !IsSpace(s[0]) ==> TrimmedLines(s) != [] && TrimmedLines(s)[0] != ""
  {
    if s != "" {
      var l := TrimmedHead(s);
      TrimEndKeeps(l);
      if l != "" {
        TrimEndCons(l[0], l[1..]);
        assert l == [l[0]] + l[1..];
      }
    }
  }

  lemma JoinStartsWithFirst(ls: seq<string>)
    requires ls != [] && ls[0] != ""
    ensures Join(ls) != "" && Join(ls)[0] == ls[0][0]
  {
  }

  /** The commit-msg hook hashes the cleaned text of the trimmed message file. That is the text the
      post-commit hook will clean from `git log` exactly when the subject line is not indented. */
  lemma HookHashBindsExactly(file: string, tail: string)
    requires White(tail)
    ensures CleanCommitMsg(Trim(file)) == CleanCommitMsg(GitWhitespaceCleanup(file) + tail)
      <==> !IndentedSubject(TrimmedLines(file))
  {
    HashSurvivesGit(file, tail);
    TrimEndCleans(TrimStart(file));
    if !IndentedSubject(TrimmedLines(file)) {
      TrimStartCleans(file);
    } else {
      SubjectIsFirst(TrimmedLines(file));
      CleanOfTrimmedLines(file);
      JoinStartsWithFirst(Paragraphs(WithoutComments(TrimmedLines(file)), false, false));
      TrimStartUnindents(file);
      var ls := TrimmedLines(TrimStart(file));
      CleanOfTrimmedLines(TrimStart(file));
      assert WithoutComments(ls)[0] == ls[0];
      JoinStartsWithFirst(Paragraphs(WithoutComments(ls), false, false));
    }
  }

  /** Any one-line message that is no comment, indented by a space: the two hooks hash different texts. */
  lemma IndentedSubjectDoesNotBind(subject: string, tail: string)
    requires Solid(subject) && '\n' !in subject && subject[0] != '#' && White(tail)
    ensures var file := " " + subject;
      && IndentedSubject(TrimmedLines(file))
      && CleanCommitMsg(Trim(file)) != CleanCommitMsg(GitWhitespaceCleanup(file) + tail)
  {
    var file := " " + subject;
    TrimmedLinesOne(file);
    assert TrimEnd(file) == file;
    CommentCons(' ', subject);
    assert TrimStart(subject) == subject;
    HookHashBindsExactly(file, tail);
  }
}
