/** Whitespace trimming as Rust's `str` does it, slashes, and small facts about joined sequences. */
module Text {

  /** The characters with the Unicode property White_Space. */
  predicate IsSpace(c: char) {
    || '\t' <= c <= '\r' || c == ' ' || c == '\U{85}' || c == '\U{A0}' || c == '\U{1680}'
    || '\U{2000}' <= c <= '\U{200A}' || c == '\U{2028}' || c == '\U{2029}'
    || c == '\U{202F}' || c == '\U{205F}' || c == '\U{3000}'
  }

  /** One by one. */
  lemma SpacesAre(c: char)
    ensures IsSpace(c) <==> c in {
      '\t', '\n', '\U{0B}', '\U{0C}', '\r', ' ', '\U{85}', '\U{A0}', '\U{1680}', '\U{2000}', '\U{2001}', '\U{2002}',
      '\U{2003}', '\U{2004}', '\U{2005}', '\U{2006}', '\U{2007}', '\U{2008}', '\U{2009}', '\U{200A}', '\U{2028}',
      '\U{2029}', '\U{202F}', '\U{205F}', '\U{3000}'}
  {
  }

  function TrimStart(s: string): string {
    if s != "" && IsSpace(s[0]) then TrimStart(s[1..]) else s
  }

  function TrimEnd(s: string): string {
    if s != "" && IsSpace(s[|s| - 1]) then TrimEnd(s[..|s| - 1]) else s
  }

  function Trim(s: string): string { TrimEnd(TrimStart(s)) }

  lemma {:induction false} TrimStartKeeps(s: string)
    ensures TrimStart(s) == "" <==> forall i | 0 <= i < |s| :: IsSpace(s[i])
    ensures TrimStart(s) != "" ==> !IsSpace(TrimStart(s)[0])
  {
    if s != "" {
      assert s == [s[0]] + s[1..];
      if IsSpace(s[0]) {
        TrimStartKeeps(s[1..]);
      }
    }
  }

  lemma {:induction false} TrimEndOfSolid(s: string)
    requires s != "" && !IsSpace(s[0])
    ensures TrimEnd(s) != ""
    decreases |s|
  {
    if IsSpace(s[|s| - 1]) {
      TrimEndOfSolid(s[..|s| - 1]);
    }
  }

  /** Nothing is left of a text by trimming exactly when it is all white space. */
  lemma TrimIsBlank(s: string)
    ensures Trim(s) == "" <==> forall i | 0 <= i < |s| :: IsSpace(s[i])
  {
    TrimStartKeeps(s);
    if TrimStart(s) != "" {
      TrimEndOfSolid(TrimStart(s));
    }
  }

  /** Text that trimming leaves alone even with a newline behind it. */
  predicate Solid(s: string) {
    s != "" && !IsSpace(s[0]) && !IsSpace(s[|s| - 1])
  }

  lemma TrimSolidLine(s: string)
    requires Solid(s)
    ensures Trim(s) == s && Trim(s + "\n") == s
  {
    assert (s + "\n")[..|s|] == s;
    assert TrimEnd(s) == s;
  }

  /** A path with forward slashes. */
  function Slashed(s: string): string {
    if s == "" then "" else [if s[0] == '\\' then '/' else s[0]] + Slashed(s[1..])
  }

  /** Only backslashes change, each to one slash. */
  lemma {:induction false} SlashedAt(s: string, i: nat)
    requires i < |s|
    ensures |Slashed(s)| == |s| && Slashed(s)[i] == if s[i] == '\\' then '/' else s[i]
  {
    if i > 0 {
      SlashedAt(s[1..], i - 1);
    } else if |s| > 1 {
      SlashedAt(s[1..], 0);
    }
  }

  lemma SlashedKeeps(s: string)
    requires forall i | 0 <= i < |s| :: s[i] != '\\'
    ensures Slashed(s) == s
  {
    forall i | 0 <= i < |s| ensures |Slashed(s)| == |s| && Slashed(s)[i] == s[i] {
      SlashedAt(s, i);
    }
    assert s == "" ==> Slashed(s) == "";
  }

  /** The decimal digits of `n`, with leading zeros up to the given width. */
  function Padded(n: nat, width: nat): (s: string)
    ensures s != ""
    decreases n + width
  {
    var digit := ['0' + (n % 10) as char];
    if n < 10 && width <= 1 then digit else Padded(n / 10, if width == 0 then 0 else width - 1) + digit
  }

  // ----- cutting and joining -----

  lemma CutAfter<T>(a: seq<T>, b: seq<T>)
    ensures (a + b)[..|a|] == a && (a + b)[|a|..] == b
  {
  }

  lemma Associates<T>(a: seq<T>, b: seq<T>, c: seq<T>)
    ensures (a + b) + c == a + (b + c)
  {
  }
}
