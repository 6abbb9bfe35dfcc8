/**
  The hybrid logical clocks of team sync. The program compares them as values in one place and as the text
  it stores in another; the module proves when that is the same order.
 */
module SyncClock {
  import opened Wrappers
  import opened Order
  import opened Text

  datatype Clock = Clock(physical: nat, logical: nat, node: string)

  predicate StrLess(a: string, b: string) { a != b && StrLe(a, b) }

  /** The derived order: field by field. */
  predicate Less(a: Clock, b: Clock) {
    a.physical < b.physical || (a.physical == b.physical &&
      (a.logical < b.logical || (a.logical == b.logical && StrLess(a.node, b.node))))
  }

  lemma ClocksAreOrdered(a: Clock, b: Clock, c: Clock)
    ensures !(Less(a, b) && Less(b, a))
    ensures Less(a, b) || a == b || Less(b, a)
    ensures Less(a, b) && Less(b, c) ==> Less(a, c)
    ensures Less(a, b) && !Less(c, b) ==> Less(a, c)
    ensures !Less(b, a) && Less(b, c) ==> Less(a, c)
    ensures !Less(b, a) && !Less(c, b) ==> !Less(c, a)
  {
    LexTotal(CharLe, a.node, b.node, c.node);
    LexTotal(CharLe, a.node, c.node, b.node);
    LexTotal(CharLe, b.node, a.node, c.node);
    LexTotal(CharLe, b.node, c.node, a.node);
    LexTotal(CharLe, c.node, a.node, b.node);
    LexTotal(CharLe, c.node, b.node, a.node);
  }

  /** The later of two clocks, one of which may be missing. */
  function Later(a: Option<Clock>, b: Clock): Clock {
    if a.None? || Less(a.value, b) then b else a.value
  }

  // ----- as text -----

  /** `{}-{:04}-{}` */
  function Show(c: Clock): string {
    Padded(c.physical, 1) + ("-" + (Padded(c.logical, 4) + ("-" + c.node)))
  }

  /** The comparison SQLite makes of two stored clocks. */
  predicate ShownLess(a: Clock, b: Clock) { StrLess(Show(a), Show(b)) }

  lemma LessCons(x: char, s: string, y: char, t: string)
    ensures StrLess([x] + s, [y] + t) <==> x < y || (x == y && StrLess(s, t))
  {
    assert ([x] + s)[1..] == s && ([y] + t)[1..] == t;
  }

  /** Digits of equal width compare as the numbers do. */
  lemma {:induction false} PaddedOrder(a: nat, b: nat, width: nat, s: string, t: string)
    requires |Padded(a, width)| == |Padded(b, width)|
    ensures StrLess(Padded(a, width) + s, Padded(b, width) + t) <==> a < b || (a == b && StrLess(s, t))
    decreases a + width
  {
    var x, y := '0' + (a % 10) as char, '0' + (b % 10) as char;
    LessCons(x, s, y, t);
    if !(a < 10 && width <= 1) {
      var w := if width == 0 then 0 else width - 1;
      PaddedOrder(a / 10, b / 10, w, [x] + s, [y] + t);
      Associates(Padded(a / 10, w), [x], s);
      Associates(Padded(b / 10, w), [y], t);
    }
  }

  /** The clocks show with equal widths, as they do while the milliseconds have 13 digits and no more than
      10,000 clocks share one of them. */
  predicate SameWidth(a: Clock, b: Clock) {
    && |Padded(a.physical, 1)| == |Padded(b.physical, 1)|
    && |Padded(a.logical, 4)| == |Padded(b.logical, 4)|
  }

  /** Then the text is ordered as the clocks are. */
  lemma ShownInOrder(a: Clock, b: Clock)
    requires SameWidth(a, b)
    ensures ShownLess(a, b) <==> Less(a, b)
  {
    var s, t := "-" + a.node, "-" + b.node;
    PaddedOrder(a.physical, b.physical, 1, "-" + (Padded(a.logical, 4) + s), "-" + (Padded(b.logical, 4) + t));
    LessCons('-', Padded(a.logical, 4) + s, '-', Padded(b.logical, 4) + t);
    PaddedOrder(a.logical, b.logical, 4, s, t);
    LessCons('-', a.node, '-', b.node);
  }

  lemma DigitsAtTheLimit()
    ensures Padded(9999, 4) == "9999" && Padded(10000, 4) == "10000"
  {
    assert Padded(9, 1) == "9" && Padded(99, 2) == "99" && Padded(999, 3) == "999";
    assert Padded(1, 0) == "1" && Padded(10, 1) == "10" && Padded(100, 2) == "100" && Padded(1000, 3) == "1000";
  }

  lemma NineAfterOne(s: string)
    ensures StrLess("-" + ("10000" + s), "-" + ("9999" + s)) && !StrLess("-" + ("9999" + s), "-" + ("10000" + s))
  {
    LessCons('-', "9999" + s, '-', "10000" + s);
    LessCons('-', "10000" + s, '-', "9999" + s);
    assert "9999" + s == ['9'] + ("999" + s) && "10000" + s == ['1'] + ("0000" + s);
    LessCons('9', "999" + s, '1', "0000" + s);
    LessCons('1', "0000" + s, '9', "999" + s);
  }

  lemma ShowsWithFourDigits()
    ensures Show(Clock(51, 7, "n")) == "51-0007-n"
  {
    assert Padded(5, 0) == "5" && Padded(51, 1) == "51";
    assert Padded(0, 1) == "0" && Padded(0, 2) == "00" && Padded(0, 3) == "000" && Padded(7, 4) == "0007";
  }

  /** Not in general: the clock after 9999 in the same millisecond shows before it. */
  lemma LongLogicalShowsFirst(physical: nat, node: string)
    ensures var a, b := Clock(physical, 9999, node), Clock(physical, 10000, node);
      Less(a, b) && ShownLess(b, a) && !ShownLess(a, b)
  {
    var s := "-" + node;
    DigitsAtTheLimit();
    NineAfterOne(s);
    PaddedOrder(physical, physical, 1, "-" + ("9999" + s), "-" + ("10000" + s));
    PaddedOrder(physical, physical, 1, "-" + ("10000" + s), "-" + ("9999" + s));
  }
}
