/**
  Total orders, the lexicographic order Rust derives for strings and tuples, and the
  library sort. The point of the module is `SortedIsCanonical`: a sorted sequence is
  fixed by its elements, which is what makes every sorted output of the program
  independent of hash-map, directory or row order.
 */
module Order {

  function Min(a: nat, b: nat): nat { if a < b then a else b }

  /** The key of a string sorted by itself. */
  function Itself(s: string): string { s }

  ghost predicate Total<T(!new)>(le: (T, T) -> bool) {
    && (forall a, b :: le(a, b) || le(b, a))
    && (forall a, b :: le(a, b) && le(b, a) ==> a == b)
    && (forall a, b, c :: le(a, b) && le(b, c) ==> le(a, c))
  }

  /** Lexicographic comparison of two sequences, as `Ord` for `str` and for tuples of equal size. */
  predicate LexLe<T(==)>(le: (T, T) -> bool, a: seq<T>, b: seq<T>) {
    a == [] || (b != [] && if a[0] == b[0] then LexLe(le, a[1..], b[1..]) else le(a[0], b[0]))
  }

  lemma LexCons<T>(le: (T, T) -> bool, x: T, s: seq<T>, y: T, t: seq<T>)
    ensures LexLe(le, [x] + s, [y] + t) <==> if x == y then LexLe(le, s, t) else le(x, y)
  {
    assert ([x] + s)[1..] == s && ([y] + t)[1..] == t;
  }

  predicate CharLe(a: char, b: char) { a <= b }

  /** `str` comparison: by Unicode scalar value, which is also the order of the UTF-8 bytes. */
  predicate StrLe(a: string, b: string) { LexLe(CharLe, a, b) }

  /** The first character in which they differ decides; a prefix comes first. */
  predicate ComesBefore(a: string, b: string) {
    a <= b || exists i | 0 <= i < |a| && i < |b| :: a[..i] == b[..i] && a[i] < b[i]
  }

  lemma {:induction false} StrLeMeans(a: string, b: string)
    ensures StrLe(a, b) <==> ComesBefore(a, b)
  {
    if a != [] && b != [] && a[0] == b[0] {
      StrLeMeans(a[1..], b[1..]);
      if i :| 0 <= i < |a[1..]| && i < |b[1..]| && a[1..][..i] == b[1..][..i] && a[1..][i] < b[1..][i] {
        assert a[..i + 1] == [a[0]] + a[1..][..i] && b[..i + 1] == [b[0]] + b[1..][..i];
        assert a[i + 1] < b[i + 1];
      }
      if i :| 0 <= i < |a| && i < |b| && a[..i] == b[..i] && a[i] < b[i] {
        assert a[1..][..i - 1] == a[..i][1..] && b[1..][..i - 1] == b[..i][1..];
        assert a[1..][i - 1] < b[1..][i - 1];
      }
    } else if a != [] && b != [] {
      assert a[..0] == b[..0];
    }
  }

  /** Comparison of tuples of strings, written as sequences of equal length. */
  predicate KeyLe(a: seq<string>, b: seq<string>) { LexLe(StrLe, a, b) }

  lemma {:induction false} LexTotal<T(!new)>(le: (T, T) -> bool, a: seq<T>, b: seq<T>, c: seq<T>)
    requires Total(le)
    ensures LexLe(le, a, b) || LexLe(le, b, a)
    ensures LexLe(le, a, b) && LexLe(le, b, a) ==> a == b
    ensures LexLe(le, a, b) && LexLe(le, b, c) ==> LexLe(le, a, c)
  {
    if a != [] && b != [] {
      LexTotal(le, a[1..], b[1..], if c == [] then c else c[1..]);
      if a[1..] == b[1..] && a[0] == b[0] {
        assert a == [a[0]] + a[1..] && b == [b[0]] + b[1..];
      }
    }
  }

  lemma StringOrderIsTotal()
    ensures Total(StrLe)
    ensures Total(KeyLe)
  {
    forall a, b, c
      ensures StrLe(a, b) || StrLe(b, a)
      ensures StrLe(a, b) && StrLe(b, a) ==> a == b
      ensures StrLe(a, b) && StrLe(b, c) ==> StrLe(a, c)
    {
      LexTotal(CharLe, a, b, c);
    }
    forall a, b, c
      ensures KeyLe(a, b) || KeyLe(b, a)
      ensures KeyLe(a, b) && KeyLe(b, a) ==> a == b
      ensures KeyLe(a, b) && KeyLe(b, c) ==> KeyLe(a, c)
    {
      LexTotal(StrLe, a, b, c);
    }
  }

  // ----- the library sort, by a key -----

  ghost predicate SortedBy<T, K>(key: T -> K, le: (K, K) -> bool, s: seq<T>) {
    forall i, j | 0 <= i < j < |s| :: le(key(s[i]), key(s[j]))
  }

  ghost predicate DistinctKeys<T, K>(key: T -> K, s: seq<T>) {
    forall i, j | 0 <= i < j < |s| :: key(s[i]) != key(s[j])
  }

  /** Elements with equal keys are equal. */
  ghost predicate KeySeparates<T, K>(key: T -> K, s: seq<T>) {
    forall i, j | 0 <= i < |s| && 0 <= j < |s| && key(s[i]) == key(s[j]) :: s[i] == s[j]
  }

  function Insert<T, K>(key: T -> K, le: (K, K) -> bool, x: T, s: seq<T>): (r: seq<T>)
    ensures multiset(r) == multiset(s) + multiset{x}
  {
    if s == [] || le(key(x), key(s[0])) then [x] + s
    else
      assert s == [s[0]] + s[1..];
      [s[0]] + Insert(key, le, x, s[1..])
  }

  function Sort<T, K>(key: T -> K, le: (K, K) -> bool, s: seq<T>): (r: seq<T>)
    ensures multiset(r) == multiset(s)
  {
    if s == [] then []
    else
      assert s == [s[0]] + s[1..];
      Insert(key, le, s[0], Sort(key, le, s[1..]))
  }

  lemma {:induction false} InsertByEqualKeys<T, K>(key: T -> K, key': T -> K, le: (K, K) -> bool, x: T, s: seq<T>)
    requires forall y :: key(y) == key'(y)
    ensures Insert(key, le, x, s) == Insert(key', le, x, s)
  {
    if s != [] && !le(key(x), key(s[0])) {
      InsertByEqualKeys(key, key', le, x, s[1..]);
    }
  }

  /** Keys that agree on every element sort alike. */
  lemma {:induction false} SortByEqualKeys<T, K>(key: T -> K, key': T -> K, le: (K, K) -> bool, s: seq<T>)
    requires forall y :: key(y) == key'(y)
    ensures Sort(key, le, s) == Sort(key', le, s)
  {
    if s != [] {
      SortByEqualKeys(key, key', le, s[1..]);
      InsertByEqualKeys(key, key', le, s[0], Sort(key, le, s[1..]));
    }
  }

  lemma {:induction false} InsertSorts<T, K(!new)>(key: T -> K, le: (K, K) -> bool, x: T, s: seq<T>)
    requires Total(le) && SortedBy(key, le, s)
    ensures SortedBy(key, le, Insert(key, le, x, s))
  {
    if s != [] && !le(key(x), key(s[0])) {
      var rest := Insert(key, le, x, s[1..]);
      InsertSorts(key, le, x, s[1..]);
      forall j | 0 <= j < |rest| ensures le(key(s[0]), key(rest[j])) {
        assert rest[j] in multiset(s[1..]) + multiset{x};
        assert rest[j] == x || rest[j] in s[1..];
      }
    }
  }

  lemma {:induction false} SortSorts<T, K(!new)>(key: T -> K, le: (K, K) -> bool, s: seq<T>)
    requires Total(le)
    ensures SortedBy(key, le, Sort(key, le, s))
  {
    if s != [] {
      SortSorts(key, le, s[1..]);
      InsertSorts(key, le, s[0], Sort(key, le, s[1..]));
    }
  }

  lemma SameElements<T>(a: seq<T>, b: seq<T>)
    requires multiset(a) == multiset(b)
    ensures |a| == |b|
    ensures forall x :: x in a <==> x in b
  {
    assert |multiset(a)| == |a| && |multiset(b)| == |b|;
    forall x ensures x in a <==> x in b {
      assert x in a <==> x in multiset(a);
      assert x in b <==> x in multiset(b);
    }
  }

  lemma LeastsAgree<T, K(!new)>(key: T -> K, le: (K, K) -> bool, a: seq<T>, b: seq<T>)
    requires Total(le) && SortedBy(key, le, a) && SortedBy(key, le, b)
    requires multiset(a) == multiset(b) && a != []
    requires KeySeparates(key, a)
    ensures b != [] && a[0] == b[0]
  {
    SameElements(a, b);
    assert a[0] in b && b[0] in a;
    var i :| 0 <= i < |b| && b[i] == a[0];
    var j :| 0 <= j < |a| && a[j] == b[0];
    if i != 0 && j != 0 {
      assert le(key(a[0]), key(a[j]));
      assert le(key(b[0]), key(b[i]));
    }
  }

  lemma TailMultiset<T>(a: seq<T>)
    requires a != []
    ensures multiset(a[1..]) == multiset(a) - multiset{a[0]}
  {
    assert a == [a[0]] + a[1..];
  }

  lemma RemoveMultiset<T>(a: seq<T>, i: nat)
    requires i < |a|
    ensures multiset(a[..i] + a[i + 1..]) == multiset(a) - multiset{a[i]}
  {
    assert a == a[..i] + [a[i]] + a[i + 1..];
  }

  /** Two arrangements of the same elements, both sorted by an order that separates them, are equal. */
  lemma {:induction false} SortedIsCanonical<T, K(!new)>(key: T -> K, le: (K, K) -> bool, a: seq<T>, b: seq<T>)
    requires Total(le) && SortedBy(key, le, a) && SortedBy(key, le, b)
    requires multiset(a) == multiset(b)
    requires KeySeparates(key, a)
    ensures a == b
    decreases |a|
  {
    SameElements(a, b);
    if a != [] {
      LeastsAgree(key, le, a, b);
      TailMultiset(a);
      TailMultiset(b);
      SortedIsCanonical(key, le, a[1..], b[1..]);
      assert a == [a[0]] + a[1..] && b == [b[0]] + b[1..];
    }
  }

  lemma KeySeparatesPermutation<T, K>(key: T -> K, a: seq<T>, b: seq<T>)
    requires KeySeparates(key, a) && multiset(a) == multiset(b)
    ensures KeySeparates(key, b)
  {
    SameElements(a, b);
    forall i, j | 0 <= i < |b| && 0 <= j < |b| && key(b[i]) == key(b[j]) ensures b[i] == b[j] {
      assert b[i] in a && b[j] in a;
    }
  }

  /** Sorting forgets the input order. */
  lemma SortIsCanonical<T, K(!new)>(key: T -> K, le: (K, K) -> bool, a: seq<T>, b: seq<T>)
    requires Total(le) && multiset(a) == multiset(b)
    requires KeySeparates(key, a)
    ensures Sort(key, le, a) == Sort(key, le, b)
  {
    SortSorts(key, le, a);
    SortSorts(key, le, b);
    KeySeparatesPermutation(key, a, Sort(key, le, a));
    SortedIsCanonical(key, le, Sort(key, le, a), Sort(key, le, b));
  }

  /** Sequences without repetition that hold the same elements are permutations of each other. */
  lemma {:induction false} SameSetSameMultiset<T>(a: seq<T>, b: seq<T>)
    requires forall i, j | 0 <= i < j < |a| :: a[i] != a[j]
    requires forall i, j | 0 <= i < j < |b| :: b[i] != b[j]
    requires forall x :: x in a <==> x in b
    ensures multiset(a) == multiset(b)
  {
    OccursOnce(a);
    OccursOnce(b);
    forall x ensures multiset(a)[x] == multiset(b)[x] {
      assert x in a <==> x in multiset(a);
      assert x in b <==> x in multiset(b);
    }
  }

  lemma {:induction false} OccursOnce<T>(a: seq<T>)
    requires forall i, j | 0 <= i < j < |a| :: a[i] != a[j]
    ensures forall x :: multiset(a)[x] <= 1
  {
    if a != [] {
      OccursOnce(a[1..]);
      assert a == [a[0]] + a[1..];
      assert a[0] !in a[1..];
    }
  }

  lemma OnceIsDistinct<T>(b: seq<T>, i: nat, j: nat)
    requires i < j < |b| && multiset(b)[b[i]] <= 1
    ensures b[i] != b[j]
  {
    assert b == b[..i + 1] + b[i + 1..];
    assert b[..i + 1][i] == b[i] && b[i + 1..][j - i - 1] == b[j];
    assert b[i] in multiset(b[..i + 1]) && b[j] in multiset(b[i + 1..]);
  }

  lemma DistinctKeysPermuted<T, K>(key: T -> K, a: seq<T>, b: seq<T>)
    requires multiset(a) == multiset(b) && DistinctKeys(key, a)
    ensures DistinctKeys(key, b)
  {
    forall i, j | 0 <= i < j < |a| ensures a[i] != a[j] {
      assert key(a[i]) != key(a[j]);
    }
    OccursOnce(a);
    assert KeySeparates(key, a);
    KeySeparatesPermutation(key, a, b);
    forall i, j | 0 <= i < j < |b| ensures key(b[i]) != key(b[j]) {
      OnceIsDistinct(b, i, j);
    }
  }

  // ----- mapping -----

  function Mapped<T, U>(f: T -> U, s: seq<T>): seq<U> {
    seq(|s|, i requires 0 <= i < |s| => f(s[i]))
  }

  lemma MappedSlices<T, U>(f: T -> U, s: seq<T>, a: nat, b: nat)
    requires a <= b <= |s|
    ensures Mapped(f, s[..a] + s[b..]) == Mapped(f, s)[..a] + Mapped(f, s)[b..]
  {
  }

  lemma MappedCons<T, U>(f: T -> U, x: T, s: seq<T>)
    ensures Mapped(f, [x] + s) == [f(x)] + Mapped(f, s)
  {
  }

  lemma SplitMultiset<T>(a: seq<T>, i: nat)
    requires i < |a|
    ensures multiset(a) == multiset(a[..i] + a[i + 1..]) + multiset{a[i]}
  {
    assert a == a[..i] + [a[i]] + a[i + 1..];
  }

  lemma MappedSplits<T, U>(f: T -> U, a: seq<T>, i: nat)
    requires i < |a|
    ensures multiset(Mapped(f, a)) == multiset(Mapped(f, a[..i] + a[i + 1..])) + multiset{f(a[i])}
  {
    MappedSlices(f, a, i, i + 1);
    SplitMultiset(Mapped(f, a), i);
  }

  lemma FindIn<T>(a: seq<T>, x: T) returns (i: nat)
    requires x in multiset(a)
    ensures i < |a| && a[i] == x
  {
    assert x in a;
    i :| 0 <= i < |a| && a[i] == x;
  }

  lemma {:induction false} MappedPermuted<T, U>(f: T -> U, a: seq<T>, b: seq<T>)
    requires multiset(a) == multiset(b)
    ensures multiset(Mapped(f, a)) == multiset(Mapped(f, b))
    decreases |a|
  {
    assert |a| == |multiset(a)| == |multiset(b)| == |b|;
    if |a| > 0 {
      var i := FindIn(b, a[0]);
      RemoveMultiset(a, 0);
      RemoveMultiset(b, i);
      MappedPermuted(f, a[..0] + a[1..], b[..i] + b[i + 1..]);
      MappedSplits(f, a, 0);
      MappedSplits(f, b, i);
    }
  }
}
