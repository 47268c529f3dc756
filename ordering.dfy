/**
  Orders used where the pipeline sorts: Python compares strings code point by
  code point and tuples component by component, both lexicographically; pandas
  `groupby` returns its groups in ascending key order.  `SortUnique` is the
  sort-and-deduplicate both rely on.
 */
module Ordering {

  ghost predicate Irreflexive<T(!new)>(less: (T, T) -> bool)
  {
    forall a :: !less(a, a)
  }

  ghost predicate Transitive<T(!new)>(less: (T, T) -> bool)
  {
    forall a, b, c :: less(a, b) && less(b, c) ==> less(a, c)
  }

  ghost predicate Connected<T(!new)>(less: (T, T) -> bool)
  {
    forall a, b :: a != b ==> less(a, b) || less(b, a)
  }

  ghost predicate StrictTotalOrder<T(!new)>(less: (T, T) -> bool)
  {
    Irreflexive(less) && Transitive(less) && Connected(less)
  }

  ghost predicate StrictlySorted<T(!new)>(s: seq<T>, less: (T, T) -> bool)
  {
    forall i, j :: 0 <= i < j < |s| ==> less(s[i], s[j])
  }

  ghost predicate NoDuplicates<T(!new)>(s: seq<T>)
  {
    forall i, j :: 0 <= i < j < |s| ==> s[i] != s[j]
  }

  /** Lexicographic order: a proper prefix comes first, otherwise the first differing element decides. */
  predicate LexLess<T(==,!new)>(a: seq<T>, b: seq<T>, less: (T, T) -> bool)
    decreases |a|
  {
    |b| > 0 && (|a| == 0 || less(a[0], b[0]) || (a[0] == b[0] && LexLess(a[1..], b[1..], less)))
  }

  predicate CharLess(a: char, b: char)
  {
    a < b
  }

  /** Python's `<` on `str`. */
  predicate StrLess(a: string, b: string)
  {
    LexLess(a, b, CharLess)
  }

  /** Python's `<` on a tuple of strings, the tuple written as a sequence. */
  predicate KeyLess(a: seq<string>, b: seq<string>)
  {
    LexLess(a, b, StrLess)
  }

  /** Python's `<` on a `(str, int)` pair, the pandas group key `(geography, year)`. */
  predicate StrIntLess(a: (string, int), b: (string, int))
  {
    StrLess(a.0, b.0) || (a.0 == b.0 && a.1 < b.1)
  }

  lemma {:induction false} LexIrreflexive<T(!new)>(a: seq<T>, less: (T, T) -> bool)
    requires Irreflexive(less)
    ensures !LexLess(a, a, less)
    decreases |a|
  {
    if |a| > 0 {
      LexIrreflexive(a[1..], less);
    }
  }

  lemma {:induction false} LexTransitive<T(!new)>(a: seq<T>, b: seq<T>, c: seq<T>, less: (T, T) -> bool)
    requires Transitive(less)
    requires LexLess(a, b, less) && LexLess(b, c, less)
    ensures LexLess(a, c, less)
    decreases |a|
  {
    if |a| > 0 && a[0] == b[0] == c[0] && !less(a[0], b[0]) && !less(b[0], c[0]) {
      LexTransitive(a[1..], b[1..], c[1..], less);
    }
  }

  lemma {:induction false} LexConnected<T(!new)>(a: seq<T>, b: seq<T>, less: (T, T) -> bool)
    requires Connected(less)
    requires a != b
    ensures LexLess(a, b, less) || LexLess(b, a, less)
    decreases |a|
  {
    if |a| > 0 && |b| > 0 && a[0] == b[0] {
      assert a == [a[0]] + a[1..] && b == [b[0]] + b[1..];
      LexConnected(a[1..], b[1..], less);
    }
  }

  /** The lexicographic extension of a strict total order is a strict total order. */
  lemma LexIsStrictTotalOrder<T(!new)>(less: (T, T) -> bool)
    requires StrictTotalOrder(less)
    ensures StrictTotalOrder((a: seq<T>, b: seq<T>) => LexLess(a, b, less))
  {
    var lex := (a: seq<T>, b: seq<T>) => LexLess(a, b, less);
    forall a: seq<T> ensures !lex(a, a) {
      LexIrreflexive(a, less);
    }
    forall a: seq<T>, b: seq<T>, c: seq<T> | lex(a, b) && lex(b, c) ensures lex(a, c) {
      LexTransitive(a, b, c, less);
    }
    forall a: seq<T>, b: seq<T> | a != b ensures lex(a, b) || lex(b, a) {
      LexConnected(a, b, less);
    }
  }

  lemma StrLessIsStrictTotalOrder()
    ensures StrictTotalOrder(StrLess)
  {
    assert StrictTotalOrder(CharLess);
    LexIsStrictTotalOrder(CharLess);
    assert forall a, b :: StrLess(a, b) == ((x: string, y: string) => LexLess(x, y, CharLess))(a, b);
  }

  lemma KeyLessIsStrictTotalOrder()
    ensures StrictTotalOrder(KeyLess)
  {
    StrLessIsStrictTotalOrder();
    LexIsStrictTotalOrder(StrLess);
    assert forall a, b :: KeyLess(a, b) == ((x: seq<string>, y: seq<string>) => LexLess(x, y, StrLess))(a, b);
  }

  lemma StrIntLessIsStrictTotalOrder()
    ensures StrictTotalOrder(StrIntLess)
  {
    StrLessIsStrictTotalOrder();
  }

  /** Inserts `x` into the strictly sorted `s`, unless it is already there. */
  function Insert<T(==,!new)>(x: T, s: seq<T>, less: (T, T) -> bool): (r: seq<T>)
    requires StrictTotalOrder(less) && StrictlySorted(s, less)
    ensures StrictlySorted(r, less)
    ensures forall y :: y in r <==> y == x || y in s
    ensures |r| == if x in s then |s| else |s| + 1
    decreases |s|
  {
    if s == [] then [x]
    else if x == s[0] then s
    else if less(x, s[0]) then [x] + s
    else
      var t := Insert(x, s[1..], less);
      assert forall y :: y in t ==> less(s[0], y);
      [s[0]] + t
  }

  /**
    The distinct elements of `s` in ascending order: Python's `sorted` on the
    (already distinct) keys of a dict, or the group keys of a pandas `groupby`.
   */
  function SortUnique<T(==,!new)>(s: seq<T>, less: (T, T) -> bool): (r: seq<T>)
    requires StrictTotalOrder(less)
    ensures StrictlySorted(r, less)
    ensures forall y :: y in r <==> y in s
    ensures NoDuplicates(s) ==> |r| == |s|
    decreases |s|
  {
    if s == [] then []
    else
      var init := s[..|s| - 1];
      assert forall y :: y in s <==> y in init || y == s[|s| - 1];
      Insert(s[|s| - 1], SortUnique(init, less), less)
  }

  /**
    A strictly sorted sequence is determined by its elements: the sorted
    output does not depend on the order the elements arrived in.
   */
  lemma {:induction false} StrictlySortedUnique<T(!new)>(a: seq<T>, b: seq<T>, less: (T, T) -> bool)
    requires StrictTotalOrder(less) && StrictlySorted(a, less) && StrictlySorted(b, less)
    requires forall x :: x in a <==> x in b
    ensures a == b
    decreases |a|
  {
    SameMembersBothEmpty(a, b);
    if a != [] {
      SortedHeadsAgree(a, b, less);
      forall x ensures x in a[1..] <==> x in b[1..] {
        if x in a[1..] {
          var i :| 0 <= i < |a| - 1 && a[1..][i] == x;
          assert less(a[0], a[i + 1]);
          assert x in b && x != b[0];
          var k :| 0 <= k < |b| && b[k] == x;
          assert b[1..][k - 1] == x;
        }
        if x in b[1..] {
          var i :| 0 <= i < |b| - 1 && b[1..][i] == x;
          assert less(b[0], b[i + 1]);
          assert x in a && x != a[0];
          var k :| 0 <= k < |a| && a[k] == x;
          assert a[1..][k - 1] == x;
        }
      }
      StrictlySortedUnique(a[1..], b[1..], less);
      assert a == [a[0]] + a[1..] && b == [b[0]] + b[1..];
    }
  }

  lemma SortedHeadsAgree<T(!new)>(a: seq<T>, b: seq<T>, less: (T, T) -> bool)
    requires StrictTotalOrder(less) && StrictlySorted(a, less) && StrictlySorted(b, less)
    requires a != [] && b != [] && forall x :: x in a <==> x in b
    ensures a[0] == b[0]
  {
    var a0, b0 := a[0], b[0];
    assert a0 in b && b0 in a;
    var i :| 0 <= i < |b| && b[i] == a0;
    var j :| 0 <= j < |a| && a[j] == b0;
    assert a0 == b0 || less(b0, a0);
    assert a0 == b0 || less(a0, b0);
  }

  lemma SameMembersBothEmpty<T(!new)>(a: seq<T>, b: seq<T>)
    requires forall x :: x in a <==> x in b
    ensures a == [] <==> b == []
  {
    if a != [] {
      assert a[0] in b;
    }
    if b != [] {
      assert b[0] in a;
    }
  }
}
