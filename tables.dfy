/**
  Whole-table operations of pandas used by the merge stages: boolean-mask
  filtering, a left merge on a key, and the NaN-skipping `sum` and `mean`
  of a column within a group.
 */
module Tables {
  import opened Wrappers

  /** `df[mask]`: the rows that satisfy `keep`, in their original order. */
  function Filter<T(!new)>(s: seq<T>, keep: T -> bool): (r: seq<T>)
    ensures |r| <= |s|
    ensures forall x :: x in r <==> x in s && keep(x)
    decreases |s|
  {
    if s == [] then []
    else
      var init := s[..|s| - 1];
      assert forall x :: x in s <==> x in init || x == s[|s| - 1];
      Filter(init, keep) + (if keep(s[|s| - 1]) then [s[|s| - 1]] else [])
  }

  lemma FilterAppend<T(!new)>(s: seq<T>, x: T, keep: T -> bool)
    ensures Filter(s + [x], keep) == Filter(s, keep) + (if keep(x) then [x] else [])
  {
    assert (s + [x])[..|s|] == s;
  }

  /** No two rows of `right` share a key. */
  ghost predicate UniqueKeys<R(!new), K(!new)>(right: seq<R>, rkey: R -> K)
  {
    forall i, j :: 0 <= i < j < |right| ==> rkey(right[i]) != rkey(right[j])
  }

  /** The rows of `right` whose key is `k`, in order. */
  function Matches<R(!new), K(==)>(right: seq<R>, rkey: R -> K, k: K): seq<R>
  {
    Filter(right, x => rkey(x) == k)
  }

  /** The rows one left row turns into: one per match, or one with nothing attached. */
  function JoinRow<L, R(!new), K(==), O>(l: L, right: seq<R>, lkey: L -> K, rkey: R -> K,
                                         combine: (L, Option<R>) -> O): seq<O>
  {
    var ms := Matches(right, rkey, lkey(l));
    if ms == [] then [combine(l, None)]
    else seq(|ms|, i requires 0 <= i < |ms| => combine(l, Some(ms[i])))
  }

  /** `left.merge(right, on=key, how='left')`: left rows in order, each followed by its matches. */
  function LeftJoin<L, R(!new), K(==), O>(left: seq<L>, right: seq<R>, lkey: L -> K, rkey: R -> K,
                                          combine: (L, Option<R>) -> O): (out: seq<O>)
    ensures |out| >= |left|
    decreases |left|
  {
    if left == [] then []
    else
      LeftJoin(left[..|left| - 1], right, lkey, rkey, combine)
      + JoinRow(left[|left| - 1], right, lkey, rkey, combine)
  }

  /**
    Whatever the right side holds, every left row survives a left merge: its
    first match (or nothing) attached to it is an output row, and so is its
    combination with each of its matches.
   */
  lemma LeftJoinKeepsLeftRows<L, R(!new), K, O>(left: seq<L>, right: seq<R>, lkey: L -> K,
                                                rkey: R -> K, combine: (L, Option<R>) -> O)
    ensures forall i :: 0 <= i < |left| ==>
              combine(left[i], Find(right, rkey, lkey(left[i]))) in LeftJoin(left, right, lkey, rkey, combine)
    ensures forall i, m :: 0 <= i < |left| && m in right && rkey(m) == lkey(left[i]) ==>
              combine(left[i], Some(m)) in LeftJoin(left, right, lkey, rkey, combine)
  {
    forall i | 0 <= i < |left|
      ensures combine(left[i], Find(right, rkey, lkey(left[i]))) in LeftJoin(left, right, lkey, rkey, combine)
    {
      JoinRowCovers(left[i], right, lkey, rkey, combine);
      JoinRowInLeftJoin(left, right, lkey, rkey, combine, i);
    }
    forall i, m | 0 <= i < |left| && m in right && rkey(m) == lkey(left[i])
      ensures combine(left[i], Some(m)) in LeftJoin(left, right, lkey, rkey, combine)
    {
      JoinRowCovers(left[i], right, lkey, rkey, combine);
      JoinRowInLeftJoin(left, right, lkey, rkey, combine, i);
    }
  }

  /** Merging one more left row appends the rows it turns into. */
  lemma LeftJoinSnoc<L, R(!new), K, O>(left: seq<L>, l: L, right: seq<R>, lkey: L -> K,
                                       rkey: R -> K, combine: (L, Option<R>) -> O)
    ensures LeftJoin(left + [l], right, lkey, rkey, combine)
         == LeftJoin(left, right, lkey, rkey, combine) + JoinRow(l, right, lkey, rkey, combine)
  {
    assert (left + [l])[..|left|] == left;
  }

  /** Every row the `i`-th left row turns into is an output row of the merge. */
  lemma {:induction false} JoinRowInLeftJoin<L, R(!new), K, O>(left: seq<L>, right: seq<R>, lkey: L -> K,
                                                               rkey: R -> K, combine: (L, Option<R>) -> O, i: nat)
    requires i < |left|
    ensures forall o :: o in JoinRow(left[i], right, lkey, rkey, combine) ==> o in LeftJoin(left, right, lkey, rkey, combine)
    decreases |left|
  {
    var init, last := left[..|left| - 1], left[|left| - 1];
    assert left == init + [last];
    LeftJoinSnoc(init, last, right, lkey, rkey, combine);
    if i < |init| {
      JoinRowInLeftJoin(init, right, lkey, rkey, combine, i);
      assert init[i] == left[i];
    }
  }

  /** One left row's output holds its first match (or nothing) and every one of its matches. */
  lemma JoinRowCovers<L, R(!new), K, O>(l: L, right: seq<R>, lkey: L -> K, rkey: R -> K,
                                            combine: (L, Option<R>) -> O)
    ensures combine(l, Find(right, rkey, lkey(l))) in JoinRow(l, right, lkey, rkey, combine)
    ensures forall m :: m in right && rkey(m) == lkey(l) ==> combine(l, Some(m)) in JoinRow(l, right, lkey, rkey, combine)
  {
    var ms := Matches(right, rkey, lkey(l));
    var r := JoinRow(l, right, lkey, rkey, combine);
    if ms != [] {
      assert r[0] == combine(l, Some(ms[0]));
      forall m | m in right && rkey(m) == lkey(l) ensures combine(l, Some(m)) in r {
        assert m in ms;
        var i :| 0 <= i < |ms| && ms[i] == m;
        assert r[i] == combine(l, Some(m));
      }
    }
  }

  /** The row of `right` with key `k`, if any (the first, should there be several). */
  function Find<R(!new), K(==)>(right: seq<R>, rkey: R -> K, k: K): (r: Option<R>)
    ensures r.Some? ==> r.value in right && rkey(r.value) == k
    ensures r.None? ==> forall x :: x in right ==> rkey(x) != k
  {
    var ms := Matches(right, rkey, k);
    if ms == [] then None
    else
      assert ms[0] in ms;
      Some(ms[0])
  }

  lemma {:induction false} UniqueKeysMatchAtMostOne<R(!new), K(!new)>(right: seq<R>, rkey: R -> K, k: K)
    requires UniqueKeys(right, rkey)
    ensures |Matches(right, rkey, k)| <= 1
    decreases |right|
  {
    if right != [] {
      var init := right[..|right| - 1];
      var last := right[|right| - 1];
      assert UniqueKeys(init, rkey);
      UniqueKeysMatchAtMostOne(init, rkey, k);
      assert right == init + [last];
      FilterAppend(init, last, x => rkey(x) == k);
      if rkey(last) == k {
        forall x | x in init ensures rkey(x) != k {
          var i :| 0 <= i < |init| && init[i] == x;
          assert right[i] == x;
        }
        NoMemberIsEmpty(Matches(init, rkey, k));
      }
    }
  }

  lemma NoMemberIsEmpty<T(!new)>(s: seq<T>)
    requires forall x :: x !in s
    ensures s == []
  {
    if s != [] {
      FirstIsMember(s);
      assert false;
    }
  }

  lemma FirstIsMember<T>(s: seq<T>)
    requires s != []
    ensures s[0] in s
  {
  }

  /** Each left row combined with its first match, or with nothing. */
  function LookupJoin<L, R(!new), K(==), O>(left: seq<L>, right: seq<R>, lkey: L -> K, rkey: R -> K,
                                            combine: (L, Option<R>) -> O): seq<O>
  {
    seq(|left|, i requires 0 <= i < |left| => combine(left[i], Find(right, rkey, lkey(left[i]))))
  }

  /**
    With keys unique on the right, a left join keeps exactly the left rows, in
    order, each combined with its match or with nothing.
   */
  lemma LeftJoinUnique<L, R(!new), K(!new), O>(left: seq<L>, right: seq<R>, lkey: L -> K,
                                              rkey: R -> K, combine: (L, Option<R>) -> O)
    requires UniqueKeys(right, rkey)
    ensures var out := LeftJoin(left, right, lkey, rkey, combine);
            |out| == |left| &&
            forall i :: 0 <= i < |left| ==> out[i] == combine(left[i], Find(right, rkey, lkey(left[i])))
  {
    LeftJoinIsLookup(left, right, lkey, rkey, combine);
  }

  lemma {:induction false} LeftJoinIsLookup<L, R(!new), K(!new), O>(left: seq<L>, right: seq<R>, lkey: L -> K,
                                                                    rkey: R -> K, combine: (L, Option<R>) -> O)
    requires UniqueKeys(right, rkey)
    ensures LeftJoin(left, right, lkey, rkey, combine) == LookupJoin(left, right, lkey, rkey, combine)
    decreases |left|
  {
    if left != [] {
      var init := left[..|left| - 1];
      LeftJoinIsLookup(init, right, lkey, rkey, combine);
      JoinRowUnique(left[|left| - 1], right, lkey, rkey, combine);
      LookupJoinStep(left, right, lkey, rkey, combine);
    }
  }

  lemma LookupJoinStep<L, R(!new), K, O>(left: seq<L>, right: seq<R>, lkey: L -> K, rkey: R -> K,
                                             combine: (L, Option<R>) -> O)
    requires left != []
    ensures LookupJoin(left, right, lkey, rkey, combine)
         == LookupJoin(left[..|left| - 1], right, lkey, rkey, combine)
            + [combine(left[|left| - 1], Find(right, rkey, lkey(left[|left| - 1])))]
  {
  }

  /** With keys unique on the right, one left row turns into exactly one row. */
  lemma JoinRowUnique<L, R(!new), K(!new), O>(l: L, right: seq<R>, lkey: L -> K, rkey: R -> K,
                                              combine: (L, Option<R>) -> O)
    requires UniqueKeys(right, rkey)
    ensures JoinRow(l, right, lkey, rkey, combine) == [combine(l, Find(right, rkey, lkey(l)))]
  {
    UniqueKeysMatchAtMostOne(right, rkey, lkey(l));
  }

  /** pandas `sum` of a column: missing values are skipped, and a sum of nothing is 0. */
  function SumPresent(xs: seq<Option<real>>): real
    decreases |xs|
  {
    if xs == [] then 0.0
    else SumPresent(xs[..|xs| - 1]) + (if xs[|xs| - 1].Some? then xs[|xs| - 1].value else 0.0)
  }

  function CountPresent(xs: seq<Option<real>>): nat
    decreases |xs|
  {
    if xs == [] then 0
    else CountPresent(xs[..|xs| - 1]) + (if xs[|xs| - 1].Some? then 1 else 0)
  }

  /** pandas `mean` of a column: the average of the values present, missing when none is. */
  function MeanPresent(xs: seq<Option<real>>): (r: Option<real>)
  {
    if CountPresent(xs) == 0 then None else Some(SumPresent(xs) / CountPresent(xs) as real)
  }

  lemma {:induction false} CountPresentZero(xs: seq<Option<real>>)
    ensures CountPresent(xs) == 0 <==> forall i :: 0 <= i < |xs| ==> xs[i].None?
    decreases |xs|
  {
    if xs != [] {
      CountPresentZero(xs[..|xs| - 1]);
    }
  }

  /** With nothing present, the sum is 0, not missing. */
  lemma {:induction false} SumOfNothingIsZero(xs: seq<Option<real>>)
    requires forall i :: 0 <= i < |xs| ==> xs[i].None?
    ensures SumPresent(xs) == 0.0
    decreases |xs|
  {
    if xs != [] {
      SumOfNothingIsZero(xs[..|xs| - 1]);
    }
  }

  /** Σ (x - c) over the values present. */
  function SumShifted(xs: seq<Option<real>>, c: real): real
    decreases |xs|
  {
    if xs == [] then 0.0
    else SumShifted(xs[..|xs| - 1], c) + (if xs[|xs| - 1].Some? then xs[|xs| - 1].value - c else 0.0)
  }

  lemma {:induction false} SumShiftedIsShift(xs: seq<Option<real>>, c: real)
    ensures SumShifted(xs, c) == SumPresent(xs) - c * CountPresent(xs) as real
    decreases |xs|
  {
    if xs != [] {
      var init := xs[..|xs| - 1];
      SumShiftedIsShift(init, c);
      assert c * (CountPresent(init) as real + 1.0) == c * CountPresent(init) as real + c;
    }
  }

  lemma {:induction false} SumShiftedSign(xs: seq<Option<real>>, lo: real, hi: real)
    requires forall i :: 0 <= i < |xs| && xs[i].Some? ==> lo <= xs[i].value <= hi
    ensures SumShifted(xs, lo) >= 0.0 && SumShifted(xs, hi) <= 0.0
    decreases |xs|
  {
    if xs != [] {
      var init := xs[..|xs| - 1];
      assert forall i :: 0 <= i < |init| ==> init[i] == xs[i];
      SumShiftedSign(init, lo, hi);
    }
  }

  lemma SumPresentBounds(xs: seq<Option<real>>, lo: real, hi: real)
    requires forall i :: 0 <= i < |xs| && xs[i].Some? ==> lo <= xs[i].value <= hi
    ensures lo * CountPresent(xs) as real <= SumPresent(xs) <= hi * CountPresent(xs) as real
  {
    SumShiftedSign(xs, lo, hi);
    SumShiftedIsShift(xs, lo);
    SumShiftedIsShift(xs, hi);
  }

  /** The mean is missing exactly when no value is present, and otherwise lies within the values' bounds. */
  lemma MeanPresentBounds(xs: seq<Option<real>>, lo: real, hi: real)
    requires forall i :: 0 <= i < |xs| && xs[i].Some? ==> lo <= xs[i].value <= hi
    ensures MeanPresent(xs).None? <==> forall i :: 0 <= i < |xs| ==> xs[i].None?
    ensures MeanPresent(xs).Some? ==> lo <= MeanPresent(xs).value <= hi
  {
    CountPresentZero(xs);
    if CountPresent(xs) > 0 {
      SumPresentBounds(xs, lo, hi);
      DivideBounds(SumPresent(xs), CountPresent(xs) as real, lo, hi);
    }
  }

  lemma DivideBounds(s: real, n: real, lo: real, hi: real)
    requires n > 0.0 && lo * n <= s <= hi * n
    ensures lo <= s / n <= hi
  {
    assert (s / n - lo) * n == s - lo * n;
    assert (hi - s / n) * n == hi * n - s;
  }
}
