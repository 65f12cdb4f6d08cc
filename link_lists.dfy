/** Lists built by "append the item unless it is already there", the way every
    extractor gathers its links, and the facts about them: no duplicates, the
    same items as the input, and the items in the order they were first seen. */
module LinkLists {
  import opened Results

  predicate NoDuplicates<T(==)>(s: seq<T>)
  {
    forall i, j | 0 <= i < j < |s| :: s[i] != s[j]
  }

  /** `if x not in acc: acc.append(x)`. */
  function AppendNew<T(==)>(acc: seq<T>, x: T): (r: seq<T>)
    ensures acc <= r && |r| <= |acc| + 1
    ensures x in r && forall y | y in acc :: y in r
    ensures forall y | y in r :: y in acc || y == x
    ensures NoDuplicates(acc) ==> NoDuplicates(r)
  {
    if x in acc then acc else acc + [x]
  }

  /** Appending the items of `xs`, in order, each unless already present. */
  function AppendAllNew<T(==)>(acc: seq<T>, xs: seq<T>): (r: seq<T>)
    ensures acc <= r && |r| <= |acc| + |xs|
    ensures forall y | y in acc :: y in r
    ensures forall y | y in xs :: y in r
    ensures forall y | y in r :: y in acc || y in xs
    ensures NoDuplicates(acc) ==> NoDuplicates(r)
    decreases |xs|
  {
    if xs == [] then acc
    else AppendNew(AppendAllNew(acc, xs[..|xs| - 1]), xs[|xs| - 1])
  }

  /** The position of the first occurrence of `x` in `xs`. */
  function FirstIndex<T(==)>(xs: seq<T>, x: T): (k: nat)
    requires x in xs
    ensures k < |xs| && xs[k] == x
    ensures forall j | 0 <= j < k :: xs[j] != x
  {
    if xs[0] == x then 0 else 1 + FirstIndex(xs[1..], x)
  }

  /** The values of the `Some` entries of `opts`, in order. */
  function Somes<T>(opts: seq<Option<T>>): (r: seq<T>)
    ensures |r| <= |opts|
    ensures forall j | 0 <= j < |opts| && opts[j].Some? :: opts[j].value in r
    ensures forall y | y in r :: Some(y) in opts
    decreases |opts|
  {
    if opts == [] then []
    else
      var last := opts[|opts| - 1];
      Somes(opts[..|opts| - 1]) + (if last.Some? then [last.value] else [])
  }

  /** `[f(x) for x in xs]`, built from the back. */
  function MapBack<A, B>(f: A -> B, xs: seq<A>): (r: seq<B>)
    ensures |r| == |xs|
    decreases |xs|
  {
    if xs == [] then [] else MapBack(f, xs[..|xs| - 1]) + [f(xs[|xs| - 1])]
  }

  lemma {:induction false} MapBackAt<A, B>(f: A -> B, xs: seq<A>)
    ensures forall k | 0 <= k < |xs| :: MapBack(f, xs)[k] == f(xs[k])
    decreases |xs|
  {
    if xs != [] {
      var init := xs[..|xs| - 1];
      MapBackAt(f, init);
      var r := MapBack(f, xs);
      assert r == MapBack(f, init) + [f(xs[|xs| - 1])];
      forall k | 0 <= k < |xs| ensures r[k] == f(xs[k]) {
        if k < |init| {
          assert init[k] == xs[k];
        }
      }
    }
  }

  /** The groups joined one after the other. */
  function Concat<T>(groups: seq<seq<T>>): seq<T>
    decreases |groups|
  {
    if groups == [] then []
    else Concat(groups[..|groups| - 1]) + groups[|groups| - 1]
  }

  lemma {:induction false} ConcatAppend<T>(gs: seq<seq<T>>, hs: seq<seq<T>>)
    ensures Concat(gs + hs) == Concat(gs) + Concat(hs)
    decreases |hs|
  {
    if hs != [] {
      var init := hs[..|hs| - 1];
      assert (gs + hs)[..|gs + hs| - 1] == gs + init;
      assert (gs + hs)[|gs + hs| - 1] == hs[|hs| - 1];
      ConcatAppend(gs, init);
    } else {
      assert gs + hs == gs;
    }
  }

  /** An item is in the joined groups exactly when it is in one of them. */
  lemma {:induction false} ConcatMembers<T>(groups: seq<seq<T>>)
    ensures forall y | y in Concat(groups) :: exists g | 0 <= g < |groups| :: y in groups[g]
    ensures forall g, y | 0 <= g < |groups| && y in groups[g] :: y in Concat(groups)
    decreases |groups|
  {
    if groups != [] {
      var init := groups[..|groups| - 1];
      ConcatMembers(init);
      forall y | y in Concat(groups)
        ensures exists g | 0 <= g < |groups| :: y in groups[g]
      {
        if y in Concat(init) {
          var g :| 0 <= g < |init| && y in init[g];
          assert groups[g] == init[g];
        }
      }
      forall g, y | 0 <= g < |groups| && y in groups[g]
        ensures y in Concat(groups)
      {
        if g < |init| {
          assert init[g] == groups[g];
        }
      }
    }
  }

  /** Gathering `xs` and then `ys` is gathering `xs + ys`. */
  lemma {:induction false} AppendAllNewConcat<T>(acc: seq<T>, xs: seq<T>, ys: seq<T>)
    ensures AppendAllNew(AppendAllNew(acc, xs), ys) == AppendAllNew(acc, xs + ys)
    decreases |ys|
  {
    if ys != [] {
      var init := ys[..|ys| - 1];
      AppendAllNewConcat(acc, xs, init);
      assert (xs + ys)[..|xs + ys| - 1] == xs + init;
      assert (xs + ys)[|xs + ys| - 1] == ys[|ys| - 1];
    } else {
      assert xs + ys == xs;
    }
  }

  /** One more item at the end of the input is one more `AppendNew`. */
  lemma AppendAllNewSnoc<T>(acc: seq<T>, xs: seq<T>, x: T)
    ensures AppendAllNew(acc, xs + [x]) == AppendNew(AppendAllNew(acc, xs), x)
  {
    assert (xs + [x])[..|xs + [x]| - 1] == xs;
  }

  /** Gathering a duplicate-free list keeps it as it is. */
  lemma {:induction false} AppendAllNewOfDistinct<T>(xs: seq<T>)
    requires NoDuplicates(xs)
    ensures AppendAllNew([], xs) == xs
    decreases |xs|
  {
    if xs != [] {
      var init := xs[..|xs| - 1];
      AppendAllNewOfDistinct(init);
      assert xs[|xs| - 1] !in init by {
        forall i | 0 <= i < |init| ensures init[i] != xs[|xs| - 1] {
          assert init[i] == xs[i];
        }
      }
      assert init + [xs[|xs| - 1]] == xs;
    }
  }

  /** The groups merged, each item kept where it was first seen. */
  function MergeGroups<T(==)>(groups: seq<seq<T>>): seq<T>
  {
    AppendAllNew([], Concat(groups))
  }

  /** The merge is duplicate-free, keeps first-seen order, and holds exactly
      the items of the groups. */
  lemma MergeGroupsFacts<T>(groups: seq<seq<T>>)
    ensures var r := MergeGroups(groups);
      && NoDuplicates(r)
      && InFirstSeenOrder(r, Concat(groups))
      && (forall y | y in r :: exists g | 0 <= g < |groups| :: y in groups[g])
      && (forall g, y | 0 <= g < |groups| && y in groups[g] :: y in r)
  {
    FirstSeenOrder(Concat(groups));
    ConcatMembers(groups);
  }

  /** An empty group changes nothing in the merge. */
  lemma MergeDropsEmpty<T>(gs: seq<seq<T>>, hs: seq<seq<T>>)
    ensures MergeGroups(gs + [[]] + hs) == MergeGroups(gs + hs)
  {
    var e: seq<seq<T>> := [[]];
    ConcatAppend(gs + e, hs);
    ConcatAppend(gs, e);
    ConcatAppend(gs, hs);
    assert e[..0] == [];
    assert Concat(e) == Concat(e[..0]) + [];
    assert Concat(gs + e) == Concat(gs);
  }

  /** A duplicate-free first group comes out first, as it is. */
  lemma MergeFirstGroup<T>(g: seq<T>, hs: seq<seq<T>>)
    requires NoDuplicates(g)
    ensures g <= MergeGroups([g] + hs)
  {
    ConcatAppend([g], hs);
    assert [g][..0] == [];
    assert Concat([g]) == [] + g == g;
    AppendAllNewConcat([], g, Concat(hs));
    AppendAllNewOfDistinct(g);
  }

  lemma FirstIndexInPrefix<T>(xs: seq<T>, x: T, y: T)
    requires y in xs
    ensures y in xs + [x] && FirstIndex(xs + [x], y) == FirstIndex(xs, y)
  {
    assert (xs + [x])[FirstIndex(xs, y)] == y;
    assert forall j | 0 <= j < |xs| :: (xs + [x])[j] == xs[j];
  }

  lemma FirstIndexOfLast<T>(xs: seq<T>, x: T)
    requires x !in xs
    ensures FirstIndex(xs + [x], x) == |xs|
  {
    assert (xs + [x])[|xs|] == x;
    assert forall j | 0 <= j < |xs| :: (xs + [x])[j] == xs[j];
  }

  /** Every item of `r` comes from `xs`, and an item earlier in `r` was first
      seen earlier in `xs`. */
  ghost predicate InFirstSeenOrder<T>(r: seq<T>, xs: seq<T>)
  {
    && (forall y | y in r :: y in xs)
    && forall i, j | 0 <= i < j < |r| ::
         r[i] in xs && r[j] in xs && FirstIndex(xs, r[i]) < FirstIndex(xs, r[j])
  }

  /** An item seen later does not disturb an order already established. */
  lemma FirstSeenOrderExtend<T>(r: seq<T>, xs: seq<T>, x: T)
    requires InFirstSeenOrder(r, xs)
    ensures InFirstSeenOrder(r, xs + [x])
  {
    forall y | y in xs
      ensures y in xs + [x] && FirstIndex(xs + [x], y) == FirstIndex(xs, y)
    {
      FirstIndexInPrefix(xs, x, y);
    }
  }

  /** An item met for the first time goes last. */
  lemma FirstSeenOrderNew<T>(r: seq<T>, xs: seq<T>, x: T)
    requires InFirstSeenOrder(r, xs) && x !in xs
    ensures InFirstSeenOrder(r + [x], xs + [x])
  {
    FirstSeenOrderExtend(r, xs, x);
    FirstIndexOfLast(xs, x);
    var r2 := r + [x];
    forall i, j | 0 <= i < j < |r2|
      ensures FirstIndex(xs + [x], r2[i]) < FirstIndex(xs + [x], r2[j])
    {
      assert r2[i] == r[i] && r[i] in xs;
      FirstIndexInPrefix(xs, x, r[i]);
      if j < |r| {
        assert r2[j] == r[j];
      } else {
        assert r2[j] == x;
      }
    }
  }

  /** Gathering from the empty list keeps first-seen order. */
  lemma {:induction false} FirstSeenOrder<T>(xs: seq<T>)
    ensures InFirstSeenOrder(AppendAllNew([], xs), xs)
    decreases |xs|
  {
    if xs != [] {
      var init, x := xs[..|xs| - 1], xs[|xs| - 1];
      assert xs == init + [x];
      var r' := AppendAllNew([], init);
      FirstSeenOrder(init);
      assert AppendAllNew([], xs) == AppendNew(r', x);
      if x in r' {
        FirstSeenOrderExtend(r', init, x);
      } else {
        FirstSeenOrderNew(r', init, x);
      }
    }
  }

  /** `Somes` keeps the order of the options it unwraps. */
  lemma {:induction false} SomesOrder<T>(opts: seq<Option<T>>, x: T, y: T)
    requires x in Somes(opts) && y in Somes(opts)
    requires FirstIndex(Somes(opts), x) < FirstIndex(Somes(opts), y)
    ensures Some(x) in opts && Some(y) in opts
    ensures FirstIndex(opts, Some(x)) < FirstIndex(opts, Some(y))
    decreases |opts|
  {
    var init, last := opts[..|opts| - 1], opts[|opts| - 1];
    assert opts == init + [last];
    var s := Somes(init);
    if last.None? {
      assert Somes(opts) == s;
      SomesOrder(init, x, y);
      FirstIndexInPrefix(init, last, Some(x));
      FirstIndexInPrefix(init, last, Some(y));
    } else {
      var v := last.value;
      assert Somes(opts) == s + [v];
      if v in s {
        FirstIndexInPrefix(s, v, x);
        FirstIndexInPrefix(s, v, y);
        SomesOrder(init, x, y);
        FirstIndexInPrefix(init, last, Some(x));
        FirstIndexInPrefix(init, last, Some(y));
      } else if y == v {
        FirstIndexOfLast(s, y);
        assert x in s;
        assert Some(x) in init;
        assert Some(y) !in init;
        FirstIndexInPrefix(init, last, Some(x));
        FirstIndexOfLast(init, Some(y));
      } else {
        assert y in s;
        FirstIndexInPrefix(s, v, y);
        if x !in s {
          FirstIndexOfLast(s, x);
          assert false;
        }
        FirstIndexInPrefix(s, v, x);
        SomesOrder(init, x, y);
        FirstIndexInPrefix(init, last, Some(x));
        FirstIndexInPrefix(init, last, Some(y));
      }
    }
  }
}
