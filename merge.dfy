/** The two-way merge of `merge.h`.  The input ranges are read-only, so
    each is the sequence of values `[first, last)` denotes, and its iterator
    is an index into that sequence; the output iterator is a position in an
    array that the merge writes forward. */
module Merge {

  /** A comparator the merge can rely on: irreflexive, transitive, and
      negatively transitive (if `a < c` then every `b` is above `a` or below
      `c`), which is the usual strict weak ordering. */
  ghost predicate StrictWeakOrder<T(!new)>(lt: (T, T) -> bool)
  {
    && (forall a :: !lt(a, a))
    && (forall a, b, c :: lt(a, b) && lt(b, c) ==> lt(a, c))
    && (forall a, b, c :: lt(a, c) ==> lt(a, b) || lt(b, c))
  }

  /** Sorted with respect to `lt` in the library's sense: no element is
      less than one before it. */
  predicate SortedBy<T>(s: seq<T>, lt: (T, T) -> bool)
  {
    forall i, j :: 0 <= i < j < |s| ==> !lt(s[j], s[i])
  }

  /** What `__merge` writes: while both ranges have elements, the head of
      the second is taken only when it is strictly less than the head of the
      first; then the remaining range is copied. */
  function Merged<T>(xs: seq<T>, ys: seq<T>, comp: (T, T) -> bool): (r: seq<T>)
    ensures |r| == |xs| + |ys|
    decreases |xs| + |ys|
  {
    if xs == [] then ys
    else if ys == [] then xs
    else if comp(ys[0], xs[0]) then [ys[0]] + Merged(xs, ys[1..], comp)
    else [xs[0]] + Merged(xs[1..], ys, comp)
  }

  // ---------------------------------------------------------------------
  // The loops

  /** The output array `s` after writing `w` at position `at`, everything
      else left as it was. */
  function Placed<T>(s: seq<T>, at: nat, w: seq<T>): (t: seq<T>)
    requires at + |w| <= |s|
    ensures |t| == |s|
  {
    s[..at] + w + s[at + |w|..]
  }

  /** `t` is `s` with `w` written at `at` exactly when it agrees with `w` on
      the window and with `s` everywhere else. */
  lemma PlacedPointwise<T>(s: seq<T>, t: seq<T>, at: nat, w: seq<T>)
    requires at + |w| <= |s| == |t|
    requires forall k :: at <= k < at + |w| ==> t[k] == w[k - at]
    requires forall k :: 0 <= k < |s| && !(at <= k < at + |w|) ==> t[k] == s[k]
    ensures t == Placed(s, at, w)
  {
    var p := Placed(s, at, w);
    forall k | 0 <= k < |s|
      ensures t[k] == p[k]
    {
      if k < at {
        assert p[k] == s[..at][k];
      } else if k < at + |w| {
        assert p[k] == (s[..at] + w)[k];
      } else {
        assert p[k] == s[at + |w|..][k - at - |w|];
      }
    }
  }

  /** What the window of `Placed` holds. */
  lemma PlacedWindow<T>(s: seq<T>, at: nat, w: seq<T>)
    requires at + |w| <= |s|
    ensures forall k :: at <= k < at + |w| ==> Placed(s, at, w)[k] == w[k - at]
  {
    forall k | at <= k < at + |w|
      ensures Placed(s, at, w)[k] == w[k - at]
    {
      assert Placed(s, at, w)[k] == (s[..at] + w)[k];
    }
  }

  /** `std::copy(first, last, result)`: writes `s[first..last]` at `result`
      and returns the end of the written range. */
  method Copy<T>(s: seq<T>, first: nat, last: nat, out: array<T>, result: nat) returns (r: nat)
    requires first <= last <= |s|
    requires result + (last - first) <= out.Length
    modifies out
    ensures r == result + (last - first)
    ensures out[..] == Placed(old(out[..]), result, s[first..last])
  {
    var f := first;
    r := result;
    while f != last
      invariant first <= f <= last && r == result + (f - first)
      invariant forall k :: result <= k < r ==> out[k] == s[first + (k - result)]
      invariant forall k :: 0 <= k < out.Length && !(result <= k < r) ==> out[k] == old(out[k])
    {
      out[r] := s[f];
      f := f + 1;
      r := r + 1;
    }
    PlacedPointwise(old(out[..]), out[..], result, s[first..last]);
  }

  /** `__merge` (and the comparator overload of `merge`, which only forwards
      to it): `i` and `j` are the input iterators, `r` the output iterator.
      It writes the merge of the two ranges at `result` and returns the end
      of what it wrote; nothing outside that window changes. */
  method MergeInto<T>(xs: seq<T>, ys: seq<T>, out: array<T>, result: nat, comp: (T, T) -> bool)
    returns (r: nat)
    requires result + |xs| + |ys| <= out.Length
    modifies out
    ensures r == result + |xs| + |ys|
    ensures out[..] == Placed(old(out[..]), result, Merged(xs, ys, comp))
  {
    ghost var whole := Merged(xs, ys, comp);
    ghost var orig := out[..];
    var i, j := 0, 0;
    r := result;
    while i != |xs|
      invariant i <= |xs| && j <= |ys| && r == result + i + j
      invariant Merged(xs[i..], ys[j..], comp) == whole[i + j..]
      invariant forall k :: result <= k < r ==> out[k] == whole[k - result]
      invariant forall k :: 0 <= k < out.Length && !(result <= k < r) ==> out[k] == orig[k]
      decreases |xs| - i + |ys| - j
    {
      if j == |ys| {
        // the second range is exhausted: the rest of the first is copied
        r := CopyTail(xs, i, out, r, orig, result, whole);
        return;
      }
      ghost var i0, j0 := i, j;
      if comp(ys[j], xs[i]) {
        out[r] := ys[j];
        j := j + 1;
      } else {
        out[r] := xs[i];
        i := i + 1;
      }
      MergeStep(xs, ys, comp, i0, j0, i, j, out[r], whole);
      r := r + 1;
    }
    // the first range is exhausted: the rest of the second is copied
    r := CopyTail(ys, j, out, r, orig, result, whole);
  }

  /** The final `std::copy` of `__merge`: once one range is exhausted, the
      rest of the other completes the merge written from `result` on. */
  method CopyTail<T>(s: seq<T>, from: nat, out: array<T>, r: nat, ghost orig: seq<T>, ghost result: nat,
                     ghost whole: seq<T>) returns (r2: nat)
    requires from <= |s| && result <= r && r - result + (|s| - from) == |whole|
    requires result + |whole| <= out.Length == |orig|
    requires s[from..] == whole[r - result..]
    requires forall k :: result <= k < r ==> out[k] == whole[k - result]
    requires forall k :: 0 <= k < out.Length && !(result <= k < r) ==> out[k] == orig[k]
    modifies out
    ensures r2 == result + |whole|
    ensures out[..] == Placed(orig, result, whole)
  {
    ghost var pre := out[..];
    r2 := Copy(s, from, |s|, out, r);
    CopiedTail(pre, out[..], orig, result, r, whole, s[from..]);
  }

  /** One iteration of the merge loop: the element written next and what
      remains to be merged. */
  lemma MergeStep<T>(xs: seq<T>, ys: seq<T>, comp: (T, T) -> bool, i0: nat, j0: nat, i: nat, j: nat, v: T,
                     whole: seq<T>)
    requires i0 < |xs| && j0 < |ys| && |whole| == |xs| + |ys|
    requires Merged(xs[i0..], ys[j0..], comp) == whole[i0 + j0..]
    requires i == (if comp(ys[j0], xs[i0]) then i0 else i0 + 1)
    requires j == (if comp(ys[j0], xs[i0]) then j0 + 1 else j0)
    requires v == (if comp(ys[j0], xs[i0]) then ys[j0] else xs[i0])
    ensures i <= |xs| && j <= |ys| && i + j == i0 + j0 + 1
    ensures whole[i0 + j0] == v
    ensures Merged(xs[i..], ys[j..], comp) == whole[i + j..]
  {
    assert xs[i0..][1..] == xs[i0 + 1..];
    assert ys[j0..][1..] == ys[j0 + 1..];
    assert whole[i0 + j0..][1..] == whole[i0 + j0 + 1..];
  }

  /** The final copy of `__merge` completes the output window and keeps the
      frame: `pre` and `post` are the array before and after the copy of
      `tail` to `r`, and `orig` is the array before the merge. */
  lemma CopiedTail<T>(pre: seq<T>, post: seq<T>, orig: seq<T>, result: nat, r: nat, whole: seq<T>, tail: seq<T>)
    requires result <= r && result + |whole| <= |pre| == |orig|
    requires r - result <= |whole| && tail == whole[r - result..]
    requires forall k :: result <= k < r ==> pre[k] == whole[k - result]
    requires forall k :: 0 <= k < |pre| && !(result <= k < r) ==> pre[k] == orig[k]
    requires post == Placed(pre, r, tail)
    ensures post == Placed(orig, result, whole)
  {
    forall k | result <= k < result + |whole|
      ensures post[k] == whole[k - result]
    {
      if k < r {
        assert post[k] == pre[..r][k];
      } else {
        assert post[k] == (pre[..r] + tail)[k];
      }
    }
    forall k | 0 <= k < |post| && !(result <= k < result + |whole|)
      ensures post[k] == orig[k]
    {
      if k < result {
        assert post[k] == pre[..r][k];
      } else {
        assert post[k] == pre[r + |tail|..][k - r - |tail|];
      }
    }
    PlacedPointwise(orig, post, result, whole);
  }

  /** The ordering `merge` uses when no comparator is given. */
  function Less(x: int, y: int): (less: bool) { x < y }

  /** The overload of `merge` without a comparator: the merge under `<`;
      sorted inputs give an ascending output. */
  method MergeDefault(xs: seq<int>, ys: seq<int>, out: array<int>, result: nat) returns (r: nat)
    requires result + |xs| + |ys| <= out.Length
    modifies out
    ensures r == result + |xs| + |ys|
    ensures out[..] == Placed(old(out[..]), result, Merged(xs, ys, Less))
    ensures SortedBy(xs, Less) && SortedBy(ys, Less) ==>
              forall i, j :: result <= i < j < r ==> out[i] <= out[j]
  {
    ghost var orig := out[..];
    r := MergeInto(xs, ys, out, result, Less);
    LessIsStrictWeakOrder();
    if SortedBy(xs, Less) && SortedBy(ys, Less) {
      var m := Merged(xs, ys, Less);
      MergedSorted(xs, ys, Less);
      PlacedWindow(orig, result, m);
      assert forall k :: result <= k < r ==> out[k] == out[..][k] == m[k - result];
    }
  }

  // ---------------------------------------------------------------------
  // Properties of the merge

  lemma LessIsStrictWeakOrder()
    ensures StrictWeakOrder(Less)
  {
  }

  /** Once one range is exhausted the other is copied verbatim. */
  lemma MergedExhausted<T>(xs: seq<T>, ys: seq<T>, comp: (T, T) -> bool)
    ensures Merged(xs, [], comp) == xs
    ensures Merged([], ys, comp) == ys
  {
  }

  /** The output is a permutation of the two inputs together. */
  lemma {:induction false} MergedPermutation<T>(xs: seq<T>, ys: seq<T>, comp: (T, T) -> bool)
    ensures multiset(Merged(xs, ys, comp)) == multiset(xs) + multiset(ys)
    decreases |xs| + |ys|
  {
    if xs == [] || ys == [] {
    } else if comp(ys[0], xs[0]) {
      var rest := Merged(xs, ys[1..], comp);
      assert Merged(xs, ys, comp) == [ys[0]] + rest;
      MergedPermutation(xs, ys[1..], comp);
      assert ys == [ys[0]] + ys[1..];
    } else {
      var rest := Merged(xs[1..], ys, comp);
      assert Merged(xs, ys, comp) == [xs[0]] + rest;
      MergedPermutation(xs[1..], ys, comp);
      assert xs == [xs[0]] + xs[1..];
    }
  }

  /** A bound that no element of either input ranks below holds for every
      element of the output. */
  lemma MergedAbove<T>(xs: seq<T>, ys: seq<T>, comp: (T, T) -> bool, h: T)
    requires forall i :: 0 <= i < |xs| ==> !comp(xs[i], h)
    requires forall i :: 0 <= i < |ys| ==> !comp(ys[i], h)
    ensures forall i :: 0 <= i < |Merged(xs, ys, comp)| ==> !comp(Merged(xs, ys, comp)[i], h)
  {
    var m := Merged(xs, ys, comp);
    MergedPermutation(xs, ys, comp);
    forall i | 0 <= i < |m|
      ensures !comp(m[i], h)
    {
      assert m[i] in multiset(m);
      if m[i] in multiset(xs) {
        var k :| 0 <= k < |xs| && xs[k] == m[i];
      } else {
        var k :| 0 <= k < |ys| && ys[k] == m[i];
      }
    }
  }

  /** A head that no later element ranks below extends a sorted sequence. */
  lemma SortedCons<T>(h: T, rest: seq<T>, lt: (T, T) -> bool)
    requires SortedBy(rest, lt)
    requires forall i :: 0 <= i < |rest| ==> !lt(rest[i], h)
    ensures SortedBy([h] + rest, lt)
  {
    var s := [h] + rest;
    forall i, j | 0 <= i < j < |s|
      ensures !lt(s[j], s[i])
    {
      assert s[j] == rest[j - 1];
      if i > 0 {
        assert s[i] == rest[i - 1];
      }
    }
  }

  /** Merging two sorted ranges under a strict weak order gives a sorted
      range. */
  lemma {:induction false} MergedSorted<T(!new)>(xs: seq<T>, ys: seq<T>, comp: (T, T) -> bool)
    requires StrictWeakOrder(comp)
    requires SortedBy(xs, comp) && SortedBy(ys, comp)
    ensures SortedBy(Merged(xs, ys, comp), comp)
    decreases |xs| + |ys|
  {
    if xs == [] || ys == [] {
    } else if comp(ys[0], xs[0]) {
      var y, ys' := ys[0], ys[1..];
      assert SortedBy(ys', comp);
      MergedSorted(xs, ys', comp);
      forall i | 0 <= i < |xs|
        ensures !comp(xs[i], y)
      {
        assert !comp(xs[i], xs[0]);
      }
      forall i | 0 <= i < |ys'|
        ensures !comp(ys'[i], y)
      {
        assert ys'[i] == ys[i + 1];
      }
      MergedAbove(xs, ys', comp, y);
      SortedCons(y, Merged(xs, ys', comp), comp);
    } else {
      var x, xs' := xs[0], xs[1..];
      assert SortedBy(xs', comp);
      MergedSorted(xs', ys, comp);
      forall i | 0 <= i < |ys|
        ensures !comp(ys[i], x)
      {
        assert !comp(ys[i], ys[0]);
      }
      forall i | 0 <= i < |xs'|
        ensures !comp(xs'[i], x)
      {
        assert xs'[i] == xs[i + 1];
      }
      MergedAbove(xs', ys, comp, x);
      SortedCons(x, Merged(xs', ys, comp), comp);
    }
  }

  // ---------------------------------------------------------------------
  // Stability and order preservation, stated on elements tagged with the
  // range they come from.  The merge is generic, so the tagged merge is the
  // same function at another element type.

  datatype Side = First | Second

  datatype Tagged<T> = Tagged(value: T, side: Side)

  function Tag<T>(s: seq<T>, side: Side): (r: seq<Tagged<T>>)
    ensures |r| == |s|
    ensures forall i :: 0 <= i < |s| ==> r[i] == Tagged(s[i], side)
  {
    if s == [] then [] else [Tagged(s[0], side)] + Tag(s[1..], side)
  }

  function Values<T>(s: seq<Tagged<T>>): (r: seq<T>)
    ensures |r| == |s|
  {
    if s == [] then [] else [s[0].value] + Values(s[1..])
  }

  /** The values of the elements that came from one side, in output order. */
  function FromSide<T>(s: seq<Tagged<T>>, side: Side): (vs: seq<T>)
  {
    if s == [] then []
    else if s[0].side == side then [s[0].value] + FromSide(s[1..], side)
    else FromSide(s[1..], side)
  }

  /** The comparator lifted to tagged elements: it looks at values only. */
  function ByValue<T>(comp: (T, T) -> bool): (T2: (Tagged<T>, Tagged<T>) -> bool)
  {
    (a: Tagged<T>, b: Tagged<T>) => comp(a.value, b.value)
  }

  /** The tagged merge shows the real output: dropping the tags gives the
      untagged merge. */
  lemma {:induction false} MergedTaggedValues<T>(xs: seq<T>, ys: seq<T>, comp: (T, T) -> bool)
    ensures Values(Merged(Tag(xs, First), Tag(ys, Second), ByValue(comp))) == Merged(xs, ys, comp)
    decreases |xs| + |ys|
  {
    var tx, ty := Tag(xs, First), Tag(ys, Second);
    if xs == [] {
      assert tx == [];
      TagValues(ys, Second);
    } else if ys == [] {
      assert ty == [];
      TagValues(xs, First);
    } else if comp(ys[0], xs[0]) {
      assert ty[1..] == Tag(ys[1..], Second);
      MergedTaggedValues(xs, ys[1..], comp);
      var m := Merged(tx, ty, ByValue(comp));
      assert m == [ty[0]] + Merged(tx, ty[1..], ByValue(comp));
      assert m[1..] == Merged(tx, ty[1..], ByValue(comp));
    } else {
      assert tx[1..] == Tag(xs[1..], First);
      MergedTaggedValues(xs[1..], ys, comp);
      var m := Merged(tx, ty, ByValue(comp));
      assert m == [tx[0]] + Merged(tx[1..], ty, ByValue(comp));
      assert m[1..] == Merged(tx[1..], ty, ByValue(comp));
    }
  }

  lemma {:induction false} TagValues<T>(s: seq<T>, side: Side)
    ensures Values(Tag(s, side)) == s
    ensures FromSide(Tag(s, side), side) == s
    ensures side == First ==> FromSide(Tag(s, side), Second) == []
    ensures side == Second ==> FromSide(Tag(s, side), First) == []
  {
    if s != [] {
      assert Tag(s, side)[1..] == Tag(s[1..], side);
      TagValues(s[1..], side);
    }
  }

  /** Each input range appears in the output as a subsequence: reading the
      output and keeping only one range's elements gives that range back,
      in its own order. */
  lemma {:induction false} MergedPreservesOrder<T>(xs: seq<T>, ys: seq<T>, comp: (T, T) -> bool)
    ensures FromSide(Merged(Tag(xs, First), Tag(ys, Second), ByValue(comp)), First) == xs
    ensures FromSide(Merged(Tag(xs, First), Tag(ys, Second), ByValue(comp)), Second) == ys
    decreases |xs| + |ys|
  {
    var tx, ty := Tag(xs, First), Tag(ys, Second);
    var m := Merged(tx, ty, ByValue(comp));
    if xs == [] {
      assert tx == [];
      TagValues(ys, Second);
    } else if ys == [] {
      assert ty == [];
      TagValues(xs, First);
    } else if comp(ys[0], xs[0]) {
      assert ty[1..] == Tag(ys[1..], Second);
      MergedPreservesOrder(xs, ys[1..], comp);
      var rest := Merged(tx, ty[1..], ByValue(comp));
      assert m == [ty[0]] + rest;
      FromSideCons(ty[0], rest, First);
      FromSideCons(ty[0], rest, Second);
      assert ys == [ys[0]] + ys[1..];
    } else {
      assert tx[1..] == Tag(xs[1..], First);
      MergedPreservesOrder(xs[1..], ys, comp);
      var rest := Merged(tx[1..], ty, ByValue(comp));
      assert m == [tx[0]] + rest;
      FromSideCons(tx[0], rest, First);
      FromSideCons(tx[0], rest, Second);
      assert xs == [xs[0]] + xs[1..];
    }
  }

  lemma FromSideCons<T>(h: Tagged<T>, rest: seq<Tagged<T>>, side: Side)
    ensures FromSide([h] + rest, side) == if h.side == side then [h.value] + FromSide(rest, side) else FromSide(rest, side)
  {
    assert ([h] + rest)[1..] == rest;
  }

  /** An element of a tagged merge that came from the first range carries a
      value of that range. */
  lemma {:induction false} FirstSideFromFirst<T>(xs: seq<T>, ys: seq<T>, lt: (Tagged<T>, Tagged<T>) -> bool, k: nat)
    requires k < |xs| + |ys|
    requires Merged(Tag(xs, First), Tag(ys, Second), lt)[k].side == First
    ensures Merged(Tag(xs, First), Tag(ys, Second), lt)[k].value in xs
    decreases |xs| + |ys|
  {
    var tx, ty := Tag(xs, First), Tag(ys, Second);
    var m := Merged(tx, ty, lt);
    if xs == [] {
      assert false;
    } else if ys == [] {
      assert m[k] == tx[k];
    } else if lt(ty[0], tx[0]) {
      assert ty[1..] == Tag(ys[1..], Second);
      assert m == [ty[0]] + Merged(tx, ty[1..], lt);
      FirstSideFromFirst(xs, ys[1..], lt, k - 1);
    } else {
      assert tx[1..] == Tag(xs[1..], First);
      assert m == [tx[0]] + Merged(tx[1..], ty, lt);
      if k > 0 {
        FirstSideFromFirst(xs[1..], ys, lt, k - 1);
        assert m[k] == Merged(tx[1..], ty, lt)[k - 1];
      }
    }
  }

  lemma SortedTail<T>(s: seq<T>, lt: (T, T) -> bool)
    requires s != [] && SortedBy(s, lt)
    ensures SortedBy(s[1..], lt)
  {
    assert forall i, j :: 0 <= i < j < |s| - 1 ==> s[1..][i] == s[i + 1] && s[1..][j] == s[j + 1];
  }

  lemma LessThenNotLess<T(!new)>(comp: (T, T) -> bool, a: T, b: T, c: T)
    requires StrictWeakOrder(comp)
    requires comp(a, b) && !comp(c, b)
    ensures comp(a, c)
  {
  }

  /** Stability: when an element of the second range is written before an
      element of the first range, it is strictly less.  So among elements
      that compare equivalent, all those from the first range come first. */
  lemma MergedStable<T(!new)>(xs: seq<T>, ys: seq<T>, comp: (T, T) -> bool, p: nat, q: nat)
    requires StrictWeakOrder(comp)
    requires SortedBy(xs, comp)
    requires p < q < |xs| + |ys|
    requires Merged(Tag(xs, First), Tag(ys, Second), ByValue(comp))[p].side == Second
    requires Merged(Tag(xs, First), Tag(ys, Second), ByValue(comp))[q].side == First
    ensures comp(Merged(Tag(xs, First), Tag(ys, Second), ByValue(comp))[p].value,
                 Merged(Tag(xs, First), Tag(ys, Second), ByValue(comp))[q].value)
  {
    var m := Merged(Tag(xs, First), Tag(ys, Second), ByValue(comp));
    var a, b := TakenBefore(xs, ys, comp, p, q);
    if a < b {
      LessThenNotLess(comp, m[p].value, xs[a], xs[b]);
    }
  }

  /** The merge takes an element of the second range only when it is less
      than the current head of the first: for every such element written
      before an element `xs[b]` of the first range, there is a head `xs[a]`,
      `a <= b`, that it is less than. */
  lemma {:induction false} TakenBefore<T>(xs: seq<T>, ys: seq<T>, comp: (T, T) -> bool, p: nat, q: nat)
    returns (a: nat, b: nat)
    requires p < q < |xs| + |ys|
    requires Merged(Tag(xs, First), Tag(ys, Second), ByValue(comp))[p].side == Second
    requires Merged(Tag(xs, First), Tag(ys, Second), ByValue(comp))[q].side == First
    ensures a <= b < |xs|
    ensures Merged(Tag(xs, First), Tag(ys, Second), ByValue(comp))[q].value == xs[b]
    ensures comp(Merged(Tag(xs, First), Tag(ys, Second), ByValue(comp))[p].value, xs[a])
    decreases |xs| + |ys|
  {
    var tx, ty := Tag(xs, First), Tag(ys, Second);
    var m := Merged(tx, ty, ByValue(comp));
    if xs == [] {
      assert false;
    } else if ys == [] {
      assert false;
    } else if comp(ys[0], xs[0]) {
      var rest := Merged(tx, ty[1..], ByValue(comp));
      assert ty[1..] == Tag(ys[1..], Second);
      assert m == [ty[0]] + rest;
      assert m[q] == rest[q - 1];
      if p == 0 {
        FirstSideFromFirst(xs, ys[1..], ByValue(comp), q - 1);
        a := 0;
        b :| 0 <= b < |xs| && xs[b] == m[q].value;
      } else {
        a, b := TakenBefore(xs, ys[1..], comp, p - 1, q - 1);
        assert m[p] == rest[p - 1];
      }
    } else {
      var rest := Merged(tx[1..], ty, ByValue(comp));
      assert tx[1..] == Tag(xs[1..], First);
      assert m == [tx[0]] + rest;
      assert m[p] == rest[p - 1] && m[q] == rest[q - 1];
      a, b := TakenBefore(xs[1..], ys, comp, p - 1, q - 1);
      a, b := a + 1, b + 1;
    }
  }
}
