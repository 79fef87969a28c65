/** `shift_left` and `shift_right` of `shift.h`, in place on an array.  The
    range is `[first, last)` of the array and the iterators are positions in
    it.  Element moves are copies: what a moved-from position holds
    afterwards is unspecified, and the contracts say nothing about it. */
module Shift {

  import opened IteratorTraits

  /** The outcome `shift_left` promises: a zero count returns `last` and a
      count of at least the length returns `first`, both leaving the array
      alone; otherwise the elements from `first + n` on now start at
      `first`, and the end of the moved range is returned.  Nothing outside
      the range changes. */
  ghost predicate LeftShifted<T>(before: seq<T>, after: seq<T>, first: nat, last: nat, n: int, r: nat)
    requires first <= last <= |before|
  {
    && |after| == |before|
    && (n == 0 ==> r == last && after == before)
    && (n != 0 && n >= last - first ==> r == first && after == before)
    && (0 < n < last - first ==>
          && r == first + (last - first - n)
          && (forall k :: first <= k < r ==> after[k] == before[k + n])
          && (forall k :: 0 <= k < first ==> after[k] == before[k])
          && (forall k :: last <= k < |before| ==> after[k] == before[k]))
  }

  /** The outcome `shift_right` promises: a zero count returns `first` and a
      count of at least the length returns `last`, both leaving the array
      alone; otherwise the elements up to `last - n` now end at `last`, and
      `first + n` is returned.  Nothing outside the range changes. */
  ghost predicate RightShifted<T>(before: seq<T>, after: seq<T>, first: nat, last: nat, n: int, r: nat)
    requires first <= last <= |before|
  {
    && |after| == |before|
    && (n == 0 ==> r == first && after == before)
    && (n != 0 && n >= last - first ==> r == last && after == before)
    && (0 < n < last - first ==>
          && r == first + n
          && (forall k :: r <= k < last ==> after[k] == before[k - n])
          && (forall k :: 0 <= k < first ==> after[k] == before[k])
          && (forall k :: last <= k < |before| ==> after[k] == before[k]))
  }

  // ---------------------------------------------------------------------
  // The element moves

  /** The array `after` copying `[src, srcEnd)` to the positions from `dst`
      on: the destination holds the source elements in order, every
      position outside both the source and the destination is untouched,
      and a moved-from source position outside the destination may hold
      anything. */
  ghost predicate MovedTo<T>(before: seq<T>, after: seq<T>, src: nat, srcEnd: nat, dst: nat)
    requires src <= srcEnd <= |before| && dst + (srcEnd - src) <= |before|
  {
    && |after| == |before|
    && (forall k :: dst <= k < dst + (srcEnd - src) ==> after[k] == before[k - dst + src])
    && (forall k :: 0 <= k < |before| && !(src <= k < srcEnd) && !(dst <= k < dst + (srcEnd - src)) ==>
          after[k] == before[k])
  }

  /** `std::move(src, srcEnd, dst)`: moves forward, front to back, so the
      destination may overlap the source only by starting at or before it;
      then every element lands unchanged.  Returns the end of the
      destination. */
  method MoveForward<T>(a: array<T>, src: nat, srcEnd: nat, dst: nat) returns (r: nat)
    requires src <= srcEnd <= a.Length && dst + (srcEnd - src) <= a.Length
    requires dst <= src || srcEnd <= dst
    modifies a
    ensures r == dst + (srcEnd - src)
    ensures MovedTo(old(a[..]), a[..], src, srcEnd, dst)
  {
    var i := src;
    r := dst;
    while i != srcEnd
      invariant src <= i <= srcEnd && r == dst + (i - src)
      invariant forall k :: dst <= k < r ==> a[k] == old(a[k - dst + src])
      invariant forall k :: 0 <= k < a.Length && !(dst <= k < r) ==> a[k] == old(a[k])
    {
      a[r] := a[i];
      i := i + 1;
      r := r + 1;
    }
  }

  /** `std::move_backward(src, srcEnd, dstEnd)`: moves back to front, so the
      destination may overlap the source only by ending at or after it; then
      every element lands unchanged.  Returns the start of the destination. */
  method MoveBackward<T>(a: array<T>, src: nat, srcEnd: nat, dstEnd: nat) returns (r: nat)
    requires src <= srcEnd <= a.Length && srcEnd - src <= dstEnd <= a.Length
    requires srcEnd <= dstEnd || dstEnd <= src
    modifies a
    ensures r == dstEnd - (srcEnd - src)
    ensures MovedTo(old(a[..]), a[..], src, srcEnd, r)
  {
    var i := srcEnd;
    r := dstEnd;
    while i != src
      invariant src <= i <= srcEnd && r == dstEnd - (srcEnd - i)
      invariant forall k :: r <= k < dstEnd ==> a[k] == old(a[k - r + i])
      invariant forall k :: 0 <= k < a.Length && !(r <= k < dstEnd) ==> a[k] == old(a[k])
    {
      i := i - 1;
      r := r - 1;
      a[r] := a[i];
    }
  }

  // ---------------------------------------------------------------------
  // shift_left

  /** The random-access path of `shift_left`: the new start is found by
      arithmetic. */
  method ShiftLeftRandomAccess<T>(a: array<T>, first: nat, last: nat, n: int) returns (r: nat)
    requires first <= last <= a.Length && n >= 0
    modifies a
    ensures LeftShifted(old(a[..]), a[..], first, last, n, r)
  {
    if n == 0 {
      return last;
    }
    if n >= last - first {
      return first;
    }
    var m := first + n;
    r := MoveForward(a, m, last, first);
  }

  /** The forward path of `shift_left`: the new start is found by stepping,
      giving up when the range runs out first. */
  method ShiftLeftForward<T>(a: array<T>, first: nat, last: nat, n: int) returns (r: nat)
    requires first <= last <= a.Length && n >= 0
    modifies a
    ensures LeftShifted(old(a[..]), a[..], first, last, n, r)
  {
    if n == 0 {
      return last;
    }
    var m := first;
    var k := n;
    while k > 0
      invariant 0 <= k <= n && m == first + (n - k) <= last
    {
      if m == last {
        return first;
      }
      m := m + 1;
      k := k - 1;
    }
    r := MoveForward(a, m, last, first);
  }

  /** `shift_left(first, last, n)`: every path keeps the same promise. */
  method ShiftLeft<T>(cat: Category, a: array<T>, first: nat, last: nat, n: int) returns (r: nat)
    requires cat != InputIter
    requires first <= last <= a.Length && n >= 0
    modifies a
    ensures LeftShifted(old(a[..]), a[..], first, last, n, r)
  {
    if cat.RandomAccessIter? {
      r := ShiftLeftRandomAccess(a, first, last, n);
    } else {
      r := ShiftLeftForward(a, first, last, n);
    }
  }

  // ---------------------------------------------------------------------
  // shift_right

  /** The random-access path of `shift_right`. */
  method ShiftRightRandomAccess<T>(a: array<T>, first: nat, last: nat, n: int) returns (r: nat)
    requires first <= last <= a.Length && n >= 0
    modifies a
    ensures RightShifted(old(a[..]), a[..], first, last, n, r)
  {
    if n == 0 {
      return first;
    }
    var d := last - first;
    if n >= d {
      return last;
    }
    var m := first + (d - n);
    r := MoveBackward(a, first, m, last);
  }

  /** The bidirectional path of `shift_right`: the source end is found by
      stepping back from `last`. */
  method ShiftRightBidirectional<T>(a: array<T>, first: nat, last: nat, n: int) returns (r: nat)
    requires first <= last <= a.Length && n >= 0
    modifies a
    ensures RightShifted(old(a[..]), a[..], first, last, n, r)
  {
    if n == 0 {
      return first;
    }
    var m := last;
    var k := n;
    while k > 0
      invariant 0 <= k <= n && first <= m && m == last - (n - k)
    {
      if m == first {
        return last;
      }
      m := m - 1;
      k := k - 1;
    }
    r := MoveBackward(a, first, m, last);
  }

  /** The forward-only path of `shift_right`.  `[first, ret)` is an n-element
      scratch space; a window `[trail, lead)` of n elements slides right,
      and each step swaps the next element to place (read from the scratch
      at `mid`, cyclically) with the element at `trail`, which the scratch
      keeps until its own turn.  When `lead` reaches `last` the scratch is
      copied out, from `mid` round to `mid`. */
  method ShiftRightForward<T>(a: array<T>, first: nat, last: nat, n: int) returns (r: nat)
    requires first <= last <= a.Length && n >= 0
    modifies a
    ensures RightShifted(old(a[..]), a[..], first, last, n, r)
  {
    if n == 0 {
      return first;
    }
    ghost var orig := a[..];
    var ret := first;
    var k := n;
    while k > 0
      invariant 0 <= k <= n && ret == first + (n - k) <= last
    {
      if ret == last {
        return last;
      }
      ret := ret + 1;
      k := k - 1;
    }

    // When the range is shorter than 2n, lead reaches last before trail
    // reaches ret: the scratch needs no saving.
    var trail, lead := first, ret;
    while trail != ret
      invariant first <= trail <= ret && lead == ret + (trail - first) <= last
    {
      if lead == last {
        r := MoveForward(a, first, trail, ret);
        ShortShift(orig, a[..], first, trail, ret, last, n);
        return ret;
      }
      trail := trail + 1;
      lead := lead + 1;
    }

    r := CycleScratch(a, first, ret, last, n);
  }

  /** The cyclic phase of `ShiftRightForward`, entered with the scratch
      `[first, ret)` and the window `[ret, ret + n)` both within the range. */
  method CycleScratch<T>(a: array<T>, first: nat, ret: nat, last: nat, n: int) returns (r: nat)
    requires first < ret && ret - first == n && ret + n <= last <= a.Length
    modifies a
    ensures RightShifted(old(a[..]), a[..], first, last, n, r)
  {
    ghost var orig := a[..];
    var mid, trail, lead := first, ret, ret + n;
    ghost var d := n;
    while true
      invariant first <= mid < ret <= trail && lead == trail + n <= last
      invariant d == trail - mid && n <= d
      invariant |a[..]| == |orig| && Window(a[..], orig, first, mid, ret, trail, d, n)
      decreases last - lead
    {
      if lead == last {
        FlushScratch(a, orig, first, mid, ret, trail, last, d, n);
        return ret;
      }
      ghost var s, mid0, trail0, d0 := a[..], mid, trail, d;
      a[mid], a[trail] := a[trail], a[mid];
      mid := mid + 1;
      trail := trail + 1;
      lead := lead + 1;
      if mid == ret {
        mid := first;
        d := d + n;
      }
      WindowStep(s, a[..], orig, first, mid0, ret, trail0, d0, n, mid, d);
    }
  }

  /** The exit of the cyclic phase: the scratch is copied out to `trail`,
      from `mid` round to `mid`. */
  method FlushScratch<T>(a: array<T>, ghost orig: seq<T>, first: nat, mid: nat, ret: nat, trail: nat, last: nat,
                         ghost d: int, n: int)
    requires |orig| == a.Length && first <= mid < ret <= trail && trail + n == last <= a.Length
    requires d == trail - mid && ret - first == n && n > 0
    requires Window(a[..], orig, first, mid, ret, trail, d, n)
    modifies a
    ensures RightShifted(orig, a[..], first, last, n, ret)
  {
    ghost var s := a[..];
    var end := MoveForward(a, mid, ret, trail);
    ghost var t1 := a[..];
    var _ := MoveForward(a, first, mid, end);
    WindowFlushed(s, t1, a[..], orig, first, mid, ret, trail, last, d, n);
  }

  /** The state of the cyclic phase of `ShiftRightForward`, with `d` the
      distance from `mid` to `trail`: `[ret, trail)` already holds its final
      elements; the scratch `[first, ret)` holds, from `mid` on round to
      `mid`, the next n elements to place; the rest is untouched. */
  ghost predicate Window<T>(s: seq<T>, orig: seq<T>, first: nat, mid: nat, ret: nat, trail: nat, d: int, n: int)
    requires |s| == |orig| && first <= mid <= ret <= trail <= |s|
    requires d == trail - mid && ret - first == n
  {
    && (forall k :: mid <= k < ret ==> s[k] == orig[k + d - n])
    && (forall k :: first <= k < mid ==> s[k] == orig[k + d])
    && (forall k :: ret <= k < trail ==> s[k] == orig[k - n])
    && (forall k :: trail <= k < |s| ==> s[k] == orig[k])
    && (forall k :: 0 <= k < first ==> s[k] == orig[k])
  }

  /** One swap of the cyclic phase keeps the window, with `mid` wrapping
      round to `first` at the end of the scratch. */
  lemma WindowStep<T>(s: seq<T>, s': seq<T>, orig: seq<T>, first: nat, mid: nat, ret: nat, trail: nat, d: int, n: int,
                      mid': nat, d': int)
    requires |s| == |orig| && first <= mid < ret <= trail < |s| && d == trail - mid && ret - first == n
    requires Window(s, orig, first, mid, ret, trail, d, n)
    requires s' == s[mid := s[trail]][trail := s[mid]]
    requires mid' == (if mid + 1 == ret then first else mid + 1)
    requires d' == (if mid + 1 == ret then d + n else d)
    ensures first <= mid' < ret && d' == trail + 1 - mid'
    ensures Window(s', orig, first, mid', ret, trail + 1, d', n)
  {
    if mid + 1 == ret {
      WindowWrap(s, s', orig, first, mid, ret, trail, d, n);
    } else {
      WindowAdvance(s, s', orig, first, mid, ret, trail, d, n);
    }
  }

  lemma WindowAdvance<T>(s: seq<T>, s': seq<T>, orig: seq<T>, first: nat, mid: nat, ret: nat, trail: nat, d: int, n: int)
    requires |s| == |orig| && first <= mid && mid + 1 < ret <= trail < |s| && d == trail - mid && ret - first == n
    requires Window(s, orig, first, mid, ret, trail, d, n)
    requires s' == s[mid := s[trail]][trail := s[mid]]
    ensures Window(s', orig, first, mid + 1, ret, trail + 1, d, n)
  {
  }

  lemma WindowWrap<T>(s: seq<T>, s': seq<T>, orig: seq<T>, first: nat, mid: nat, ret: nat, trail: nat, d: int, n: int)
    requires |s| == |orig| && first <= mid && mid + 1 == ret <= trail < |s| && d == trail - mid && ret - first == n
    requires Window(s, orig, first, mid, ret, trail, d, n)
    requires s' == s[mid := s[trail]][trail := s[mid]]
    ensures Window(s', orig, first, first, ret, trail + 1, d + n, n)
  {
  }

  /** The early exit of `ShiftRightForward`: a range shorter than 2n moves
      its first elements straight to `ret`. */
  lemma ShortShift<T>(orig: seq<T>, t: seq<T>, first: nat, trail: nat, ret: nat, last: nat, n: int)
    requires first <= trail <= ret <= last <= |orig| && ret == first + n && last == ret + (trail - first) && n > 0
    requires MovedTo(orig, t, first, trail, ret)
    ensures RightShifted(orig, t, first, last, n, ret)
  {
    if trail == first {
      assert t == orig;
    }
  }

  /** Copying the scratch out, from `mid` round to `mid`, completes the
      shift once `lead` has reached `last`. */
  lemma WindowFlushed<T>(s: seq<T>, t1: seq<T>, t2: seq<T>, orig: seq<T>, first: nat, mid: nat, ret: nat, trail: nat,
                         last: nat, d: int, n: int)
    requires |s| == |orig| && first <= mid <= ret <= trail && trail + n == last <= |s|
    requires d == trail - mid && ret - first == n && n > 0
    requires Window(s, orig, first, mid, ret, trail, d, n)
    requires MovedTo(s, t1, mid, ret, trail) && MovedTo(t1, t2, first, mid, trail + (ret - mid))
    ensures RightShifted(orig, t2, first, last, n, ret)
  {
    var e := trail + (ret - mid);
    forall k | ret <= k < last
      ensures t2[k] == orig[k - n]
    {
      if k < trail {
        assert t2[k] == t1[k] == s[k];
      } else if k < e {
        assert t2[k] == t1[k] == s[k - trail + mid];
      } else {
        assert t2[k] == t1[k - e + first] == s[k - e + first];
      }
    }
    forall k | 0 <= k < |s| && (k < first || last <= k)
      ensures t2[k] == orig[k]
    {
      assert t2[k] == t1[k] == s[k];
    }
  }

  /** The promise of `shift_right` pins down its outcome: any two paths
      that keep it (the forward-only one with its cyclic scratch and the
      bidirectional one, say) return the same iterator and leave the same
      elements in the shifted part and outside the range. */
  lemma RightShiftDetermined<T>(before: seq<T>, after1: seq<T>, after2: seq<T>, first: nat, last: nat, n: int,
                                r1: nat, r2: nat)
    requires first <= last <= |before| && n >= 0
    requires RightShifted(before, after1, first, last, n, r1)
    requires RightShifted(before, after2, first, last, n, r2)
    ensures r1 == r2 && first <= r1 <= last
    ensures after1[r1..last] == after2[r2..last]
    ensures after1[..first] == after2[..first] && after1[last..] == after2[last..]
  {
    if 0 < n < last - first {
      assert forall k :: 0 <= k < last - r1 ==> after1[r1..last][k] == before[r1 + k - n] == after2[r2..last][k];
    }
  }

  /** Likewise for `shift_left`: the random-access and forward paths agree
      on the returned iterator and on the shifted part. */
  lemma LeftShiftDetermined<T>(before: seq<T>, after1: seq<T>, after2: seq<T>, first: nat, last: nat, n: int,
                               r1: nat, r2: nat)
    requires first <= last <= |before| && n >= 0
    requires LeftShifted(before, after1, first, last, n, r1)
    requires LeftShifted(before, after2, first, last, n, r2)
    ensures r1 == r2 && first <= r1 <= last
    ensures after1[first..r1] == after2[first..r2]
    ensures after1[..first] == after2[..first] && after1[last..] == after2[last..]
  {
    if 0 < n < last - first {
      assert forall k :: 0 <= k < r1 - first ==> after1[first..r1][k] == before[first + k + n] == after2[first..r2][k];
    }
  }

  /** `shift_right(first, last, n)`: every path keeps the same promise. */
  method ShiftRight<T>(cat: Category, a: array<T>, first: nat, last: nat, n: int) returns (r: nat)
    requires cat != InputIter
    requires first <= last <= a.Length && n >= 0
    modifies a
    ensures RightShifted(old(a[..]), a[..], first, last, n, r)
  {
    if cat.RandomAccessIter? {
      r := ShiftRightRandomAccess(a, first, last, n);
    } else if cat.BidirectionalIter? {
      r := ShiftRightBidirectional(a, first, last, n);
    } else {
      r := ShiftRightForward(a, first, last, n);
    }
  }
}
