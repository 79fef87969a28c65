/** Iterator advancement: the legacy `std::advance` dispatch and the
    `ranges::advance` overloads.  An iterator is an integer position; the
    iterator category decides which loop (or the single `i += n`) moves it.
    A sentinel is also a position, and the sentinel kinds say which of the
    `ranges::advance(i, bound)` strategies applies. */
module Advance {

  import opened IteratorTraits

  /** How a sentinel type `S` relates to its iterator type `I`: whether
      `assignable_from<I&, S>` holds, and whether `sized_sentinel_for<S, I>`
      holds (the distance `bound - i` can be computed).  The two are
      independent: a bidirectional iterator used as its own sentinel is
      assignable but not sized. */
  datatype SentinelKind = SentinelKind(assignable: bool, sized: bool)

  /** Mathematical absolute value, the meaning of `__abs`. */
  function AbsInt(n: int): (m: nat) { if n < 0 then -n else n }

  function Pow2(k: nat): (r: int)
    ensures r >= 1
  {
    if k == 0 then 1 else 2 * Pow2(k - 1)
  }

  /** `__to_unsigned_like` on a `bits`-wide two's-complement value: the
      integral conversion to the unsigned type, i.e. the one value of that
      type congruent to `n` modulo 2^bits. */
  function ToUnsigned(bits: nat, n: int): (u: nat)
    requires 1 <= bits
    requires -Pow2(bits - 1) <= n < Pow2(bits - 1)
    ensures u < Pow2(bits)
    ensures (u - n) % Pow2(bits) == 0
  {
    var p := Pow2(bits);
    if n < 0 then
      assert (n + p - n) % p == p % p == 0;
      n + p
    else
      assert (n - n) % p == 0 % p == 0;
      n
  }

  /** Bitwise complement of a `bits`-wide unsigned value, taken bit by bit
      from the lowest: each bit of the result is the opposite of the bit of
      `u`.  The sum of a value and its complement has every bit set. */
  function BitNot(bits: nat, u: nat): (r: nat)
    requires u < Pow2(bits)
    ensures r < Pow2(bits)
    ensures r + u == Pow2(bits) - 1
  {
    if bits == 0 then 0
    else
      assert u / 2 < Pow2(bits - 1);
      2 * BitNot(bits - 1, u / 2) + (1 - u % 2)
  }

  /** `__abs`: the unsigned magnitude `~u + 1` (wrapping at 2^bits) of a
      negative value, the value itself otherwise.  It is the mathematical
      absolute value for every representable input, the minimum included. */
  function Abs(bits: nat, n: int): (r: nat)
    requires 1 <= bits
    requires -Pow2(bits - 1) <= n < Pow2(bits - 1)
    ensures r == AbsInt(n)
    ensures r < Pow2(bits)
  {
    var u := ToUnsigned(bits, n);
    assert u == if n < 0 then n + Pow2(bits) else n;
    var sum := BitNot(bits, u) + 1;
    assert Pow2(bits) == 2 * Pow2(bits - 1);
    assert n < 0 ==> sum == -n && 0 <= sum < Pow2(bits);
    ModOfSmall(sum, Pow2(bits));
    var complement := sum % Pow2(bits);
    if n < 0 then complement else u
  }

  lemma ModOfSmall(x: int, m: int)
    requires 0 < m
    ensures 0 <= x < m ==> x % m == x
  {
  }

  /** The minimum value of a signed type has a magnitude that only the
      unsigned type holds. */
  lemma AbsOfMinimum(bits: nat)
    requires 1 <= bits
    ensures Abs(bits, -Pow2(bits - 1)) == Pow2(bits - 1)
  {
  }

  // ---------------------------------------------------------------------
  // Legacy std::advance

  /** The input-iterator `__advance`: steps forward `n` times; a negative
      count takes no step. */
  method AdvanceInputTag(i: int, n: int) returns (i': int)
    ensures i' == if n >= 0 then i + n else i
    ensures i' >= i
  {
    i' := i;
    var k := n;
    while k > 0
      invariant n >= 0 ==> 0 <= k && i' == i + (n - k)
      invariant n < 0 ==> k == n && i' == i
    {
      i' := i' + 1;
      k := k - 1;
    }
  }

  /** The bidirectional `__advance`: steps forward or backward `|n|` times. */
  method AdvanceBidirectionalTag(i: int, n: int) returns (i': int)
    ensures i' == i + n
  {
    i' := i;
    var k := n;
    if k >= 0 {
      while k > 0
        invariant 0 <= k && i' == i + (n - k)
      {
        i' := i' + 1;
        k := k - 1;
      }
    } else {
      while k < 0
        invariant k <= 0 && i' == i + (n - k)
      {
        i' := i' - 1;
        k := k + 1;
      }
    }
  }

  /** The random-access `__advance`: `i += n`. */
  method AdvanceRandomAccessTag(i: int, n: int) returns (i': int)
    ensures i' == i + n
  {
    i' := i + n;
  }

  /** `std::advance(i, n)`: a negative count is allowed only for a
      bidirectional iterator; the move is exactly `n` in every category. */
  method AdvanceLegacy(cat: Category, i: int, n: int) returns (i': int)
    requires n >= 0 || cat.IsBidirectional()
    ensures i' == i + n
  {
    match cat
    case InputIter => i' := AdvanceInputTag(i, n);
    case ForwardIter => i' := AdvanceInputTag(i, n);
    case BidirectionalIter => i' := AdvanceBidirectionalTag(i, n);
    case RandomAccessIter => i' := AdvanceRandomAccessTag(i, n);
  }

  // ---------------------------------------------------------------------
  // ranges::advance

  /** `__advance_forward`: the count is taken by value; only `i` changes. */
  method AdvanceForward(i: int, n: int) returns (i': int)
    ensures i' == if n > 0 then i + n else i
  {
    i' := i;
    var k := n;
    while k > 0
      invariant (n > 0 ==> 0 <= k && i' == i + (n - k)) && (n <= 0 ==> k == n && i' == i)
    {
      k := k - 1;
      i' := i' + 1;
    }
  }

  /** `__advance_backward`: the mirror image of `AdvanceForward`. */
  method AdvanceBackward(i: int, n: int) returns (i': int)
    ensures i' == if n < 0 then i + n else i
  {
    i' := i;
    var k := n;
    while k < 0
      invariant (n < 0 ==> k <= 0 && i' == i + (n - k)) && (n >= 0 ==> k == n && i' == i)
    {
      k := k + 1;
      i' := i' - 1;
    }
  }

  /** `ranges::advance(i, n)`: net displacement `n`; a negative count needs
      a bidirectional iterator. */
  method AdvanceBy(cat: Category, i: int, n: int) returns (i': int)
    requires n >= 0 || cat.IsBidirectional()
    ensures i' == i + n
  {
    if cat.RandomAccessIter? {
      i' := i + n;
    } else if cat.BidirectionalIter? {
      i' := AdvanceForward(i, n);
      i' := AdvanceBackward(i', n);
    } else {
      i' := AdvanceForward(i, n);
    }
  }

  /** `ranges::advance(i, bound)`: the iterator always ends at the bound.
      An unsized, unassignable sentinel must be reachable by increments, and
      the sized path inherits the count overload's sign requirement. */
  method AdvanceTo(cat: Category, kind: SentinelKind, i: int, bound: int) returns (i': int)
    requires !kind.assignable && !kind.sized ==> i <= bound
    requires !kind.assignable && kind.sized ==> i <= bound || cat.IsBidirectional()
    ensures i' == bound
  {
    if kind.assignable {
      i' := bound;
    } else if kind.sized {
      i' := AdvanceBy(cat, i, bound - i);
    } else {
      i' := i;
      while i' != bound
        invariant i <= i' <= bound
        decreases bound - i'
      {
        i' := i' + 1;
      }
    }
  }

  /** The precondition of `ranges::advance(i, n, bound)`: a positive count
      needs `[i, bound)`, a negative one `[bound, i)` and a bidirectional
      iterator whose sentinel has the iterator's own type. */
  predicate BoundedAdvanceAllowed(cat: Category, sameType: bool, i: int, n: int, bound: int)
  {
    && (n > 0 ==> i <= bound)
    && (n < 0 ==> bound <= i && cat.IsBidirectional() && sameType)
  }

  /** Where the bounded form stops: at the bound once `|n|` reaches the
      distance to it, otherwise after `n` steps. */
  function BoundedTarget(i: int, n: int, bound: int): (target: int)
  {
    if AbsInt(n) >= AbsInt(bound - i) then bound else i + n
  }

  /** `ranges::advance(i, n, bound)` with a sized sentinel. */
  method AdvanceBoundedSized(cat: Category, kind: SentinelKind, sameType: bool, i: int, n: int, bound: int)
    returns (i': int, rest: int)
    requires kind.sized
    requires BoundedAdvanceAllowed(cat, sameType, i, n, bound)
    ensures AbsInt(n) >= AbsInt(bound - i) ==> i' == bound && rest == n - (bound - i)
    ensures AbsInt(n) < AbsInt(bound - i) ==> i' == i + n && rest == 0
  {
    var m := bound - i;
    if AbsInt(n) >= AbsInt(m) {
      i' := AdvanceTo(cat, kind, i, bound);
      rest := n - m;
      return;
    }
    i' := AdvanceBy(cat, i, n);
    rest := 0;
  }

  /** `ranges::advance(i, n, bound)` with an unsized sentinel: at most `|n|`
      steps towards the bound, returning the steps not taken. */
  method AdvanceBoundedUnsized(cat: Category, sameType: bool, i: int, n: int, bound: int)
    returns (i': int, rest: int)
    requires BoundedAdvanceAllowed(cat, sameType, i, n, bound)
    ensures rest == n - (i' - i)
    ensures i' == bound || rest == 0
    ensures AbsInt(i' - i) <= AbsInt(n)
    ensures i' == BoundedTarget(i, n, bound)
  {
    i' := i;
    rest := n;
    while i' != bound && rest > 0
      invariant rest == n - (i' - i)
      invariant n > 0 ==> i <= i' <= bound && 0 <= rest
      invariant n <= 0 ==> i' == i
    {
      i' := i' + 1;
      rest := rest - 1;
    }
    if cat.IsBidirectional() && sameType {
      ghost var forwardEnd, forwardRest := i', rest;
      while i' != bound && rest < 0
        invariant rest == n - (i' - i)
        invariant n < 0 ==> bound <= i' <= i && rest <= 0
        invariant n >= 0 ==> i' == forwardEnd && rest == forwardRest
      {
        i' := i' - 1;
        rest := rest + 1;
      }
    }
  }

  /** `ranges::advance(i, n, bound)`: dispatch on whether the sentinel is
      sized.  Both paths stop at the same place. */
  method AdvanceBounded(cat: Category, kind: SentinelKind, sameType: bool, i: int, n: int, bound: int)
    returns (i': int, rest: int)
    requires BoundedAdvanceAllowed(cat, sameType, i, n, bound)
    ensures i' == BoundedTarget(i, n, bound)
    ensures rest == n - (i' - i)
    ensures i' == bound || rest == 0
  {
    if kind.sized {
      i', rest := AdvanceBoundedSized(cat, kind, sameType, i, n, bound);
    } else {
      i', rest := AdvanceBoundedUnsized(cat, sameType, i, n, bound);
    }
  }
}
