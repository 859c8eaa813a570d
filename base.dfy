/**
 * Shared vocabulary of the approval engine: optional values (PHP null),
 * timestamps, user ids, step masks held in a 64-bit PHP integer, and the few
 * query shapes (first match, last match, filter, count) that the services
 * run against their tables.
 */
module Base {

  /** A nullable column or a query that may find nothing. */
  datatype Option<T> = None | Some(value: T) {
    function GetOr(default: T): T {
      match this
      case Some(v) => v
      case None => default
    }
  }

  /** A moment as stamped by `now()`; only equality and presence matter. */
  type Time = nat

  /** Primary key of the host application's user model. */
  type UserId = nat

  /**
   * A step mask: the set bits of a PHP integer (bit positions 0..63). OR is
   * union, AND is intersection, `x & ~y` is difference.
   */
  type Mask = set<nat>

  /** The word width of a PHP integer. */
  const WordBits: nat := 64

  /**
   * `1 << s` on a PHP integer. Shifting by 64 or more yields 0 in PHP, so
   * only steps 0..63 own a bit; step 63 owns the sign bit.
   */
  function Bit(s: nat): (m: Mask)
    ensures s < WordBits ==> m == {s}
    ensures s >= WordBits ==> m == {}
  {
    if s < WordBits then {s} else {}
  }

  /** `(m & sub) == sub`: every bit of `sub` is set in `m`. */
  predicate Covers(m: Mask, sub: Mask) {
    sub <= m
  }

  /** The OR of `1 << s` over the steps, in order. */
  function BitsOf(steps: seq<nat>): (m: Mask)
    ensures forall b :: b in m <==> b < WordBits && b in steps
    decreases |steps|
  {
    if |steps| == 0 then {}
    else
      var n := |steps| - 1;
      assert steps == steps[..n] + [steps[n]];
      BitsOf(steps[..n]) + Bit(steps[n])
  }

  /** ORing one more step in adds its bit. */
  lemma BitsOfAppend(steps: seq<nat>, s: nat)
    ensures BitsOf(steps + [s]) == BitsOf(steps) + Bit(s)
  {
    assert (steps + [s])[..|steps|] == steps;
  }

  /** `(x & ~y) = 0` says the same as `(y & x) = x`. */
  lemma EmptyDifference(x: Mask, y: Mask)
    ensures (x - y == {}) <==> Covers(y, x)
  {
    if x - y == {} {
      forall i | i in x ensures i in y {
        assert i !in x - y;
      }
    }
  }

  /** 2 to the power `i`. */
  function Pow2(i: nat): (p: nat)
    ensures p >= 1
  {
    if i == 0 then 1 else 2 * Pow2(i - 1)
  }

  /** What bit `i` adds to a signed 64-bit integer (bit 63 is the sign). */
  function BitValue(i: nat): int {
    if i < WordBits - 1 then Pow2(i)
    else if i == WordBits - 1 then 0 - Pow2(i)
    else 0
  }

  /** The signed value of the bits of `m` below position `n`. */
  function ValueBelow(m: Mask, n: nat): int {
    if n == 0 then 0
    else ValueBelow(m, n - 1) + (if n - 1 in m then BitValue(n - 1) else 0)
  }

  /** The PHP integer whose bits are `m`: what `orderBy('step')` sorts on. */
  function MaskValue(m: Mask): int {
    ValueBelow(m, WordBits)
  }

  /** The value of a single-bit mask is the value of that bit. */
  lemma {:induction false} SingleBitValue(s: nat, n: nat)
    ensures ValueBelow(Bit(s), n) == if s < n && s < WordBits then BitValue(s) else 0
  {
    if n > 0 {
      SingleBitValue(s, n - 1);
    }
  }

  /** Lower steps sort first, the sign bit (step 63) and no bit at all aside. */
  lemma {:induction false} BitOrder(s: nat, t: nat)
    requires s < t < WordBits - 1
    ensures 0 < MaskValue(Bit(s)) < MaskValue(Bit(t))
    decreases t
  {
    SingleBitValue(s, WordBits);
    SingleBitValue(t, WordBits);
    if s < t - 1 {
      BitOrder(s, t - 1);
      SingleBitValue(t - 1, WordBits);
    }
  }

  /** Decimal text of an integer, as PHP's string conversion writes it. */
  function DecimalString(n: int): (s: string)
    ensures |s| > 0
    ensures s[0] == '-' <==> n < 0
    decreases if n < 0 then 1 - n else n
  {
    if n < 0 then "-" + DecimalString(-n)
    else if n < 10 then [DigitChar(n)]
    else DecimalString(n / 10) + [DigitChar(n % 10)]
  }

  function DigitChar(d: nat): (c: char)
    requires d < 10
    ensures '0' <= c <= '9'
  {
    ['0', '1', '2', '3', '4', '5', '6', '7', '8', '9'][d]
  }

  /** Index of the first element satisfying `p` (`->where(...)->first()`). */
  function FirstIndex<T>(s: seq<T>, p: T -> bool): (r: Option<nat>)
    ensures r.Some? ==> r.value < |s| && p(s[r.value])
    ensures r.Some? ==> forall k :: 0 <= k < r.value ==> !p(s[k])
    ensures r.None? ==> forall k :: 0 <= k < |s| ==> !p(s[k])
    decreases |s|
  {
    if |s| == 0 then None
    else if p(s[0]) then Some(0)
    else match FirstIndex(s[1..], p)
      case None => None
      case Some(i) => Some(i + 1)
  }

  /** Index of the last element satisfying `p` (`->latest('id')->first()`). */
  function LastIndex<T>(s: seq<T>, p: T -> bool): (r: Option<nat>)
    ensures r.Some? ==> r.value < |s| && p(s[r.value])
    ensures r.Some? ==> forall k :: r.value < k < |s| ==> !p(s[k])
    ensures r.None? ==> forall k :: 0 <= k < |s| ==> !p(s[k])
    decreases |s|
  {
    if |s| == 0 then None
    else if p(s[|s| - 1]) then Some(|s| - 1)
    else LastIndex(s[..|s| - 1], p)
  }

  /** The elements satisfying `p`, in order (`->where(...)->get()`, `->filter(...)`). */
  function Filter<T(!new)>(s: seq<T>, p: T -> bool): (r: seq<T>)
    ensures |r| <= |s|
    ensures forall x :: x in r <==> x in s && p(x)
    ensures (forall k :: 0 <= k < |s| ==> p(s[k])) ==> r == s
    ensures (forall k :: 0 <= k < |s| ==> !p(s[k])) ==> r == []
    decreases |s|
  {
    if |s| == 0 then []
    else if p(s[0]) then [s[0]] + Filter(s[1..], p)
    else Filter(s[1..], p)
  }

  /** Number of elements satisfying `p` (`->where(...)->count()`). */
  function Count<T>(s: seq<T>, p: T -> bool): (n: nat)
    ensures n <= |s|
    ensures n == 0 <==> forall k :: 0 <= k < |s| ==> !p(s[k])
    decreases |s|
  {
    if |s| == 0 then 0
    else (if p(s[0]) then 1 else 0) + Count(s[1..], p)
  }
}
