/** The exponential backoff: a small object updated by every call, its closed form, the bound beyond
    which 64-bit doubling breaks it, and the instance that consumers share. */
module Backoff {

  const TWO_62 := 0x4000_0000_0000_0000
  const TWO_63 := 0x8000_0000_0000_0000
  const TWO_64 := 0x1_0000_0000_0000_0000

  /** Nanoseconds: half a second. */
  const DEFAULT_MIN := 500_000_000

  predicate IsInt64(x: int) {
    -TWO_63 <= x < TWO_63
  }

  /** The int64 that the hardware leaves for an integer result. */
  function Wrap(x: int): (r: int)
    ensures IsInt64(r) && (IsInt64(x) ==> r == x)
    ensures -0x8000_0000_0000_0000 <= r < 0x8000_0000_0000_0000 && (x - r) % 0x1_0000_0000_0000_0000 == 0
  {
    (x + TWO_63) % TWO_64 - TWO_63
  }

  /** Conversion of a float to a duration drops the fraction. */
  function Truncate(x: real): int {
    if x >= 0.0 then x.Floor else -(-x).Floor
  }

  datatype Policy = Policy(backoff: int, min: int, max: int)

  function Fresh(min: int, max: int): Policy {
    Policy(0, min, max)
  }

  /** The state after one call of Next. */
  function Advance(p: Policy): Policy {
    var min := if p.min == 0 then DEFAULT_MIN else p.min;
    var doubled := Wrap(p.backoff + p.backoff);
    Policy(if doubled < min then min else if doubled > p.max then p.max else doubled, min, p.max)
  }

  /** A float without its fraction. */
  predicate IsTruncation(n: int, x: real) {
    if x >= 0.0 then n as real <= x < n as real + 1.0 else n as real - 1.0 < x <= n as real
  }

  /** Twenty percent of a float, as a duration. */
  function Fifth(x: real): int {
    Truncate(x * 0.2)
  }

  /** Up to a fifth of the base, by a random draw. */
  function Jitter(base: int, draw: real): int {
    Fifth(draw * (base as real))
  }

  /** The delay returned with a base. */
  function Delay(base: int, draw: real): int {
    Wrap(base + Jitter(base, draw))
  }

  /** Jitter is a fifth of the drawn part of the base, without its fraction. */
  lemma JitterExactly(base: int, draw: real)
    ensures IsTruncation(Jitter(base, draw), draw * (base as real) * 0.2)
  {
    var x := draw * (base as real) * 0.2;
    assert Jitter(base, draw) == Truncate(x);
    assert x >= 0.0 ==> x.Floor as real <= x < x.Floor as real + 1.0;
    assert x < 0.0 ==> (-x).Floor as real <= -x < (-x).Floor as real + 1.0;
  }

  class BackoffPolicy {
    var backoff: int
    var min: int
    var max: int

    ghost function State(): Policy
      reads this
    {
      Policy(backoff, min, max)
    }

    constructor (min: int, max: int)
      ensures State() == Fresh(min, max)
    {
      this.backoff, this.min, this.max := 0, min, max;
    }

    method Next(draw: real) returns (delay: int)
      requires 0.0 <= draw < 1.0
      modifies this
      ensures State() == Advance(old(State())) && delay == Delay(backoff, draw)
      ensures max == old(max) && min == (if old(min) == 0 then 500_000_000 else old(min))
      ensures var doubled := Wrap(2 * old(backoff));
              backoff == if doubled < min then min else if doubled > max then max else doubled
      ensures delay == Wrap(backoff + Jitter(backoff, draw))
    {
      if min == 0 {
        min := DEFAULT_MIN;
      }
      backoff := Wrap(backoff + backoff);
      if backoff < min {
        backoff := min;
      } else if backoff > max {
        backoff := max;
      }
      return Wrap(backoff + Jitter(backoff, draw));
    }

    /** The maximum is reached exactly when further calls of Next change nothing any more. */
    method IsMaxBackoffReached() returns (reached: bool)
      ensures reached <==> MaxReached(State())
      ensures Ordinary(State()) ==> (reached <==> forall n: nat :: After(State(), n) == State())
    {
      if Ordinary(State()) {
        ReachedIsFinal(State());
      }
      return backoff >= max;
    }
  }

  predicate MaxReached(p: Policy) {
    p.backoff >= p.max
  }

  /** The state after n calls. */
  function After(p: Policy, n: nat): Policy {
    if n == 0 then p else Advance(After(p, n - 1))
  }

  function Pow2(n: nat): nat {
    if n == 0 then 1 else 2 * Pow2(n - 1)
  }

  function Min(a: int, b: int): int {
    if a <= b then a else b
  }

  /** The base of the n-th delay: the minimum, doubled n - 1 times and capped. */
  function Base(min: int, max: int, n: nat): int
    requires n > 0
  {
    Min(min * Pow2(n - 1), max)
  }

  lemma {:induction false} Pow2Monotonic(m: nat, n: nat)
    requires m <= n
    ensures 1 <= Pow2(m) <= Pow2(n)
    decreases n
  {
    if m < n {
      Pow2Monotonic(m, n - 1);
    } else if n > 0 {
      Pow2Monotonic(m - 1, n - 1);
    }
  }

  lemma Doubled(min: int, n: nat)
    requires n > 0
    ensures min * Pow2(n) == 2 * (min * Pow2(n - 1))
  {
    assert min * Pow2(n) == min * (2 * Pow2(n - 1));
  }

  /** A policy with bounds in order and within the range of doubling. Every state of a fresh one is such. */
  predicate Ordinary(p: Policy) {
    0 < p.min <= p.max < TWO_62 && 0 <= p.backoff <= p.max
  }

  lemma {:induction false} AfterOrdinary(p: Policy, n: nat)
    requires Ordinary(p)
    ensures Ordinary(After(p, n)) && (MaxReached(p) ==> After(p, n) == p)
  {
    if n > 0 {
      AfterOrdinary(p, n - 1);
    }
  }

  /** The maximum is reached if and only if no further call changes the state: before, each one raises
      the base. */
  lemma ReachedIsFinal(p: Policy)
    requires Ordinary(p)
    ensures MaxReached(p) <==> forall n: nat :: After(p, n) == p
  {
    if MaxReached(p) {
      forall n: nat ensures After(p, n) == p {
        AfterOrdinary(p, n);
      }
    } else {
      assert After(p, 0) == p;
      assert After(p, 1) != p;
    }
  }

  /** The n-th call sets the base to the closed form, and no doubling overflows. */
  lemma {:induction false} ClosedForm(min: int, max: int, n: nat)
    requires 0 < min <= max < TWO_62 && n > 0
    ensures After(Fresh(min, max), n) == Policy(Base(min, max, n), min, max)
    ensures min <= Base(min, max, n) <= max && IsInt64(2 * Base(min, max, n))
  {
    if n == 1 {
      assert After(Fresh(min, max), 0) == Fresh(min, max);
      assert min * Pow2(0) == min;
    } else {
      ClosedForm(min, max, n - 1);
      Doubled(min, n - 1);
    }
  }

  /** A policy without a minimum behaves, from its first call on, as one with the default minimum. */
  lemma {:induction false} ZeroMinimum(max: int, n: nat)
    requires n > 0
    ensures After(Fresh(0, max), n) == After(Fresh(500_000_000, max), n)
  {
    if n == 1 {
      assert After(Fresh(0, max), 0) == Fresh(0, max) && After(Fresh(DEFAULT_MIN, max), 0) == Fresh(DEFAULT_MIN, max);
    } else {
      ZeroMinimum(max, n - 1);
    }
  }

  /** A power of two takes every positive minimum past 2^62. */
  lemma {:induction false} ReachesTwo62(min: int, k: nat) returns (n: nat)
    requires 0 < min && (k == 0 || min * Pow2(k - 1) < TWO_62) && min * Pow2(k) < TWO_63
    ensures k <= n && TWO_62 <= min * Pow2(n) < TWO_63
    ensures n == 0 || min * Pow2(n - 1) < TWO_62
    decreases TWO_62 - min * Pow2(k)
  {
    n := k;
    if min * Pow2(k) < TWO_62 {
      Doubled(min, k + 1);
      Pow2Monotonic(0, k);
      assert min * Pow2(k) >= 1 by { assert min * Pow2(k) >= 1 * 1; }
      n := ReachesTwo62(min, k + 1);
    }
  }

  /** Up to the first base of 2^62 or more the closed form still holds. */
  lemma {:induction false} ClosedFormUpTo(min: int, max: int, n: nat)
    requires 0 < min <= max < TWO_63 && n > 0
    requires n == 1 || min * Pow2(n - 2) < TWO_62
    ensures After(Fresh(min, max), n) == Policy(Base(min, max, n), min, max)
  {
    if n == 1 {
      assert After(Fresh(min, max), 0) == Fresh(min, max);
      assert min * Pow2(0) == min;
    } else {
      Doubled(min, n - 1);
      if n > 2 {
        Doubled(min, n - 2);
        assert min * Pow2(n - 3) <= min * Pow2(n - 2) by { Pow2Monotonic(n - 3, n - 2); }
      }
      ClosedFormUpTo(min, max, n - 1);
    }
  }

  lemma DoublingOverflows(p: Policy)
    requires TWO_62 <= p.backoff < TWO_63 && 0 < p.min
    ensures Advance(p).backoff == p.min
  {
    assert Wrap(p.backoff + p.backoff) == 2 * p.backoff - TWO_64;
  }

  /** The call after the base has reached 2^62 overflows and falls back to the minimum. */
  lemma OverflowsAt(min: int, max: int) returns (n: nat)
    requires 0 < min && TWO_62 <= max < TWO_63 && min <= max
    ensures n > 1 && After(Fresh(min, max), n).backoff == min && Base(min, max, n) == max
  {
    assert min * Pow2(0) == min;
    var k := ReachesTwo62(min, 0);
    ClosedFormUpTo(min, max, k + 1);
    DoublingOverflows(After(Fresh(min, max), k + 1));
    Doubled(min, k + 1);
    n := k + 2;
    assert After(Fresh(min, max), n) == Advance(After(Fresh(min, max), k + 1));
  }

  lemma {:induction false} ConstantPolicy(max: int, n: nat)
    requires TWO_62 <= max < TWO_63 && n > 0
    ensures After(Fresh(max, max), n) == Policy(max, max, max) && Base(max, max, n) == max
  {
    Pow2Monotonic(0, n - 1);
    assert max * Pow2(n - 1) >= max * 1;
    if n == 1 {
      assert After(Fresh(max, max), 0) == Fresh(max, max);
    } else {
      ConstantPolicy(max, n - 1);
    }
  }

  /** The closed form holds for every number of calls if and only if the maximum is below 2^62 or the
      policy is constant: otherwise some doubling overflows and the base falls back to the minimum. */
  lemma ClosedFormExactly(min: int, max: int)
    requires 0 < min <= max < TWO_63
    ensures (forall n: nat :: n > 0 ==> After(Fresh(min, max), n).backoff == Base(min, max, n))
            <==> max < TWO_62 || min == max
  {
    if max < TWO_62 || min == max {
      forall n: nat | n > 0 ensures After(Fresh(min, max), n).backoff == Base(min, max, n) {
        if max < TWO_62 { ClosedForm(min, max, n); } else { ConstantPolicy(max, n); }
      }
    } else {
      var n := OverflowsAt(min, max);
    }
  }

  /** The most that jitter can add: just less than a fifth of the base. */
  function MaxJitter(base: int): int {
    (base - 1) / 5
  }

  lemma JitterBounds(base: int, draw: real)
    requires 0 < base && 0.0 <= draw < 1.0
    ensures 0 <= Jitter(base, draw) <= MaxJitter(base)
  {
    var b := base as real;
    var x := draw * b;
    assert 0.0 <= x < b;
    FifthBounds(x, base);
  }

  lemma FifthBounds(x: real, base: int)
    requires 0.0 <= x < base as real
    ensures 0 <= Fifth(x) <= MaxJitter(base)
  {
    var jitter := x * 0.2;
    assert 0.0 <= jitter && 5.0 * jitter < base as real;
    var k := jitter.Floor;
    assert k as real <= jitter;
    assert (5 * k) as real < base as real;
  }

  /** The draw that gives the most jitter. */
  lemma MaxDraw(base: int) returns (draw: real)
    requires 0 < base
    ensures 0.0 <= draw < 1.0 && Jitter(base, draw) == MaxJitter(base)
  {
    var b, k := base as real, MaxJitter(base);
    draw := (5 * k) as real / b;
    assert 0 <= 5 * k < base;
    Quotient((5 * k) as real, b);
    assert draw * b == (5 * k) as real;
    assert draw * b * 0.2 == k as real;
  }

  lemma Quotient(x: real, b: real)
    requires 0.0 <= x < b
    ensures 0.0 <= x / b < 1.0 && x / b * b == x
  {
  }

  /** A delay lies between its base and a fifth more, and computing it does not overflow. */
  lemma DelayBounds(base: int, draw: real)
    requires 0 < base && base + MaxJitter(base) < TWO_63 && 0.0 <= draw < 1.0
    ensures base <= Delay(base, draw) && 5 * Delay(base, draw) <= 6 * base
  {
    JitterBounds(base, draw);
  }

  /** A delay is never below its base, whatever is drawn, if and only if the base with the most jitter is
      within 64 bits; otherwise some draw gives a negative delay. */
  lemma DelayBoundsExactly(base: int)
    requires 0 < base < TWO_63
    ensures (forall draw: real :: 0.0 <= draw < 1.0 ==> base <= Delay(base, draw)) <==> base + MaxJitter(base) < TWO_63
    ensures base + MaxJitter(base) >= TWO_63 ==> exists draw: real :: 0.0 <= draw < 1.0 && Delay(base, draw) < 0
  {
    if base + MaxJitter(base) < TWO_63 {
      forall draw: real | 0.0 <= draw < 1.0 ensures base <= Delay(base, draw) {
        DelayBounds(base, draw);
      }
    } else {
      var draw := MaxDraw(base);
      assert Delay(base, draw) == Wrap(base + MaxJitter(base)) < 0;
    }
  }

  /** While the base is not capped, each delay is at least five thirds and at most twelve fifths of the
      one before. */
  lemma DelayRatio(min: int, max: int, n: nat, draw: real, next: real)
    requires 0 < min <= max < TWO_62 && n > 0 && min * Pow2(n) <= max
    requires 0.0 <= draw < 1.0 && 0.0 <= next < 1.0
    ensures var p := Fresh(min, max);
            && 3 * Delay(After(p, n + 1).backoff, next) >= 5 * Delay(After(p, n).backoff, draw)
            && 5 * Delay(After(p, n + 1).backoff, next) <= 12 * Delay(After(p, n).backoff, draw)
  {
    Doubled(min, n);
    ClosedForm(min, max, n);
    ClosedForm(min, max, n + 1);
    DelayBounds(Base(min, max, n), draw);
    DelayBounds(Base(min, max, n + 1), next);
  }

  /** The maximum is reported reached after n calls exactly when the uncapped base has reached it. */
  lemma MaxReachedExactly(min: int, max: int, n: nat)
    requires 0 < min <= max < TWO_62
    ensures MaxReached(After(Fresh(min, max), n)) <==> n > 0 && min * Pow2(n - 1) >= max
  {
    if n > 0 {
      ClosedForm(min, max, n);
    }
  }

  lemma {:induction false} Capped(min: int, max: int, n: nat)
    requires 0 < min <= max
    ensures var p := After(Fresh(min, max), n); p.backoff <= max && p.min == min && p.max == max
  {
    if n > 0 {
      Capped(min, max, n - 1);
    }
  }

  /** The cap is respected by every base, overflow or not, if and only if the minimum does not exceed it:
      the minimum is applied first. */
  lemma CapExactly(min: int, max: int)
    requires 0 < min
    ensures (forall n: nat :: After(Fresh(min, max), n).backoff <= max) <==> min <= max
  {
    if min <= max {
      forall n: nat ensures After(Fresh(min, max), n).backoff <= max {
        Capped(min, max, n);
      }
    } else {
      assert After(Fresh(min, max), 0) == Fresh(min, max);
      assert After(Fresh(min, max), 1).backoff == min;
    }
  }

  // ---- One policy shared by several consumers ----

  /** The positions at which a consumer calls Next in a schedule of calls. */
  function CallsOf(schedule: seq<nat>, c: nat): (own: seq<nat>)
    ensures forall i :: 0 <= i < |own| ==> own[i] < |schedule| && schedule[own[i]] == c
    ensures forall k :: 0 <= k < |schedule| && schedule[k] == c ==> k in own
  {
    if schedule == [] then []
    else
      var k := |schedule| - 1;
      CallsOf(schedule[..k], c) + if schedule[k] == c then [k] else []
  }

  predicate Increasing(s: seq<nat>) {
    forall i, j :: 0 <= i < j < |s| ==> s[i] < s[j]
  }

  lemma {:induction false} CallsInOrder(schedule: seq<nat>, c: nat)
    ensures Increasing(CallsOf(schedule, c))
  {
    if schedule != [] {
      var k := |schedule| - 1;
      CallsInOrder(schedule[..k], c);
      var own := CallsOf(schedule[..k], c);
      assert Increasing(own);
      assert forall i :: 0 <= i < |own| ==> own[i] < |schedule[..k]|;
      assert Increasing(own + [k]);
    }
  }

  /** A consumer's j-th own call is at least the j-th call overall. */
  lemma {:induction false} CallsAfter(own: seq<nat>, j: nat)
    requires j < |own| && Increasing(own)
    ensures j <= own[j]
  {
    if j > 0 {
      CallsAfter(own, j - 1);
    }
  }

  /** The base that a consumer's j-th own call sets when all of them share one policy. */
  function SharedBase(p: Policy, schedule: seq<nat>, c: nat, j: nat): int
    requires j < |CallsOf(schedule, c)|
  {
    After(p, CallsOf(schedule, c)[j] + 1).backoff
  }

  lemma BaseMonotonic(min: int, max: int, m: nat, n: nat)
    requires 0 < min <= max && 0 < m <= n
    ensures Base(min, max, m) <= Base(min, max, n)
  {
    Pow2Monotonic(m - 1, n - 1);
    assert min * Pow2(m - 1) <= min * Pow2(n - 1);
  }

  /** Under every interleaving of calls, each consumer sees bases that never fall, never exceed the
      maximum, and are never below those of a policy of its own. */
  lemma SharedPolicy(min: int, max: int, schedule: seq<nat>, c: nat, i: nat, j: nat)
    requires 0 < min <= max < TWO_62 && i <= j < |CallsOf(schedule, c)|
    ensures var p := Fresh(min, max);
            After(p, j + 1).backoff <= SharedBase(p, schedule, c, j) <= max
            && SharedBase(p, schedule, c, i) <= SharedBase(p, schedule, c, j)
  {
    CallsInOrder(schedule, c);
    var own := CallsOf(schedule, c);
    CallsAfter(own, j);
    ClosedForm(min, max, own[i] + 1);
    ClosedForm(min, max, own[j] + 1);
    ClosedForm(min, max, j + 1);
    BaseMonotonic(min, max, j + 1, own[j] + 1);
    BaseMonotonic(min, max, own[i] + 1, own[j] + 1);
  }
}
