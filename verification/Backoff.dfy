/** Delays before a retry, and the Down/Up notifications around them. */
module Backoff {

  const U64_MAX := 0xFFFF_FFFF_FFFF_FFFF

  const BACKOFF_ATTEMPT_CAP := 30

  const BACKOFF_JITTER := 0.20

  function Min(a: int, b: int): int { if a < b then a else b }

  function Max(a: int, b: int): int { if a < b then b else a }

  function Pow2(n: nat): (p: nat)
    ensures p > n
  {
    if n == 0 then 1 else 2 * Pow2(n - 1)
  }

  lemma {:induction false} Pow2Grows(m: nat, n: nat)
    requires m <= n
    ensures Pow2(m) <= Pow2(n)
    decreases n
  {
    if m < n { Pow2Grows(m, n - 1); }
  }

  lemma Times(a: nat, b: nat, c: nat)
    requires b <= c
    ensures a * b <= a * c
  {}

  // -------------------------------------------------------------------------
  // Per-message backoff
  // -------------------------------------------------------------------------

  function SaturatingMul(a: nat, b: nat): nat { Min(a * b, U64_MAX) }

  function SaturatingSub(a: nat, b: nat): nat { if a < b then 0 else a - b }

  /** `attempts` counts the failure just seen; base and cap are 64-bit seconds. */
  function Raw(attempts: nat, base: nat, cap: nat): nat {
    var exp := Min(SaturatingSub(attempts, 1), BACKOFF_ATTEMPT_CAP);
    Max(Min(SaturatingMul(base, Pow2(exp)), cap), 1)
  }

  /** With the jitter fraction, between -1 and 1, as a parameter. */
  function Jittered(raw: real, fraction: real): real {
    var jittered := raw + raw * BACKOFF_JITTER * fraction;
    if jittered < 1.0 then 1.0 else jittered
  }

  function Delay(attempts: nat, base: nat, cap: nat, fraction: real): real {
    Jittered(Raw(attempts, base, cap) as real, fraction)
  }

  /** The doublings of the n-th failure. */
  function Doublings(attempts: nat): nat {
    if attempts <= 1 then 0 else if attempts <= 31 then attempts - 1 else 30
  }

  /** The 64-bit saturation is not visible. */
  lemma RawIs(attempts: nat, base: nat, cap: nat)
    requires base <= U64_MAX && cap <= U64_MAX
    ensures var nominal := base * Pow2(Doublings(attempts));
            Raw(attempts, base, cap) == if nominal < 1 || cap < 1 then 1 else if nominal < cap then nominal else cap
  {}

  lemma PowersOfTwo(n: nat)
    ensures Pow2(0) == 1 && Pow2(n + 1) == 2 * Pow2(n)
  {}

  /** The least of two, at least one second. */
  lemma Doubled(nominal: nat, cap: nat, r: nat)
    requires 1 <= nominal && 1 <= cap && r == if nominal < cap then nominal else cap
    ensures (if 2 * nominal < cap then 2 * nominal else cap) == if r + r < cap then r + r else cap
  {}

  lemma NominalDoubles(base: nat, k: nat)
    requires 1 <= base
    ensures base * Pow2(k + 1) == 2 * (base * Pow2(k)) && 1 <= base * Pow2(k)
  {
    PowersOfTwo(k);
    var p := Pow2(k);
    Times(base, 1, p);
    assert base * (2 * p) == 2 * (base * p);
  }

  /** The first failure waits for the base, each further one twice as long, thirty times at most, all up to the cap. */
  lemma RawDoubles(attempts: nat, base: nat, cap: nat)
    requires 1 <= base <= U64_MAX && 1 <= cap <= U64_MAX
    ensures attempts <= 1 ==> Raw(attempts, base, cap) == if base < cap then base else cap
    ensures 1 <= attempts <= 30 ==>
              var r := Raw(attempts, base, cap);
              Raw(attempts + 1, base, cap) == if r + r < cap then r + r else cap
    ensures 31 <= attempts ==> Raw(attempts, base, cap) == Raw(31, base, cap)
  {
    RawIs(attempts, base, cap);
    RawIs(attempts + 1, base, cap);
    RawIs(31, base, cap);
    assert base * Pow2(0) == base;
    if 1 <= attempts <= 30 {
      NominalDoubles(base, attempts - 1);
      NominalDoubles(base, attempts);
      Doubled(base * Pow2(attempts - 1), cap, Raw(attempts, base, cap));
    }
  }

  lemma RawNonDecreasing(m: nat, n: nat, base: nat, cap: nat)
    requires m <= n && base <= U64_MAX && cap <= U64_MAX
    ensures Raw(m, base, cap) <= Raw(n, base, cap)
  {
    Pow2Grows(Doublings(m), Doublings(n));
    Times(base, Pow2(Doublings(m)), Pow2(Doublings(n)));
  }

  /** Some attempt waits for the whole cap exactly when thirty doublings reach it. */
  lemma CapReachedIff(base: nat, cap: nat)
    requires base <= U64_MAX && 1 < cap <= U64_MAX
    ensures (exists n: nat :: Raw(n, base, cap) == cap) <==> cap <= base * Pow2(30)
  {
    if cap <= base * Pow2(30) {
      RawIs(31, base, cap);
      assert Raw(31, base, cap) == cap;
    }
    if n: nat :| Raw(n, base, cap) == cap {
      RawIs(n, base, cap);
      Pow2Grows(Doublings(n), 30);
      Times(base, Pow2(Doublings(n)), Pow2(30));
    }
  }

  lemma JitterBounds(attempts: nat, base: nat, cap: nat, fraction: real)
    requires -1.0 <= fraction < 1.0
    ensures var raw, d := Raw(attempts, base, cap) as real, Delay(attempts, base, cap, fraction);
            d >= 1.0 && 0.8 * raw <= d < 1.2 * raw
  {
    JitteredBounds(Raw(attempts, base, cap) as real, fraction);
  }

  /** A fifth of the nominal delay, times the fraction, is added, and a second is the least. */
  lemma DelayIs(attempts: nat, base: nat, cap: nat, fraction: real)
    ensures var raw := Raw(attempts, base, cap) as real;
            Delay(attempts, base, cap, fraction) == if 5.0 * raw + raw * fraction < 5.0 then 1.0 else raw + raw * fraction / 5.0
  {
    var raw := Raw(attempts, base, cap) as real;
    assert raw * BACKOFF_JITTER * fraction == raw * fraction / 5.0;
  }

  lemma JitteredBounds(raw: real, fraction: real)
    requires raw >= 1.0 && -1.0 <= fraction < 1.0
    ensures Jittered(raw, fraction) >= 1.0 && 0.8 * raw <= Jittered(raw, fraction) < 1.2 * raw
  {
    var a := raw * BACKOFF_JITTER;
    Scale(a, fraction);
  }

  lemma Scale(a: real, f: real)
    requires a > 0.0 && -1.0 <= f < 1.0
    ensures -a <= a * f < a
  {
    if f < 0.0 { Product(a, -f); }
  }

  lemma Product(a: real, f: real)
    requires a > 0.0 && 0.0 <= f <= 1.0
    ensures 0.0 <= a * f <= a
  {}

  // -------------------------------------------------------------------------
  // Loop backoff
  // -------------------------------------------------------------------------

  /** Nanoseconds of the longest duration. */
  const DURATION_MAX := U64_MAX * 1_000_000_000 + 999_999_999

  function Kth(base: nat, cap: nat, k: nat): nat {
    if k == 0 then base else Min(base * Pow2(k), cap)
  }

  lemma KthNext(base: nat, cap: nat, k: nat)
    requires base <= DURATION_MAX && cap <= DURATION_MAX
    ensures Min(Min(Kth(base, cap, k) * 2, DURATION_MAX), cap) == Kth(base, cap, k + 1)
  {
    assert base * Pow2(k + 1) == (base * Pow2(k)) * 2;
  }

  class RetryBackoff {
    const base: nat
    const cap: nat
    var next: nat
    ghost var taken: nat

    ghost predicate Valid()
      reads this
    {
      base <= DURATION_MAX && cap <= DURATION_MAX && next == Kth(base, cap, taken)
    }

    constructor (base: nat, cap: nat)
      requires base <= DURATION_MAX && cap <= DURATION_MAX
      ensures Valid() && taken == 0 && this.base == base && this.cap == cap
    {
      this.base, this.cap, next, taken := base, cap, base, 0;
    }

    /** The k-th delay since the last reset. */
    method TakeDelay() returns (delay: nat)
      requires Valid()
      modifies this
      ensures Valid() && taken == old(taken) + 1
      ensures delay == if old(taken) == 0 then base else if base * Pow2(old(taken)) < cap then base * Pow2(old(taken)) else cap
    {
      delay := next;
      KthNext(base, cap, taken);
      next := Min(Min(next * 2, DURATION_MAX), cap);
      taken := taken + 1;
    }

    method Reset()
      requires Valid()
      modifies this
      ensures Valid() && taken == 0
    {
      next, taken := base, 0;
    }
  }

  // -------------------------------------------------------------------------
  // Notifications
  // -------------------------------------------------------------------------

  datatype Call = Failed | Recovered

  datatype Note = Down | Up

  function Noted(c: Call): Note { if c.Failed? then Down else Up }

  /** The account counts as up before the first call. */
  function LastNote(calls: seq<Call>): Note {
    if calls == [] then Up else Noted(calls[|calls| - 1])
  }

  /** One notification for each call that says something else than the call before. */
  function Changes(calls: seq<Call>): seq<Note> {
    if calls == [] then []
    else
      var before, note := calls[..|calls| - 1], Noted(calls[|calls| - 1]);
      Changes(before) + (if note == LastNote(before) then [] else [note])
  }

  /** Down first, then turn about; the last one tells whether the last call was a failure. */
  lemma {:induction false} ChangesAlternate(calls: seq<Call>)
    ensures var notes := Changes(calls);
            && (forall i :: 0 <= i < |notes| ==> notes[i] == if i % 2 == 0 then Down else Up)
            && (|notes| % 2 == 1 <==> calls != [] && calls[|calls| - 1] == Failed)
            && LastNote(calls) == (if |notes| % 2 == 0 then Up else Down)
  {
    if calls != [] { ChangesAlternate(calls[..|calls| - 1]); }
  }

  class FailureNotifier {
    var failed: bool
    ghost var calls: seq<Call>
    var sent: seq<Note>

    ghost predicate Valid()
      reads this
    {
      sent == Changes(calls) && failed == LastNote(calls).Down?
    }

    constructor ()
      ensures Valid() && calls == []
    {
      failed, calls, sent := false, [], [];
    }

    method OnFailed()
      requires Valid()
      modifies this
      ensures Valid() && calls == old(calls) + [Failed]
    {
      calls := calls + [Failed];
      assert calls[..|calls| - 1] == old(calls);
      if failed { return; }
      failed := true;
      sent := sent + [Down];
    }

    method OnRecovered()
      requires Valid()
      modifies this
      ensures Valid() && calls == old(calls) + [Recovered]
    {
      calls := calls + [Recovered];
      assert calls[..|calls| - 1] == old(calls);
      if !failed { return; }
      failed := false;
      sent := sent + [Up];
    }
  }
}
