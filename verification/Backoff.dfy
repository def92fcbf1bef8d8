/** The reconnect loop of `eop_reconnect_probe.c`, with the parameters ADR-015 recommends. */
module Backoff {

  const INITIAL_DELAY_MS: nat := 500
  const MULTIPLIER: nat := 2
  const MAX_DELAY_MS: nat := 5000
  const JITTER_PCT: nat := 10
  const MAX_ATTEMPTS: nat := 10

  /** `base` plus or minus up to ten per cent; `random` is what rand() returns. */
  function Jitter(base: nat, random: nat): (ms: nat)
    ensures base - base / 10 <= ms <= base + base / 10
  {
    var range := base * JITTER_PCT / 100;
    if range == 0 then base else base + random % (2 * range + 1) - range
  }

  /** The delay slept after failed attempt `k`, counting from 1; each one starts from the jittered one before. */
  function Delay(random: nat -> nat, k: nat): nat {
    if k == 0 then INITIAL_DELAY_MS
    else Jitter(Capped(MULTIPLIER * Delay(random, k - 1)), random(k))
  }

  function Capped(ms: nat): nat {
    if ms > MAX_DELAY_MS then MAX_DELAY_MS else ms
  }

  lemma FirstDelay(random: nat -> nat)
    ensures Delay(random, 0) == INITIAL_DELAY_MS
  {
  }

  lemma NextDelay(random: nat -> nat, k: nat)
    requires k > 0
    ensures Delay(random, k) == Jitter(Capped(MULTIPLIER * Delay(random, k - 1)), random(k))
  {
  }

  /** Time slept over the first `k` failed attempts. */
  function Slept(random: nat -> nat, k: nat): nat {
    if k == 0 then 0 else Slept(random, k - 1) + Delay(random, k)
  }

  lemma EarlyDelays(random: nat -> nat)
    ensures 900 <= Delay(random, 1) <= 1100
    ensures 1620 <= Delay(random, 2) <= 2420
    ensures 2916 <= Delay(random, 3) <= 5324
  {
    assert Delay(random, 0) == 500;
    var d2, d3 := 2 * Delay(random, 1), 2 * Delay(random, 2);
    assert 900 <= Delay(random, 1) <= 1100;
    assert d2 - d2 / 10 <= Delay(random, 2) <= d2 + d2 / 10;
    assert 1620 <= Delay(random, 2) <= 2420;
    assert d3 - d3 / 10 <= Delay(random, 3) <= d3 + d3 / 10;
  }

  /** From the fourth on the cap decides: whatever the random numbers, and however many attempts fail. */
  lemma {:induction false} CappedDelay(random: nat -> nat, k: nat)
    requires k >= 4
    ensures 4500 <= Delay(random, k) <= 5500
  {
    if k == 4 {
      EarlyDelays(random);
    } else {
      CappedDelay(random, k - 1);
    }
  }

  lemma {:induction false} SleptBounds(random: nat -> nat, k: nat)
    requires k >= 3
    ensures 5436 + 4500 * (k - 3) <= Slept(random, k) <= 8844 + 5500 * (k - 3)
  {
    if k == 3 {
      EarlyDelays(random);
      assert Slept(random, 3) == Slept(random, 2) + Delay(random, 3);
      assert Slept(random, 2) == Slept(random, 1) + Delay(random, 2);
      assert Slept(random, 1) == Slept(random, 0) + Delay(random, 1);
    } else {
      SleptBounds(random, k - 1);
      CappedDelay(random, k);
    }
  }

  /** Every value of the band is drawn for some random number. */
  lemma JitterReachesAll(base: nat, ms: nat)
    requires base - base / 10 <= ms <= base + base / 10
    ensures Jitter(base, ms - (base - base / 10)) == ms
  {
    var range, random := base * JITTER_PCT / 100, ms - (base - base / 10);
    assert range == base / 10;
    assert random % (2 * range + 1) == random;
  }

  function Shortest(k: nat): nat {
    0
  }

  /** The random numbers that give the longest delay each time. */
  function Longest(k: nat): nat {
    if k == 1 then 200 else if k == 2 then 440 else if k == 3 then 968 else 1000
  }

  /** The bounds are met: with the shortest delays the tenth attempt comes after exactly 32436 ms, with the longest ten
      sleeps take exactly 47344 ms. */
  lemma BoundsAreMet()
    ensures Slept(Shortest, 9) == 32436
    ensures Slept(Longest, 10) == 47344
  {
    ShortestDelays(9);
    LongestDelays(10);
  }

  lemma FirstSleeps(random: nat -> nat)
    ensures Slept(random, 1) == Delay(random, 1)
    ensures Slept(random, 3) == Delay(random, 1) + Delay(random, 2) + Delay(random, 3)
  {
    hide Delay;
    assert Slept(random, 0) == 0;
    assert Slept(random, 2) == Slept(random, 1) + Delay(random, 2);
  }

  lemma {:induction false} ShortestDelays(k: nat)
    requires k >= 3
    ensures Slept(Shortest, k) == 5436 + 4500 * (k - 3)
    ensures Delay(Shortest, k) == if k == 3 then 2916 else 4500
  {
    hide Delay, Jitter;
    NextDelay(Shortest, k);
    JitterReachesAll(5000, 4500);
    if k == 3 {
      FirstDelay(Shortest);
      NextDelay(Shortest, 1);
      NextDelay(Shortest, 2);
      JitterReachesAll(1000, 900);
      JitterReachesAll(1800, 1620);
      JitterReachesAll(3240, 2916);
      FirstSleeps(Shortest);
    } else {
      ShortestDelays(k - 1);
    }
  }

  lemma {:induction false} LongestDelays(k: nat)
    requires k >= 3
    ensures Slept(Longest, k) == 8844 + 5500 * (k - 3)
    ensures Delay(Longest, k) == if k == 3 then 5324 else 5500
  {
    hide Delay, Jitter;
    NextDelay(Longest, k);
    JitterReachesAll(5000, 5500);
    if k == 3 {
      FirstDelay(Longest);
      NextDelay(Longest, 1);
      NextDelay(Longest, 2);
      JitterReachesAll(1000, 1100);
      JitterReachesAll(2200, 2420);
      JitterReachesAll(4840, 5324);
      FirstSleeps(Longest);
    } else {
      LongestDelays(k - 1);
    }
  }

  /** The retry loop: `succeeds(k)` says whether attempt `k` reconnects and registers. It stops at the first success or
      after ten attempts. The tenth attempt, if it comes to that, is made at least 32436 ms after the first, past the 32
      seconds that ADR-015 wants covered, and all the sleeping together takes at most 47344 ms. */
  method Retry(succeeds: nat -> bool, random: nat -> nat) returns (success: bool, attempts: nat, sleeps: seq<nat>)
    ensures 1 <= attempts <= MAX_ATTEMPTS
    ensures success <==> exists k: nat :: 1 <= k <= MAX_ATTEMPTS && succeeds(k)
    ensures success ==> succeeds(attempts)
    ensures forall k: nat :: 1 <= k < attempts ==> !succeeds(k)
    ensures |sleeps| == if success then attempts - 1 else MAX_ATTEMPTS
    ensures forall i :: 0 <= i < |sleeps| ==> sleeps[i] == Delay(random, i + 1)
    ensures forall i :: 3 <= i < |sleeps| ==> 4500 <= sleeps[i] <= 5500
    ensures Total(sleeps) == Slept(random, |sleeps|) <= 47344
    ensures attempts == MAX_ATTEMPTS ==> Total(sleeps[..MAX_ATTEMPTS - 1]) >= 32436
  {
    hide Delay, Slept, Total, Jitter;
    FirstDelay(random);
    var delay := INITIAL_DELAY_MS;
    attempts, success, sleeps := 0, false, [];
    while attempts < MAX_ATTEMPTS
      invariant attempts <= MAX_ATTEMPTS && !success && |sleeps| == attempts
      invariant delay == Delay(random, attempts)
      invariant forall k: nat :: 1 <= k <= attempts ==> !succeeds(k)
      invariant forall i :: 0 <= i < |sleeps| ==> sleeps[i] == Delay(random, i + 1)
    {
      attempts := attempts + 1;
      if succeeds(attempts) {
        success := true;
        break;
      }
      var next := delay * MULTIPLIER;
      if next > MAX_DELAY_MS {
        next := MAX_DELAY_MS;
      }
      NextDelay(random, attempts);
      delay := Jitter(next, random(attempts));
      sleeps := sleeps + [delay];
    }
    RetryTimes(random, sleeps);
  }

  function Total(sleeps: seq<nat>): nat {
    if sleeps == [] then 0 else Total(sleeps[..|sleeps| - 1]) + sleeps[|sleeps| - 1]
  }

  lemma {:induction false} TotalIsSlept(random: nat -> nat, sleeps: seq<nat>)
    requires forall i :: 0 <= i < |sleeps| ==> sleeps[i] == Delay(random, i + 1)
    ensures Total(sleeps) == Slept(random, |sleeps|)
  {
    if sleeps != [] {
      TotalIsSlept(random, sleeps[..|sleeps| - 1]);
    }
  }

  lemma {:induction false} SleptGrows(random: nat -> nat, j: nat, k: nat)
    requires j <= k
    ensures Slept(random, j) <= Slept(random, k)
  {
    hide Delay;
    if j < k {
      SleptGrows(random, j, k - 1);
    }
  }

  lemma RetryTimes(random: nat -> nat, sleeps: seq<nat>)
    requires |sleeps| <= MAX_ATTEMPTS
    requires forall i :: 0 <= i < |sleeps| ==> sleeps[i] == Delay(random, i + 1)
    ensures forall i :: 3 <= i < |sleeps| ==> 4500 <= sleeps[i] <= 5500
    ensures Total(sleeps) == Slept(random, |sleeps|) <= 47344
    ensures |sleeps| >= MAX_ATTEMPTS - 1 ==> Total(sleeps[..MAX_ATTEMPTS - 1]) >= 32436
  {
    hide Delay, Slept, Total;
    TotalIsSlept(random, sleeps);
    SleptGrows(random, |sleeps|, MAX_ATTEMPTS);
    SleptBounds(random, MAX_ATTEMPTS);
    forall i | 3 <= i < |sleeps| ensures 4500 <= sleeps[i] <= 5500 {
      CappedDelay(random, i + 1);
    }
    if |sleeps| >= MAX_ATTEMPTS - 1 {
      TotalIsSlept(random, sleeps[..MAX_ATTEMPTS - 1]);
      SleptBounds(random, MAX_ATTEMPTS - 1);
    }
  }
}
