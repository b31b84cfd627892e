/** The debounce rule of `FaceLock.run` in facelock/facelock.py, as functions
    of the observations seen so far. A tick is a miss when the local detector
    found no face, or when it found one and the verified confidence is below
    the recognition threshold. A miss adds one to the counter, a match sets it
    to 0; when the counter then exceeds the trigger the screen is locked and
    the counter set back to 0. */
module Presence {
  import opened Common
  import opened Timing

  /** What one tick sees: no face from the local detector, or faces and the
      confidence face_verify reported for them. */
  datatype Observation = NoFace | Faces(confidence: real)

  predicate IsMiss(o: Observation, threshold: real)
  {
    o.NoFace? || o.confidence < threshold
  }

  /** The counter after a tick, and whether the lock fired on it. */
  datatype Outcome = Outcome(counter: int, fired: bool)

  /** One tick of the loop, from the counter before it. */
  function Step(counter: int, trigger: int, threshold: real, o: Observation): (r: Outcome)
    ensures 0 <= counter <= trigger ==> 0 <= r.counter <= trigger
    ensures r.fired ==> r.counter == 0
    ensures !IsMiss(o, threshold) && 0 <= trigger ==> r == Outcome(0, false)
    ensures IsMiss(o, threshold) && counter < trigger ==> r == Outcome(counter + 1, false)
    ensures IsMiss(o, threshold) && counter >= trigger ==> r == Outcome(0, true)
    ensures !IsMiss(o, threshold) && trigger < 0 ==> r == Outcome(0, true)
  {
    var c := if IsMiss(o, threshold) then counter + 1 else 0;
    if c > trigger then Outcome(0, true) else Outcome(c, false)
  }

  /** The counter after the given ticks, starting from 0. It never leaves
      0..trigger, and stays 0 when the trigger is negative. */
  function CounterAfter(trigger: int, threshold: real, obs: seq<Observation>): (c: int)
    ensures 0 <= c
    ensures 0 <= trigger ==> c <= trigger
    ensures trigger < 0 ==> c == 0
    decreases |obs|
  {
    if obs == [] then 0
    else Step(CounterAfter(trigger, threshold, obs[..|obs| - 1]), trigger, threshold, obs[|obs| - 1]).counter
  }

  /** Whether the lock fired on tick i. */
  predicate FiredAt(trigger: int, threshold: real, obs: seq<Observation>, i: nat)
    requires i < |obs|
  {
    Step(CounterAfter(trigger, threshold, obs[..i]), trigger, threshold, obs[i]).fired
  }

  /** The counter, the lock count and the verify count after tick i are one
      step on from their values before it. */
  lemma PrefixStep(trigger: int, threshold: real, obs: seq<Observation>, i: nat)
    requires i < |obs|
    ensures var before := obs[..i];
            var after := obs[..i + 1];
            && CounterAfter(trigger, threshold, after) == Step(CounterAfter(trigger, threshold, before), trigger, threshold, obs[i]).counter
            && LockCount(trigger, threshold, after) == LockCount(trigger, threshold, before) + (if FiredAt(trigger, threshold, obs, i) then 1 else 0)
            && VerifyCount(after) == VerifyCount(before) + (if obs[i].Faces? then 1 else 0)
            && FiredSeq(trigger, threshold, after) == FiredSeq(trigger, threshold, before) + [FiredAt(trigger, threshold, obs, i)]
  {
    var after := obs[..i + 1];
    assert after[..i] == obs[..i] && after[i] == obs[i];
    assert FiredAt(trigger, threshold, after, i) == FiredAt(trigger, threshold, obs, i);
  }

  /** The lock decision of every tick, in order. */
  function FiredSeq(trigger: int, threshold: real, obs: seq<Observation>): (f: seq<bool>)
    ensures |f| == |obs|
    decreases |obs|
  {
    if obs == [] then []
    else
      var p := obs[..|obs| - 1];
      FiredSeq(trigger, threshold, p) + [Step(CounterAfter(trigger, threshold, p), trigger, threshold, obs[|obs| - 1]).fired]
  }

  /** Entry i of the decisions for any prefix that holds tick i is whether
      tick i fired. */
  lemma {:induction false} FiredSeqAt(trigger: int, threshold: real, obs: seq<Observation>, n: nat, i: nat)
    requires i < n <= |obs|
    ensures FiredSeq(trigger, threshold, obs[..n])[i] == FiredAt(trigger, threshold, obs, i)
    decreases n
  {
    var s := obs[..n];
    assert s[..n - 1] == obs[..n - 1];
    if i < n - 1 {
      FiredSeqAt(trigger, threshold, obs, n - 1, i);
    } else {
      assert s[..n - 1] == obs[..i];
    }
  }

  /** Whether tick j fired depends only on ticks 0..j. */
  lemma FiredAtPrefix(trigger: int, threshold: real, a: seq<Observation>, b: seq<Observation>, j: nat)
    requires j < |a| && j < |b| && a[..j + 1] == b[..j + 1]
    ensures FiredAt(trigger, threshold, a, j) == FiredAt(trigger, threshold, b, j)
  {
    assert a[..j] == a[..j + 1][..j] == b[..j + 1][..j] == b[..j];
    assert a[j] == a[..j + 1][j] == b[..j + 1][j] == b[j];
  }

  /** How many locks the given ticks fired. */
  function LockCount(trigger: int, threshold: real, obs: seq<Observation>): nat
    decreases |obs|
  {
    if obs == [] then 0
    else LockCount(trigger, threshold, obs[..|obs| - 1]) + (if FiredAt(trigger, threshold, obs, |obs| - 1) then 1 else 0)
  }

  /** How many ticks found a face and so called face_verify. */
  function VerifyCount(obs: seq<Observation>): nat
    decreases |obs|
  {
    if obs == [] then 0
    else VerifyCount(obs[..|obs| - 1]) + (if obs[|obs| - 1].Faces? then 1 else 0)
  }

  /** The number of consecutive misses that end the sequence. */
  function MissRun(threshold: real, obs: seq<Observation>): nat
    decreases |obs|
  {
    if obs == [] || !IsMiss(obs[|obs| - 1], threshold) then 0
    else MissRun(threshold, obs[..|obs| - 1]) + 1
  }

  /** The counter is the length of the current run of misses, modulo
      trigger + 1: each lock takes exactly trigger + 1 misses off it. */
  lemma {:induction false} CounterIsMissRunModulo(trigger: int, threshold: real, obs: seq<Observation>)
    requires 0 <= trigger
    ensures CounterAfter(trigger, threshold, obs) == MissRun(threshold, obs) % (trigger + 1)
    decreases |obs|
  {
    if obs != [] {
      var prefix := obs[..|obs| - 1];
      CounterIsMissRunModulo(trigger, threshold, prefix);
      var m := MissRun(threshold, prefix);
      if IsMiss(obs[|obs| - 1], threshold) {
        assert MissRun(threshold, obs) == m + 1;
        ModuloSuccessor(m, trigger + 1);
      }
    }
  }

  /** (m + 1) mod n is one more than m mod n, or 0 when that reaches n. */
  lemma ModuloSuccessor(m: nat, n: nat)
    requires 0 < n
    ensures (m + 1) % n == if m % n + 1 == n then 0 else m % n + 1
  {
    var q, r := m / n, m % n;
    assert m == q * n + r;
    if r + 1 == n {
      ModuloUnique(m + 1, n, q + 1, 0);
    } else {
      ModuloUnique(m + 1, n, q, r + 1);
    }
  }

  /** A remainder in 0..n-1 that fits x = q * n + r is x mod n. */
  lemma ModuloUnique(x: int, n: int, q: int, r: int)
    requires 0 < n && 0 <= r < n && x == q * n + r
    ensures x % n == r
  {
    var q', r' := x / n, x % n;
    assert x == q' * n + r';
    if q != q' {
      var k := if q > q' then q - q' else q' - q;
      assert k * n == (if q > q' then r' - r else r - r');
      ProductAtLeast(n, k);
    }
  }

  lemma {:induction false} ProductAtLeast(n: int, k: int)
    requires 0 < n && 1 <= k
    ensures n * k >= n
    decreases k
  {
    if k > 1 {
      ProductAtLeast(n, k - 1);
      assert n * k == n * (k - 1) + n;
    }
  }

  /** With a trigger of at least 0, the lock fires on a tick exactly when that
      tick completes a run of misses whose length is a positive multiple of
      trigger + 1: on the (trigger+1)-th consecutive miss, then on every
      (trigger+1)-th after it. */
  lemma FiresOnMultiplesOfTriggerPlusOne(trigger: int, threshold: real, obs: seq<Observation>, i: nat)
    requires 0 <= trigger && i < |obs|
    ensures var run := MissRun(threshold, obs[..i + 1]);
            FiredAt(trigger, threshold, obs, i) <==> 0 < run && run % (trigger + 1) == 0
  {
    var upTo := obs[..i + 1];
    assert upTo[..i] == obs[..i] && upTo[i] == obs[i];
    CounterIsMissRunModulo(trigger, threshold, obs[..i]);
    var m := MissRun(threshold, obs[..i]);
    if IsMiss(obs[i], threshold) {
      assert MissRun(threshold, upTo) == m + 1;
      ModuloSuccessor(m, trigger + 1);
    }
  }

  /** A match never fires the lock and leaves the counter at 0. */
  lemma MatchResets(trigger: int, threshold: real, obs: seq<Observation>, i: nat)
    requires 0 <= trigger && i < |obs| && !IsMiss(obs[i], threshold)
    ensures !FiredAt(trigger, threshold, obs, i)
    ensures CounterAfter(trigger, threshold, obs[..i + 1]) == 0
  {
    assert obs[..i + 1][..i] == obs[..i];
  }

  /** With a negative trigger the lock fires on every tick, matches included. */
  lemma NegativeTriggerFiresEveryTick(trigger: int, threshold: real, obs: seq<Observation>, i: nat)
    requires trigger < 0 && i < |obs|
    ensures FiredAt(trigger, threshold, obs, i)
  {
  }

  /** `n` ticks without a face. */
  function Misses(n: nat): (s: seq<Observation>)
    ensures |s| == n && forall k :: 0 <= k < n ==> s[k] == NoFace
  {
    seq(n, _ => NoFace)
  }

  /** Misses appended to a sequence lengthen its run of misses by as many. */
  lemma {:induction false} MissRunExtends(threshold: real, s: seq<Observation>, t: seq<Observation>)
    requires forall k :: 0 <= k < |t| ==> IsMiss(t[k], threshold)
    ensures MissRun(threshold, s + t) == MissRun(threshold, s) + |t|
    decreases |t|
  {
    if t != [] {
      var u := t[..|t| - 1];
      assert (s + t)[..|s + t| - 1] == s + u;
      assert (s + t)[|s + t| - 1] == t[|t| - 1];
      assert MissRun(threshold, s + t) == MissRun(threshold, s + u) + 1;
      MissRunExtends(threshold, s, u);
    } else {
      assert s + t == s;
    }
  }

  /** After a match (or at start-up), a run of n ticks without a face locks
      the screen on exactly the ticks j (counting from 0) with
      (j + 1) mod (trigger + 1) == 0: the first lock comes on the
      (trigger+1)-th miss, none comes earlier, and locks repeat while the
      face stays away. */
  lemma AbsenceLocksEveryTriggerPlusOneTicks(trigger: int, threshold: real, before: seq<Observation>, n: nat, j: nat)
    requires 0 <= trigger && j < n
    requires before == [] || !IsMiss(before[|before| - 1], threshold)
    ensures var obs := before + Misses(n);
            FiredAt(trigger, threshold, obs, |before| + j) <==> (j + 1) % (trigger + 1) == 0
  {
    var obs := before + Misses(n);
    var i := |before| + j;
    assert obs[..i + 1] == before + Misses(j + 1);
    MissRunExtends(threshold, before, Misses(j + 1));
    FiresOnMultiplesOfTriggerPlusOne(trigger, threshold, obs, i);
  }

  /** Starting from a match or from start-up, the first lock comes on the
      (trigger+1)-th consecutive miss and on no earlier tick. */
  lemma FirstLockOnMissTriggerPlusOne(trigger: int, threshold: real, j: nat)
    requires 0 <= trigger && j <= trigger
    ensures FiredAt(trigger, threshold, Misses(trigger + 1), j) <==> j == trigger
  {
    assert [] + Misses(trigger + 1) == Misses(trigger + 1);
    AbsenceLocksEveryTriggerPlusOneTicks(trigger, threshold, [], trigger + 1, j);
    if j < trigger {
      ModuloUnique(j + 1, trigger + 1, 0, j + 1);
    } else {
      ModuloUnique(j + 1, trigger + 1, 1, 0);
    }
  }

  /** Trigger-many misses followed by a match lock nothing. */
  lemma MatchInTimeLocksNothing(trigger: int, threshold: real, present: Observation, j: nat)
    requires 0 <= trigger && !IsMiss(present, threshold) && j <= trigger
    ensures !FiredAt(trigger, threshold, Misses(trigger) + [present], j)
  {
    var obs := Misses(trigger) + [present];
    if j < trigger {
      assert [] + Misses(trigger) == Misses(trigger);
      AbsenceLocksEveryTriggerPlusOneTicks(trigger, threshold, [], trigger, j);
      ModuloUnique(j + 1, trigger + 1, 0, j + 1);
      assert obs[..j + 1] == Misses(trigger)[..j + 1];
      FiredAtPrefix(trigger, threshold, obs, Misses(trigger), j);
    } else {
      MatchResets(trigger, threshold, obs, j);
    }
  }

  /** The worked example: a ten-second delay sampled every second gives a
      trigger of 10; ten misses and then a match lock nothing, while eleven
      misses lock once, on the eleventh. */
  lemma TenSecondScenario(threshold: real, present: Observation, j: nat)
    requires !IsMiss(present, threshold) && j <= 10
    ensures TriggerThreshold(10.0, 1.0) == Ok(10)
    ensures !FiredAt(10, threshold, Misses(10) + [present], j)
    ensures FiredAt(10, threshold, Misses(11), j) <==> j == 10
  {
    MatchInTimeLocksNothing(10, threshold, present, j);
    FirstLockOnMissTriggerPlusOne(10, threshold, j);
  }
}
