/** The older stand-alone script facelock.py: the lock-command table and the
    webcam loop `run`, which counts ticks without a face, issues the lock
    command whenever that count exceeds TRIGGER, and clears the count each
    time the number of faces differs from the previous tick's. The camera and
    the detector become a sequence of frames, each with its face count and the
    key code `cv2.waitKey` returned. */
module Legacy {
  import opened Common
  import opened Timing

  const LinuxLockCommand := "gnome-screensaver-command --lock > /dev/null &"
  /** Python keeps the backslash of the unknown escape "\ " in the literal. */
  const DarwinLockCommand :=
    "/System/Library/CoreServices/Menu\\ Extras/user.menu/Contents/Resources/CGSession -suspend"
  const UnsupportedMessage := "Unsupported OS platform, Linux and MacOS only."

  /** get_lock_screen_cmd, with platform.system() as `osType`. */
  function LockScreenCmd(osType: string): (r: Result<string>)
    ensures r.Ok? <==> osType == "Linux" || osType == "Darwin"
    ensures osType == "Linux" ==> r.value == LinuxLockCommand
    ensures osType == "Darwin" ==> r.value == DarwinLockCommand
    ensures r.Err? ==> r.error == PlatformError(UnsupportedMessage)
  {
    var table := map["Linux" := LinuxLockCommand, "Darwin" := DarwinLockCommand];
    if osType in table then Ok(table[osType]) else Err(PlatformError(UnsupportedMessage))
  }

  /** `key & 0xFF` on Python's unbounded two's-complement integers. */
  function LowByte(key: int): (b: int)
    ensures 0 <= b < 256
    ensures (key - b) % 256 == 0
    ensures 0 <= key < 256 ==> b == key
  {
    key % 256
  }

  /** `cv2.waitKey(1) & 0xFF == ord('q')`. */
  predicate IsQuitKey(key: int)
  {
    LowByte(key) == 'q' as int
  }

  /** The loop's two variables: `counter` and `anterior`, the face count of
      the previous tick. */
  datatype Tally = Tally(counter: int, anterior: nat)

  /** Whether a tick with `faces` faces, entered with tally `t`, issues the
      lock command: only without a face, and only when the incremented
      counter exceeds the trigger. */
  predicate Fires(t: Tally, trigger: int, faces: nat)
  {
    faces == 0 && t.counter + 1 > trigger
  }

  /** The tally after a tick. A no-face tick adds one to the counter; then a
      face count different from the previous one is recorded and clears the
      counter; the lock itself clears nothing. */
  function Next(t: Tally, faces: nat): (r: Tally)
    ensures r.anterior == faces
    ensures t.anterior != faces ==> r.counter == 0
    ensures t.anterior == faces && faces == 0 ==> r.counter == t.counter + 1
    ensures t.anterior == faces && faces != 0 ==> r == t
  {
    var counter := if faces < 1 then t.counter + 1 else t.counter;
    if t.anterior != faces then Tally(0, faces) else Tally(counter, t.anterior)
  }

  /** The tally after the given face counts, starting from Tally(0, 0). */
  function StateAfter(counts: seq<nat>): (t: Tally)
    ensures t.anterior == if counts == [] then 0 else counts[|counts| - 1]
    ensures 0 <= t.counter
    ensures 0 < t.anterior ==> t.counter == 0
    decreases |counts|
  {
    if counts == [] then Tally(0, 0)
    else Next(StateAfter(counts[..|counts| - 1]), counts[|counts| - 1])
  }

  /** The tally after tick i is one Next from the tally before it. */
  lemma StateAfterStep(counts: seq<nat>, i: nat)
    requires i < |counts|
    ensures StateAfter(counts[..i + 1]) == Next(StateAfter(counts[..i]), counts[i])
  {
    assert counts[..i + 1][..i] == counts[..i];
  }

  /** Whether tick i issued the lock command. */
  predicate FiredAt(trigger: int, counts: seq<nat>, i: nat)
    requires i < |counts|
  {
    Fires(StateAfter(counts[..i]), trigger, counts[i])
  }

  /** The lock decision of every tick, in order. */
  function FiredSeq(trigger: int, counts: seq<nat>): (f: seq<bool>)
    ensures |f| == |counts|
    decreases |counts|
  {
    if counts == [] then []
    else
      var p := counts[..|counts| - 1];
      FiredSeq(trigger, p) + [Fires(StateAfter(p), trigger, counts[|counts| - 1])]
  }

  /** Entry i of the decisions for any prefix that holds tick i is whether
      tick i fired. */
  lemma {:induction false} FiredSeqAt(trigger: int, counts: seq<nat>, n: nat, i: nat)
    requires i < n <= |counts|
    ensures FiredSeq(trigger, counts[..n])[i] == FiredAt(trigger, counts, i)
    decreases n
  {
    var s := counts[..n];
    assert s[..n - 1] == counts[..n - 1];
    if i < n - 1 {
      FiredSeqAt(trigger, counts, n - 1, i);
    } else {
      assert s[..n - 1] == counts[..i];
    }
  }

  /** No tick so far has seen a face. */
  predicate AllZero(counts: seq<nat>)
  {
    forall k :: 0 <= k < |counts| ==> counts[k] == 0
  }

  /** The number of no-face ticks that end the sequence. */
  function ZeroRun(counts: seq<nat>): (z: nat)
    ensures z <= |counts|
    decreases |counts|
  {
    if counts == [] || counts[|counts| - 1] != 0 then 0
    else ZeroRun(counts[..|counts| - 1]) + 1
  }

  function Max(a: int, b: int): int { if a < b then b else a }

  /** The counter counts every tick while no face has ever been seen; after a
      face it counts the trailing no-face ticks but one, because the first
      no-face tick after a face changes the face count and clears it. */
  lemma {:induction false} CounterFromZeroRun(counts: seq<nat>)
    ensures StateAfter(counts).counter ==
              if AllZero(counts) then |counts| else Max(ZeroRun(counts) - 1, 0)
    decreases |counts|
  {
    if counts != [] {
      var p := counts[..|counts| - 1];
      var x := counts[|counts| - 1];
      CounterFromZeroRun(p);
      assert forall k :: 0 <= k < |p| ==> p[k] == counts[k];
      if x != 0 {
        assert !AllZero(counts);
      } else {
        assert AllZero(counts) <==> AllZero(p);
        assert ZeroRun(counts) == ZeroRun(p) + 1;
        if !AllZero(p) && p[|p| - 1] != 0 {
          assert ZeroRun(p) == 0;
        }
      }
    }
  }

  /** When tick i issues the lock command: only on a tick without a face;
      while no face has ever been seen, from the (trigger+1)-th tick on; after
      a face, once the trailing run of no-face ticks exceeds trigger + 1 (or
      on every no-face tick when the trigger is below 1). */
  lemma LegacyFiresIff(trigger: int, counts: seq<nat>, i: nat)
    requires i < |counts|
    ensures counts[i] != 0 ==> !FiredAt(trigger, counts, i)
    ensures counts[i] == 0 && AllZero(counts[..i + 1]) ==>
              (FiredAt(trigger, counts, i) <==> i + 1 > trigger)
    ensures counts[i] == 0 && !AllZero(counts[..i + 1]) ==>
              (FiredAt(trigger, counts, i) <==> Max(ZeroRun(counts[..i + 1]) - 1, 1) > trigger)
  {
    var p, s := counts[..i], counts[..i + 1];
    assert s[..i] == p && s[i] == counts[i];
    CounterFromZeroRun(p);
    if counts[i] == 0 {
      assert AllZero(s) <==> AllZero(p);
      assert ZeroRun(s) == ZeroRun(p) + 1;
    }
  }

  /** The lock does not clear the counter: once it fires, it fires again on
      every following tick without a face. */
  lemma LockRepeats(trigger: int, counts: seq<nat>, i: nat)
    requires i + 1 < |counts|
    requires FiredAt(trigger, counts, i) && counts[i + 1] == 0
    ensures FiredAt(trigger, counts, i + 1)
  {
    var p := counts[..i + 1];
    assert counts[..i + 1][..i] == counts[..i];
    assert StateAfter(p) == Next(StateAfter(counts[..i]), counts[i]);
  }

  /** A tick that sees as many faces as the one before, at least one, leaves
      the counter and the lock state as they were. */
  lemma SameFacesKeepState(counts: seq<nat>, faces: nat)
    requires 0 < faces && counts != [] && counts[|counts| - 1] == faces
    ensures StateAfter(counts + [faces]) == StateAfter(counts)
  {
    assert (counts + [faces])[..|counts|] == counts;
  }

  /** `n` ticks without a face. */
  function Zeros(n: nat): (s: seq<nat>)
    ensures |s| == n && AllZero(s)
  {
    seq(n, _ => 0)
  }

  /** The script's defaults: five seconds of delay sampled every half second
      give TRIGGER = 10. From start-up the lock is first issued on the 11th
      tick without a face; after a face has been seen it takes 12. */
  lemma DefaultDelayScenario(faces: nat, i: nat)
    requires 0 < faces && i < 12
    ensures TriggerThreshold(5.0, 0.5) == Ok(10)
    ensures i < 11 ==> (FiredAt(10, Zeros(11), i) <==> i == 10)
    ensures FiredAt(10, [faces] + Zeros(12), i + 1) <==> i == 11
  {
    if i < 11 {
      LegacyFiresIff(10, Zeros(11), i);
      assert AllZero(Zeros(11)[..i + 1]);
    }
    var after := [faces] + Zeros(12);
    LegacyFiresIff(10, after, i + 1);
    assert after[0] == faces;
    assert !AllZero(after[..i + 2]);
    ZeroRunOfZeros(after[..i + 2], i + 1);
  }

  /** A sequence that is one face count followed by n zeros ends in a run of n. */
  lemma {:induction false} ZeroRunOfZeros(s: seq<nat>, n: nat)
    requires |s| == n + 1 && s[0] != 0
    requires forall k :: 1 <= k < |s| ==> s[k] == 0
    ensures ZeroRun(s) == n
    decreases n
  {
    if n > 0 {
      ZeroRunOfZeros(s[..n], n - 1);
    }
  }

  /** One tick of the loop: the faces the detector found and the key code
      `cv2.waitKey(1)` returned. */
  datatype Frame = Frame(faces: nat, key: int)

  /** What the loop did: the lock decision of each tick it ran, the pauses it
      slept, and whether it left the loop on 'q' and released the camera. */
  datatype Session = Session(fired: seq<bool>, pauses: seq<real>, released: bool)

  function Counts(frames: seq<Frame>): (counts: seq<nat>)
    ensures |counts| == |frames| && forall i :: 0 <= i < |frames| ==> counts[i] == frames[i].faces
  {
    seq(|frames|, i requires 0 <= i < |frames| => frames[i].faces)
  }

  /** The index of the first frame whose key is 'q', or |frames|. */
  function QuitIndex(frames: seq<Frame>): (q: nat)
    ensures q <= |frames|
    ensures q < |frames| ==> IsQuitKey(frames[q].key)
    ensures forall k :: 0 <= k < q ==> !IsQuitKey(frames[k].key)
  {
    if frames == [] || IsQuitKey(frames[0].key) then 0 else 1 + QuitIndex(frames[1..])
  }

  /** One pass of the loop body before the key test: count a tick without a
      face and issue the lock command when the count exceeds the trigger,
      then record a changed face count and clear the counter. */
  method Tick(counter: int, anterior: nat, trigger: int, faces: nat) returns (counter': int, anterior': nat, lock: bool)
    ensures Tally(counter', anterior') == Next(Tally(counter, anterior), faces)
    ensures lock == Fires(Tally(counter, anterior), trigger, faces)
  {
    counter', anterior', lock := counter, anterior, false;
    if faces < 1 {
      counter' := counter' + 1;
      if counter' > trigger {
        lock := true;
      }
    }
    if anterior' != faces {
      anterior' := faces;
      counter' := 0;
    }
  }

  /** What `time.sleep` raises for a negative duration. */
  const NegativeSleepMessage := "sleep length must be non-negative"

  /** The number of ticks the loop body runs when no lock command raises:
      every tick up to and including the first 'q'; with a negative sleep only
      the first, since the sleep after it raises. */
  function TicksRun(sleepSeconds: real, frames: seq<Frame>): (n: nat)
    ensures n <= |frames|
    ensures QuitIndex(frames) < |frames| ==> n <= QuitIndex(frames) + 1
    ensures 0.0 <= sleepSeconds ==> n == if QuitIndex(frames) < |frames| then QuitIndex(frames) + 1 else |frames|
    ensures sleepSeconds < 0.0 ==> n == if frames == [] then 0 else 1
  {
    var q := QuitIndex(frames);
    var stop := if q < |frames| then q + 1 else |frames|;
    if sleepSeconds < 0.0 && stop > 1 then 1 else stop
  }

  /** Some tick among the first n asks for the lock command. */
  predicate LocksWithin(trigger: int, counts: seq<nat>, n: nat)
    requires n <= |counts|
  {
    exists i :: 0 <= i < n && FiredAt(trigger, counts, i)
  }

  /** The first tick does not quit, so the sleep after it runs, and a negative
      duration makes it raise. */
  predicate NegativeSleepRaises(sleepSeconds: real, frames: seq<Frame>)
  {
    sleepSeconds < 0.0 && frames != [] && !IsQuitKey(frames[0].key)
  }

  /** The loop's decisions for the first n ticks are the FiredAt of each. */
  lemma FiredSeqAll(trigger: int, counts: seq<nat>, n: nat)
    requires n <= |counts|
    ensures forall i :: 0 <= i < n ==> FiredSeq(trigger, counts[..n])[i] == FiredAt(trigger, counts, i)
  {
    forall i | 0 <= i < n
      ensures FiredSeq(trigger, counts[..n])[i] == FiredAt(trigger, counts, i)
    {
      FiredSeqAt(trigger, counts, n, i);
    }
  }

  /** How `run` ends on platform `osType` with trigger `trigger`: every tick up
      to and including the first 'q' runs and may issue the lock command; each
      tick but the quitting one then sleeps sleep_seconds; a 'q' ends the loop
      and releases the camera. The loop ends with an exception instead when a
      tick asks for the lock command on a platform other than Linux and
      Darwin, or when a sleep is given a negative duration. */
  function RunOutcome(osType: string, trigger: int, sleepSeconds: real, frames: seq<Frame>): (r: Result<Session>)
    ensures var n := TicksRun(sleepSeconds, frames);
            var q := QuitIndex(frames);
            if LockScreenCmd(osType).Err? && LocksWithin(trigger, Counts(frames), n) then
              r == Err(PlatformError(UnsupportedMessage))
            else if NegativeSleepRaises(sleepSeconds, frames) then
              r == Err(ValueError(NegativeSleepMessage))
            else
              && r.Ok?
              && (r.value.released <==> q < |frames|)
              && |r.value.fired| == n
              && (forall i :: 0 <= i < n ==> r.value.fired[i] == FiredAt(trigger, Counts(frames), i))
              && |r.value.pauses| == q
              && (forall i :: 0 <= i < q ==> r.value.pauses[i] == sleepSeconds)
  {
    var counts := Counts(frames);
    var n := TicksRun(sleepSeconds, frames);
    var q := QuitIndex(frames);
    if LockScreenCmd(osType).Err? && LocksWithin(trigger, counts, n) then
      Err(PlatformError(UnsupportedMessage))
    else if NegativeSleepRaises(sleepSeconds, frames) then
      Err(ValueError(NegativeSleepMessage))
    else
      FiredSeqAll(trigger, counts, n);
      Ok(Session(FiredSeq(trigger, counts[..n]), seq(q, _ => sleepSeconds), q < |frames|))
  }

  /** A tick that does not quit leaves the first 'q' still ahead. */
  lemma QuitIndexAhead(frames: seq<Frame>, i: nat)
    requires i < |frames| && i <= QuitIndex(frames) && !IsQuitKey(frames[i].key)
    ensures i + 1 <= QuitIndex(frames)
  {
  }

  /** A tick that asks for the lock command on an unsupported platform ends
      the run with the unsupported-platform error. */
  lemma RunRaisesPlatform(osType: string, trigger: int, sleepSeconds: real, frames: seq<Frame>, i: nat)
    requires i < |frames| && i <= QuitIndex(frames)
    requires sleepSeconds < 0.0 ==> i == 0
    requires LockScreenCmd(osType).Err? && FiredAt(trigger, Counts(frames), i)
    ensures RunOutcome(osType, trigger, sleepSeconds, frames) == Err(PlatformError(UnsupportedMessage))
  {
    assert i < TicksRun(sleepSeconds, frames);
  }

  /** A first tick that neither quits nor raises is followed by a sleep, which
      raises for a negative duration. */
  lemma RunRaisesNegativeSleep(osType: string, trigger: int, sleepSeconds: real, frames: seq<Frame>)
    requires sleepSeconds < 0.0 && frames != [] && !IsQuitKey(frames[0].key)
    requires LockScreenCmd(osType).Err? ==> !FiredAt(trigger, Counts(frames), 0)
    ensures RunOutcome(osType, trigger, sleepSeconds, frames) == Err(ValueError(NegativeSleepMessage))
  {
    assert LockScreenCmd(osType).Err? ==> !LocksWithin(trigger, Counts(frames), 1) by {
      if LockScreenCmd(osType).Err? {
        forall j | 0 <= j < 1 ensures !FiredAt(trigger, Counts(frames), j) {
          assert j == 0;
        }
      }
    }
  }

  /** A loop that ran its ticks without raising ends as RunOutcome says:
      `fired` holds the decisions of the ticks run, none of them a lock on an
      unsupported platform, and `pauses` one sleep per tick that did not quit. */
  lemma RunEndsOk(osType: string, trigger: int, sleepSeconds: real, frames: seq<Frame>,
                  fired: seq<bool>, pauses: seq<real>, released: bool, i: nat)
    requires i <= |frames| && i <= QuitIndex(frames)
    requires sleepSeconds < 0.0 ==> i == 0
    requires released ==> i < |frames| && IsQuitKey(frames[i].key) && fired == FiredSeq(trigger, Counts(frames)[..i + 1])
    requires !released ==> i == |frames| && fired == FiredSeq(trigger, Counts(frames)[..i])
    requires LockScreenCmd(osType).Err? ==> true !in fired
    requires pauses == seq(i, _ => sleepSeconds)
    ensures RunOutcome(osType, trigger, sleepSeconds, frames) == Ok(Session(fired, pauses, released))
  {
    var counts := Counts(frames);
    var n := |fired|;
    assert n == TicksRun(sleepSeconds, frames);
    assert LockScreenCmd(osType).Err? ==> !LocksWithin(trigger, counts, n) by {
      if LockScreenCmd(osType).Err? {
        forall k | 0 <= k < n ensures !FiredAt(trigger, counts, k) {
          FiredSeqAt(trigger, counts, n, k);
        }
      }
    }
  }

  /** With the defaults (TRIGGER 10) on Windows, eleven ticks without a face
      and without 'q' end with the unsupported-platform error on the 11th. */
  lemma WindowsRaisesAtFirstLock(frames: seq<Frame>)
    requires |frames| == 11 && forall k :: 0 <= k < 11 ==> frames[k] == Frame(0, 0)
    ensures RunOutcome("Windows", 10, 0.5, frames) == Err(PlatformError(UnsupportedMessage))
  {
    assert Counts(frames) == Zeros(11);
    DefaultDelayScenario(1, 10);
    RunRaisesPlatform("Windows", 10, 0.5, frames, 10);
  }

  /** `run` over the given frames on platform `osType`, with TRIGGER =
      int(delay_seconds / sleep_seconds). */
  method Run(osType: string, delaySeconds: real, sleepSeconds: real, frames: seq<Frame>) returns (r: Result<Session>)
    ensures TriggerThreshold(delaySeconds, sleepSeconds).Err? ==> r == Err(ZeroDivisionError)
    ensures TriggerThreshold(delaySeconds, sleepSeconds).Ok? ==>
              r == RunOutcome(osType, TriggerThreshold(delaySeconds, sleepSeconds).value, sleepSeconds, frames)
  {
    var trigger;
    match TriggerThreshold(delaySeconds, sleepSeconds) {
      case Err(e) =>
        return Err(e);
      case Ok(t) =>
        trigger := t;
    }
    var command := LockScreenCmd(osType);
    var counts := Counts(frames);
    var anterior: nat, counter := 0, 0;
    var fired: seq<bool>, pauses: seq<real> := [], [];
    var released := false;
    var i := 0;
    while i < |frames|
      invariant 0 <= i <= |frames|
      invariant i <= QuitIndex(frames)
      invariant sleepSeconds < 0.0 ==> i == 0
      invariant Tally(counter, anterior) == StateAfter(counts[..i])
      invariant fired == FiredSeq(trigger, counts[..i])
      invariant command.Err? ==> true !in fired
      invariant pauses == seq(i, _ => sleepSeconds)
    {
      var lock;
      counter, anterior, lock := Tick(counter, anterior, trigger, frames[i].faces);
      StateAfterStep(counts, i);
      assert counts[..i + 1][..i] == counts[..i];
      if lock && command.Err? {
        RunRaisesPlatform(osType, trigger, sleepSeconds, frames, i);
        return Err(PlatformError(UnsupportedMessage));
      }
      fired := fired + [lock];
      if IsQuitKey(frames[i].key) {
        released := true;
        break;
      }
      if sleepSeconds < 0.0 {
        RunRaisesNegativeSleep(osType, trigger, sleepSeconds, frames);
        return Err(ValueError(NegativeSleepMessage));
      }
      QuitIndexAhead(frames, i);
      pauses := pauses + [sleepSeconds];
      i := i + 1;
    }
    RunEndsOk(osType, trigger, sleepSeconds, frames, fired, pauses, released, i);
    return Ok(Session(fired, pauses, released));
  }
}
