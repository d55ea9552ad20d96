/** The blinking LED of the update application: an interval test on a tick counter that wraps. */
module LedPacer {
  import opened Memory

  /** The static variable of toggle_user_led, and the pin. */
  datatype Led = Led(lastToggle: nat, lit: bool)

  /** One call: the tick count and the difference are `TickType_t`, 32 bits wide. */
  function Poll(l: Led, timeNow: nat, interval: nat): Led {
    if Wrap32(timeNow - l.lastToggle) > interval then Led(timeNow, !l.lit) else l
  }

  class UserLed {
    var lastToggle: nat
    var lit: bool

    constructor ()
      ensures Now() == Led(0, false)
    {
      lastToggle, lit := 0, false;
    }

    function Now(): Led
      reads this
    {
      Led(lastToggle, lit)
    }

    method ToggleUserLed(tickCount: nat, blinkInterval: nat)
      modifies this
      ensures Now() == Poll(old(Now()), tickCount, blinkInterval)
    {
      var timeNow := tickCount;
      if Wrap32(timeNow - lastToggle) > blinkInterval {
        lit := !lit;
        lastToggle := timeNow;
      }
    }
  }

  // ----- against a clock that does not wrap

  /** The LED as it should be: true time of the last toggle, and how often it was toggled. */
  datatype Ideal = Ideal(last: nat, count: nat)

  function PollIdeal(m: Ideal, now: nat, interval: nat): Ideal {
    if now - m.last > interval then Ideal(now, m.count + 1) else m
  }

  /** The code polled at the given true times; it sees them modulo 2^32. */
  function Polled(times: seq<nat>, interval: nat): Led {
    if times == [] then Led(0, false)
    else Poll(Polled(times[..|times| - 1], interval), Wrap32(times[|times| - 1]), interval)
  }

  function PolledIdeal(times: seq<nat>, interval: nat): Ideal {
    if times == [] then Ideal(0, 0)
    else PollIdeal(PolledIdeal(times[..|times| - 1], interval), times[|times| - 1], interval)
  }

  /** True time of the poll before the `i`-th, or of the start. */
  function Before(times: seq<nat>, i: nat): nat
    requires i <= |times|
  {
    if i == 0 then 0 else times[i - 1]
  }

  /** Time does not go back, and no two polls are more than `gap` ticks apart. */
  predicate Paced(times: seq<nat>, gap: nat) {
    forall i :: 0 <= i < |times| ==> Before(times, i) <= times[i] <= Before(times, i) + gap
  }

  /** The code has done what it should have done. */
  predicate OnTime(times: seq<nat>, interval: nat) {
    Polled(times, interval) == Seen(PolledIdeal(times, interval))
  }

  lemma {:induction false} PacedPrefix(times: seq<nat>, gap: nat, n: nat)
    requires Paced(times, gap) && n <= |times|
    ensures Paced(times[..n], gap)
  {
    forall i | 0 <= i < n
      ensures Before(times[..n], i) <= times[..n][i] <= Before(times[..n], i) + gap
    {
      assert Before(times[..n], i) == Before(times, i);
    }
  }

  /** A difference below 2^32 survives the wrap. */
  lemma WrappedDifference(now: nat, last: nat)
    requires last <= now < last + U32
    ensures Wrap32(Wrap32(now) - Wrap32(last)) == now - last
  {
    var a, b := now / U32, last / U32;
    assert Wrap32(now) - Wrap32(last) == now - last + (b - a) * U32;
  }

  /** After every poll the last toggle is at most `interval` ticks ago; at every toggle it was more than
      `interval` and at most `interval + gap` ticks ago. */
  lemma {:induction false} IdealSpacing(times: seq<nat>, interval: nat, gap: nat)
    requires Paced(times, gap)
    ensures var m := PolledIdeal(times, interval);
            m.last <= Before(times, |times|) <= m.last + interval
    ensures times != [] ==>
              var before, m := PolledIdeal(times[..|times| - 1], interval), PolledIdeal(times, interval);
              m == before || (m.count == before.count + 1 && interval < m.last - before.last <= interval + gap)
    decreases |times|
  {
    if times != [] {
      var n := |times| - 1;
      PacedPrefix(times, gap, n);
      IdealSpacing(times[..n], interval, gap);
    }
  }

  /** The code's view of an ideal state. */
  function Seen(m: Ideal): Led {
    Led(Wrap32(m.last), m.count % 2 == 1)
  }

  lemma PollAgrees(m: Ideal, now: nat, interval: nat)
    requires m.last <= now < m.last + U32
    ensures Poll(Seen(m), Wrap32(now), interval) == Seen(PollIdeal(m, now, interval))
  {
    hide Wrap32;
    WrappedDifference(now, m.last);
  }

  lemma {:induction false} WrapIsHarmless(times: seq<nat>, interval: nat, gap: nat)
    requires Paced(times, gap) && interval + gap < U32
    ensures OnTime(times, interval)
    decreases |times|
  {
    if times == [] {
      assert Seen(Ideal(0, 0)) == Led(0, false);
    } else {
      hide Seen, Poll, PollIdeal, Wrap32;
      var n := |times| - 1;
      PacedPrefix(times, gap, n);
      WrapIsHarmless(times[..n], interval, gap);
      IdealSpacing(times[..n], interval, gap);
      assert Before(times[..n], n) == Before(times, n);
      PollAgrees(PolledIdeal(times[..n], interval), times[n], interval);
    }
  }

  /** A poll at every tick up to `n`. */
  function EveryTick(n: nat): seq<nat> {
    seq(n + 1, i => i)
  }

  lemma {:induction false} NoToggleYet(n: nat, interval: nat)
    requires n <= interval < U32
    ensures Polled(EveryTick(n), interval) == Led(0, false) && PolledIdeal(EveryTick(n), interval) == Ideal(0, 0)
  {
    if n == 0 {
      assert EveryTick(n)[..0] == [];
    } else {
      assert EveryTick(n)[..n] == EveryTick(n - 1);
      NoToggleYet(n - 1, interval);
    }
  }

  /** Polled at every tick for one interval, then not again until the counter has come round to where it was
      at the start: the code sees no time gone by. */
  lemma LatePollIgnored(interval: nat)
    requires interval < U32
    ensures var t := EveryTick(interval) + [U32];
            && t[..|t| - 1] == EveryTick(interval)
            && Polled(t, interval) == Led(0, false) && Polled(EveryTick(interval), interval) == Led(0, false)
            && PolledIdeal(t, interval) == Ideal(U32, 1)
  {
    hide EveryTick;
    NoToggleYet(interval, interval);
    var t := EveryTick(interval) + [U32];
    assert t[..|t| - 1] == EveryTick(interval);
  }

  /** So a toggle is missed. */
  lemma MissedToggle(interval: nat, gap: nat)
    requires interval < U32 <= interval + gap
    ensures var t := EveryTick(interval) + [U32]; Paced(t, gap) && !OnTime(t, interval)
  {
    LatePollIgnored(interval);
    LatePoll(interval, gap);
  }

  lemma LatePoll(interval: nat, gap: nat)
    requires interval < U32 <= interval + gap
    ensures Paced(EveryTick(interval) + [U32], gap)
  {
  }

  /** The exact condition: the wrapping test agrees with true time on every sequence of polls at most `gap`
      apart if and only if interval and gap together stay below 2^32. */
  lemma WrapIsHarmlessExactly(interval: nat, gap: nat)
    requires interval < U32
    ensures (forall times :: Paced(times, gap) ==> OnTime(times, interval)) <==> interval + gap < U32
  {
    if interval + gap < U32 {
      forall times | Paced(times, gap) ensures OnTime(times, interval) {
        WrapIsHarmless(times, interval, gap);
      }
    } else {
      MissedToggle(interval, gap);
    }
  }

  // ----- the toggles of the code

  /** The code toggles the pin at the last of these polls. */
  predicate TogglesNow(times: seq<nat>, interval: nat) {
    times != [] && Polled(times, interval).lit != Polled(times[..|times| - 1], interval).lit
  }

  /** How often the code has toggled the pin. */
  function Toggles(times: seq<nat>, interval: nat): nat {
    if times == [] then 0
    else Toggles(times[..|times| - 1], interval) + if TogglesNow(times, interval) then 1 else 0
  }

  /** True time of the last toggle of the pin, or of the start. */
  function LastToggle(times: seq<nat>, interval: nat): nat {
    if times == [] then 0
    else if TogglesNow(times, interval) then times[|times| - 1]
    else LastToggle(times[..|times| - 1], interval)
  }

  /** The pin changes when the ideal LED is toggled. */
  lemma ToggleIsCounted(m: Ideal, now: nat, interval: nat)
    ensures var k := PollIdeal(m, now, interval);
            if Seen(k).lit != Seen(m).lit then k == Ideal(now, m.count + 1) else k == m
  {
    hide Wrap32;
  }

  /** Where the wrap is harmless, what the pin does is what the ideal LED does. */
  lemma {:induction false} TogglesAreIdeal(times: seq<nat>, interval: nat, gap: nat)
    requires Paced(times, gap) && interval + gap < U32
    ensures PolledIdeal(times, interval) == Ideal(LastToggle(times, interval), Toggles(times, interval))
    decreases |times|
  {
    if times != [] {
      hide Poll, PollIdeal, Polled, Seen, Paced;
      var n := |times| - 1;
      PacedPrefix(times, gap, n);
      TogglesAreIdeal(times[..n], interval, gap);
      WrapIsHarmless(times[..n], interval, gap);
      WrapIsHarmless(times, interval, gap);
      ToggleIsCounted(PolledIdeal(times[..n], interval), times[n], interval);
    }
  }

  /** At the last poll: the pin was toggled at most `interval` ticks ago, and if it is toggled now, then the
      toggle before was more than `interval` and at most `interval + gap` ticks ago. */
  predicate Spaced(times: seq<nat>, interval: nat, gap: nat) {
    && LastToggle(times, interval) <= Before(times, |times|) <= LastToggle(times, interval) + interval
    && (TogglesNow(times, interval) ==>
          interval < times[|times| - 1] - LastToggle(times[..|times| - 1], interval) <= interval + gap)
  }

  lemma {:induction false} Spacing(times: seq<nat>, interval: nat, gap: nat)
    requires Paced(times, gap) && interval + gap < U32
    ensures Spaced(times, interval, gap)
  {
    TogglesAreIdeal(times, interval, gap);
    IdealSpacing(times, interval, gap);
    if times != [] {
      PacedPrefix(times, gap, |times| - 1);
      TogglesAreIdeal(times[..|times| - 1], interval, gap);
    }
  }

  lemma {:induction false} NoTogglesIn(n: nat, interval: nat)
    requires n <= interval < U32
    ensures Toggles(EveryTick(n), interval) == 0 && LastToggle(EveryTick(n), interval) == 0
  {
    NoToggleYet(n, interval);
    if n == 0 {
      assert EveryTick(n)[..0] == [];
    } else {
      assert EveryTick(n)[..n] == EveryTick(n - 1);
      NoToggleYet(n - 1, interval);
      NoTogglesIn(n - 1, interval);
    }
  }

  /** In the run of `MissedToggle` the pin is never toggled, although 2^32 ticks have passed. */
  lemma NeverToggled(interval: nat, gap: nat)
    requires interval < U32 <= interval + gap
    ensures var t := EveryTick(interval) + [U32];
            Paced(t, gap) && Before(t, |t|) == U32 && Toggles(t, interval) == 0 && LastToggle(t, interval) == 0
  {
    hide Paced, Polled, Poll, EveryTick;
    LatePoll(interval, gap);
    LatePollIgnored(interval);
    NoTogglesIn(interval, interval);
  }

  /** The code keeps the spacing on every sequence of polls at most `gap` ticks apart if and only if interval
      and gap together stay below 2^32. */
  lemma SpacingExactly(interval: nat, gap: nat)
    requires interval < U32
    ensures (forall times :: Paced(times, gap) ==> Spaced(times, interval, gap)) <==> interval + gap < U32
  {
    if interval + gap < U32 {
      forall times | Paced(times, gap) ensures Spaced(times, interval, gap) {
        Spacing(times, interval, gap);
      }
    } else {
      NeverToggled(interval, gap);
      assert !Spaced(EveryTick(interval) + [U32], interval, gap);
    }
  }

  // ----- how often it toggles

  ghost predicate Rate(m: Ideal, k: Ideal, interval: nat, gap: nat) {
    var n := k.count - m.count;
    0 <= n && n * (interval + 1) <= k.last - m.last <= n * (interval + gap)
  }

  lemma OneToggleMore(m: Ideal, j: Ideal, k: Ideal, interval: nat, gap: nat)
    requires Rate(m, j, interval, gap)
    requires k.count == j.count + 1 && interval < k.last - j.last <= interval + gap
    ensures Rate(m, k, interval, gap)
  {
    var n := j.count - m.count;
    assert (n + 1) * (interval + 1) == n * (interval + 1) + (interval + 1);
    assert (n + 1) * (interval + gap) == n * (interval + gap) + (interval + gap);
  }

  lemma {:induction false} CountBetween(times: seq<nat>, a: nat, interval: nat, gap: nat)
    requires Paced(times, gap) && a <= |times|
    ensures Rate(PolledIdeal(times[..a], interval), PolledIdeal(times, interval), interval, gap)
    decreases |times|
  {
    if a == |times| {
      assert times[..a] == times;
    } else {
      hide Rate;
      var n := |times| - 1;
      PacedPrefix(times, gap, n);
      CountBetween(times[..n], a, interval, gap);
      assert times[..n][..a] == times[..a];
      IdealSpacing(times, interval, gap);
      var m, j, k := PolledIdeal(times[..a], interval), PolledIdeal(times[..n], interval), PolledIdeal(times, interval);
      if k != j {
        OneToggleMore(m, j, k, interval, gap);
      }
    }
  }

  /** Between the `a`-th poll and the last one, `T` ticks later, the code toggles the pin `n` times with
      n * (interval + 1) <= T + interval and T <= n * (interval + gap) + interval. */
  predicate AtRate(times: seq<nat>, a: nat, interval: nat, gap: nat)
    requires a <= |times|
  {
    var n := Toggles(times, interval) - Toggles(times[..a], interval);
    var ticks := Before(times, |times|) - Before(times, a);
    0 <= n && n * (interval + 1) <= ticks + interval && ticks <= n * (interval + gap) + interval
  }

  lemma {:induction false} BlinkRate(times: seq<nat>, a: nat, interval: nat, gap: nat)
    requires Paced(times, gap) && interval + gap < U32 && a <= |times|
    ensures AtRate(times, a, interval, gap)
  {
    hide Polled, PolledIdeal, TogglesNow, Toggles, LastToggle;
    CountBetween(times, a, interval, gap);
    PacedPrefix(times, gap, a);
    IdealSpacing(times[..a], interval, gap);
    assert Before(times[..a], a) == Before(times, a);
    IdealSpacing(times, interval, gap);
    TogglesAreIdeal(times, interval, gap);
    TogglesAreIdeal(times[..a], interval, gap);
  }

  lemma OffRate(times: seq<nat>, interval: nat, gap: nat)
    requires Toggles(times, interval) == 0 && interval < Before(times, |times|)
    ensures !AtRate(times, 0, interval, gap)
  {
    assert times[..0] == [];
    assert Toggles([], interval) == 0;
  }

  /** The code keeps the rate between any two polls of every sequence of polls at most `gap` ticks apart if
      and only if interval and gap together stay below 2^32. */
  lemma BlinkRateExactly(interval: nat, gap: nat)
    requires interval < U32
    ensures (forall times, a: nat :: Paced(times, gap) && a <= |times| ==> AtRate(times, a, interval, gap))
            <==> interval + gap < U32
  {
    if interval + gap < U32 {
      forall times, a: nat | Paced(times, gap) && a <= |times| ensures AtRate(times, a, interval, gap) {
        BlinkRate(times, a, interval, gap);
      }
    } else {
      hide AtRate, Paced;
      NeverToggled(interval, gap);
      OffRate(EveryTick(interval) + [U32], interval, gap);
    }
  }
}
