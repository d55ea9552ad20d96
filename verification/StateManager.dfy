/** The factory application's state manager task: a FreeRTOS notification sent by the button interrupt,
    against the state manager that waits for it. */
module StateManager {

  const USER_EVENT_DETECT_FLAG := 1

  datatype Pc =
    | Init           // before the button event is enabled
    | StartLed       // led_task_init
    | AtWait         // about to call xTaskNotifyWait
    | Blocked        // inside it, with nothing to report
    | Woken(passed: bool, notified: nat)   // it returned this result and this value
    | InitNetwork    // about to call network_init
    | Finishing      // network_init has returned
    | Deleted

  /** `value` and `received` are its notification value and state; `presses` counts the interrupts
      taken and `networkInits` the calls of network_init. */
  datatype State = State(pc: Pc, eventOn: bool, value: nat, received: bool, presses: nat, networkInits: nat)

  datatype Event =
    | Go       // the state manager runs on
    | Press    // the button
    | Timeout  // the wait gives up (never with portMAX_DELAY, but the code is prepared for it)

  /** xTaskNotifyFromISR with eSetBits. */
  function SetBit0(v: nat): nat {
    if v % 2 == 1 then v else v + 1
  }

  /** The code's test, `notified_val && USER_EVENT_DETECT_FLAG`. */
  predicate LogicalTest(v: nat) {
    v != 0 && USER_EVENT_DETECT_FLAG != 0
  }

  /** The test its comment describes: is the first bit set? */
  predicate BitTest(v: nat) {
    v % 2 == 1
  }

  const START := State(Init, false, 0, false, 0, 0)

  function Next(s: State): State {
    match s.pc
    case Init => s.(pc := StartLed, eventOn := true)
    case StartLed => s.(pc := AtWait)
    case AtWait =>
      // no bits are cleared on entry; all bits are cleared on exit
      if s.received then s.(pc := Woken(true, s.value), value := 0, received := false) else s.(pc := Blocked)
    case Blocked => s
    case Woken(passed, v) => if passed && LogicalTest(v) then s.(pc := InitNetwork) else s.(pc := AtWait)
    case InitNetwork => s.(pc := Finishing, networkInits := s.networkInits + 1)
    case Finishing => s.(pc := Deleted)
    case Deleted => s
  }

  function Step(s: State, e: Event): State {
    match e
    case Go => Next(s)
    case Press =>
      if s.eventOn && !s.pc.Deleted? then
        var t := s.(value := SetBit0(s.value), presses := s.presses + 1);
        if s.pc.Blocked? then t.(pc := Woken(true, t.value), value := 0, received := false) else t.(received := true)
      else s
    case Timeout => if s.pc.Blocked? then s.(pc := Woken(false, s.value)) else s
  }

  function Run(s: State, evs: seq<Event>): State {
    if evs == [] then s else Step(Run(s, evs[..|evs| - 1]), evs[|evs| - 1])
  }

  predicate Done(pc: Pc) {
    pc.Finishing? || pc.Deleted?
  }

  /** A press has been taken out of the notification and passed the test, or is about to. */
  predicate Heard(pc: Pc) {
    (pc.Woken? && pc.passed) || pc.InitNetwork? || Done(pc)
  }

  /** The notification value is the flag exactly while a notification is outstanding; a press is either
      outstanding, on its way through the test, or has already led to the network; and the network is
      initialised once, by the step that passes InitNetwork. */
  ghost predicate Inv(s: State) {
    && s.value == (if s.received then USER_EVENT_DETECT_FLAG else 0)
    && (s.pc.Woken? ==> s.pc.notified == (if s.pc.passed then USER_EVENT_DETECT_FLAG else 0))
    && (s.pc.Blocked? ==> !s.received)
    && s.networkInits == (if Done(s.pc) then 1 else 0)
    && (s.presses == 0 <==> !(s.received || Heard(s.pc)))
    && (s.pc.Init? <==> !s.eventOn)
  }

  lemma InvStep(s: State, e: Event)
    requires Inv(s)
    ensures Inv(Step(s, e))
  {
  }

  lemma {:induction false} InvRun(evs: seq<Event>)
    ensures Inv(Run(START, evs))
    decreases |evs|
  {
    if evs != [] {
      InvRun(evs[..|evs| - 1]);
      InvStep(Run(START, evs[..|evs| - 1]), evs[|evs| - 1]);
    }
  }

  /** On every value a notification can deliver, the code's logical test is the bit test; and the network
      is initialised at most once, and only after a press. */
  lemma {:induction false} SafeInEveryInterleaving(evs: seq<Event>)
    ensures var t := Run(START, evs);
            && (t.pc.Woken? ==> LogicalTest(t.pc.notified) == BitTest(t.pc.notified))
            && t.networkInits <= 1
            && (t.networkInits == 1 || t.pc.InitNetwork? ==> 1 <= t.presses)
  {
    InvRun(evs);
  }

  /** The two tests agree on exactly these values; a second notification bit would tell them apart. */
  lemma TestsAgreeExactly(v: nat)
    ensures LogicalTest(v) == BitTest(v) <==> v == 0 || v % 2 == 1
  {
  }

  /** The button was pressed after the event was enabled, by the first step of the state manager. */
  ghost predicate PressedWhileEnabled(evs: seq<Event>) {
    exists i, j :: 0 <= i < j < |evs| && evs[i] == Go && evs[j] == Press
  }

  /** A press counts if and only if it comes after the event was enabled and before the state manager has
      ended. */
  lemma {:induction false} PressesCounted(evs: seq<Event>)
    ensures Run(START, evs).eventOn <==> Go in evs
    ensures 1 <= Run(START, evs).presses ==> PressedWhileEnabled(evs)
    ensures PressedWhileEnabled(evs) ==> 1 <= Run(START, evs).presses
    decreases |evs|
  {
    if evs != [] {
      var n := |evs| - 1;
      var pre := evs[..n];
      PressesCounted(pre);
      InvRun(pre);
      assert evs == pre + [evs[n]];
    }
  }

  // ----- no press is lost

  /** Steps of its own the state manager still needs to reach its end, once a press has been taken. */
  function Rank(pc: Pc): nat {
    match pc
    case Init => 9
    case StartLed => 8
    case Blocked => 7
    case Woken(passed, _) => if passed then 4 else 6
    case AtWait => 5
    case InitNetwork => 3
    case Finishing => 2
    case Deleted => 1
  }

  function GoCount(evs: seq<Event>): nat {
    if evs == [] then 0 else GoCount(evs[..|evs| - 1]) + if evs[|evs| - 1].Go? then 1 else 0
  }

  /** A press has been taken, so the state manager is never blocked again and every step of its own brings it nearer
      to its end. */
  lemma PressedStep(s: State, e: Event)
    requires Inv(s) && 1 <= s.presses
    ensures var t := Step(s, e);
            && Inv(t) && 1 <= t.presses && Rank(t.pc) <= Rank(s.pc)
            && (e.Go? && !s.pc.Deleted? ==> Rank(t.pc) < Rank(s.pc))
  {
  }

  lemma {:induction false} PressedRun(s: State, evs: seq<Event>)
    requires Inv(s) && 1 <= s.presses
    ensures var t := Run(s, evs);
            && Inv(t) && 1 <= t.presses && Rank(t.pc) <= Rank(s.pc)
            && (Rank(t.pc) + GoCount(evs) <= Rank(s.pc) || t.pc.Deleted?)
    decreases |evs|
  {
    if evs != [] {
      PressedRun(s, evs[..|evs| - 1]);
      PressedStep(Run(s, evs[..|evs| - 1]), evs[|evs| - 1]);
    }
  }

  lemma {:induction false} RunAppend(s: State, a: seq<Event>, b: seq<Event>)
    ensures Run(s, a + b) == Run(Run(s, a), b)
    decreases |b|
  {
    if b == [] {
      assert a + b == a;
    } else {
      assert (a + b)[..|a + b| - 1] == a + b[..|b| - 1];
      RunAppend(s, a, b[..|b| - 1]);
    }
  }

  /** In every interleaving: once a press has been taken (anywhere after the event is enabled, also before it
      first waits), eight steps of the state manager, with whatever presses and time-outs in between, initialise
      the network exactly once and end it. Further presses change nothing. */
  lemma {:induction false} NoPressIsLost(before: seq<Event>, after: seq<Event>)
    requires 1 <= Run(START, before).presses && 8 <= GoCount(after)
    ensures var t := Run(START, before + after); t.pc.Deleted? && t.networkInits == 1
  {
    InvRun(before);
    PressedRun(Run(START, before), after);
    RunAppend(START, before, after);
  }

  /** Without a press the state manager only waits. */
  lemma {:induction false} NothingWithoutPress(evs: seq<Event>)
    ensures Run(START, evs).presses == 0 ==> Run(START, evs).networkInits == 0
    ensures (forall i :: 0 <= i < |evs| ==> evs[i] != Press) ==> Run(START, evs).presses == 0
  {
    InvRun(evs);
    if forall i :: 0 <= i < |evs| ==> evs[i] != Press {
      NoPresses(evs);
    }
  }

  lemma {:induction false} NoPresses(evs: seq<Event>)
    requires forall i :: 0 <= i < |evs| ==> evs[i] != Press
    ensures Run(START, evs).presses == 0
    decreases |evs|
  {
    if evs != [] {
      NoPresses(evs[..|evs| - 1]);
    }
  }

  // ----- the code of state_mgr.c

  /** What happens around one call of xTaskNotifyWait: whether the button is pressed (any number of times)
      before it, and whether a press or a time-out ends it. */
  datatype Wait = Wait(pressesBefore: nat, endedByPress: bool)

  class Task {
    var eventOn: bool
    var value: nat
    var received: bool
    var networkInits: nat
    var waiting: bool           // inside xTaskNotifyWait, with nothing to report yet
    var delivered: nat          // the value the kernel hands to a wait that a press has ended
    ghost var evs: seq<Event>   // the steps taken so far

    constructor ()
      ensures Valid() && evs == []
    {
      eventOn, value, received, networkInits, waiting, delivered, evs := false, 0, false, 0, false, 0, [];
    }

    /** The fields hold what the machine holds after the steps taken so far. */
    ghost predicate Valid()
      reads this
    {
      var s := Run(START, evs);
      && s.eventOn == eventOn && s.value == value && s.received == received && s.networkInits == networkInits
      && (s.pc.Blocked? <==> waiting)
    }

    ghost function At(): Pc
      reads this
    {
      Run(START, evs).pc
    }

    /** The interrupt handler. It sets the bit; if the state manager is waiting, the kernel ends the wait with
        the value and clears it, and otherwise the notification stays outstanding. */
    method UserButtonCallback()
      requires Valid() && eventOn && !At().Deleted?
      modifies this`value, this`received, this`waiting, this`delivered, this`evs
      ensures Valid() && !waiting && evs == old(evs) + [Press]
      ensures Run(START, evs).presses == old(Run(START, evs).presses) + 1
      ensures if old(waiting) then At() == Woken(true, delivered) && delivered == SetBit0(old(value)) && !received
              else At() == old(At()) && received && value == SetBit0(old(value))
    {
      value := SetBit0(value);
      received := true;
      if waiting {
        delivered := value;
        value, received, waiting := 0, false, false;
      }
      evs := evs + [Press];
    }

    /** xTaskNotifyWait(0, ULONG_MAX, &notified, portMAX_DELAY). */
    method NotifyWait(endedByPress: bool) returns (passed: bool, notified: nat)
      requires Valid() && At().AtWait? && eventOn
      modifies this`value, this`received, this`waiting, this`delivered, this`evs
      ensures Valid() && At() == Woken(passed, notified)
      ensures (passed <==> old(received) || endedByPress) && !received
      ensures old(evs) <= evs
      ensures Run(START, evs).presses == old(Run(START, evs).presses) + if !old(received) && endedByPress then 1 else 0
    {
      InvRun(evs);
      evs := evs + [Go];
      if received {
        passed, notified := true, value;
        value, received := 0, false;
      } else {
        waiting := true;
        if endedByPress {
          UserButtonCallback();
          passed, notified := true, delivered;
        } else {
          waiting := false;
          evs := evs + [Timeout];
          passed, notified := false, value;
        }
      }
    }

    ghost method Goes()
      modifies this`evs
      ensures evs == old(evs) + [Go] && Run(START, evs) == Next(old(Run(START, evs)))
      ensures Run(START, evs).presses == old(Run(START, evs)).presses
    {
      evs := evs + [Go];
    }

    /** The button is pressed `n` times while the state manager gets ready to wait. */
    method PressMany(n: nat)
      requires Valid() && eventOn && At().AtWait? && !received && networkInits == 0
      modifies this`value, this`received, this`waiting, this`delivered, this`evs
      ensures Valid() && At() == old(At()) && received == (0 < n)
      ensures Run(START, evs).presses == old(Run(START, evs).presses) + n
    {
      hide Run, Next, SetBit0;
      for i := 0 to n
        invariant Valid() && At() == old(At())
        invariant received <==> 0 < i
        invariant Run(START, evs).presses == old(Run(START, evs).presses) + i
      {
        UserButtonCallback();
      }
    }

    /** One turn of the wait loop: wait, and look at what came. */
    method WaitOnce(wait: Wait) returns (detected: bool)
      requires Valid() && eventOn && At().AtWait? && !received && networkInits == 0
      modifies this`value, this`received, this`waiting, this`delivered, this`evs
      ensures Valid() && !received && At() == if detected then InitNetwork else AtWait
      ensures detected <==> wait.pressesBefore > 0 || wait.endedByPress
      ensures Run(START, evs).presses == old(Run(START, evs).presses) +
                if wait.pressesBefore > 0 then wait.pressesBefore else if wait.endedByPress then 1 else 0
    {
      hide Run;
      PressMany(wait.pressesBefore);
      var passed, notified := NotifyWait(wait.endedByPress);
      InvRun(evs);
      detected := passed && LogicalTest(notified);
      Goes();
      InvRun(evs);
    }

    /** The wait loop of state_mgr. `waits` is what the environment does; if it runs out, the state manager is
        still waiting. */
    method WaitForPress(waits: seq<Wait>) returns (detected: bool)
      requires Valid() && eventOn && At().AtWait? && !received && networkInits == 0
      modifies this`value, this`received, this`waiting, this`delivered, this`evs
      ensures Valid() && !received && At() == if detected then InitNetwork else AtWait
      ensures detected <==> exists k :: 0 <= k < |waits| && (waits[k].pressesBefore > 0 || waits[k].endedByPress)
    {
      hide Run;
      detected := false;
      var k := 0;
      while k < |waits|
        invariant 0 <= k <= |waits| && Valid() && !detected && At().AtWait? && !received
        invariant forall j :: 0 <= j < k ==> waits[j].pressesBefore == 0 && !waits[j].endedByPress
      {
        detected := WaitOnce(waits[k]);
        if detected {
          break;
        }
        k := k + 1;
      }
    }

    /** state_mgr: the network is initialised if and only if the button was pressed. */
    method StateMgr(waits: seq<Wait>) returns (finished: bool)
      requires Valid() && evs == []
      modifies this
      ensures Valid() && (finished ==> At().Deleted? && networkInits == 1) && (!finished ==> networkInits == 0)
      ensures finished <==> exists k :: 0 <= k < |waits| && (waits[k].pressesBefore > 0 || waits[k].endedByPress)
    {
      assert Run(START, []) == START;
      hide Run;
      eventOn := true;
      Goes();
      Goes();
      finished := WaitForPress(waits);
      if finished {
        networkInits := networkInits + 1;
        Goes();
        Goes();
      }
    }
  }
}
