/** Safety of whole runs: the button latch, the upgrade request, and the response CM4 is started with. */
module BootSafety {
  import opened Memory
  import opened BootMachine
  import opened BootInvariants

  // ----- the button latch

  predicate Waiting(pc: Pc) {
    pc.BeforeWfi? || pc.Asleep? || pc.CheckFlag?
  }

  /** The interrupt is armed exactly from the wait loop to its disarming, and the flag is set only by it. */
  predicate Latch(s: State) {
    && (s.irqOn <==> Waiting(s.pc) || s.pc.DisableIrq?)
    && (s.pc.DisableIrq? || s.pc.ClearFlag? ==> s.flag)
    && (s.flag ==> s.irqOn || s.pc.ClearFlag?)
    && (Starting(s.pc) ==> !s.held)
  }

  /** Once boot_go has run, no upgrade request is left until an application runs. */
  predicate NoRequest(s: State) {
    s.flash.pending ==> s.pc.Reset? || s.pc.BootGo? || s.pc.Running? || s.pc.Halted?
  }

  /** A response about to be used, or in use, describes the primary slot as it is now, and that content
      is valid. */
  ghost predicate Fresh(c: Config, s: State) {
    match s.pc
    case ReadButton => s.rsp == Some(Response(c, s.flash)) && c.valid(Primary(c, s.flash))
    case StartCM4(r) => r == Response(c, s.flash) && c.valid(Primary(c, s.flash))
    case Running(r) => r == Response(c, s.flash) && c.valid(Primary(c, s.flash))
    case _ => true
  }

  ghost predicate Sane(c: Config, s: State) {
    Latch(s) && NoRequest(s) && (c.halts ==> Fresh(c, s))
  }

  lemma StartSane(c: Config, s: State, ok: bool)
    requires Sane(c, s) && Starting(s.pc)
    ensures Sane(c, GoStart(c, s, ok))
  {
    hide Response, Primary, Incoming, WithPrimary;
  }

  lemma PrepareSane(c: Config, s: State, ok: bool)
    requires Sane(c, s) && Preparing(s.pc)
    ensures Sane(c, GoPrepare(c, s, ok))
  {
    hide Response, Primary, MagicOk;
  }

  lemma CopySane(c: Config, s: State, ok: bool)
    requires Sane(c, s) && Copying(s.pc)
    ensures Sane(c, GoCopy(c, s, ok))
  {
    hide Response, Primary, Patch, ReadAt;
  }

  lemma FinishSane(c: Config, s: State)
    requires Sane(c, s) && !Starting(s.pc) && !Preparing(s.pc) && !Copying(s.pc)
    ensures Sane(c, GoFinish(c, s))
  {
    hide Response, Primary, Incoming, WithPrimary;
  }

  lemma NextSane(c: Config, s: State, ok: bool)
    requires Sane(c, s)
    ensures Sane(c, Next(c, s, ok))
  {
    hide Sane, GoStart, GoPrepare, GoCopy, GoFinish;
    if Starting(s.pc) {
      StartSane(c, s, ok);
    } else if Preparing(s.pc) {
      PrepareSane(c, s, ok);
    } else if Copying(s.pc) {
      CopySane(c, s, ok);
    } else {
      FinishSane(c, s);
    }
  }

  lemma EventSane(c: Config, s: State, e: Event)
    requires Sane(c, s) && !e.Go? && !PowerLoss(e) && !e.Ota?
    ensures Sane(c, Step(c, s, e))
  {
    hide Response, Primary, Patch, ReadAt;
  }

  lemma OtaSane(c: Config, s: State, image: seq<Byte>)
    requires Sane(c, s)
    ensures Sane(c, Step(c, s, Ota(image)))
  {
    hide Patch, ReadAt;
  }

  lemma PowerSane(c: Config, s: State, e: Event)
    requires PowerLoss(e)
    ensures Sane(c, Step(c, s, e)) && Step(c, s, e) == Off(Step(c, s, e))
  {
    hide Response, Primary, Patch, ReadAt, UpgradeDue;
  }

  lemma SaneStep(c: Config, s: State, e: Event)
    requires Sane(c, s)
    ensures Sane(c, Step(c, s, e))
  {
    hide Sane, Next;
    match e {
      case Go(ok) => NextSane(c, s, ok);
      case Ota(image) => OtaSane(c, s, image);
      case EraseRow(_) => EventSane(c, s, e);
      case Button(_) => EventSane(c, s, e);
      case Isr => EventSane(c, s, e);
      case Wake => EventSane(c, s, e);
      case _ => PowerSane(c, s, e);
    }
  }

  lemma {:induction false} SaneRun(c: Config, s: State, evs: seq<Event>)
    requires Sane(c, s)
    ensures Sane(c, Run(c, s, evs))
    decreases |evs|
  {
    if evs != [] {
      hide Sane, Step;
      SaneRun(c, s, evs[..|evs| - 1]);
      SaneStep(c, Run(c, s, evs[..|evs| - 1]), evs[|evs| - 1]);
    }
  }

  lemma OffSane(c: Config, s: State)
    requires s == Off(s)
    ensures Sane(c, s)
  {
  }

  /** The button interrupt was taken while it was armed. */
  ghost predicate Heard(c: Config, s: State, evs: seq<Event>) {
    exists i :: 0 <= i < |evs| && evs[i] == Isr && Run(c, s, evs[..i]).irqOn
  }

  lemma {:induction false} HeardLater(c: Config, s: State, evs: seq<Event>)
    requires evs != [] && Heard(c, s, evs[..|evs| - 1])
    ensures Heard(c, s, evs)
  {
    var pre := evs[..|evs| - 1];
    var i :| 0 <= i < |pre| && pre[i] == Isr && Run(c, s, pre[..i]).irqOn;
    assert pre[..i] == evs[..i] && evs[i] == Isr;
  }

  /** A step that sets the flag is the button interrupt while it is armed; a step that enters a rollback
      from the wait loop finds the flag set. */
  lemma FlagSetBy(c: Config, s: State, e: Event)
    requires Sane(c, s) && !PowerLoss(e)
    ensures Step(c, s, e).flag ==> s.flag || (e == Isr && s.irqOn)
    ensures RollingBack(Step(c, s, e).pc) && !Step(c, s, e).held ==> s.flag || (RollingBack(s.pc) && !s.held)
  {
    hide Upgrade, Response, Primary, WithRow, WithPrimary, MagicOk, ReadAt, Fresh;
    if e.Go? {
      if Starting(s.pc) {
      } else if Preparing(s.pc) {
      } else if Copying(s.pc) {
      }
    }
  }

  lemma StartsQuiet(s: State)
    requires s == Off(s)
    ensures !s.flag && !RollingBack(s.pc)
  {
  }

  lemma LatchFacts(c: Config, s: State)
    requires Sane(c, s)
    ensures s.pc.DisableIrq? || s.pc.ClearFlag? ==> s.flag
    ensures RollingBack(s.pc) || s.pc.StartCM4? || s.pc.Running? ==> !s.flag && !s.irqOn
  {
    hide Fresh, NoRequest;
  }

  /** In every power cycle and every interleaving: if the flag is set, or a rollback was entered through
      the wait loop, then the button interrupt ran while it was armed; and once the loop is left and the
      flag cleared, the flag and the interrupt stay off for the rest of the cycle. */
  lemma {:induction false} LoopLeftOnlyOnPress(c: Config, s: State, evs: seq<Event>)
    requires s == Off(s) && NoPowerLoss(evs)
    ensures var t := Run(c, s, evs);
            && (t.flag || t.pc.DisableIrq? || t.pc.ClearFlag? ==> Heard(c, s, evs))
            && (RollingBack(t.pc) && !t.held ==> Heard(c, s, evs))
            && (RollingBack(t.pc) || t.pc.StartCM4? || t.pc.Running? ==> !t.flag && !t.irqOn)
    decreases |evs|
  {
    hide Sane, RollingBack, Step;
    OffSane(c, s);
    SaneRun(c, s, evs);
    LatchFacts(c, Run(c, s, evs));
    if evs == [] {
      StartsQuiet(s);
    } else {
      var pre, e := evs[..|evs| - 1], evs[|evs| - 1];
      LoopLeftOnlyOnPress(c, s, pre);
      SaneRun(c, s, pre);
      FlagSetBy(c, Run(c, s, pre), e);
      if Heard(c, s, pre) {
        HeardLater(c, s, evs);
      } else if e == Isr && Run(c, s, pre).irqOn {
        assert evs[|evs| - 1] == Isr && Run(c, s, evs[..|evs| - 1]).irqOn;
      }
    }
  }

  /** main read the button as held. */
  ghost predicate ReadHeld(c: Config, s: State, evs: seq<Event>) {
    exists i :: 0 <= i < |evs| && HoldsAt(Run(c, s, evs[..i]), evs[i])
  }

  predicate HoldsAt(s: State, e: Event) {
    e == Button(true) && s.pc.ReadButton? && s.rsp.Some?
  }

  lemma {:induction false} ReadHeldUnfolds(c: Config, s: State, evs: seq<Event>)
    requires evs != []
    ensures var n := |evs| - 1;
            ReadHeld(c, s, evs) <==> ReadHeld(c, s, evs[..n]) || HoldsAt(Run(c, s, evs[..n]), evs[n])
  {
    hide Step, HoldsAt;
    var n := |evs| - 1;
    var pre := evs[..n];
    forall i | 0 <= i < n ensures pre[..i] == evs[..i] && pre[i] == evs[i] {
    }
    if ReadHeld(c, s, pre) {
      var i :| 0 <= i < |pre| && HoldsAt(Run(c, s, pre[..i]), pre[i]);
      assert HoldsAt(Run(c, s, evs[..i]), evs[i]);
    }
  }

  lemma HeldSetBy(c: Config, s: State, e: Event)
    requires Latch(s) && !PowerLoss(e)
    ensures Step(c, s, e).held <==> s.held || HoldsAt(s, e)
  {
    hide Upgrade, Response, Primary, WithRow, WithPrimary, MagicOk, ReadAt;
    if e.Go? {
      if Starting(s.pc) {
      } else if Preparing(s.pc) {
      } else if Copying(s.pc) {
      }
    }
  }

  /** `held` says whether main read the button as held in this power cycle. */
  lemma {:induction false} HeldExactly(c: Config, s: State, evs: seq<Event>)
    requires s == Off(s) && NoPowerLoss(evs)
    ensures Run(c, s, evs).held <==> ReadHeld(c, s, evs)
    decreases |evs|
  {
    if evs != [] {
      hide Step, Fresh, NoRequest, ReadHeld, HoldsAt;
      HeldExactly(c, s, evs[..|evs| - 1]);
      OffSane(c, s);
      SaneRun(c, s, evs[..|evs| - 1]);
      HeldSetBy(c, Run(c, s, evs[..|evs| - 1]), evs[|evs| - 1]);
      ReadHeldUnfolds(c, s, evs);
    }
  }

  /** At some point of the run the CPU was woken from WFI. */
  ghost predicate Woken(c: Config, s: State, evs: seq<Event>) {
    exists i :: 0 <= i < |evs| && (evs[i] == Wake || evs[i] == Isr) && Run(c, s, evs[..i]).pc.Asleep?
  }

  lemma {:induction false} WokenNow(c: Config, s: State, evs: seq<Event>)
    requires evs != [] && Woken(c, s, evs)
    ensures var n := |evs| - 1;
            Woken(c, s, evs[..n]) || ((evs[n] == Wake || evs[n] == Isr) && Run(c, s, evs[..n]).pc.Asleep?)
  {
    hide Step;
    var n := |evs| - 1;
    var i :| 0 <= i < |evs| && (evs[i] == Wake || evs[i] == Isr) && Run(c, s, evs[..i]).pc.Asleep?;
    if i < n {
      var pre := evs[..n];
      assert pre[..i] == evs[..i] && pre[i] == evs[i];
    }
  }

  /** From a set flag on, the code in the wait loop only moves forward. */
  predicate Leaving(s: State) {
    && (Starting(s.pc) ==> Waiting(s.pc) || s.pc.DisableIrq? || s.pc.ClearFlag?)
    && (Waiting(s.pc) ==> s.flag)
  }

  lemma PrepareLeadsTo(c: Config, s: State, ok: bool)
    requires Preparing(s.pc)
    ensures var pc := GoPrepare(c, s, ok).pc; Preparing(pc) || pc.LoopHead? || pc.Transferred? || pc.Halted?
  {
    hide MagicOk;
  }

  lemma CopyLeadsTo(c: Config, s: State, ok: bool)
    requires Copying(s.pc)
    ensures var pc := GoCopy(c, s, ok).pc; Copying(pc) || pc.Transferred?
  {
    hide WithRow, ReadAt;
  }

  lemma NeverBack(c: Config, s: State, ok: bool)
    requires !Starting(s.pc)
    ensures !Starting(Next(c, s, ok).pc)
  {
    hide GoStart, GoPrepare, GoCopy, GoFinish;
    if Preparing(s.pc) {
      PrepareLeadsTo(c, s, ok);
    } else if Copying(s.pc) {
      CopyLeadsTo(c, s, ok);
    } else {
      FinishLeadsTo(c, s);
    }
  }

  lemma LeavingNext(c: Config, s: State, ok: bool)
    requires Leaving(s)
    ensures Leaving(Next(c, s, ok)) && !Next(c, s, ok).pc.BeforeWfi?
    ensures Next(c, s, ok).pc.Asleep? ==> s.pc.BeforeWfi? || s.pc.Asleep?
  {
    hide GoPrepare, GoCopy, GoFinish, Upgrade, Response, Primary;
    if !Starting(s.pc) {
      NeverBack(c, s, ok);
    }
  }

  lemma LeavingStep(c: Config, s: State, e: Event)
    requires Leaving(s) && Latch(s) && !PowerLoss(e)
    ensures Leaving(Step(c, s, e))
    ensures Step(c, s, e).pc.BeforeWfi? ==> s.pc.BeforeWfi?
    ensures Step(c, s, e).pc.Asleep? ==> s.pc.BeforeWfi? || (s.pc.Asleep? && e != Wake && e != Isr)
  {
    hide Next, WithRow, Patch;
    if e.Go? {
      LeavingNext(c, s, e.ok);
    }
  }

  /** Once the flag is set, the first wake-up from WFI leaves the loop for good, whatever comes in between. */
  lemma {:induction false} FirstWakeUpLeaves(c: Config, s: State, evs: seq<Event>)
    requires s.flag && Waiting(s.pc) && NoPowerLoss(evs)
    requires Sane(c, s)
    ensures var t := Run(c, s, evs);
            && Leaving(t)
            && (Woken(c, s, evs) ==> !t.pc.BeforeWfi? && !t.pc.Asleep?)
            && (t.pc.CheckFlag? ==> forall ok :: Step(c, t, Go(ok)).pc.DisableIrq?)
    decreases |evs|
  {
    if evs != [] {
      hide Next, Fresh;
      FirstWakeUpLeaves(c, s, evs[..|evs| - 1]);
      SaneRun(c, s, evs[..|evs| - 1]);
      LeavingStep(c, Run(c, s, evs[..|evs| - 1]), evs[|evs| - 1]);
      if Woken(c, s, evs) {
        WokenNow(c, s, evs);
      }
    }
    CheckLeaves(c, Run(c, s, evs));
  }

  lemma CheckLeaves(c: Config, s: State)
    requires Leaving(s)
    ensures s.pc.CheckFlag? ==> forall ok :: Step(c, s, Go(ok)).pc.DisableIrq?
  {
    hide Upgrade, Response;
  }

  function Gos(n: nat): seq<Event> {
    seq(n, _ => Go(true))
  }

  lemma MoreGos(c: Config, s: State, n: nat)
    ensures Run(c, s, Gos(n + 1)) == Step(c, Run(c, s, Gos(n)), Go(true))
  {
    assert Gos(n + 1)[..n] == Gos(n);
  }

  lemma {:induction false} SleepsOn(c: Config, s: State, n: nat)
    requires s.pc.BeforeWfi?
    ensures Waiting(Run(c, s, Gos(n)).pc)
    ensures n > 0 ==> Run(c, s, Gos(n)).pc.Asleep?
  {
    if n > 0 {
      SleepsOn(c, s, n - 1);
      MoreGos(c, s, n - 1);
    }
  }

  /** Exactly when a single press is not enough: it lands after the loop has looked at the flag and before
      the CPU is in WFI. Then, without another wake-up, the CPU sleeps on with the flag set. */
  lemma LostPressExactly(c: Config, s: State)
    requires s.irqOn && Waiting(s.pc)
    ensures (forall n :: Waiting(Run(c, Step(c, s, Isr), Gos(n)).pc)) <==> s.pc.BeforeWfi?
  {
    var t := Step(c, s, Isr);
    if s.pc.BeforeWfi? {
      forall n ensures Waiting(Run(c, t, Gos(n)).pc) {
        SleepsOn(c, t, n);
      }
    } else {
      MoreGos(c, t, 0);
      assert Run(c, t, Gos(0)) == t;
      assert Run(c, t, Gos(1)).pc.DisableIrq?;
    }
  }
}
