/** Which image one power cycle starts. */
module BootDecision {
  import opened Memory
  import opened BootMachine
  import opened BootInvariants
  import opened RollbackShape
  import opened BootSafety

  /** The primary slot as boot_go leaves it: a pending, valid upgrade comes first. */
  function Installed(c: Config, f: Flash): seq<Byte> {
    Primary(c, Upgrade(c, f))
  }

  /** The device asks for (or is asked for) a rollback: nothing valid is installed, or the button is held. */
  predicate WantsRollback(c: Config, f: Flash, held: bool) {
    held || !c.valid(Installed(c, f))
  }

  /** The image CM4 gets, as a function of the flash at reset and of the button; None if it gets none. */
  function Decision(c: Config, f: Flash, held: bool): Option<seq<Byte>> {
    if !WantsRollback(c, f, held) then Some(Installed(c, f))
    else if MagicOk(c, f) && c.valid(Factory(c, f)) then Some(Factory(c, f))
    else None
  }

  /** The driver and start-up calls all succeed and the power stays on. */
  ghost predicate FailureFree(evs: seq<Event>) {
    NoPowerLoss(evs) && forall i :: 0 <= i < |evs| && evs[i].Go? ==> evs[i].ok
  }

  function FailureCount(evs: seq<Event>): nat {
    if evs == [] then 0
    else FailureCount(evs[..|evs| - 1]) + if evs[|evs| - 1] == Go(false) then 1 else 0
  }

  lemma {:induction false} NoFailures(evs: seq<Event>)
    requires NoPowerLoss(evs)
    ensures FailureCount(evs) == 0 <==> FailureFree(evs)
    decreases |evs|
  {
    if evs != [] {
      NoFailures(evs[..|evs| - 1]);
      assert forall i :: 0 <= i < |evs| - 1 ==> evs[..|evs| - 1][i] == evs[i];
    }
  }

  lemma {:induction false} OneMore(evs: seq<Event>, e: Event)
    ensures FailureCount(evs + [e]) == FailureCount(evs) + if e == Go(false) then 1 else 0
  {
    assert (evs + [e])[..|evs|] == evs;
  }

  /** How far a power cycle that began with flash `f` has come. `clean` records that no call failed. */
  ghost predicate Cycle(c: Config, f: Flash, s: State, clean: bool) {
    match s.pc
    case Reset => s.flash == f && !s.held
    case BootGo => s.flash == f && !s.held
    case ReadButton =>
      s.flash == Upgrade(c, f) && c.valid(Installed(c, f)) && !s.held
      && s.rsp.Some? && s.rsp.value.image == Installed(c, f)
    case Open => s.held == c.valid(Installed(c, f))
    case ReadMagic => s.held == c.valid(Installed(c, f))
    case StartCM4(r) => Decision(c, f, s.held) == Some(r.image)
    case Running(r) => Decision(c, f, s.held) == Some(r.image)
    case Halted => clean ==> Decision(c, f, s.held) == None
    case _ =>
      if RollingBack(s.pc) then
        // the magic was found; without failures nothing but a complete transfer follows
        s.held == c.valid(Installed(c, f)) && MagicOk(c, f) && (clean ==> s.pc != Transferred(false))
      else
        Starting(s.pc) && !c.valid(Installed(c, f)) && !s.held
  }

  lemma StartCycle(c: Config, f: Flash, s: State, ok: bool, clean: bool)
    requires Cycle(c, f, s, clean) && Starting(s.pc) && c.halts
    requires clean ==> ok
    ensures Cycle(c, f, GoStart(c, s, ok), clean)
  {
    hide Upgrade, Factory, MagicOk, Primary;
  }

  lemma PrepareCycle(c: Config, f: Flash, s: State, ok: bool, clean: bool)
    requires Cycle(c, f, s, clean) && Preparing(s.pc) && c.halts
    requires WellFormed(c) && MagicOk(c, s.flash) == MagicOk(c, f)
    requires clean ==> ok
    ensures Cycle(c, f, GoPrepare(c, s, ok), clean)
  {
    hide Upgrade, Factory, MagicOk, Primary, Rows;
    AlignedExactly(SlotSize(c), c.rowSize);
  }

  lemma CopyCycle(c: Config, f: Flash, s: State, ok: bool, clean: bool)
    requires Cycle(c, f, s, clean) && Copying(s.pc)
    requires clean ==> ok
    ensures Cycle(c, f, GoCopy(c, s, ok), clean)
  {
    hide Installed, Factory, MagicOk, ReadAt, WithRow;
  }

  lemma FinishCycle(c: Config, f: Flash, s: State, clean: bool)
    requires Cycle(c, f, s, clean) && c.halts
    requires !Starting(s.pc) && !Preparing(s.pc) && !Copying(s.pc)
    requires s.pc.Validate? ==> Primary(c, Upgrade(c, s.flash)) == Factory(c, f)
    ensures Cycle(c, f, GoFinish(c, s), clean)
  {
    hide Installed, Factory, MagicOk, Upgrade, Primary;
  }

  lemma NextCycle(c: Config, f: Flash, s: State, ok: bool, clean: bool)
    requires Cycle(c, f, s, clean) && c.halts && (clean ==> ok)
    requires WellFormed(c) && MagicOk(c, s.flash) == MagicOk(c, f)
    requires s.pc.Validate? ==> Primary(c, Upgrade(c, s.flash)) == Factory(c, f)
    ensures Cycle(c, f, Next(c, s, ok), clean)
  {
    hide Cycle, MagicOk, Upgrade, Primary, Factory, GoStart, GoPrepare, GoCopy, GoFinish;
    if Starting(s.pc) {
      StartCycle(c, f, s, ok, clean);
    } else if Preparing(s.pc) {
      PrepareCycle(c, f, s, ok, clean);
    } else if Copying(s.pc) {
      CopyCycle(c, f, s, ok, clean);
    } else {
      FinishCycle(c, f, s, clean);
    }
  }

  lemma EventCycle(c: Config, f: Flash, s: State, e: Event, clean: bool)
    requires Cycle(c, f, s, clean) && !e.Go? && !PowerLoss(e)
    requires Sane(c, s)
    ensures Cycle(c, f, Step(c, s, e), clean)
  {
    hide Installed, MagicOk, Upgrade, Factory, Primary, Patch, WithRow, Fresh;
  }

  /** In rollback's boot_go nothing is pending any more, so it judges the copied factory image. */
  lemma ValidatesFactory(c: Config, s: State, t: State)
    requires WellFormed(c) && c.halts && Shape(c, t) && NoRequest(t) && t.pc.Validate?
    requires Factory(c, t.flash) == Factory(c, s.flash)
    ensures Primary(c, Upgrade(c, t.flash)) == Factory(c, s.flash)
  {
    CopiedAll(c, t.flash);
  }

  lemma {:induction false} CycleRun(c: Config, s: State, evs: seq<Event>, clean: bool)
    requires WellFormed(c) && c.halts && Shape(c, s) && s == Off(s) && NoPowerLoss(evs)
    requires clean ==> FailureFree(evs)
    ensures Cycle(c, s.flash, Run(c, s, evs), clean)
    decreases |evs|
  {
    if evs != [] {
      hide Cycle, Shape, Sane, Next, MagicOk, Factory, Primary, Upgrade;
      var pre, e := evs[..|evs| - 1], evs[|evs| - 1];
      var t := Run(c, s, pre);
      CycleRun(c, s, pre, clean);
      ShapeRun(c, s, pre);
      BaseFacts(c, s, pre);
      OffSane(c, s);
      SaneRun(c, s, pre);
      if e.Go? {
        if t.pc.Validate? {
          SaneParts(c, t);
          ValidatesFactory(c, s, t);
        }
        NextCycle(c, s.flash, t, e.ok, clean);
      } else {
        EventCycle(c, s.flash, t, e, clean);
      }
    }
  }

  lemma SaneParts(c: Config, s: State)
    requires Sane(c, s)
    ensures NoRequest(s)
  {
  }

  lemma {:induction false} BaseFacts(c: Config, s: State, evs: seq<Event>)
    requires WellFormed(c) && Shape(c, s)
    ensures Factory(c, Run(c, s, evs).flash) == Factory(c, s.flash)
    ensures MagicOk(c, Run(c, s, evs).flash) == MagicOk(c, s.flash)
  {
    BaseRun(c, s, evs);
  }
}
