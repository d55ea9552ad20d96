/** Promises that depend on how the bootloader is built, on what MCUboot checks, or on how the factory
    image was programmed; each with the exact condition under which it is kept. */
module BuildModes {
  import opened Memory
  import FlashMap
  import opened BootMachine
  import opened BootInvariants
  import opened CopyLoop
  import opened RollbackShape
  import opened BootSafety
  import opened BootDecision
  import opened BootRecovery
  import opened BootTheorems

  // ----- builds in which CY_ASSERT does nothing

  /** The row about to be programmed is blank. */
  ghost predicate ProgramsOnlyBlank(c: Config, s: State) {
    s.pc.WriteRow? ==> RowBlank(Primary(c, s.flash), s.primOff, c.rowSize, c.erased)
  }

  /** From the set-up of its cursors, the loop reaches the programming of row `o`, with every row before it
      copied and no other byte changed. */
  function CopyUpTo(c: Config, o: nat): seq<Event> {
    [Go(true)] + CopyAll(c.rowSize, o) + [Go(true), Go(true)]
  }

  lemma LoopSetUp(c: Config, s: State)
    requires Copyable(c) && Base(c, s) && s.pc.CopyInit?
    ensures var t := Run(c, s, [Go(true)]); LoopAt(c, t, t, 0)
  {
    hide Run;
    RunOne(c, s, Go(true));
    AlignedExactly(SlotSize(c), c.rowSize);
    PrepareStep(c, s, true);
  }

  lemma RowIsNext(c: Config, s: State)
    requires s.pc.LoopHead? && s.index < SlotSize(c)
    ensures var t := Run(c, s, [Go(true), Go(true)]); t.pc.WriteRow? && t.index == s.index
  {
    hide Run, ReadAt;
    Run2(c, s, Go(true), Go(true));
    assert Step(c, s, Go(true)) == s.(pc := ReadRow);
  }

  lemma {:induction false} NoPowerLossInCopy(rowSize: nat, size: nat)
    ensures NoPowerLoss(CopyAll(rowSize, size))
    decreases size
  {
    if size != 0 && rowSize != 0 && rowSize <= size {
      NoPowerLossInCopy(rowSize, size - rowSize);
    }
  }

  lemma ReachesRow(c: Config, s: State, o: nat)
    requires Copyable(c) && Base(c, s) && s.pc.CopyInit? && o in Rows(c)
    ensures var t := Run(c, s, CopyUpTo(c, o));
            t.pc.WriteRow? && t.primOff == o && t.flash == Overlaid(c, s.flash, o)
  {
    hide Run, Step, Base, Overlaid, EnterRollback, CopyAll;
    var init, copy, last := [Go(true)], CopyAll(c.rowSize, o), [Go(true), Go(true)];
    LoopSetUp(c, s);
    RunAppend(c, s, init, copy);
    var head := Run(c, s, init);
    CopyAllRuns(c, head, o);
    RunAppend(c, s, init + copy, last);
    RowIsNext(c, Run(c, s, init + copy));
    NoPowerLossInCopy(c.rowSize, o);
    BaseFits(c, s);
    CopyLoopRun(c, s, CopyUpTo(c, o));
  }

  /** Without assertions a wrong magic goes on to the copy loop, because the result variable still says
      success: nothing has been erased when a row is programmed. */
  lemma WrongMagicCopies(c: Config, s: State, o: nat)
    requires Copyable(c) && Base(c, s) && !c.halts && s.pc.Open? && !MagicOk(c, s.flash) && o in Rows(c)
    ensures var t := Run(c, s, [Go(true), Go(true)] + CopyUpTo(c, o));
            t.pc.WriteRow? && t.primOff == o && t.flash == Overlaid(c, s.flash, o)
  {
    hide Run, MagicOk, Copyable, Overlaid, CopyUpTo, Rows;
    Run2(c, s, Go(true), Go(true));
    assert Step(c, s, Go(true)) == s.(pc := ReadMagic);
    RunAppend(c, s, [Go(true), Go(true)], CopyUpTo(c, o));
    var t := Run(c, s, [Go(true), Go(true)]);
    assert t.pc.CopyInit? && t.flash == s.flash;
    ReachesRow(c, t, o);
  }

  /** The row the loop comes to is still what it was. */
  lemma RowStillOld(c: Config, f: Flash, o: nat)
    requires Copyable(c) && Fits(c, f) && o in Rows(c)
    ensures RowBlank(Primary(c, Overlaid(c, f, o)), o, c.rowSize, c.erased)
            == RowBlank(Primary(c, f), o, c.rowSize, c.erased)
  {
    hide Overlaid;
    OverlaidSlot(c, f, o);
    RowsApart(o, SlotSize(c), c.rowSize);
    var p, q := Primary(c, f), Primary(c, Overlaid(c, f, o));
    assert q[o..o + c.rowSize] == p[o..o + c.rowSize];
  }

  /** The image boot_go finds or installs is not all blank. */
  ghost predicate SomethingInstalled(c: Config, f: Flash) {
    exists o :: o in Rows(c) && !RowBlank(Installed(c, f), o, c.rowSize, c.erased)
  }

  lemma WrongMagicOverwrites(c: Config, s: State) returns (evs: seq<Event>)
    requires WellFormed(c) && Initial(c, s) && !c.halts && !MagicOk(c, s.flash) && SomethingInstalled(c, s.flash)
    ensures !ProgramsOnlyBlank(c, Run(c, s, evs))
  {
    hide Run, Step, MagicOk, Upgrade, Primary, RowBlank, Overlaid, CopyUpTo;
    var o :| o in Rows(c) && !RowBlank(Installed(c, s.flash), o, c.rowSize, c.erased);
    var enter := EnterRollback(c, s.flash);
    EnterRollbackRuns(c, s);
    BaseRun(c, s, enter);
    var t := Run(c, s, enter);
    WrongMagicCopies(c, t, o);
    RowStillOld(c, t.flash, o);
    evs := enter + ([Go(true), Go(true)] + CopyUpTo(c, o));
    RunAppend(c, s, enter, [Go(true), Go(true)] + CopyUpTo(c, o));
  }

  /** Given an installed image that is not all blank: every run programs only blank rows if and only if
      assertions halt or the factory region carries the magic. */
  lemma WriteDisciplineExactly(c: Config, s: State)
    requires WellFormed(c) && Initial(c, s) && SomethingInstalled(c, s.flash)
    ensures (forall evs :: ProgramsOnlyBlank(c, Run(c, s, evs))) <==> c.halts || MagicOk(c, s.flash)
  {
    hide NeverMixed, Copied, Run, MagicOk, SomethingInstalled, ProgramsOnlyBlank;
    if c.halts || MagicOk(c, s.flash) {
      forall evs ensures ProgramsOnlyBlank(c, Run(c, s, evs)) {
        ProgramsBlank(c, s, evs);
      }
    } else {
      var evs := WrongMagicOverwrites(c, s);
      assert !ProgramsOnlyBlank(c, Run(c, s, evs));
    }
  }

  lemma {:induction false} ProgramsBlank(c: Config, s: State, evs: seq<Event>)
    requires WellFormed(c) && Initial(c, s) && Guarded(c, s.flash)
    ensures ProgramsOnlyBlank(c, Run(c, s, evs))
  {
    hide NeverMixed, Copied, Run, MagicOk;
    CrashInvariant(c, s, evs);
  }

  /** Enter a rollback with the button held, erase everything, let the erase report failure, and let boot_go
      judge the empty slot. */
  function StaleRun(c: Config, f: Flash): seq<Event> {
    EnterRollback(c, f) + [Go(true), Go(true)] + EraseAll(c.rowSize, SlotSize(c)) + [Go(false), Go(true), Go(true)]
  }

  lemma GivesUpErasing(c: Config, s: State)
    requires !c.halts && s.pc.Erase? && !s.flash.pending && !c.valid(Primary(c, s.flash)) && s.held && s.rsp.Some?
    ensures var t := Run(c, s, [Go(false), Go(true), Go(true)]);
            t.pc == StartCM4(s.rsp.value) && t.flash == s.flash
  {
    hide Run, Primary, Response, Incoming;
    Run3(c, s, Go(false), Go(true), Go(true));
    assert Step(c, s, Go(false)) == s.(pc := Transferred(false));
    assert Step(c, s.(pc := Transferred(false)), Go(true)) == s.(pc := Validate);
    assert Upgrade(c, s.flash) == s.flash;
  }

  lemma StaleRunBoots(c: Config, s: State)
    requires WellFormed(c) && !c.halts && Initial(c, s) && MagicOk(c, s.flash)
    requires c.valid(Installed(c, s.flash)) && !c.valid(Blank(SlotSize(c), c.erased))
    ensures var t := Run(c, s, StaleRun(c, s.flash));
            t.pc.StartCM4? && !c.valid(Primary(c, t.flash))
  {
    hide Run, Step, MagicOk, Upgrade, Primary, Factory, EnterRollback, EraseAll, RowOffsets;
    var enter, erase := EnterRollback(c, s.flash), EraseAll(c.rowSize, SlotSize(c));
    EnterRollbackRuns(c, s);
    BaseRun(c, s, enter);
    StartTransfer(c, Run(c, s, enter));
    RunAppend(c, s, enter, [Go(true), Go(true)]);
    EraseAllRuns(c, Run(c, s, enter + [Go(true), Go(true)]), SlotSize(c));
    RunAppend(c, s, enter + [Go(true), Go(true)], erase);
    var t := Run(c, s, enter + [Go(true), Go(true)] + erase);
    InitialShape(c, s);
    ShapeRun(c, s, enter + [Go(true), Go(true)] + erase);
    ErasedSlotBlank(c, t);
    OffSane(c, s);
    SaneRun(c, s, enter + [Go(true), Go(true)] + erase);
    GivesUpErasing(c, t);
    RunAppend(c, s, enter + [Go(true), Go(true)] + erase, [Go(false), Go(true), Go(true)]);
  }

  /** Erasing every row erases the slot. */
  lemma ErasedSlotBlank(c: Config, s: State)
    requires WellFormed(c) && Shape(c, s) && s.pc.Erase? && s.toErase == Rows(c) - Rows(c)
    ensures Primary(c, s.flash) == Blank(SlotSize(c), c.erased)
  {
    hide NeverMixed;
    var p := Primary(c, s.flash);
    forall i | 0 <= i < SlotSize(c) ensures p[i] == c.erased {
      var o := RowOf(i, c.rowSize);
      RowsApart(o, SlotSize(c), c.rowSize);
      assert o in Rows(c) && o !in s.toErase;
      BlankRowAt(p, o, c.rowSize, c.erased);
    }
  }

  /** The row byte `i` lies in. */
  function RowOf(i: nat, rowSize: nat): (o: nat)
    requires 0 < rowSize
    ensures o <= i < o + rowSize && Aligned(o, rowSize)
  {
    if i < rowSize then 0 else RowOf(i - rowSize, rowSize) + rowSize
  }

  /** Given a valid installed image, a factory region with the magic, and a blank slot that is not valid:
      every run starts CM4 only on what the primary slot holds if and only if assertions halt. Without them
      a failed rollback returns into main, which boots with the response from before the erase. */
  lemma FreshnessExactly(c: Config, s: State)
    requires WellFormed(c) && Initial(c, s) && MagicOk(c, s.flash)
    requires c.valid(Installed(c, s.flash)) && !c.valid(Blank(SlotSize(c), c.erased))
    ensures (forall evs :: Fresh(c, Run(c, s, evs))) <==> c.halts
  {
    if c.halts {
      forall evs ensures Fresh(c, Run(c, s, evs)) {
        OffSane(c, s);
        SaneRun(c, s, evs);
      }
    } else {
      hide Run, Primary;
      StaleRunBoots(c, s);
      assert !Fresh(c, Run(c, s, StaleRun(c, s.flash)));
    }
  }

  // ----- slots that are not whole rows

  lemma PrepareNeverCopies(c: Config, s: State, ok: bool)
    requires c.halts && 0 < c.rowSize && SlotSize(c) % c.rowSize != 0 && Preparing(s.pc)
    ensures BeforeCopy(GoPrepare(c, s, ok).pc)
  {
    hide MagicOk;
  }

  lemma StepNeverCopies(c: Config, s: State, e: Event)
    requires c.halts && 0 < c.rowSize && SlotSize(c) % c.rowSize != 0 && BeforeCopy(s.pc)
    ensures BeforeCopy(Step(c, s, e).pc)
  {
    hide Step, GoPrepare;
    if e.Go? && s.pc.CopyInit? {
      PrepareNeverCopies(c, s, e.ok);
      GoesPreparing(c, s, e.ok);
    } else {
      StaysBeforeCopy(c, s, e);
    }
  }

  lemma GoesPreparing(c: Config, s: State, ok: bool)
    requires Preparing(s.pc)
    ensures Step(c, s, Go(ok)) == GoPrepare(c, s, ok)
  {
    hide GoPrepare;
  }

  lemma {:induction false} NeverCopies(c: Config, s: State, evs: seq<Event>)
    requires c.halts && 0 < c.rowSize && SlotSize(c) % c.rowSize != 0 && s == Off(s)
    ensures BeforeCopy(Run(c, s, evs).pc)
    decreases |evs|
  {
    if evs != [] {
      hide Step;
      NeverCopies(c, s, evs[..|evs| - 1]);
      StepNeverCopies(c, Run(c, s, evs[..|evs| - 1]), evs[|evs| - 1]);
    }
  }

  /** Where assertions halt, and given the magic: a transfer can complete at all if and only if the slot is a
      whole number of rows. Otherwise every rollback stops right after it has erased the slot. */
  lemma WholeRowsExactly(c: Config, s: State)
    requires Placed(c) && c.halts && Initial(c, s) && MagicOk(c, s.flash)
    ensures (exists evs :: Run(c, s, evs).pc == Transferred(true)) <==> SlotSize(c) % c.rowSize == 0
  {
    hide Run, Step, MagicOk;
    AlignedExactly(SlotSize(c), c.rowSize);
    if SlotSize(c) % c.rowSize == 0 {
      var enter := EnterRollback(c, s.flash);
      EnterRollbackRuns(c, s);
      BaseRun(c, s, enter);
      TransferRuns(c, Run(c, s, enter));
      RunAppend(c, s, enter, Transfer(c));
      assert Run(c, s, enter + Transfer(c)).pc == Transferred(true);
    } else {
      forall evs ensures Run(c, s, evs).pc != Transferred(true) {
        NeverCopies(c, s, evs);
      }
    }
  }

  // ----- what a torn copy looks like to boot_go

  /** The verdict depends on the first `n` bytes of the slot only. */
  ghost predicate ReadsOnly(c: Config, n: nat) {
    forall p: seq<Byte>, q: seq<Byte> :: |p| == |q| == SlotSize(c) && n <= SlotSize(c) && p[..n] == q[..n]
      ==> c.valid(p) == c.valid(q)
  }

  /** The first `n` bytes of the factory region, then nothing. */
  function Prefix(c: Config, f: Flash, n: nat): seq<Byte>
    requires n <= |Factory(c, f)| == SlotSize(c)
  {
    Factory(c, f)[..n] + Blank(SlotSize(c) - n, c.erased)
  }

  lemma CopiedIsPrefix(c: Config, f: Flash, n: nat)
    requires WellFormed(c) && Copied(c, f, n)
    ensures Primary(c, f) == Prefix(c, f, n)
  {
    var p := Primary(c, f);
    forall i | n <= i < SlotSize(c) ensures p[i] == c.erased {
      var o := RowOf(i, c.rowSize);
      if o < n {
        RowsApart(o, n, c.rowSize);
      }
      assert o in Rows(c);
      RowsApart(o, SlotSize(c), c.rowSize);
      BlankRowAt(p, o, c.rowSize, c.erased);
    }
    assert p == p[..n] + p[n..];
    assert p[n..] == Blank(SlotSize(c) - n, c.erased);
  }

  /** Where the code is when boot_go has judged the slot after the power failed by `e` and came back. */
  function AfterReset(c: Config, s: State, e: Event): Pc {
    Run(c, s, [e, Go(true), Go(true)]).pc
  }

  lemma NextBoot(c: Config, s: State, e: Event)
    requires PowerLoss(e) && !s.flash.pending
    ensures AfterReset(c, s, e) == if c.valid(Primary(c, Step(c, s, e).flash)) then ReadButton else EnableIrq
  {
    hide Run, Primary, Response, WithRow, UpgradeDue;
    Run3(c, s, e, Go(true), Go(true));
    var t := Step(c, s, e);
    PowerLossKeepsRequest(c, s, e);
    JudgedAtReset(c, t);
  }

  lemma PowerLossKeepsRequest(c: Config, s: State, e: Event)
    requires PowerLoss(e)
    ensures Step(c, s, e).pc.Reset? && Step(c, s, e).flash.pending == s.flash.pending
  {
    hide Patch, UpgradeDue, InFlight;
  }

  lemma JudgedAtReset(c: Config, s: State)
    requires s.pc.Reset? && !s.flash.pending
    ensures Step(c, Step(c, s, Go(true)), Go(true)).pc == if c.valid(Primary(c, s.flash)) then ReadButton else EnableIrq
  {
    hide Primary, Response;
    assert Step(c, s, Go(true)) == s.(pc := BootGo);
    assert Upgrade(c, s.flash) == s.flash;
  }

  /** A power failure in the copy loop leaves the rows already copied alone. */
  lemma CopiedRowsStay(c: Config, s: State, e: Event, n: nat)
    requires Copyable(c) && Base(c, s) && Copying(s.pc) && PowerLoss(e) && n <= s.index
    ensures var p, q := Primary(c, s.flash), Primary(c, Step(c, s, e).flash);
            |p| == |q| == SlotSize(c) && n <= SlotSize(c) && q[..n] == p[..n]
  {
    hide Patch, UpgradeDue;
    match e {
      case PowerFailInRow(o, junk) =>
        if s.pc.WriteRow? && o == s.primOff && |junk| == c.rowSize {
          RowWritten(c, s.flash, o, junk);
          PatchedBehind(Primary(c, s.flash), n, o, junk);
        }
      case _ =>
    }
  }

  lemma PatchedBehind(slot: seq<Byte>, n: nat, o: nat, data: seq<Byte>)
    requires n <= o && o + |data| <= |slot|
    ensures Patch(slot, o, data)[..n] == slot[..n]
  {
  }

  /** If MCUboot's verdict looks at the first `n` bytes, accepts the factory image and rejects each shorter
      prefix of it: when the power fails in the copy loop of any run, between two operations, the next reset
      accepts what was copied if and only if those `n` bytes had been copied. So nothing incomplete is ever
      started. Once they have been copied, a power failure in the middle of a row is no different, whatever it
      leaves in that row. */
  lemma {:induction false} TornBootExactly(c: Config, s: State, evs: seq<Event>, n: nat)
    requires WellFormed(c) && Initial(c, s) && Guarded(c, s.flash) && n <= SlotSize(c)
    requires ReadsOnly(c, n) && c.valid(Factory(c, s.flash))
    requires |Factory(c, s.flash)| == SlotSize(c) && forall m :: 0 <= m < n ==> !c.valid(Prefix(c, s.flash, m))
    ensures var t := Run(c, s, evs);
            Copying(t.pc) ==>
              && AfterReset(c, t, PowerFail) == (if n <= t.index then ReadButton else EnableIrq)
              && (n <= t.index ==> forall e :: PowerLoss(e) ==> AfterReset(c, t, e) == ReadButton)
  {
    if !Copying(Run(c, s, evs).pc) {
      return;
    }
    hide Run, Step, Factory, Primary, MagicOk, AfterReset, PowerLoss;
    var t := Run(c, s, evs);
    CopyPoint(c, s, evs);
    NextBoot(c, t, PowerFail);
    var p, f := Prefix(c, t.flash, t.index), Factory(c, s.flash);
    assert p == Prefix(c, s.flash, t.index);
    if n <= t.index {
      assert p[..n] == f[..n];
      forall e | PowerLoss(e) ensures AfterReset(c, t, e) == ReadButton {
        CopiedRowsStay(c, t, e, n);
        NextBoot(c, t, e);
      }
    }
  }

  /** What is known at a point of the copy loop. */
  lemma {:induction false} CopyPoint(c: Config, s: State, evs: seq<Event>)
    requires WellFormed(c) && Initial(c, s) && Guarded(c, s.flash) && Copying(Run(c, s, evs).pc)
    ensures var t := Run(c, s, evs);
            && Base(c, t) && !t.flash.pending && t.index <= SlotSize(c)
            && |Factory(c, t.flash)| == SlotSize(c) && Factory(c, t.flash) == Factory(c, s.flash)
            && Primary(c, t.flash) == Prefix(c, t.flash, t.index) && Copied(c, t.flash, t.index)
            && Step(c, t, PowerFail).flash == t.flash
  {
    hide Run, MagicOk;
    CrashInvariant(c, s, evs);
    BaseRun(c, s, evs);
    CopiedIsPrefix(c, Run(c, s, evs).flash, Run(c, s, evs).index);
    OffSane(c, s);
    SaneRun(c, s, evs);
  }

  /** Erasing a row the verdict does not read, or losing power in the middle of that, changes no verdict: the
      next reset decides as if the power had failed before. */
  lemma {:induction false} UnreadRowErased(c: Config, s: State, evs: seq<Event>, n: nat, o: nat, junk: seq<Byte>)
    requires Copyable(c) && Initial(c, s) && ReadsOnly(c, n) && n <= o && |junk| == c.rowSize
    ensures var t := Run(c, s, evs);
            t.pc.Erase? && o in t.toErase ==>
              && AfterReset(c, Step(c, t, EraseRow(o)), PowerFail) == AfterReset(c, t, PowerFail)
              && AfterReset(c, t, PowerFailInRow(o, junk)) == AfterReset(c, t, PowerFail)
  {
    var t := Run(c, s, evs);
    if t.pc.Erase? && o in t.toErase {
      hide Run, Step, AfterReset, ReadsOnly;
      CursorRun(c, s, evs);
      OffSane(c, s);
      SaneRun(c, s, evs);
      ErasingStates(c, t, o, junk);
      InFlightFits(c, t, o);
      NextBoot(c, t, PowerFail);
      NextBoot(c, t, PowerFailInRow(o, junk));
      NextBoot(c, Step(c, t, EraseRow(o)), PowerFail);
      UnreadRow(c, t.flash, n, o, junk);
      UnreadRow(c, t.flash, n, o, Blank(c.rowSize, c.erased));
    }
  }

  /** The slot after row `o` has been erased, and after the power failed in the middle of that. */
  lemma ErasingStates(c: Config, s: State, o: nat, junk: seq<Byte>)
    requires s.pc.Erase? && o in s.toErase && |junk| == c.rowSize && Sane(c, s)
    ensures var t := Step(c, s, EraseRow(o));
            && !t.flash.pending && !s.flash.pending && Step(c, s, PowerFail).flash == s.flash
            && Primary(c, Step(c, t, PowerFail).flash) == Primary(c, WithRow(c, s.flash, o, Blank(c.rowSize, c.erased)))
            && Primary(c, Step(c, s, PowerFailInRow(o, junk)).flash) == Primary(c, WithRow(c, s.flash, o, junk))
  {
    hide Patch, Latch, Fresh;
  }

  lemma UnreadRow(c: Config, f: Flash, n: nat, o: nat, row: seq<Byte>)
    requires Copyable(c) && Fits(c, f) && ReadsOnly(c, n) && n <= o && o + |row| <= SlotSize(c)
    ensures c.valid(Primary(c, WithRow(c, f, o, row))) == c.valid(Primary(c, f))
  {
    RowWritten(c, f, o, row);
    PatchedBehind(Primary(c, f), n, o, row);
  }

  /** If the verdict looks at the header magic only (the full check is commented out in the configuration),
      one copied row is enough: whenever and however the power fails then, the next reset boots the
      unfinished copy unless the button is held. */
  lemma {:induction false} HeaderCheckBootsUnfinishedCopy(c: Config, s: State, evs: seq<Event>)
    requires WellFormed(c) && Initial(c, s) && Guarded(c, s.flash)
    requires ReadsOnly(c, 4) && c.valid(Factory(c, s.flash)) && 4 <= c.rowSize
    ensures var t := Run(c, s, evs);
            Copying(t.pc) && 0 < t.index ==> forall e :: PowerLoss(e) ==> AfterReset(c, t, e) == ReadButton
  {
    if !Copying(Run(c, s, evs).pc) || Run(c, s, evs).index == 0 {
      return;
    }
    hide Run, Step, Factory, Primary, MagicOk, AfterReset, PowerLoss;
    var t := Run(c, s, evs);
    CopyPoint(c, s, evs);
    RowsApart(0, t.index, c.rowSize);
    assert Prefix(c, t.flash, t.index)[..4] == Factory(c, t.flash)[..4];
    forall e | PowerLoss(e) ensures AfterReset(c, t, e) == ReadButton {
      CopiedRowsStay(c, t, e, 4);
      NextBoot(c, t, e);
    }
  }

  // ----- programming the factory image

  /** The external flash after programming an image linked at the addresses `image` maps, with every address
      moved up by `offset`. */
  function Programmed(c: Config, ext: seq<Byte>, image: map<nat, Byte>, offset: nat): (r: seq<Byte>)
    ensures |r| == |ext|
  {
    seq(|ext|, i requires 0 <= i < |ext| =>
      var a := Wrap32(c.layout.smifBase + i - offset);
      if a in image then image[a] else ext[i])
  }

  function PrimaryStart(c: Config): nat {
    FlashMap.Primary1(c.layout).off
  }

  /** The byte a rollback will copy to address `a` of the primary slot. */
  function ByteFor(c: Config, ext: seq<Byte>, a: nat): Option<Byte> {
    if PrimaryStart(c) <= a < PrimaryStart(c) + |ext| then Some(ext[a - PrimaryStart(c)]) else None
  }

  /** If `a` is an address of the image inside the primary slot, its byte is the one copied there. */
  ghost predicate LandsRight(c: Config, ext: seq<Byte>, image: map<nat, Byte>, offset: nat, a: nat) {
    a in image && FlashMap.Contains(FlashMap.Primary1(c.layout), a) && SlotSize(c) <= |ext| ==>
      ByteFor(c, Programmed(c, ext, image, offset), a) == Some(image[a])
  }

  lemma ShiftExactly(x: nat, offset: nat, a: nat)
    requires a < U32
    ensures Wrap32(x - offset) == a <==> Wrap32(offset) == Wrap32(x - a)
  {
    var k, m := (x - offset) / U32, (x - a) / U32;
    if Wrap32(x - offset) == a {
      assert x - a == offset + k * U32;
    } else {
      assert x - offset == a + Wrap32(x - a) - offset + m * U32;
    }
  }

  /** Programming changes no byte but those whose addresses the image's addresses are moved to. */
  lemma ProgrammedKeeps(c: Config, ext: seq<Byte>, image: map<nat, Byte>, offset: nat, i: nat)
    requires i < |ext| && c.layout.smifBase + i < U32
    requires forall a :: a in image ==> Wrap32(a + offset) != c.layout.smifBase + i
    ensures Programmed(c, ext, image, offset)[i] == ext[i]
  {
    var x := c.layout.smifBase + i;
    var a := Wrap32(x - offset);
    assert Wrap32(a + offset) == x by {
      var k := (x - offset) / U32;
      assert a + offset == x - k * U32;
      DivModUnique(a + offset, -k, x, U32);
    }
  }

  /** Programming with an offset puts every image byte where the rollback will look for it, for every image
      and every previous content, exactly when the offset is the distance from the primary slot to the
      external flash, modulo 2^32. */
  lemma OffsetExactly(c: Config, offset: nat)
    requires WellFormed(c)
    ensures (forall ext: seq<Byte>, image: map<nat, Byte>, a: nat :: LandsRight(c, ext, image, offset, a))
            <==> Wrap32(offset) == Wrap32(c.layout.smifBase - PrimaryStart(c))
  {
    FlashMap.OffsetsDoNotWrap(c.layout);
    var start, base := PrimaryStart(c), c.layout.smifBase;
    if Wrap32(offset) == Wrap32(base - start) {
      forall ext: seq<Byte>, image: map<nat, Byte>, a: nat
        ensures LandsRight(c, ext, image, offset, a)
      {
        if FlashMap.Contains(FlashMap.Primary1(c.layout), a) {
          ShiftExactly(base + a - start, offset, a);
        }
      }
    } else {
      var ext, image := Blank(SlotSize(c), 0), map[start := 1 as Byte];
      ShiftExactly(base, offset, start);
      assert ByteFor(c, Programmed(c, ext, image, offset), start) == Some(0);
      assert !LandsRight(c, ext, image, offset, start);
    }
  }

  /** Programming the factory image and then rolling back to it, however often interrupted, puts every byte
      back at its link address. */
  lemma {:induction false} RoundTrip(c: Config, s: State, evs: seq<Event>,
                                     ext: seq<Byte>, image: map<nat, Byte>, offset: nat)
    requires WellFormed(c) && Initial(c, s) && Guarded(c, s.flash)
    requires s.flash.ext == Programmed(c, ext, image, offset)
    requires Wrap32(offset) == Wrap32(c.layout.smifBase - PrimaryStart(c))
    requires Run(c, s, evs).pc == Transferred(true)
    ensures forall a :: a in image && FlashMap.Contains(FlashMap.Primary1(c.layout), a) ==>
              At(c, Run(c, s, evs).flash, FlashMap.Internal, a) == Some(image[a])
  {
    hide Run, MagicOk, Programmed;
    TransferOutcome(c, s, evs);
    BaseOf(c, s, evs);
    OffsetExactly(c, offset);
    FlashMap.OffsetsDoNotWrap(c.layout);
    var t := Run(c, s, evs);
    forall a | a in image && FlashMap.Contains(FlashMap.Primary1(c.layout), a)
      ensures At(c, t.flash, FlashMap.Internal, a) == Some(image[a])
    {
      assert LandsRight(c, ext, image, offset, a);
      assert At(c, t.flash, FlashMap.Internal, a) == Some(Primary(c, t.flash)[a - PrimaryStart(c)]);
    }
  }

  /** The default offset is that distance. */
  lemma DefaultOffset(c: Config)
    requires c.layout == FlashMap.DEFAULT_LAYOUT
    ensures Wrap32(0x7FE8000) == Wrap32(c.layout.smifBase - PrimaryStart(c))
  {
  }
}
