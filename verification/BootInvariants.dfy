/** What every step of the boot machine keeps. */
module BootInvariants {
  import opened Memory
  import opened BootMachine

  // ----- flash writes stay in the two slots

  /** `g` differs from `f` at most inside the primary and the secondary slot. */
  ghost predicate Untouched(c: Config, f: Flash, g: Flash) {
    && |g.intern| == |f.intern| && |g.ext| == |f.ext|
    && (forall i :: 0 <= i < |f.intern| && !(PrimaryOff(c) <= i < PrimaryOff(c) + SlotSize(c))
          ==> g.intern[i] == f.intern[i])
    && (forall i :: 0 <= i < |f.ext| && !(SecondaryOff(c) <= i < SecondaryOff(c) + c.layout.secondary1)
          ==> g.ext[i] == f.ext[i])
  }

  lemma RowWritten(c: Config, f: Flash, o: nat, row: seq<Byte>)
    requires Copyable(c) && Fits(c, f) && o + |row| <= SlotSize(c)
    ensures Untouched(c, f, WithRow(c, f, o, row)) && Fits(c, WithRow(c, f, o, row))
    ensures Primary(c, WithRow(c, f, o, row)) == Patch(Primary(c, f), o, row)
  {
    hide Patch, Aligned;
    PatchWindow(f.intern, PrimaryOff(c), SlotSize(c), o, row);
    forall i | 0 <= i < |f.intern| {
      PatchAt(f.intern, PrimaryOff(c) + o, row, i);
    }
  }

  lemma SlotWritten(c: Config, f: Flash, slot: seq<Byte>)
    requires Copyable(c) && Fits(c, f) && |slot| == SlotSize(c)
    ensures Untouched(c, f, WithPrimary(c, f, slot)) && Fits(c, WithPrimary(c, f, slot))
    ensures Primary(c, WithPrimary(c, f, slot)) == slot
  {
    forall i | 0 <= i < |f.intern| {
      PatchAt(f.intern, PrimaryOff(c), slot, i);
    }
  }

  lemma UpgradeEffect(c: Config, f: Flash)
    requires Copyable(c) && Fits(c, f)
    ensures Untouched(c, f, Upgrade(c, f)) && Fits(c, Upgrade(c, f)) && Upgrade(c, f).ext == f.ext
    ensures Primary(c, Upgrade(c, f)) == if UpgradeDue(c, f) then Incoming(c, f) else Primary(c, f)
  {
    SlotWritten(c, f, Incoming(c, f));
  }

  /** The factory region lies outside both slots. */
  lemma FactoryUntouched(c: Config, f: Flash, g: Flash)
    requires WellFormed(c) && Fits(c, f) && Untouched(c, f, g)
    ensures Factory(c, g) == Factory(c, f) && MagicOk(c, g) == MagicOk(c, f)
  {
    assert g.ext[..4] == f.ext[..4];
  }

  // ----- the copy loop's cursors

  /** The three wrapping cursors agree wherever the loop uses them, and the buffer holds the factory row
      that is about to be programmed. */
  ghost predicate Cursors(c: Config, s: State) {
    && (s.pc.Erase? ==> s.toErase <= Rows(c))
    && (Copying(s.pc) ==>
          && s.index <= SlotSize(c) && Aligned(s.index, c.rowSize)
          && s.primOff == s.index && s.factOff == Wrap32(c.layout.smifBase + s.index))
    && (s.pc.ReadRow? || s.pc.WriteRow? ==>
          s.index + c.rowSize <= SlotSize(c) && s.factOff == c.layout.smifBase + s.index)
    && (s.pc.WriteRow? ==> |s.buf| == c.rowSize && s.buf == ReadAt(s.flash.ext, s.index, c.rowSize))
  }

  ghost predicate Base(c: Config, s: State) {
    Fits(c, s.flash) && Cursors(c, s)
  }

  lemma BaseFits(c: Config, s: State)
    requires Base(c, s)
    ensures Fits(c, s.flash)
  {
  }

  lemma InFlightFits(c: Config, s: State, o: nat)
    requires Copyable(c) && Base(c, s) && InFlight(s, o)
    ensures o in Rows(c) && o + c.rowSize <= SlotSize(c)
  {
    if s.pc.Erase? {
      RowsApart(o, SlotSize(c), c.rowSize);
    }
  }

  lemma LoopHeadStep(c: Config, s: State, ok: bool)
    requires Copyable(c) && Base(c, s) && s.pc.LoopHead?
    ensures Base(c, GoCopy(c, s, ok)) && Untouched(c, s.flash, GoCopy(c, s, ok).flash)
  {
    if s.index < SlotSize(c) {
      RowsApart(s.index, SlotSize(c), c.rowSize);
    }
  }

  lemma ReadRowStep(c: Config, s: State, ok: bool)
    requires Copyable(c) && Base(c, s) && s.pc.ReadRow?
    ensures Base(c, GoCopy(c, s, ok)) && Untouched(c, s.flash, GoCopy(c, s, ok).flash)
  {
    hide Fits, Aligned, ReadAt;
    RowRead(c, s.flash, s.index);
  }

  lemma RowRead(c: Config, f: Flash, o: nat)
    requires Fits(c, f) && o + c.rowSize <= SlotSize(c)
    ensures |ReadAt(f.ext, o, c.rowSize)| == c.rowSize
  {
  }

  lemma WriteRowStep(c: Config, s: State)
    requires Copyable(c) && Base(c, s) && s.pc.WriteRow?
    ensures Base(c, GoCopy(c, s, true)) && Untouched(c, s.flash, GoCopy(c, s, true).flash)
    ensures GoCopy(c, s, true).index == s.index + c.rowSize
    ensures Primary(c, GoCopy(c, s, true).flash) == Patch(Primary(c, s.flash), s.index, s.buf)
  {
    hide Fits, Untouched, Primary, Patch, MagicOk;
    NextRow(s.index, c.rowSize);
    NoWrap(s.index + c.rowSize);
    RowWritten(c, s.flash, s.primOff, s.buf);
  }

  lemma WriteFailedStep(c: Config, s: State)
    requires Copyable(c) && Base(c, s) && s.pc.WriteRow?
    ensures Base(c, GoCopy(c, s, false)) && GoCopy(c, s, false).flash == s.flash
    ensures Untouched(c, s.flash, GoCopy(c, s, false).flash)
  {
  }

  lemma CopyStep(c: Config, s: State, ok: bool)
    requires Copyable(c) && Base(c, s) && Copying(s.pc)
    ensures Base(c, GoCopy(c, s, ok)) && Untouched(c, s.flash, GoCopy(c, s, ok).flash)
  {
    hide Base, Untouched, Copyable, GoCopy;
    match s.pc {
      case LoopHead => LoopHeadStep(c, s, ok);
      case ReadRow => ReadRowStep(c, s, ok);
      case WriteRow =>
        if ok {
          WriteRowStep(c, s);
        } else {
          WriteFailedStep(c, s);
        }
    }
  }

  lemma PrepareStep(c: Config, s: State, ok: bool)
    requires Copyable(c) && Base(c, s) && Preparing(s.pc)
    ensures Base(c, GoPrepare(c, s, ok)) && Untouched(c, s.flash, GoPrepare(c, s, ok).flash)
  {
    hide Fits, MagicOk;
  }

  lemma StartStep(c: Config, s: State, ok: bool)
    requires Copyable(c) && Base(c, s) && Starting(s.pc)
    ensures Base(c, GoStart(c, s, ok)) && Untouched(c, s.flash, GoStart(c, s, ok).flash)
  {
    hide Fits, Upgrade;
    if s.pc.BootGo? {
      UpgradeEffect(c, s.flash);
    }
  }

  lemma FinishStep(c: Config, s: State)
    requires Copyable(c) && Base(c, s) && !Starting(s.pc) && !Preparing(s.pc) && !Copying(s.pc)
    ensures Base(c, GoFinish(c, s)) && Untouched(c, s.flash, GoFinish(c, s).flash)
  {
    hide Fits, Upgrade;
    if s.pc.Validate? {
      UpgradeEffect(c, s.flash);
    }
  }

  lemma FinishLeadsTo(c: Config, s: State)
    requires !Starting(s.pc) && !Preparing(s.pc) && !Copying(s.pc)
    ensures var pc := GoFinish(c, s).pc; pc.Validate? || pc.StartCM4? || pc.Running? || pc.Halted? || pc.Exited?
    ensures GoFinish(c, s).pc.Validate? ==> s.pc.Transferred?
  {
    hide Upgrade, Response, Primary;
  }

  lemma PowerStep(c: Config, s: State, e: Event)
    requires Copyable(c) && Base(c, s) && PowerLoss(e)
    ensures Base(c, Step(c, s, e)) && Untouched(c, s.flash, Step(c, s, e).flash)
  {
    match e {
      case PowerFailInRow(o, junk) =>
        if InFlight(s, o) && |junk| == c.rowSize {
          InFlightFits(c, s, o);
          RowWritten(c, s.flash, o, junk);
        }
      case PowerFailInUpgrade(junk) =>
        if |junk| == SlotSize(c) {
          SlotWritten(c, s.flash, junk);
        }
      case _ =>
    }
  }

  lemma EraseStep(c: Config, s: State, o: nat)
    requires Copyable(c) && Base(c, s) && s.pc.Erase? && o in s.toErase
    ensures Base(c, Step(c, s, EraseRow(o))) && Untouched(c, s.flash, Step(c, s, EraseRow(o)).flash)
    ensures Primary(c, Step(c, s, EraseRow(o)).flash) == Patch(Primary(c, s.flash), o, Blank(c.rowSize, c.erased))
  {
    InFlightFits(c, s, o);
    RowWritten(c, s.flash, o, Blank(c.rowSize, c.erased));
  }

  lemma OtaStep(c: Config, s: State, image: seq<Byte>)
    requires Copyable(c) && Base(c, s)
    ensures Base(c, Step(c, s, Ota(image))) && Untouched(c, s.flash, Step(c, s, Ota(image)).flash)
  {
    if |image| == c.layout.secondary1 {
      forall i | 0 <= i < |s.flash.ext| {
        PatchAt(s.flash.ext, SecondaryOff(c), image, i);
      }
    }
  }

  lemma NextStep(c: Config, s: State, ok: bool)
    requires Copyable(c) && Base(c, s)
    ensures Base(c, Next(c, s, ok)) && Untouched(c, s.flash, Next(c, s, ok).flash)
  {
    hide Base, Untouched, Copyable, GoStart, GoPrepare, GoCopy, GoFinish;
    if Copying(s.pc) {
      CopyStep(c, s, ok);
    } else if Preparing(s.pc) {
      PrepareStep(c, s, ok);
    } else if Starting(s.pc) {
      StartStep(c, s, ok);
    } else {
      FinishStep(c, s);
    }
  }

  lemma InputStep(c: Config, s: State, e: Event)
    requires Copyable(c) && Base(c, s) && (e.Button? || e.Isr? || e.Wake?)
    ensures Base(c, Step(c, s, e)) && Step(c, s, e).flash == s.flash
    ensures Untouched(c, s.flash, Step(c, s, e).flash)
  {
  }

  /** One step keeps the cursors in agreement and writes nothing outside the two slots. */
  lemma BaseStep(c: Config, s: State, e: Event)
    requires Copyable(c) && Base(c, s)
    ensures Base(c, Step(c, s, e)) && Untouched(c, s.flash, Step(c, s, e).flash)
  {
    hide Copyable, Next, WithRow, WithPrimary, UpgradeDue;
    match e {
      case Go(ok) => NextStep(c, s, ok);
      case EraseRow(o) =>
        if s.pc.Erase? && o in s.toErase {
          EraseStep(c, s, o);
        }
      case Ota(image) => OtaStep(c, s, image);
      case Button(_) => InputStep(c, s, e);
      case Isr => InputStep(c, s, e);
      case Wake => InputStep(c, s, e);
      case _ => PowerStep(c, s, e);
    }
  }

  /** In every run, whatever the rest of the flash map is: the cursors agree where the loop uses them, no
      access leaves its window, and nothing outside the two slots is written. */
  lemma {:induction false} CursorRun(c: Config, s: State, evs: seq<Event>)
    requires Copyable(c) && Base(c, s)
    ensures Base(c, Run(c, s, evs)) && Untouched(c, s.flash, Run(c, s, evs).flash)
    decreases |evs|
  {
    if evs != [] {
      var pre := evs[..|evs| - 1];
      CursorRun(c, s, pre);
      BaseStep(c, Run(c, s, pre), evs[|evs| - 1]);
    }
  }

  /** ... and with a sound flash map the factory region is outside both slots. */
  lemma {:induction false} BaseRun(c: Config, s: State, evs: seq<Event>)
    requires WellFormed(c) && Base(c, s)
    ensures Base(c, Run(c, s, evs)) && Untouched(c, s.flash, Run(c, s, evs).flash)
    ensures Factory(c, Run(c, s, evs).flash) == Factory(c, s.flash)
    ensures MagicOk(c, Run(c, s, evs).flash) == MagicOk(c, s.flash)
  {
    CursorRun(c, s, evs);
    FactoryUntouched(c, s.flash, Run(c, s, evs).flash);
  }
}
