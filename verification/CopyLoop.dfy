/** The copy loop of transfer_factory_image by itself: over whatever flash it starts on, erased or not, in
    any build and with any flash map. */
module CopyLoop {
  import opened Memory
  import opened BootMachine
  import opened BootInvariants

  /** Flash `f` with the first `n` bytes of its primary slot replaced by the first `n` of the factory region. */
  function Overlaid(c: Config, f: Flash, n: nat): Flash {
    f.(intern := Patch(f.intern, PrimaryOff(c), ReadAt(f.ext, 0, n)))
  }

  lemma OverlaidNone(c: Config, f: Flash)
    requires Fits(c, f)
    ensures Overlaid(c, f, 0) == f
  {
    assert ReadAt(f.ext, 0, 0) == [];
    PatchNothing(f.intern, PrimaryOff(c));
  }

  lemma OverlaidRow(c: Config, f: Flash, n: nat)
    requires Fits(c, f) && n + c.rowSize <= SlotSize(c)
    ensures WithRow(c, Overlaid(c, f, n), n, ReadAt(f.ext, n, c.rowSize)) == Overlaid(c, f, n + c.rowSize)
  {
    hide Patch;
    SliceExtends(f.ext, n, c.rowSize);
    PatchAppend(f.intern, PrimaryOff(c), ReadAt(f.ext, 0, n), ReadAt(f.ext, n, c.rowSize));
  }

  /** The slot then starts with factory bytes and goes on as before, and nothing outside it has changed. */
  lemma OverlaidSlot(c: Config, f: Flash, n: nat)
    requires Copyable(c) && Fits(c, f) && n <= SlotSize(c)
    ensures var g := Overlaid(c, f, n);
            && Primary(c, g) == Factory(c, f)[..n] + Primary(c, f)[n..]
            && Factory(c, g) == Factory(c, f) && Untouched(c, f, g) && Fits(c, g)
  {
    var data := ReadAt(f.ext, 0, n);
    assert data == Factory(c, f)[..n];
    assert PrimaryOff(c) + 0 == PrimaryOff(c);
    RowWritten(c, f, 0, data);
    assert WithRow(c, f, 0, data) == Overlaid(c, f, n);
    PatchFront(Primary(c, f), data);
  }

  lemma OverlaidAll(c: Config, f: Flash)
    requires Copyable(c) && Fits(c, f)
    ensures Primary(c, Overlaid(c, f, SlotSize(c))) == Factory(c, f)
  {
    OverlaidSlot(c, f, SlotSize(c));
    var p, img := Primary(c, f), Factory(c, f);
    assert img[..SlotSize(c)] == img && p[SlotSize(c)..] == [];
  }

  /** How far the loop that set up its cursors over flash `f` has come. */
  ghost predicate LoopedFrom(c: Config, f: Flash, s: State) {
    match s.pc
    case CopyInit => s.flash == f
    case LoopHead => s.flash == Overlaid(c, f, s.index)
    case ReadRow => s.flash == Overlaid(c, f, s.index)
    case WriteRow => s.flash == Overlaid(c, f, s.index)
    case Transferred(ok) =>
      s.flash == Overlaid(c, f, s.index) && if ok then s.index == SlotSize(c) else s.index < SlotSize(c)
    case _ => !Starting(s.pc) && !Preparing(s.pc)
  }

  lemma InitLoops(c: Config, f: Flash, s: State, ok: bool)
    requires Copyable(c) && Base(c, s) && LoopedFrom(c, f, s) && s.pc.CopyInit?
    ensures LoopedFrom(c, f, GoPrepare(c, s, ok))
  {
    AlignedExactly(SlotSize(c), c.rowSize);
    OverlaidNone(c, f);
  }

  lemma WriteLoops(c: Config, f: Flash, s: State)
    requires Copyable(c) && Base(c, s) && Fits(c, f) && LoopedFrom(c, f, s) && s.pc.WriteRow?
    ensures LoopedFrom(c, f, GoCopy(c, s, true))
  {
    hide Patch, ReadAt, Overlaid, WithRow;
    WriteRowStep(c, s);
    OverlaidRow(c, f, s.index);
    assert s.flash.ext == f.ext by { OverlaidExt(c, f, s.index); }
    assert GoCopy(c, s, true).flash == WithRow(c, s.flash, s.index, s.buf);
  }

  lemma OverlaidExt(c: Config, f: Flash, n: nat)
    ensures Overlaid(c, f, n).ext == f.ext
  {
  }

  lemma CopyLoops(c: Config, f: Flash, s: State, ok: bool)
    requires Copyable(c) && Base(c, s) && Fits(c, f) && LoopedFrom(c, f, s) && Copying(s.pc)
    ensures LoopedFrom(c, f, GoCopy(c, s, ok))
  {
    hide Overlaid, WithRow, Fits;
    if s.pc.WriteRow? && ok {
      WriteLoops(c, f, s);
    }
  }

  lemma FinishLoops(c: Config, f: Flash, s: State)
    requires !Starting(s.pc) && !Preparing(s.pc) && !Copying(s.pc)
    ensures LoopedFrom(c, f, GoFinish(c, s))
  {
    hide Overlaid, GoFinish;
    FinishLeadsTo(c, s);
  }

  lemma LoopStep(c: Config, f: Flash, s: State, e: Event)
    requires Copyable(c) && Base(c, s) && Fits(c, f) && LoopedFrom(c, f, s) && !PowerLoss(e)
    ensures LoopedFrom(c, f, Step(c, s, e))
  {
    hide Base, Fits, Overlaid, GoStart, GoPrepare, GoCopy, GoFinish, WithRow, Patch;
    if e.Go? {
      if Copying(s.pc) {
        CopyLoops(c, f, s, e.ok);
      } else if s.pc.CopyInit? {
        InitLoops(c, f, s, e.ok);
      } else {
        FinishLoops(c, f, s);
      }
    }
  }

  lemma {:induction false} LoopRun(c: Config, s: State, evs: seq<Event>)
    requires Copyable(c) && Base(c, s) && s.pc.CopyInit? && NoPowerLoss(evs)
    ensures LoopedFrom(c, s.flash, Run(c, s, evs))
    decreases |evs|
  {
    if evs != [] {
      hide Step, LoopedFrom, Copyable;
      var pre := evs[..|evs| - 1];
      LoopRun(c, s, pre);
      CursorRun(c, s, pre);
      LoopStep(c, s.flash, Run(c, s, pre), evs[|evs| - 1]);
    }
  }

  /** From where the cursors are set up, whatever the driver calls return: at every point of the loop the
      slot cursor is the index and the external one is base plus index, modulo 2^32; no row is read or written
      outside the two windows; and the flash is what it was, with as many factory bytes over the start of the
      slot as the index says. So success means that the slot equals the factory region, and failure means that
      exactly the rows before the failing one have been copied and no other byte has changed. */
  lemma {:induction false} CopyLoopRun(c: Config, s: State, evs: seq<Event>)
    requires Copyable(c) && Fits(c, s.flash) && s.pc.CopyInit? && NoPowerLoss(evs)
    ensures var t := Run(c, s, evs);
            && (Copying(t.pc) ==>
                  && t.primOff == t.index && t.factOff == Wrap32(c.layout.smifBase + t.index)
                  && t.index <= SlotSize(c) && Aligned(t.index, c.rowSize)
                  && t.flash == Overlaid(c, s.flash, t.index))
            && (t.pc.ReadRow? || t.pc.WriteRow? ==>
                  && t.primOff + c.rowSize <= SlotSize(c)
                  && c.layout.smifBase <= t.factOff && t.factOff + c.rowSize <= c.layout.smifBase + SlotSize(c))
            && (t.pc == Transferred(true) ==>
                  t.flash == Overlaid(c, s.flash, SlotSize(c)) && Primary(c, t.flash) == Factory(c, s.flash))
            && (t.pc == Transferred(false) ==>
                  t.index < SlotSize(c) && t.flash == Overlaid(c, s.flash, t.index))
  {
    hide Run, Primary, Factory, Overlaid;
    LoopRun(c, s, evs);
    CursorRun(c, s, evs);
    OverlaidAll(c, s.flash);
  }

  /** Not in the copy loop, and not successfully past it. */
  predicate BeforeCopy(pc: Pc) {
    !Copying(pc) && pc != Transferred(true)
  }

  lemma StartNeverCopies(c: Config, s: State, ok: bool)
    requires Starting(s.pc)
    ensures BeforeCopy(GoStart(c, s, ok).pc)
  {
    hide Upgrade, Response, Primary;
  }

  lemma PrepareStaysBefore(c: Config, s: State, ok: bool)
    requires Preparing(s.pc) && !s.pc.CopyInit?
    ensures BeforeCopy(GoPrepare(c, s, ok).pc)
  {
    hide MagicOk, Rows;
  }

  lemma FinishNeverCopies(c: Config, s: State)
    requires BeforeCopy(s.pc)
    ensures BeforeCopy(GoFinish(c, s).pc)
  {
    hide Upgrade, Response, Primary;
  }

  /** The only way into the loop is to set its cursors up. */
  lemma StaysBeforeCopy(c: Config, s: State, e: Event)
    requires BeforeCopy(s.pc) && !(e.Go? && s.pc.CopyInit?)
    ensures BeforeCopy(Step(c, s, e).pc)
  {
    hide GoStart, GoPrepare, GoFinish, WithRow, WithPrimary, UpgradeDue;
    if e.Go? {
      if Starting(s.pc) {
        StartNeverCopies(c, s, e.ok);
      } else if Preparing(s.pc) {
        PrepareStaysBefore(c, s, e.ok);
      } else {
        FinishNeverCopies(c, s);
      }
    }
  }

  lemma PowerLossEnds(c: Config, s: State, e: Event)
    requires PowerLoss(e)
    ensures BeforeCopy(Step(c, s, e).pc)
  {
    hide WithRow, WithPrimary, UpgradeDue;
  }

  /** The power has stayed on since the loop was entered. */
  lemma {:induction false} LoopSince(c: Config, s: State, evs: seq<Event>) returns (i: nat)
    requires BeforeCopy(s.pc) && !BeforeCopy(Run(c, s, evs).pc)
    ensures i <= |evs| && Run(c, s, evs[..i]).pc.CopyInit? && NoPowerLoss(evs[i..])
    decreases |evs|
  {
    hide Step, BeforeCopy;
    var n := |evs| - 1;
    var pre := evs[..n];
    if PowerLoss(evs[n]) {
      PowerLossEnds(c, Run(c, s, pre), evs[n]);
    } else if BeforeCopy(Run(c, s, pre).pc) {
      if !(evs[n].Go? && Run(c, s, pre).pc.CopyInit?) {
        StaysBeforeCopy(c, Run(c, s, pre), evs[n]);
      }
      i := n;
    } else {
      i := LoopSince(c, s, pre);
      assert pre[..i] == evs[..i] && evs[i..] == pre[i..] + [evs[n]];
    }
  }

  /** In every run of every build, after any number of power failures, whatever magic the factory region has
      and whatever the flash map is: a transfer that reports success has made the slot equal to the region. */
  lemma {:induction false} SuccessMeansCopied(c: Config, s: State, evs: seq<Event>)
    requires Copyable(c) && Initial(c, s)
    ensures var t := Run(c, s, evs);
            t.pc == Transferred(true) ==> Primary(c, t.flash) == Factory(c, t.flash)
  {
    hide Step, Primary, Factory, Overlaid;
    if Run(c, s, evs).pc == Transferred(true) {
      var i := LoopSince(c, s, evs);
      var begun := Run(c, s, evs[..i]);
      CursorRun(c, s, evs[..i]);
      assert evs == evs[..i] + evs[i..];
      RunAppend(c, s, evs[..i], evs[i..]);
      CopyLoopRun(c, begun, evs[i..]);
      OverlaidSlot(c, begun.flash, SlotSize(c));
    }
  }
}
