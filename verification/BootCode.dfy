/** The bootloader's code over mutable flash, proved to take only steps of the boot machine. */
module BootCode {
  import opened Memory
  import FlashMap
  import opened BootMachine
  import opened BootInvariants
  import opened CopyLoop
  import opened RollbackShape
  import opened BootSafety
  import opened BootDecision
  import opened BootTheorems

  /** How transfer_factory_image ends: in a failed assertion, or with its result. */
  datatype TransferEnd = Stopped | Result(ok: bool)

  /** How rollback_to_factory_image or main ends. */
  datatype End =
    | Asserted               // a failed assertion stopped the CPU
    | Started(rsp: Rsp)      // CM4 was started with this response; CM0+ sleeps for good
    | CameBack               // the function returned
    | StillWaiting           // main is in its wait loop

  /** One sleep of the wait loop: whether the button is pressed before the CPU is in WFI, and whether the
      button or something else wakes it. */
  datatype Nap = Nap(pressBefore: bool, wokenByPress: bool)

  // ----- the machine beside the code

  /** What is known of the machine state the code keeps up with. */
  ghost predicate Tracked(c: Config, s: State) {
    Base(c, s) && (WellFormed(c) && Guarded(c, s.flash) ==> Shape(c, s))
  }

  /** The code may start at any reset of any run. */
  lemma {:induction false} EveryResetTracked(c: Config, s: State, history: seq<Event>)
    requires Copyable(c) && Initial(c, s)
    ensures Tracked(c, Run(c, s, history))
  {
    hide Run, MagicOk;
    CursorRun(c, s, history);
    if WellFormed(c) {
      InitialShape(c, s);
      BaseRun(c, s, history);
      if Guarded(c, s.flash) {
        ShapeRun(c, s, history);
      }
    }
  }

  /** The code has taken the steps `evs` from `start`, without a power failure, and come to `at`; and after each
      of them the flash held, in `seen`, what the machine's holds. */
  ghost predicate Recorded(c: Config, start: State, evs: seq<Event>, at: State, seen: seq<Flash>) {
    && at == Run(c, start, evs) && Tracked(c, at) && NoPowerLoss(evs) && |seen| == |evs|
    && (forall i :: 0 <= i < |evs| ==> seen[i] == Run(c, start, evs[..i + 1]).flash)
  }

  /** Who called the rollback, and with which response, has not changed. */
  predicate SameCaller(s: State, t: State) {
    t.held == s.held && t.rsp == s.rsp
  }

  lemma PrepareKeepsCaller(c: Config, s: State, ok: bool)
    ensures SameCaller(s, GoPrepare(c, s, ok))
  {
    hide MagicOk;
  }

  lemma CopyKeepsCaller(c: Config, s: State, ok: bool)
    ensures SameCaller(s, GoCopy(c, s, ok))
  {
    hide WithRow, ReadAt;
  }

  lemma RollbackKeepsCaller(c: Config, s: State, e: Event)
    requires RollingBack(s.pc) && !PowerLoss(e)
    ensures SameCaller(s, Step(c, s, e))
  {
    hide Upgrade, Response, Primary, WithRow, GoPrepare, GoCopy, GoStart;
    if e.Go? {
      PrepareKeepsCaller(c, s, e.ok);
      CopyKeepsCaller(c, s, e.ok);
    }
  }

  lemma TrackedStep(c: Config, s: State, e: Event)
    requires Copyable(c) && Tracked(c, s)
    ensures Tracked(c, Step(c, s, e))
  {
    hide Step, Base, Shape, MagicOk;
    BaseStep(c, s, e);
    BaseFits(c, s);
    if WellFormed(c) {
      FactoryUntouched(c, s.flash, Step(c, s, e).flash);
      if Guarded(c, s.flash) {
        ShapeStep(c, s, e);
      }
    }
  }

  /** One more step. */
  lemma {:induction false} RecordStep(c: Config, start: State, evs: seq<Event>, at: State, seen: seq<Flash>, e: Event)
    requires Copyable(c) && Recorded(c, start, evs, at, seen) && !PowerLoss(e)
    ensures var t := Step(c, at, e); Recorded(c, start, evs + [e], t, seen + [t.flash])
  {
    hide Step, Run, Tracked, Copyable;
    TrackedStep(c, at, e);
    RunOne(c, at, e);
    RunAppend(c, start, evs, [e]);
    var all, now := evs + [e], seen + [Step(c, at, e).flash];
    forall i | 0 <= i < |all| ensures now[i] == Run(c, start, all[..i + 1]).flash {
      assert all[..i + 1] == if i < |evs| then evs[..i + 1] else all;
    }
  }

  /** What Cy_SysEnableCM4 has been called with. */
  function EntryOf(pc: Pc): Option<nat> {
    if pc.Running? then Some(Entry(pc.rsp)) else None
  }

  function Failure(ok: bool): nat {
    if ok then 0 else 1
  }

  /** The button is pressed at some turn of the wait loop. */
  ghost predicate Pressed(naps: seq<Nap>) {
    exists k :: 0 <= k < |naps| && (naps[k].pressBefore || naps[k].wokenByPress)
  }

  lemma {:induction false} RunsOn(c: Config, start: State, before: seq<Event>, evs: seq<Event>)
    returns (more: seq<Event>)
    requires before <= evs && NoPowerLoss(evs)
    ensures Run(c, start, evs) == Run(c, Run(c, start, before), more) && NoPowerLoss(more)
  {
    hide Run;
    more := evs[|before|..];
    assert evs == before + more;
    RunAppend(c, start, before, more);
  }

  /** The first or the second driver call of a transfer, to open the slot or to read the magic, fails. */
  predicate FailedEarly(before: seq<Event>, evs: seq<Event>) {
    var n := |before|;
    (n < |evs| && evs[n] == Go(false)) || (n + 1 < |evs| && evs[n + 1] == Go(false))
  }

  lemma NotFailedEarly(before: seq<Event>, evs: seq<Event>)
    requires before + [Go(true)] + [Go(true)] <= evs
    ensures !FailedEarly(before, evs)
  {
    assert evs[|before|] == Go(true) && evs[|before| + 1] == Go(true);
  }

  // ----- what the machine's steps need of the code, and give it

  predicate AtLoopHead(s: State, index: nat, factOff: nat, primOff: nat) {
    s.pc.LoopHead? && s.index == index && s.factOff == factOff && s.primOff == primOff
  }

  /** Programming a row has moved the cursors on, or ended the loop. */
  predicate RowDone(c: Config, s: State, t: State, ok: bool) {
    if ok then
      && AtLoopHead(t, Wrap32(s.index + c.rowSize), Wrap32(s.factOff + c.rowSize), Wrap32(s.primOff + c.rowSize))
      && s.index < t.index
    else t.pc == Transferred(false)
  }

  lemma ReadingInside(c: Config, s: State)
    requires Copyable(c) && Tracked(c, s) && s.pc.ReadRow?
    ensures c.layout.smifBase <= s.factOff
    ensures s.factOff - c.layout.smifBase + c.rowSize <= SlotSize(c) <= |s.flash.ext|
  {
  }

  lemma ReadsRow(c: Config, s: State, ok: bool)
    requires s.pc.ReadRow?
    ensures var t := Step(c, s, Go(ok));
            && t.flash == s.flash && t.flag == s.flag && t.irqOn == s.irqOn
            && t.index == s.index && t.factOff == s.factOff && t.primOff == s.primOff
            && t.pc == (if ok then WriteRow else Transferred(false))
            && (ok ==> t.buf == ReadAt(s.flash.ext, s.factOff - c.layout.smifBase, c.rowSize))
  {
  }

  lemma ReadsMagic(c: Config, s: State, ok: bool)
    requires s.pc.ReadMagic?
    ensures var t := Step(c, s, Go(ok));
            && t.flash == s.flash && t.flag == s.flag && t.irqOn == s.irqOn
            && if !ok then t.pc == FailPc(c)
               else if MagicOk(c, s.flash) then t.pc == Erase && t.toErase == Rows(c)
               else t.pc == if c.halts then Halted else CopyInit
  {
    hide MagicOk, Rows;
  }

  lemma WritingBlank(c: Config, s: State)
    requires Copyable(c) && Tracked(c, s) && s.pc.WriteRow?
    ensures s.primOff + c.rowSize <= SlotSize(c) && |s.buf| == c.rowSize
    ensures WellFormed(c) && Guarded(c, s.flash) ==> RowBlank(Primary(c, s.flash), s.primOff, c.rowSize, c.erased)
  {
    if WellFormed(c) && Guarded(c, s.flash) {
      ProgramsBlankRow(c, s);
    }
  }

  lemma WritesRow(c: Config, s: State, ok: bool)
    requires Copyable(c) && Tracked(c, s) && s.pc.WriteRow?
    ensures var t := Step(c, s, Go(ok));
            && t.flag == s.flag && t.irqOn == s.irqOn
            && if ok then
                 t.pc.LoopHead? && t.flash == WithRow(c, s.flash, s.primOff, s.buf)
               else t.pc.Transferred? && t.flash == s.flash
    ensures RowDone(c, s, Step(c, s, Go(ok)), ok)
  {
    hide Fits, WithRow, Aligned, Shape, WellFormed;
    NoWrap(s.index + c.rowSize);
  }

  /** Where a failed driver call leads before the copy loop. */
  function FailPc(c: Config): Pc {
    if c.halts then Halted else Transferred(false)
  }

  /** A `uint32_t` read from the start of the factory region. */
  lemma MagicFrom(c: Config, f: Flash, word: seq<Byte>)
    requires 4 <= |f.ext| && |word| == 4 && word == ReadAt(f.ext, 0, 4)
    ensures LittleEndian(Word(word), f.ext[..4])
    ensures Word(word) == c.magic <==> MagicOk(c, f)
  {
    hide Word, LittleEndian;
    WordIsLittleEndian(word);
  }

  /** What the machine's invariants say about a slot whose transfer has failed. */
  lemma AfterFailure(c: Config, s: State)
    requires WellFormed(c) && Tracked(c, s) && s.pc == Transferred(false) && Guarded(c, s.flash)
    ensures c.halts || 0 < s.ops.rowReads ==> s.index < SlotSize(c) && Copied(c, s.flash, s.index)
  {
  }

  class Bootloader {
    const c: Config
    const intern: array<Byte>
    const ext: array<Byte>
    var pending: bool
    var isUserButtonPressed: bool
    var irqEnabled: bool
    var cm4Entry: Option<nat>
    ghost var installed: seq<Byte>
    ghost var torn: set<nat>
    ghost var failures: nat   // driver calls that have reported failure

    // the machine that runs beside the code: where it began, its steps, where it is, and the flash after each step
    ghost const start: State
    ghost var evs: seq<Event>
    ghost var at: State
    ghost var seen: seq<Flash>

    /** A device that comes out of reset, with what `s` holds in its flash. */
    constructor (c: Config, intern: array<Byte>, ext: array<Byte>, pending: bool, ghost s: State)
      requires Copyable(c) && intern != ext && s == Off(s) && Tracked(c, s)
      requires s.flash.intern == intern[..] && s.flash.ext == ext[..] && s.flash.pending == pending
      ensures this.c == c && this.intern == intern && this.ext == ext && start == s
      ensures Valid() && evs == [] && failures == 0 && FlashNow() == s.flash
    {
      this.c, this.intern, this.ext, this.pending := c, intern, ext, pending;
      isUserButtonPressed, irqEnabled, cm4Entry := false, false, None;
      installed, torn, failures := s.flash.installed, s.flash.torn, 0;
      start, evs, at, seen := s, [], s, [];
    }

    ghost function FlashNow(): Flash
      reads this`pending, this`installed, this`torn, intern, ext
    {
      Flash(intern[..], ext[..], pending, installed, torn)
    }

    ghost predicate Logged()
      reads this`evs, this`at, this`seen
    {
      Copyable(c) && intern != ext && Recorded(c, start, evs, at, seen)
    }

    /** The machine state `m` is what the device holds; CM4 is enabled exactly while the machine runs it. */
    ghost predicate Holds(m: State)
      reads this`pending, this`installed, this`torn, this`isUserButtonPressed, this`irqEnabled, this`cm4Entry
      reads intern, ext
    {
      && m.flash == FlashNow() && m.flag == isUserButtonPressed && m.irqOn == irqEnabled
      && cm4Entry == EntryOf(m.pc)
    }

    /** ... and the calls that have failed are those that fail in the machine's run. */
    ghost predicate Valid()
      reads this, intern, ext
    {
      Logged() && Holds(at) && failures == FailureCount(evs)
    }

    /** The machine takes the step the code has just taken. */
    ghost method Take(e: Event)
      requires Logged() && !PowerLoss(e) && Holds(Step(c, at, e))
      requires failures == FailureCount(evs) + if e == Go(false) then 1 else 0
      modifies this`evs, this`at, this`seen
      ensures Valid() && at == Step(c, old(at), e) && evs == old(evs) + [e]
      ensures RollingBack(old(at).pc) ==> SameCaller(old(at), at)
    {
      hide Step, Recorded, Copyable, SameCaller, FlashNow, EntryOf, FailureCount;
      OneMore(evs, e);
      RecordStep(c, start, evs, at, seen, e);
      if RollingBack(at.pc) {
        RollbackKeepsCaller(c, at, e);
      }
      evs, at, seen := evs + [e], Step(c, at, e), seen + [FlashNow()];
    }

    /** If the power fails after any of the steps taken, what the device held then is what the machine's
        reset finds. */
    lemma {:induction false} PowerFailsAnywhere(i: nat)
      requires Valid() && i < |evs|
      ensures var t := Run(c, start, evs[..i + 1] + [PowerFail]); t == Off(t) && t.flash == seen[i]
    {
      hide Run;
      RunAppend(c, start, evs[..i + 1], [PowerFail]);
      PowerOff(c, Run(c, start, evs[..i + 1]));
    }

    lemma ValidParts()
      requires Valid()
      ensures Logged() && Holds(at) && failures == FailureCount(evs)
    {
    }

    lemma {:induction false} Anchored()
      requires Valid()
      ensures Copyable(c) && intern != ext && Holds(at)
      ensures at == Run(c, start, evs) && NoPowerLoss(evs) && Tracked(c, at) && Base(c, at)
    {
    }

    lemma Begins()
      requires Valid() && evs == []
      ensures at == start && FlashNow() == start.flash && Tracked(c, start) && failures == 0
      ensures start == Off(start) ==> at.pc.Reset? && !isUserButtonPressed && !at.held
    {
      hide Tracked;
    }

    lemma FitsNow()
      requires Valid()
      ensures Fits(c, FlashNow())
    {
      BaseFits(c, at);
    }

    // ----- drivers; each may fail at any call

    /** A driver call may go wrong at any time; this is the only place where one does. */
    method MayFail() returns (ok: bool)
      modifies this`failures
      ensures failures == old(failures) + Failure(ok)
    {
      ok := *;
      failures := failures + Failure(ok);
    }

    method FlashAreaOpen(id: FlashMap.AreaId) returns (ok: bool, fap: Option<FlashMap.Area>)
      requires FlashMap.Lookup(FlashMap.Table(c.layout), id).Some?
      modifies this`failures
      ensures failures == old(failures) + Failure(ok)
      ensures ok ==> fap == FlashMap.Lookup(FlashMap.Table(c.layout), id)
    {
      fap := FlashMap.Lookup(FlashMap.Table(c.layout), id);
      ok := MayFail();
    }

    method SmifRead(address: nat, buf: array<Byte>) returns (ok: bool)
      requires buf != ext
      requires c.layout.smifBase <= address && address - c.layout.smifBase + buf.Length <= ext.Length
      modifies buf, this`failures
      ensures failures == old(failures) + Failure(ok)
      ensures ok ==> buf[..] == ReadAt(ext[..], address - c.layout.smifBase, buf.Length)
    {
      ok := MayFail();
      if ok {
        var from := address - c.layout.smifBase;
        forall i | 0 <= i < buf.Length {
          buf[i] := ext[from + i];
        }
      }
    }

    /** Programs one row of an area. A row is programmed only while it is blank, unless the build lets a
        wrong magic through or the flash map is unsound. */
    method FlashAreaWrite(fap: FlashMap.Area, off: nat, buf: array<Byte>) returns (ok: bool)
      requires intern != ext && buf != intern && buf.Length == c.rowSize
      requires PrimaryOff(c) + SlotSize(c) <= intern.Length
      requires fap.off == c.layout.flashBase + PrimaryOff(c) && off + buf.Length <= fap.size == SlotSize(c)
      requires WellFormed(c) && Guarded(c, FlashNow()) ==> RowBlank(Primary(c, FlashNow()), off, c.rowSize, c.erased)
      modifies intern, this`failures
      ensures failures == old(failures) + Failure(ok)
      ensures FlashNow() == if ok then WithRow(c, old(FlashNow()), off, buf[..]) else old(FlashNow())
    {
      ok := MayFail();
      if ok {
        var to := fap.off - c.layout.flashBase + off;
        forall i | 0 <= i < buf.Length {
          intern[to + i] := buf[i];
        }
        assert intern[..] == Patch(old(intern[..]), to, buf[..]);
      }
    }

    method EraseOneRow(off: nat)
      requires intern != ext && PrimaryOff(c) + SlotSize(c) <= intern.Length && off + c.rowSize <= SlotSize(c)
      modifies intern, this`torn
      ensures FlashNow() == ErasedAt(c, old(FlashNow()), off)
    {
      var to := PrimaryOff(c) + off;
      forall i | 0 <= i < c.rowSize {
        intern[to + i] := c.erased;
      }
      torn := torn - {off};
      assert intern[..] == Patch(old(intern[..]), to, Blank(c.rowSize, c.erased));
    }

    /** MCUboot copies an image over the primary slot. */
    method OverwritePrimary(image: seq<Byte>)
      requires intern != ext && PrimaryOff(c) + SlotSize(c) <= intern.Length && |image| == SlotSize(c)
      modifies intern, this`installed, this`torn
      ensures FlashNow() == WithPrimary(c, old(FlashNow()), image).(installed := image, torn := {})
    {
      forall i | 0 <= i < SlotSize(c) {
        intern[PrimaryOff(c) + i] := image[i];
      }
      assert intern[..] == Patch(old(intern[..]), PrimaryOff(c), image);
      installed, torn := image, {};
    }

    /** MCUboot's boot_go, by its contract: install a pending, valid upgrade, then judge the primary slot. */
    method BootGo() returns (ok: bool, rsp: Rsp)
      requires Copyable(c) && intern != ext && Fits(c, FlashNow())
      modifies intern, this`pending, this`installed, this`torn
      ensures FlashNow() == Upgrade(c, old(FlashNow()))
      ensures ok <==> c.valid(Primary(c, FlashNow()))
      ensures rsp == Response(c, FlashNow())
    {
      var incoming := Incoming(c, Flash(intern[..], ext[..], pending, [], {}));
      UpgradeEffect(c, FlashNow());
      hide Incoming, Patch, Fits, Aligned;
      if pending && c.valid(incoming) {
        OverwritePrimary(incoming);
      }
      pending := false;
      var slot := intern[PrimaryOff(c)..PrimaryOff(c) + SlotSize(c)];
      ok := c.valid(slot);
      rsp := Rsp(FlashMap.Primary1(c.layout).off, c.headerSize(slot), slot);
    }

    // ----- the copy loop

    ghost method SetCursors()
      requires Valid() && at.pc.CopyInit?
      modifies this`evs, this`at, this`seen
      ensures Valid() && evs == old(evs) + [Go(true)] && SameCaller(old(at), at)
      ensures AtLoopHead(at, 0, Wrap32(c.layout.smifBase), 0)
    {
      hide Recorded, Wrap32;
      AlignedExactly(SlotSize(c), c.rowSize);
      Take(Go(true));
    }

    /** `index < bytes_to_copy`. */
    ghost method TestIndex()
      requires Valid() && at.pc.LoopHead?
      modifies this`evs, this`at, this`seen
      ensures Valid() && evs == old(evs) + [Go(true)]
      ensures at == old(at).(pc := if old(at).index < SlotSize(c) then ReadRow else Transferred(true))
    {
      hide Recorded;
      Take(Go(true));
    }

    method ReadFactoryRow(factImgOff: nat, ramBuf: array<Byte>) returns (ok: bool)
      requires Valid() && at.pc.ReadRow? && at.factOff == factImgOff
      requires ramBuf != intern && ramBuf != ext && ramBuf.Length == c.rowSize
      modifies ramBuf, this`evs, this`at, this`seen, this`failures
      ensures failures == old(failures) + Failure(ok)
      ensures Valid() && evs == old(evs) + [Go(ok)] && SameCaller(old(at), at)
      ensures at.pc == if ok then WriteRow else Transferred(false)
      ensures at.index == old(at).index && at.factOff == old(at).factOff && at.primOff == old(at).primOff
      ensures ok ==> at.buf == ramBuf[..]
    {
      hide Recorded, ReadAt, Step, Base, Tracked, Copyable;
      Anchored();
      ReadingInside(c, at);
      ok := SmifRead(factImgOff, ramBuf);
      ReadsRow(c, at, ok);
      Take(Go(ok));
    }

    /** The machine's side of programming a row. */
    ghost method RowProgrammed(ok: bool)
      requires Logged() && at.pc.WriteRow? && failures == FailureCount(evs) + Failure(ok)
      requires FlashNow() == if ok then WithRow(c, at.flash, at.primOff, at.buf) else at.flash
      requires at.flag == isUserButtonPressed && at.irqOn == irqEnabled && cm4Entry == None
      modifies this`evs, this`at, this`seen
      ensures Valid() && evs == old(evs) + [Go(ok)] && SameCaller(old(at), at)
      ensures RowDone(c, old(at), at, ok)
    {
      assert Tracked(c, at) && RollingBack(at.pc);
      hide Step, Tracked, Recorded, WithRow, RowDone, Copyable, SameCaller, FlashNow, FailureCount;
      WritesRow(c, at, ok);
      Take(Go(ok));
    }

    method ProgramRow(fap: FlashMap.Area, primSlotOff: nat, ramBuf: array<Byte>) returns (ok: bool)
      requires Valid() && at.pc.WriteRow? && at.primOff == primSlotOff && at.buf == ramBuf[..]
      requires ramBuf != intern && fap.off == c.layout.flashBase + PrimaryOff(c) && fap.size == SlotSize(c)
      modifies intern, this`evs, this`at, this`seen, this`failures
      ensures failures == old(failures) + Failure(ok)
      ensures Valid() && evs == old(evs) + [Go(ok)] && SameCaller(old(at), at)
      ensures RowDone(c, old(at), at, ok)
    {
      Anchored();
      FitsNow();
      hide Valid, Logged, Step, Run, Tracked, Base, Guarded, RowBlank, WithRow, Wrap32, WellFormed, Primary, Copyable,
        SameCaller, FlashNow, FailureCount, RowDone;
      WritingBlank(c, at);
      ValidParts();
      ok := FlashAreaWrite(fap, primSlotOff, ramBuf);
      RowProgrammed(ok);
    }

    /** One turn of the loop. */
    method CopyRow(fap: FlashMap.Area, factImgOff: nat, primSlotOff: nat, index: nat, ramBuf: array<Byte>)
      returns (ok: bool)
      requires Valid() && AtLoopHead(at, index, factImgOff, primSlotOff) && index < SlotSize(c)
      requires ramBuf != intern && ramBuf != ext && ramBuf.Length == c.rowSize
      requires fap.off == c.layout.flashBase + PrimaryOff(c) && fap.size == SlotSize(c)
      modifies ramBuf, intern, this`evs, this`at, this`seen, this`failures
      ensures failures == old(failures) + Failure(ok)
      ensures Valid() && old(evs) <= evs && SameCaller(old(at), at)
      ensures if ok then
                AtLoopHead(at, Wrap32(index + c.rowSize), Wrap32(factImgOff + c.rowSize),
                           Wrap32(primSlotOff + c.rowSize))
                && index < at.index
              else at.pc == Transferred(false)
    {
      hide Valid, Wrap32;
      TestIndex();
      ok := ReadFactoryRow(factImgOff, ramBuf);
      if ok {
        ok := ProgramRow(fap, primSlotOff, ramBuf);
      }
    }

    /** The copy loop of transfer_factory_image, from where its cursors are set up: over any flash, for any
        results of its reads and writes, it replaces the start of the slot by as many bytes of the factory region
        as the index says, and nothing else; and it succeeds if and only if that is the whole slot. */
    method CopyFactoryRows(fap: FlashMap.Area) returns (result: bool)
      requires Valid() && at.pc.CopyInit?
      requires fap.off == c.layout.flashBase + PrimaryOff(c) && fap.size == SlotSize(c)
      modifies intern, this`evs, this`at, this`seen, this`failures
      ensures Valid() && old(evs) <= evs && SameCaller(old(at), at) && at.pc == Transferred(result)
      ensures FlashNow() == Overlaid(c, old(FlashNow()), at.index) && at.index <= SlotSize(c)
      ensures result <==> at.index == SlotSize(c)
      ensures failures == old(failures) + Failure(result)
      ensures result ==> Primary(c, FlashNow()) == Factory(c, FlashNow())
    {
      Anchored();
      hide Valid, FlashNow, Step, Run, Base, Tracked, Wrap32, Aligned, Overlaid, Primary, Factory;
      var bytesToCopy := fap.size;
      var factImgOff: nat := Wrap32(c.layout.smifBase);
      var primSlotOff: nat := 0;
      var index: nat := 0;
      var ramBuf := new Byte[c.rowSize](_ => 0);
      assert bytesToCopy % c.rowSize == 0 by { AlignedExactly(bytesToCopy, c.rowSize); }
      result := true;
      SetCursors();
      while index < bytesToCopy
        invariant Valid() && fresh(ramBuf) && ramBuf.Length == c.rowSize && result
        invariant old(evs) <= evs && SameCaller(old(at), at) && failures == old(failures)
        invariant AtLoopHead(at, index, factImgOff, primSlotOff)
        decreases bytesToCopy - index
      {
        result := CopyRow(fap, factImgOff, primSlotOff, index, ramBuf);
        if !result {
          break;
        }
        factImgOff := Wrap32(factImgOff + c.rowSize);
        primSlotOff := Wrap32(primSlotOff + c.rowSize);
        index := Wrap32(index + c.rowSize);
      }
      if result {
        TestIndex();
      }
      LoopOutcome(old(evs), old(at));
    }

    lemma {:induction false} LoopOutcome(before: seq<Event>, s: State)
      requires Valid() && before <= evs && s == Run(c, start, before) && Base(c, s)
      requires s.pc.CopyInit? && at.pc.Transferred?
      ensures FlashNow() == Overlaid(c, s.flash, at.index) && at.index <= SlotSize(c)
      ensures at.pc.ok <==> at.index == SlotSize(c)
      ensures at.pc.ok ==> Primary(c, FlashNow()) == Factory(c, FlashNow())
    {
      hide Run, Primary, Factory, Overlaid;
      var more := RunsOn(c, start, before, evs);
      BaseFits(c, s);
      LoopRun(c, s, more);
      OverlaidAll(c, s.flash);
      OverlaidSlot(c, s.flash, SlotSize(c));
    }

    // ----- transfer_factory_image

    method OpenPrimary() returns (ok: bool, fap: Option<FlashMap.Area>)
      requires Valid() && WellFormed(c) && at.pc.Open?
      modifies this`evs, this`at, this`seen, this`failures
      ensures failures == old(failures) + Failure(ok)
      ensures Valid() && evs == old(evs) + [Go(ok)] && SameCaller(old(at), at)
      ensures at.pc == if ok then ReadMagic else FailPc(c)
      ensures ok ==> fap.Some? && fap.value.off == c.layout.flashBase + PrimaryOff(c) && fap.value.size == SlotSize(c)
    {
      hide Recorded, WellFormed;
      OffsetsAreTheMaps(c);
      ok, fap := FlashAreaOpen(FlashMap.PrimaryArea(0));
      Take(Go(ok));
    }

    /** The four bytes at the start of the factory region. */
    method ReadImageMagic() returns (ok: bool, magic: nat)
      requires Valid() && at.pc.ReadMagic? && 4 <= SlotSize(c)
      modifies this`evs, this`at, this`seen, this`failures
      ensures failures == old(failures) + Failure(ok)
      ensures Valid() && evs == old(evs) + [Go(ok)] && SameCaller(old(at), at)
      ensures 4 <= ext.Length && (ok ==> LittleEndian(magic, ext[..4]))
      ensures ok ==> (magic == c.magic <==> MagicOk(c, FlashNow()))
      ensures if !ok then at.pc == FailPc(c)
              else if magic != c.magic then at.pc == if c.halts then Halted else CopyInit
              else at.pc.Erase? && at.toErase == Rows(c)
    {
      hide Word, LittleEndian, MagicOk, ReadAt, Rows, Recorded, Tracked, Step, Copyable;
      FitsNow();
      var word := new Byte[4](_ => 0);
      ok := SmifRead(c.layout.smifBase, word);
      if ok {
        MagicFrom(c, FlashNow(), word[..]);
      }
      magic := Word(word[..]);
      ReadsMagic(c, at, ok);
      Take(Go(ok));
    }

    method EraseRowStep(off: nat)
      requires Valid() && at.pc.Erase? && off in at.toErase
      modifies intern, this`torn, this`evs, this`at, this`seen
      ensures Valid() && evs == old(evs) + [EraseRow(off)] && SameCaller(old(at), at)
      ensures at.pc.Erase? && at.toErase == old(at).toErase - {off}
    {
      hide Recorded, Tracked, WithRow, Copyable, Aligned;
      Anchored();
      InFlightFits(c, at, off);
      FitsNow();
      EraseOneRow(off);
      Take(EraseRow(off));
    }

    ghost method EndErase(ok: bool)
      requires Logged() && Holds(at) && failures == FailureCount(evs) + Failure(ok)
      requires at.pc.Erase? && (ok ==> at.toErase == {})
      modifies this`evs, this`at, this`seen
      ensures Valid() && evs == old(evs) + [Go(ok)] && SameCaller(old(at), at)
      ensures at.pc == if ok then CopyInit else FailPc(c)
    {
      hide Recorded;
      Take(Go(ok));
    }

    /** Erases the primary slot, row by row in an order of the driver's choosing; it may give up. */
    method FlashAreaErase() returns (ok: bool)
      requires Valid() && at.pc.Erase? && at.toErase == Rows(c)
      modifies intern, this`torn, this`evs, this`at, this`seen, this`failures
      ensures failures == old(failures) + Failure(ok)
      ensures Valid() && old(evs) < evs && SameCaller(old(at), at)
      ensures at.pc == if ok then CopyInit else FailPc(c)
    {
      hide Valid, Logged, Holds, Rows, FailureCount;
      var todo := Rows(c);
      ok := true;
      while todo != {}
        invariant Valid() && old(evs) <= evs && SameCaller(old(at), at) && failures == old(failures) && ok
        invariant at.pc.Erase? && at.toErase == todo
        decreases |todo|
      {
        var goOn: bool := *;
        if !goOn {
          ValidParts();
          ok := MayFail();
          if !ok {
            break;
          }
        }
        var o :| o in todo;
        EraseRowStep(o);
        todo := todo - {o};
      }
      if ok {
        ValidParts();
      }
      EndErase(ok);
    }

    lemma {:induction false} StaysInSlots(before: seq<Event>, s: State)
      requires Valid() && before <= evs && s == Run(c, start, before) && Base(c, s)
      ensures Untouched(c, s.flash, FlashNow())
    {
      hide Run, Base, Tracked, Untouched;
      var more := RunsOn(c, start, before, evs);
      CursorRun(c, s, more);
    }

    lemma SlotHoldsMagic()
      requires Valid() && WellFormed(c)
      ensures 4 <= SlotSize(c)
    {
    }

    lemma FailsClean()
      requires Valid() && WellFormed(c) && at.pc == Transferred(false)
      ensures Guarded(c, FlashNow()) && (c.halts || 0 < at.ops.rowReads) ==>
                at.index < SlotSize(c) && Copied(c, FlashNow(), at.index)
    {
      hide Copied;
      if Guarded(c, FlashNow()) {
        AfterFailure(c, at);
      }
    }

    /** Open the slot and look for the magic, which touches no flash. */
    method FindMagic() returns (result: bool, found: bool, fap: Option<FlashMap.Area>)
      requires Valid() && WellFormed(c) && at.pc.Open?
      modifies this`evs, this`at, this`seen, this`failures
      ensures failures == old(failures) + Failure(result)
      ensures Valid() && old(evs) <= evs && SameCaller(old(at), at)
      ensures at.pc == if found then Erase else if result && !c.halts then CopyInit else FailPc(c)
      ensures found ==> result && at.toErase == Rows(c)
      ensures result ==>
                && fap.Some? && fap.value.off == c.layout.flashBase + PrimaryOff(c) && fap.value.size == SlotSize(c)
                && (found <==> MagicOk(c, FlashNow())) && evs == old(evs) + [Go(true)] + [Go(true)]
    {
      SlotHoldsMagic();
      hide Valid, FlashNow, SlotSize, PrimaryOff, WellFormed, MagicOk, Rows;
      var imageMagic: nat := 0;
      result, fap := OpenPrimary();
      if result {
        result, imageMagic := ReadImageMagic();
      }
      found := result && imageMagic == c.magic;
    }

    /** The first half of transfer_factory_image: open the slot, check the magic, erase. It stops in a failed
        assertion, or hands over a result with which the copy loop is entered or skipped. */
    method PrepareSlot() returns (stopped: bool, result: bool, fap: Option<FlashMap.Area>)
      requires Valid() && WellFormed(c) && at.pc.Open?
      modifies intern, this`torn, this`evs, this`at, this`seen, this`failures
      ensures Valid() && old(evs) <= evs && SameCaller(old(at), at)
      ensures at.pc == if stopped then Halted else if result then CopyInit else Transferred(false)
      ensures stopped ==> c.halts
      ensures !stopped && result ==>
                fap.Some? && fap.value.off == c.layout.flashBase + PrimaryOff(c) && fap.value.size == SlotSize(c)
      ensures !stopped && !result ==> !c.halts
      ensures result ==> old(evs) + [Go(true)] + [Go(true)] <= evs
      ensures failures == old(failures) ==> result && (stopped <==> c.halts && !MagicOk(c, old(FlashNow())))
      ensures failures != old(failures) ==> !result && (stopped <==> c.halts)
      ensures c.halts && !MagicOk(c, old(FlashNow())) ==> stopped && FlashNow() == old(FlashNow())
      ensures FailedEarly(old(evs), evs) ==> stopped == c.halts && !result && FlashNow() == old(FlashNow())
    {
      hide Valid, FlashNow, SlotSize, PrimaryOff, WellFormed, MagicOk, Rows, FailedEarly;
      var found: bool;
      result, found, fap := FindMagic();
      if found {
        result := FlashAreaErase();
        NotFailedEarly(old(evs), evs);
        stopped := !result && c.halts;
      } else {
        if result {
          NotFailedEarly(old(evs), evs);
        }
        stopped := c.halts;
      }
    }

    /** transfer_factory_image. A successful result means the slot equals the factory region. A failed one
        means, once rows have been read (where assertions halt there is no other case) and if the slot was
        erased first, whole factory rows up to some point and blank rows behind it. If opening the slot or reading
        the magic fails, or the magic is wrong and assertions halt, the slot is not touched. */
    method TransferFactoryImage() returns (end: TransferEnd)
      requires Valid() && WellFormed(c) && at.pc.Open?
      modifies intern, this`torn, this`evs, this`at, this`seen, this`failures
      ensures Valid() && old(evs) <= evs && SameCaller(old(at), at)
      ensures at.pc == if end.Stopped? then Halted else Transferred(end.ok)
      ensures Untouched(c, old(FlashNow()), FlashNow())
      ensures end.Stopped? ==> c.halts
      ensures end == Result(true) ==> Primary(c, FlashNow()) == Factory(c, FlashNow())
      ensures end == Result(false) && Guarded(c, FlashNow()) && (c.halts || 0 < at.ops.rowReads) ==>
                at.index < SlotSize(c) && Copied(c, FlashNow(), at.index)
      ensures end == Result(true) <==> failures == old(failures) && (MagicOk(c, old(FlashNow())) || !c.halts)
      ensures c.halts && !MagicOk(c, old(FlashNow())) ==> end.Stopped? && FlashNow() == old(FlashNow())
      ensures FailedEarly(old(evs), evs) ==>
                end == (if c.halts then Stopped else Result(false)) && FlashNow() == old(FlashNow())
    {
      Anchored();
      hide Valid, FlashNow, Run, Base, Tracked, WellFormed, Copyable, SlotSize, PrimaryOff, Untouched, Copied, MagicOk,
        Primary, Factory, Guarded, FailedEarly, Overlaid;
      var stopped, result, fap := PrepareSlot();
      if !stopped && result {
        result := CopyFactoryRows(fap.value);
        NotFailedEarly(old(evs), evs);
      }
      StaysInSlots(old(evs), old(at));
      if !stopped && !result {
        FailsClean();
      }
      end := if stopped then Stopped else Result(result);
    }

    // ----- rollback_to_factory_image

    ghost method EndTransfer()
      requires Valid() && at.pc.Transferred?
      modifies this`evs, this`at, this`seen
      ensures Valid() && evs == old(evs) + [Go(true)]
      ensures at == old(at).(pc := if old(at).pc.ok || !c.halts then Validate else Halted)
    {
      hide Recorded;
      Take(Go(true));
    }

    /** The boot_go behind a transfer. */
    method ValidateFactory() returns (ok: bool, rsp: Rsp)
      requires Valid() && at.pc.Validate?
      modifies intern, this`pending, this`installed, this`torn, this`evs, this`at, this`seen
      ensures Valid() && evs == old(evs) + [Go(true)] && SameCaller(old(at), at)
      ensures at.pc == if ok then StartCM4(rsp)
                       else if c.halts then Halted
                       else if at.held && at.rsp.Some? then StartCM4(at.rsp.value)
                       else Exited
      ensures FlashNow() == Upgrade(c, old(FlashNow())) && rsp == Response(c, FlashNow())
      ensures ok <==> c.valid(Primary(c, FlashNow()))
    {
      hide Recorded, Tracked, Upgrade, Response, Primary, Aligned;
      FitsNow();
      ok, rsp := BootGo();
      Take(Go(true));
    }

    /** do_boot: start CM4 behind the image header. */
    method DoBoot(rsp: Rsp)
      requires Valid() && at.pc == StartCM4(rsp)
      modifies this`cm4Entry, this`evs, this`at, this`seen
      ensures Valid() && evs == old(evs) + [Go(true)] && at == old(at).(pc := Running(rsp))
      ensures cm4Entry == Some(Entry(rsp))
    {
      hide Recorded;
      cm4Entry := Some(Wrap32(rsp.imageOff + rsp.headerSize));
      Take(Go(true));
    }

    /** After a complete transfer with no upgrade pending, boot_go judges the factory region. */
    lemma JudgesFactory(f: Flash)
      requires Valid() && WellFormed(c) && Fits(c, f) && Untouched(c, f, FlashNow())
      requires Primary(c, FlashNow()) == Factory(c, FlashNow()) && !FlashNow().pending
      ensures Primary(c, Upgrade(c, FlashNow())) == Factory(c, f)
    {
      hide Primary, Factory, Incoming;
      FactoryUntouched(c, f, FlashNow());
      FitsNow();
      UpgradeEffect(c, FlashNow());
    }

    /** The second half of rollback_to_factory_image: boot_go, and do_boot if it approves. */
    method BootFactory() returns (end: End)
      requires Valid() && at.pc.Validate?
      modifies intern, this`pending, this`installed, this`torn, this`cm4Entry, this`evs, this`at, this`seen
      ensures Valid() && old(evs) <= evs && SameCaller(old(at), at) && FlashNow() == Upgrade(c, old(FlashNow()))
      ensures if c.valid(Primary(c, FlashNow())) then
                end == Started(Response(c, FlashNow())) && at.pc == Running(end.rsp)
              else if c.halts then end == Asserted && at.pc == Halted
              else end == CameBack && at.pc == if at.held && at.rsp.Some? then StartCM4(at.rsp.value) else Exited
    {
      hide Valid, FlashNow, Upgrade, Response, Primary;
      var ok, rsp := ValidateFactory();
      if ok {
        DoBoot(rsp);
        end := Started(rsp);
      } else {
        end := if c.halts then Asserted else CameBack;
      }
    }

    /** rollback_to_factory_image. It starts CM4 only with boot_go's approval of what the slot then holds; and if no
        call fails, the magic is right and no upgrade is pending, it starts the factory image if and only if that is
        valid. */
    method RollbackToFactoryImage() returns (end: End)
      requires Valid() && WellFormed(c) && at.pc.Open?
      modifies intern, this`pending, this`installed, this`torn, this`cm4Entry
      modifies this`evs, this`at, this`seen, this`failures
      ensures Valid() && old(evs) <= evs && SameCaller(old(at), at)
      ensures match end
              case Asserted => c.halts && at.pc == Halted
              case Started(rsp) => at.pc == Running(rsp)
              case CameBack => !c.halts && at.pc == (if at.held && at.rsp.Some? then StartCM4(at.rsp.value) else Exited)
              case StillWaiting => false
      ensures end.Started? ==> end.rsp == Response(c, FlashNow()) && c.valid(Primary(c, FlashNow()))
      ensures failures == old(failures) && MagicOk(c, old(FlashNow())) && !old(pending) ==>
                if c.valid(Factory(c, old(FlashNow()))) then
                  end.Started? && Primary(c, FlashNow()) == Factory(c, old(FlashNow()))
                else end == if c.halts then Asserted else CameBack
    {
      FitsNow();
      hide Valid, FlashNow, Fits, WellFormed, SlotSize, PrimaryOff, Untouched, Copied, MagicOk, Primary, Factory,
        Guarded, FailedEarly, Entry, Upgrade, Response;
      var transfer := TransferFactoryImage();
      if transfer.Stopped? {
        return Asserted;
      }
      if transfer.ok && !pending {
        PendingNow();
        JudgesFactory(old(FlashNow()));
      }
      EndTransfer();
      if !transfer.ok && c.halts {
        return Asserted;
      }
      end := BootFactory();
    }

    lemma PendingNow()
      ensures FlashNow().pending == pending
    {
    }

    /** CM4 is enabled exactly when the machine runs it. */
    lemma EnabledNow()
      requires Valid()
      ensures cm4Entry == if at.pc.Running? then Some(Entry(at.pc.rsp)) else None
    {
    }

    // ----- the wait loop

    /** The button interrupt, while it is armed. */
    method UserButtonCallback()
      requires Valid() && irqEnabled
      modifies this`isUserButtonPressed, this`evs, this`at, this`seen
      ensures Valid() && isUserButtonPressed && evs == old(evs) + [Isr]
      ensures at == old(at).(flag := true, pc := if old(at).pc.Asleep? then CheckFlag else old(at).pc)
    {
      hide Recorded;
      isUserButtonPressed := true;
      Take(Isr);
    }

    /** __WFI, until the button or something else wakes the CPU. */
    method Wfi(wokenByPress: bool)
      requires Valid() && at.pc.BeforeWfi? && irqEnabled
      modifies this`isUserButtonPressed, this`evs, this`at, this`seen
      ensures Valid() && old(evs) <= evs && at == old(at).(flag := isUserButtonPressed, pc := CheckFlag)
      ensures isUserButtonPressed == (old(isUserButtonPressed) || wokenByPress)
    {
      hide Recorded;
      Take(Go(true));
      if wokenByPress {
        UserButtonCallback();
      } else {
        Take(Wake);
      }
    }

    ghost method TestFlag()
      requires Valid() && at.pc.CheckFlag?
      modifies this`evs, this`at, this`seen
      ensures Valid() && evs == old(evs) + [Go(true)]
      ensures at == old(at).(pc := if isUserButtonPressed then DisableIrq else BeforeWfi)
    {
      hide Recorded;
      Take(Go(true));
    }

    /** One turn of the wait loop. */
    method TakeNap(nap: Nap)
      requires Valid() && at.pc.BeforeWfi? && irqEnabled
      modifies this`isUserButtonPressed, this`evs, this`at, this`seen
      ensures Valid() && old(evs) <= evs
      ensures isUserButtonPressed == (old(isUserButtonPressed) || nap.pressBefore || nap.wokenByPress)
      ensures at == old(at).(flag := isUserButtonPressed, pc := if isUserButtonPressed then DisableIrq else BeforeWfi)
    {
      hide Valid;
      FlagMatches();
      if nap.pressBefore {
        UserButtonCallback();
      }
      Wfi(nap.wokenByPress);
      TestFlag();
    }

    lemma FlagMatches()
      requires Valid()
      ensures at.flag == isUserButtonPressed && at.irqOn == irqEnabled
    {
    }

    method NvicEnableIrq()
      requires Valid() && at.pc.EnableIrq?
      modifies this`irqEnabled, this`evs, this`at, this`seen
      ensures Valid() && irqEnabled && evs == old(evs) + [Go(true)] && at == old(at).(pc := BeforeWfi, irqOn := true)
    {
      hide Recorded;
      irqEnabled := true;
      Take(Go(true));
    }

    method NvicDisableIrq()
      requires Valid() && at.pc.DisableIrq?
      modifies this`irqEnabled, this`evs, this`at, this`seen
      ensures Valid() && !irqEnabled && evs == old(evs) + [Go(true)] && at == old(at).(pc := ClearFlag, irqOn := false)
    {
      hide Recorded;
      irqEnabled := false;
      Take(Go(true));
    }

    method ResetButtonStatus()
      requires Valid() && at.pc.ClearFlag?
      modifies this`isUserButtonPressed, this`evs, this`at, this`seen
      ensures Valid() && !isUserButtonPressed && evs == old(evs) + [Go(true)]
      ensures at == old(at).(pc := Open, flag := false, held := false)
    {
      hide Recorded;
      isUserButtonPressed := false;
      Take(Go(true));
    }

    /** The wait loop of main, and the two lines behind it. `naps` is what the environment does; if it runs
        out before the loop is left, main is still waiting. */
    method WaitForButton(naps: seq<Nap>) returns (pressed: bool)
      requires Valid() && at.pc.EnableIrq? && !isUserButtonPressed
      modifies this`isUserButtonPressed, this`irqEnabled, this`evs, this`at, this`seen
      ensures Valid() && old(evs) <= evs
      ensures at.pc == if pressed then Open else BeforeWfi
      ensures pressed ==> !at.held && !isUserButtonPressed && !irqEnabled
      ensures pressed <==> Pressed(naps)
    {
      hide Valid;
      NvicEnableIrq();
      pressed := false;
      var k := 0;
      while k < |naps|
        invariant 0 <= k <= |naps| && Valid() && !pressed && !isUserButtonPressed && irqEnabled
        invariant old(evs) <= evs && at.pc.BeforeWfi?
        invariant forall j :: 0 <= j < k ==> !naps[j].pressBefore && !naps[j].wokenByPress
      {
        TakeNap(naps[k]);
        if isUserButtonPressed {
          NvicDisableIrq();
          pressed := true;
          break;
        }
        k := k + 1;
      }
      if pressed {
        ResetButtonStatus();
      }
    }

    // ----- main

    /** init_cycfg_all up to qspi_init_sfdp, whose failure is asserted. */
    method StartUp() returns (ok: bool)
      requires Valid() && at.pc.Reset?
      modifies this`evs, this`at, this`seen, this`failures
      ensures failures == old(failures) + Failure(ok)
      ensures Valid() && evs == old(evs) + [Go(ok)]
      ensures at == old(at).(pc := if ok || !c.halts then Pc.BootGo else Halted)
    {
      hide Recorded;
      ok := MayFail();   // qspi_init_sfdp
      Take(Go(ok));
    }

    /** main's boot_go. */
    method CheckSlot() returns (ok: bool, rsp: Rsp)
      requires Valid() && at.pc.BootGo?
      modifies intern, this`pending, this`installed, this`torn, this`evs, this`at, this`seen
      ensures Valid() && evs == old(evs) + [Go(true)]
      ensures ok <==> c.valid(Installed(c, old(FlashNow())))
      ensures FlashNow() == Upgrade(c, old(FlashNow())) && rsp == Response(c, FlashNow())
      ensures at.flag == old(at).flag && at.held == old(at).held
      ensures if ok then at.pc.ReadButton? && at.rsp == Some(rsp) else at.pc.EnableIrq?
    {
      hide Recorded, Tracked, Upgrade, Response, Primary, Aligned;
      FitsNow();
      ok, rsp := BootGo();
      Take(Go(true));
    }

    /** Cy_GPIO_Read, compared with USER_BTN_PRESSED. */
    method ReadUserButton(buttonDown: bool) returns (pressed: bool)
      requires Valid() && at.pc.ReadButton? && at.rsp.Some?
      modifies this`evs, this`at, this`seen
      ensures Valid() && evs == old(evs) + [Button(buttonDown)] && pressed == buttonDown
      ensures at == if pressed then old(at).(pc := Open, held := true) else old(at).(pc := StartCM4(old(at).rsp.value))
    {
      hide Recorded;
      pressed := buttonDown;
      Take(Button(buttonDown));
    }

    /** Where assertions halt: CM4 runs the image decided, which the slot still holds and boot_go has approved;
        and if no call has failed, the CPU has stopped only because no image is decided. */
    lemma {:induction false} DecidesNow(down: bool)
      requires Valid() && WellFormed(c) && c.halts && start == Off(start) && Tracked(c, start)
      requires c.valid(Installed(c, start.flash)) ==> at.held == down
      ensures at.pc.Running? ==>
                && Decision(c, start.flash, down) == Some(at.pc.rsp.image)
                && at.pc.rsp == Response(c, FlashNow()) && c.valid(Primary(c, FlashNow()))
      ensures failures == 0 && at.pc.Halted? ==> Decision(c, start.flash, down) == None
    {
      hide Run, WellFormed, Base, Shape, Upgrade, Factory, MagicOk, Response, Primary, FailureCount;
      NoFailures(evs);
      OffSane(c, start);
      SaneRun(c, start, evs);
      CycleRun(c, start, evs, failures == 0);
    }

    /** main, from a reset, with the button as it is read at start-up and pressed while main waits. Where
        assertions halt, CM4 is enabled only on an image that the flash at reset and the button decide, and that
        the slot holds and boot_go has approved; if moreover no call fails, CM4 is enabled whenever an image is decided.
        And main is still waiting if and only if nothing valid is installed and the button is never pressed. */
    method BootMain(buttonDown: bool, naps: seq<Nap>) returns (end: End)
      requires Valid() && WellFormed(c) && evs == [] && start == Off(start)
      modifies this, intern
      ensures Valid()
      ensures match end
              case Asserted => c.halts && at.pc == Halted
              case Started(rsp) => at.pc == Running(rsp)
              case CameBack => !c.halts && at.pc == Exited
              case StillWaiting => at.pc == BeforeWfi
      ensures cm4Entry == if end.Started? then Some(Entry(end.rsp)) else None
      ensures end.Started? && c.halts ==>
                && Decision(c, old(FlashNow()), buttonDown) == Some(end.rsp.image)
                && end.rsp == Response(c, FlashNow()) && c.valid(Primary(c, FlashNow()))
      ensures end.Asserted? && failures == 0 ==> Decision(c, old(FlashNow()), buttonDown) == None
      ensures end.StillWaiting? ==> !c.valid(Installed(c, old(FlashNow()))) && !Pressed(naps)
      ensures !c.valid(Installed(c, old(FlashNow()))) && !Pressed(naps) ==>
                end.StillWaiting? || (end.Asserted? && evs == [Go(false)])
      ensures failures == 0 && c.valid(Installed(c, old(FlashNow()))) ==> at.held == buttonDown
    {
      Begins();
      hide Valid, FlashNow, WellFormed, SlotSize, PrimaryOff, Run, Tracked, Installed, Decision, Entry, Off, Pressed,
        Upgrade, Response, Primary, MagicOk, Factory;
      var ok := StartUp();
      if !ok && c.halts {
        EnabledNow();
        return Asserted;
      }

      var rsp: Rsp;
      ok, rsp := CheckSlot();
      if ok {
        var pressed := ReadUserButton(buttonDown);
        if pressed {
          end := RollbackToFactoryImage();
          if !end.CameBack? {
            EnabledNow();
            if c.halts {
              DecidesNow(buttonDown);
            }
            return end;
          }
        }
        DoBoot(rsp);
        end := Started(rsp);
      } else {
        var pressed := WaitForButton(naps);
          if !pressed {
          EnabledNow();
          return StillWaiting;
        }
        end := RollbackToFactoryImage();
      }
      EnabledNow();
      if c.halts {
        DecidesNow(buttonDown);
      }
    }
  }
}
