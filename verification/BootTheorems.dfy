/** The bootloader's promises, over every run: any number of power failures at any point, any failing
    driver call, any press of the button, any upgrade stored by a running application. */
module BootTheorems {
  import opened Memory
  import FlashMap
  import opened BootMachine
  import opened BootInvariants
  import opened CopyLoop
  import opened RollbackShape
  import opened BootSafety
  import opened BootDecision
  import opened BootRecovery

  // ----- frame

  /** The byte at an address of a device. */
  function At(c: Config, f: Flash, dev: FlashMap.Device, x: int): Option<Byte> {
    var (mem, i) := if dev.Internal? then (f.intern, x - c.layout.flashBase) else (f.ext, x - c.layout.smifBase);
    if 0 <= i < |mem| then Some(mem[i]) else None
  }

  /** An area of the flash map that meets neither slot keeps every byte in every run. */
  lemma {:induction false} AreaUntouched(c: Config, s: State, evs: seq<Event>, a: FlashMap.Area, x: int)
    requires WellFormed(c) && Initial(c, s)
    requires FlashMap.Disjoint(FlashMap.Primary1(c.layout), a) && FlashMap.Disjoint(FlashMap.Secondary1(c.layout), a)
    requires FlashMap.Contains(a, x)
    ensures At(c, Run(c, s, evs).flash, a.dev, x) == At(c, s.flash, a.dev, x)
  {
    BaseRun(c, s, evs);
    FlashMap.OffsetsDoNotWrap(c.layout);
    assert FlashMap.Primary1(c.layout).dev == a.dev ==> !FlashMap.Contains(FlashMap.Primary1(c.layout), x);
    assert FlashMap.Secondary1(c.layout).dev == a.dev ==> !FlashMap.Contains(FlashMap.Secondary1(c.layout), x);
  }

  /** In no run does any step change a byte of the bootloader's `bootSize` bytes at the start of the internal flash,
      or of the factory region, as many bytes as the slot has at the start of the external one. */
  lemma {:induction false} WholeRunFrame(c: Config, s: State, evs: seq<Event>)
    requires WellFormed(c) && Initial(c, s)
    ensures var l, t := c.layout, Run(c, s, evs);
            && (forall x :: l.flashBase <= x < l.flashBase + l.bootSize ==>
                  At(c, t.flash, FlashMap.Internal, x) == At(c, s.flash, FlashMap.Internal, x)
                                                       == Some(s.flash.intern[x - l.flashBase]))
            && (forall x :: l.smifBase <= x < l.smifBase + l.primary1 ==>
                  At(c, t.flash, FlashMap.External, x) == At(c, s.flash, FlashMap.External, x)
                                                       == Some(s.flash.ext[x - l.smifBase]))
  {
    hide At, Run, FlashMap.Contains;
    var l := c.layout;
    FlashMap.OffsetsDoNotWrap(l);
    var t := FlashMap.Table(l);
    FlashMap.DisjointExactly(l);
    FlashMap.RollbackSourceFreeExactly(l);
    assert t[0] == FlashMap.Bootloader(l) && t[1] == FlashMap.Primary1(l) && t[2] == FlashMap.Secondary1(l);
    assert FlashMap.Disjoint(t[0], t[1]) && FlashMap.Disjoint(t[0], t[2]);
    assert FlashMap.Disjoint(t[1], FlashMap.RollbackSource(l)) && FlashMap.Disjoint(t[2], FlashMap.RollbackSource(l));
    forall x | l.flashBase <= x < l.flashBase + l.bootSize
      ensures At(c, Run(c, s, evs).flash, FlashMap.Internal, x) == At(c, s.flash, FlashMap.Internal, x)
                                                                == Some(s.flash.intern[x - l.flashBase])
    {
      BytesThere(c, s.flash, x);
      AreaUntouched(c, s, evs, FlashMap.Bootloader(l), x);
    }
    forall x | l.smifBase <= x < l.smifBase + l.primary1
      ensures At(c, Run(c, s, evs).flash, FlashMap.External, x) == At(c, s.flash, FlashMap.External, x)
                                                                == Some(s.flash.ext[x - l.smifBase])
    {
      BytesThere(c, s.flash, x);
      AreaUntouched(c, s, evs, FlashMap.RollbackSource(l), x);
    }
  }

  /** The addresses of the bootloader and of the factory region are in their areas, and hold bytes. */
  lemma BytesThere(c: Config, f: Flash, x: int)
    requires WellFormed(c) && Fits(c, f)
    ensures var l := c.layout;
            && (l.flashBase <= x < l.flashBase + l.bootSize ==>
                  FlashMap.Contains(FlashMap.Bootloader(l), x) && x - l.flashBase < |f.intern|
                  && At(c, f, FlashMap.Internal, x) == Some(f.intern[x - l.flashBase]))
            && (l.smifBase <= x < l.smifBase + l.primary1 ==>
                  FlashMap.Contains(FlashMap.RollbackSource(l), x) && x - l.smifBase < |f.ext|
                  && At(c, f, FlashMap.External, x) == Some(f.ext[x - l.smifBase]))
  {
    FlashMap.OffsetsDoNotWrap(c.layout);
  }

  // ----- upgrades

  /** A check of the model's boot_go contract: a pending, valid upgrade puts every byte of the secondary slot
      at the same place of the primary slot (as far as both reach); without one the primary slot keeps every
      byte. */
  lemma UpgradeInstallsSecondary(c: Config, f: Flash, i: nat)
    requires WellFormed(c) && Fits(c, f) && i < SlotSize(c)
    ensures var p, q := FlashMap.Primary1(c.layout), FlashMap.Secondary1(c.layout);
            At(c, Upgrade(c, f), FlashMap.Internal, p.off + i)
            == if !(f.pending && c.valid(Incoming(c, f))) then At(c, f, FlashMap.Internal, p.off + i)
               else if i < q.size then At(c, f, FlashMap.External, q.off + i)
               else Some(c.erased)
    ensures !Upgrade(c, f).pending
  {
    hide Upgrade, Incoming, Primary;
    FlashMap.OffsetsDoNotWrap(c.layout);
    UpgradeEffect(c, f);
    PrimaryAt(c, f, i);
    PrimaryAt(c, Upgrade(c, f), i);
    IncomingAt(c, f, i);
    NothingPending(c, f);
  }

  lemma PrimaryAt(c: Config, f: Flash, i: nat)
    requires WellFormed(c) && Fits(c, f) && i < SlotSize(c)
    ensures |Primary(c, f)| == SlotSize(c)
    ensures At(c, f, FlashMap.Internal, FlashMap.Primary1(c.layout).off + i) == Some(Primary(c, f)[i])
  {
    FlashMap.OffsetsDoNotWrap(c.layout);
  }

  lemma IncomingAt(c: Config, f: Flash, i: nat)
    requires WellFormed(c) && Fits(c, f) && i < SlotSize(c)
    ensures var q := FlashMap.Secondary1(c.layout);
            Some(Incoming(c, f)[i]) == if i < q.size then At(c, f, FlashMap.External, q.off + i) else Some(c.erased)
  {
    FlashMap.OffsetsDoNotWrap(c.layout);
  }

  lemma NothingPending(c: Config, f: Flash)
    ensures !Upgrade(c, f).pending
  {
    hide UpgradeDue, Incoming, WithPrimary;
  }

  /** An image, cut to the slot or filled up with erased bytes. */
  function Filled(c: Config, image: seq<Byte>): seq<Byte> {
    if SlotSize(c) <= |image| then image[..SlotSize(c)] else image + Blank(SlotSize(c) - |image|, c.erased)
  }

  /** What the primary slot holds after the image an application has stored was looked at: the image if it is
      valid, and otherwise what it held. */
  function AfterOta(c: Config, f: Flash, image: seq<Byte>): seq<Byte> {
    if c.valid(Filled(c, image)) then Filled(c, image) else Primary(c, f)
  }

  /** An upgrade stored by a running application is installed by the next reset, if it is valid, and CM4 then
      runs it unless the button is held; otherwise the old application is still there. */
  lemma {:induction false} OtaInstalls(c: Config, s: State, evs: seq<Event>, image: seq<Byte>)
    requires WellFormed(c) && Initial(c, s) && |image| == c.layout.secondary1
    ensures var t := Run(c, s, evs);
            t.pc.Running? ==>
              var u := Run(c, t, [Ota(image), PowerFail, Go(true)] + [Go(true), Button(false), Go(true)]);
              && !u.flash.pending && Primary(c, u.flash) == AfterOta(c, t.flash, image)
              && if c.valid(Primary(c, u.flash)) then u.pc == Running(Response(c, u.flash)) else u.pc == BeforeWfi
  {
    var t := Run(c, s, evs);
    if t.pc.Running? {
      hide Run, Step, Primary, Upgrade, AfterOta, Response;
      BaseRun(c, s, evs);
      OtaStored(c, t, image);
      var stored := Run(c, t, [Ota(image), PowerFail, Go(true)]);
      RunAppend(c, t, [Ota(image), PowerFail, Go(true)], [Go(true), Button(false), Go(true)]);
      NextBootRuns(c, stored);
      NothingPending(c, stored.flash);
    }
  }

  /** The request a running application makes, and what it asks for. */
  lemma OtaRequests(c: Config, s: State, image: seq<Byte>)
    requires Copyable(c) && Base(c, s) && s.pc.Running? && |image| == c.layout.secondary1
    ensures var f := Step(c, s, Ota(image)).flash;
            Fits(c, f) && f.pending && Incoming(c, f) == Filled(c, image) && Primary(c, f) == Primary(c, s.flash)
  {
    hide Patch, Aligned, Blank;
    PatchRead(s.flash.ext, SecondaryOff(c), image);
    var f := Step(c, s, Ota(image)).flash;
    assert ReadAt(f.ext, SecondaryOff(c), c.layout.secondary1) == image;
  }

  lemma OtaStored(c: Config, s: State, image: seq<Byte>)
    requires WellFormed(c) && Base(c, s) && s.pc.Running? && |image| == c.layout.secondary1
    ensures var t := Run(c, s, [Ota(image), PowerFail, Go(true)]);
            t.pc.BootGo? && Primary(c, Upgrade(c, t.flash)) == AfterOta(c, s.flash, image)
  {
    hide Run, Patch, Upgrade, Primary, Fits, Incoming, Filled, Aligned;
    OtaRequests(c, s, image);
    Run3(c, s, Ota(image), PowerFail, Go(true));
    var t := Step(c, s, Ota(image));
    UpgradeEffect(c, t.flash);
    assert Step(c, t, PowerFail) == Off(t);
    assert Step(c, Off(t), Go(true)) == Off(t).(pc := Pc.BootGo);
  }

  lemma NextBootRuns(c: Config, s: State)
    requires s.pc.BootGo?
    ensures var u := Upgrade(c, s.flash);
            var t := Run(c, s, [Go(true), Button(false), Go(true)]);
            && t.flash == u
            && if c.valid(Primary(c, u)) then t.pc == Running(Response(c, u)) else t.pc == BeforeWfi
  {
    hide Run, Primary, Upgrade, Response;
    Run3(c, s, Go(true), Button(false), Go(true));
    var u := Upgrade(c, s.flash);
    var t := Step(c, s, Go(true));
    if c.valid(Primary(c, u)) {
      assert t == s.(pc := ReadButton, flash := u, rsp := Some(Response(c, u)));
      assert Step(c, t, Button(false)) == t.(pc := StartCM4(Response(c, u)));
    } else {
      assert t == s.(pc := EnableIrq, flash := u);
      assert Step(c, t, Button(false)) == t;
    }
  }

  // ----- power failures during a rollback

  /** What the power failing while a row is erased or programmed leaves: anything in that row, the old bytes
      everywhere else, and a reset. */
  lemma {:induction false} RowFailureTears(c: Config, s: State, evs: seq<Event>, o: nat, row: seq<Byte>)
    requires Copyable(c) && Initial(c, s) && |row| == c.rowSize
    ensures var t, u := Run(c, s, evs), Run(c, s, evs + [PowerFailInRow(o, row)]);
            (t.pc.WriteRow? && o == t.primOff) || (t.pc.Erase? && o in t.toErase) ==>
              && u == Off(u) && o + c.rowSize <= SlotSize(c) == |Primary(c, t.flash)|
              && Primary(c, u.flash) == Patch(Primary(c, t.flash), o, row)
  {
    hide Run, Aligned, Patch;
    var t := Run(c, s, evs);
    CursorRun(c, s, evs);
    RunAppend(c, s, evs, [PowerFailInRow(o, row)]);
    RunOne(c, t, PowerFailInRow(o, row));
    if (t.pc.WriteRow? && o == t.primOff) || (t.pc.Erase? && o in t.toErase) {
      InFlightFits(c, t, o);
      RowWritten(c, t.flash, o, row);
    }
  }

  /** ... and while MCUboot overwrites the slot: anything in the slot, and the request still standing. */
  lemma {:induction false} UpgradeFailureTears(c: Config, s: State, evs: seq<Event>, slot: seq<Byte>)
    requires Copyable(c) && Initial(c, s) && |slot| == SlotSize(c)
    ensures var t, u := Run(c, s, evs), Run(c, s, evs + [PowerFailInUpgrade(slot)]);
            (t.pc.BootGo? || t.pc.Validate?) && t.flash.pending && c.valid(Incoming(c, t.flash)) ==>
              u == Off(u) && Primary(c, u.flash) == slot && u.flash.pending && u.flash.ext == t.flash.ext
  {
    hide Run, Aligned, Patch, Incoming;
    var t := Run(c, s, evs);
    CursorRun(c, s, evs);
    RunAppend(c, s, evs, [PowerFailInUpgrade(slot)]);
    RunOne(c, t, PowerFailInUpgrade(slot));
    SlotWritten(c, t.flash, slot);
  }

  /** At every point of every run: no row of the old application and no row of the factory application
      are in the primary slot together; inside the copy loop the slot is whole factory rows up to the
      cursor and blank behind it; and a row is programmed only while it is blank. */
  lemma {:induction false} CrashInvariant(c: Config, s: State, evs: seq<Event>)
    requires WellFormed(c) && Initial(c, s) && Guarded(c, s.flash)
    ensures var t := Run(c, s, evs);
            && Fits(c, t.flash) && NeverMixed(c, t.flash)
            && (Copying(t.pc) ==> Copied(c, t.flash, t.index))
            && (t.pc.WriteRow? ==> RowBlank(Primary(c, t.flash), t.primOff, c.rowSize, c.erased))
  {
    InitialShape(c, s);
    ShapeRun(c, s, evs);
    var t := Run(c, s, evs);
    if t.pc.WriteRow? {
      ProgramsBlankRow(c, t);
    }
  }

  lemma ProgramsBlankRow(c: Config, s: State)
    requires WellFormed(c) && Shape(c, s) && s.pc.WriteRow?
    ensures RowBlank(Primary(c, s.flash), s.primOff, c.rowSize, c.erased)
  {
    assert s.primOff in Rows(c);
  }

  /** When a transfer reports success the primary slot is the factory region, in every build and whatever
      happened before. When it reports failure after it has begun to read rows (where assertions halt there is
      no other failure), and the slot was erased first, it has left whole factory rows and blank rows behind. */
  lemma {:induction false} TransferOutcome(c: Config, s: State, evs: seq<Event>)
    requires WellFormed(c) && Initial(c, s)
    ensures var t := Run(c, s, evs);
            && (t.pc == Transferred(true) ==> Primary(c, t.flash) == Factory(c, s.flash))
            && (t.pc == Transferred(false) && Guarded(c, s.flash) && (c.halts || 0 < t.ops.rowReads) ==>
                  t.index < SlotSize(c) && Copied(c, t.flash, t.index))
  {
    hide Run, Copied, NeverMixed, MagicOk, Primary, Factory;
    MapIsCopyable(c);
    SuccessMeansCopied(c, s, evs);
    BaseRun(c, s, evs);
    InitialShape(c, s);
    if Guarded(c, s.flash) {
      ShapeRun(c, s, evs);
    }
  }

  /** A row that fails to be read or programmed: the transfer ends there, with the rows before it copied. */
  lemma {:induction false} RowFailure(c: Config, s: State, evs: seq<Event>)
    requires WellFormed(c) && Initial(c, s) && Guarded(c, s.flash)
    ensures var t := Run(c, s, evs);
            t.pc.ReadRow? || t.pc.WriteRow? ==>
              var u := Run(c, s, evs + [Go(false)]);
              u.pc == Transferred(false) && u.index == t.index < SlotSize(c) && Copied(c, u.flash, t.index)
  {
    hide Run, Copied, NeverMixed, MagicOk, Primary, Factory;
    var t := Run(c, s, evs);
    CrashInvariant(c, s, evs);
    BaseRun(c, s, evs);
    RunAppend(c, s, evs, [Go(false)]);
    RunOne(c, t, Go(false));
  }

  /** Any sequence of interrupted attempts followed by a complete one leaves what a single uninterrupted
      attempt leaves. */
  lemma {:induction false} RestartIdempotence(c: Config, s: State, evs: seq<Event>)
    requires WellFormed(c) && Initial(c, s) && MagicOk(c, s.flash)
    requires Run(c, s, evs).pc == Transferred(true)
    ensures var once := Run(c, s, EnterRollback(c, s.flash) + Transfer(c));
            once.pc == Transferred(true) && Primary(c, Run(c, s, evs).flash) == Primary(c, once.flash)
  {
    hide Step, Factory, Primary, MagicOk;
    var enter := EnterRollback(c, s.flash);
    EnterRollbackRuns(c, s);
    BaseRun(c, s, enter);
    TransferRuns(c, Run(c, s, enter));
    RunAppend(c, s, enter, Transfer(c));
    TransferOutcome(c, s, evs);
    TransferOutcome(c, s, enter + Transfer(c));
  }

  /** From every state of every run, if the factory region carries the magic and is valid: cycle the power,
      press the button, and CM4 runs exactly the factory application. */
  lemma {:induction false} Recoverability(c: Config, s: State, evs: seq<Event>)
    requires WellFormed(c) && Initial(c, s) && MagicOk(c, s.flash) && c.valid(Factory(c, s.flash))
    ensures var t := Run(c, s, evs);
            var u := Run(c, t, RecoveryPlan(c, t));
            u.pc.Running? && u.pc.rsp.image == Factory(c, s.flash) && Primary(c, u.flash) == Factory(c, s.flash)
  {
    hide Step, Run, Factory, Primary, MagicOk, Base, Upgrade;
    var t := Run(c, s, evs);
    var off, enter := [PowerFail], EnterRollback(c, t.flash);
    InitialShape(c, s);
    BaseFacts(c, s, evs + off + enter);
    BaseOf(c, s, evs + off + enter);
    PowerOff(c, t);
    RunAppend(c, s, evs, off);
    RunAppend(c, s, evs + off, enter);
    EnterRollbackRuns(c, Run(c, t, off));
    var e := Run(c, s, evs + off + enter);
    TransferRuns(c, e);
    var all := evs + off + enter + Transfer(c);
    RunAppend(c, s, evs + off + enter, Transfer(c));
    TransferOutcome(c, s, all);
    PlanSplits(c, s, evs);
    NoRequestAt(c, s, all);
    StartsCopied(c, Run(c, s, all));
  }

  lemma {:induction false} BaseOf(c: Config, s: State, evs: seq<Event>)
    requires WellFormed(c) && Initial(c, s)
    ensures Base(c, Run(c, s, evs))
  {
    BaseRun(c, s, evs);
  }

  lemma PowerOff(c: Config, s: State)
    ensures Run(c, s, [PowerFail]) == Off(s) && Off(Off(s)) == Off(s) && Off(s).flash == s.flash
  {
    RunOne(c, s, PowerFail);
  }

  lemma {:induction false} NoRequestAt(c: Config, s: State, evs: seq<Event>)
    requires Initial(c, s) && Run(c, s, evs).pc == Transferred(true)
    ensures !Run(c, s, evs).flash.pending
  {
    OffSane(c, s);
    SaneRun(c, s, evs);
  }

  lemma {:induction false} PlanSplits(c: Config, s: State, evs: seq<Event>)
    ensures var t := Run(c, s, evs);
            Run(c, t, RecoveryPlan(c, t))
            == Run(c, Run(c, s, evs + [PowerFail] + EnterRollback(c, t.flash) + Transfer(c)),
                   [Go(true), Go(true), Go(true)])
  {
    hide Run, EnterRollback, Transfer;
    var t := Run(c, s, evs);
    var last := [Go(true), Go(true), Go(true)];
    var most := [PowerFail] + EnterRollback(c, t.flash) + Transfer(c);
    RunAppend(c, t, most, last);
    RunAppend(c, s, evs, most);
    assert evs + most == evs + [PowerFail] + EnterRollback(c, t.flash) + Transfer(c);
  }

  // ----- what CM4 is started with

  /** In every run of a build whose assertions halt, CM4 is only ever started with the response of a
      boot_go of the same power cycle that approved exactly what the primary slot still holds. */
  lemma {:induction false} Freshness(c: Config, s: State, evs: seq<Event>)
    requires c.halts && Initial(c, s)
    ensures var t := Run(c, s, evs);
            t.pc.StartCM4? || t.pc.Running? ==>
              t.pc.rsp == Response(c, t.flash) && c.valid(Primary(c, t.flash))
  {
    OffSane(c, s);
    SaneRun(c, s, evs);
  }

  /** One power cycle, begun at any reset of any run. Before the button is looked at a pending valid
      upgrade has been installed. The image CM4 runs is the one `Decision` names, also if calls fail; and
      if no call fails and the cycle has ended, CM4 runs if and only if `Decision` names an image. */
  lemma {:induction false} BootDecisionTheorem(c: Config, s: State, history: seq<Event>, evs: seq<Event>)
    requires WellFormed(c) && c.halts && Initial(c, s) && NoPowerLoss(evs)
    requires var r := Run(c, s, history); r == Off(r)
    ensures var r := Run(c, s, history);
            var t := Run(c, r, evs);
            && (t.pc.ReadButton? ==> t.flash == Upgrade(c, r.flash))
            && (t.pc.Running? ==> Decision(c, r.flash, ReadHeld(c, r, evs)) == Some(t.pc.rsp.image))
            && (FailureFree(evs) && t.pc.Halted? ==> Decision(c, r.flash, ReadHeld(c, r, evs)) == None)
            && t.pc != Exited
  {
    hide Step, Shape, Decision;
    HeldExactly(c, Run(c, s, history), evs);
    var r := Run(c, s, history);
    InitialShape(c, s);
    ShapeRun(c, s, history);
    CycleRun(c, r, evs, false);
    if FailureFree(evs) {
      CycleRun(c, r, evs, true);
    }
  }

  /** The entry address lies inside the primary slot, right behind the header, and is aligned for a vector
      table when the slot and the header size are. */
  lemma EntryInsideSlot(c: Config, f: Flash)
    requires WellFormed(c) && Response(c, f).headerSize < SlotSize(c)
    ensures var p := FlashMap.Primary1(c.layout);
            var e := Entry(Response(c, f));
            && e == p.off + c.headerSize(Primary(c, f)) && FlashMap.Contains(p, e)
            && (p.off % 1024 == 0 && c.headerSize(Primary(c, f)) % 1024 == 0 ==> e % 1024 == 0)
  {
    hide Primary, Factory;
    FlashMap.OffsetsDoNotWrap(c.layout);
    var off, size := FlashMap.Primary1(c.layout).off, c.headerSize(Primary(c, f));
    NoWrap(off + size);
    if off % 1024 == 0 && size % 1024 == 0 {
      SumAligned(off, size);
    }
  }

  lemma SumAligned(a: nat, b: nat)
    requires a % 1024 == 0 && b % 1024 == 0
    ensures (a + b) % 1024 == 0
  {
  }
}
