/** A way back to the factory application from every state, written out as a run. */
module BootRecovery {
  import opened Memory
  import opened BootMachine
  import opened BootInvariants

  // ----- the run, piece by piece

  /** From reset to the first action of a rollback: hold the button if something valid is installed,
      otherwise press it while the CPU sleeps. */
  function EnterRollback(c: Config, f: Flash): seq<Event> {
    [Go(true), Go(true)]
    + if c.valid(Primary(c, Upgrade(c, f))) then [Button(true)]
      else [Go(true), Go(true), Isr, Go(true), Go(true), Go(true)]
  }

  /** The driver erases all rows below `size`, in ascending order. */
  function EraseAll(rowSize: nat, size: nat): seq<Event> {
    if size == 0 || rowSize == 0 || size < rowSize then []
    else EraseAll(rowSize, size - rowSize) + [EraseRow(size - rowSize)]
  }

  /** One turn of the copy loop for every row below `size`. */
  function CopyAll(rowSize: nat, size: nat): seq<Event> {
    if size == 0 || rowSize == 0 || size < rowSize then []
    else CopyAll(rowSize, size - rowSize) + [Go(true), Go(true), Go(true)]
  }

  /** One failure-free transfer, from Open to Transferred. */
  function Transfer(c: Config): seq<Event> {
    [Go(true), Go(true)] + EraseAll(c.rowSize, SlotSize(c)) + [Go(true), Go(true)]
    + CopyAll(c.rowSize, SlotSize(c)) + [Go(true)]
  }

  /** Cycle the power, enter a rollback, let it finish. */
  function RecoveryPlan(c: Config, s: State): seq<Event> {
    [PowerFail] + EnterRollback(c, s.flash) + Transfer(c) + [Go(true), Go(true), Go(true)]
  }

  lemma Run2(c: Config, s: State, a: Event, b: Event)
    ensures Run(c, s, [a, b]) == Step(c, Step(c, s, a), b)
  {
    hide Step;
    assert [a, b][..1] == [a];
    RunOne(c, s, a);
  }

  lemma Run3(c: Config, s: State, a: Event, b: Event, d: Event)
    ensures Run(c, s, [a, b, d]) == Step(c, Step(c, Step(c, s, a), b), d)
  {
    hide Step;
    assert [a, b, d][..2] == [a, b];
    Run2(c, s, a, b);
  }

  /** What entering a rollback leaves behind, whatever the flash holds. */
  ghost predicate Entered(c: Config, f: Flash, s: State) {
    s.pc.Open? && s.flash == Upgrade(c, f) && (s.held <==> c.valid(Primary(c, Upgrade(c, f))))
    && (s.held ==> s.rsp == Some(Response(c, Upgrade(c, f))))
  }

  lemma ArmAndPress(c: Config, s: State)
    requires s.pc.EnableIrq?
    ensures Run(c, s, [Go(true), Go(true), Isr]) == s.(pc := CheckFlag, flag := true, irqOn := true)
  {
    hide Run;
    Run3(c, s, Go(true), Go(true), Isr);
    assert Step(c, s, Go(true)) == s.(pc := BeforeWfi, irqOn := true);
    assert Step(c, s.(pc := BeforeWfi, irqOn := true), Go(true)) == s.(pc := Asleep, irqOn := true);
  }

  lemma LeaveLoop(c: Config, s: State)
    requires s.pc.CheckFlag? && s.flag
    ensures Run(c, s, [Go(true), Go(true), Go(true)]) == s.(pc := Open, flag := false, irqOn := false, held := false)
  {
    hide Run;
    Run3(c, s, Go(true), Go(true), Go(true));
    assert Step(c, s, Go(true)) == s.(pc := DisableIrq);
    assert Step(c, s.(pc := DisableIrq), Go(true)) == s.(pc := ClearFlag, irqOn := false);
  }

  lemma WaitAndPress(c: Config, s: State)
    requires s.pc.EnableIrq?
    ensures Run(c, s, [Go(true), Go(true), Isr, Go(true), Go(true), Go(true)])
            == s.(pc := Open, flag := false, irqOn := false, held := false)
  {
    hide Run;
    assert [Go(true), Go(true), Isr, Go(true), Go(true), Go(true)]
           == [Go(true), Go(true), Isr] + [Go(true), Go(true), Go(true)];
    RunAppend(c, s, [Go(true), Go(true), Isr], [Go(true), Go(true), Go(true)]);
    ArmAndPress(c, s);
    LeaveLoop(c, s.(pc := CheckFlag, flag := true, irqOn := true));
  }

  lemma EnterRollbackRuns(c: Config, s: State)
    requires s == Off(s)
    ensures Entered(c, s.flash, Run(c, s, EnterRollback(c, s.flash)))
  {
    hide Upgrade, Primary, Response;
    var u := Upgrade(c, s.flash);
    var start := [Go(true), Go(true)];
    Run2(c, s, Go(true), Go(true));
    var t := Run(c, s, start);
    if c.valid(Primary(c, u)) {
      RunAppend(c, s, start, [Button(true)]);
      RunOne(c, t, Button(true));
    } else {
      assert t == s.(pc := EnableIrq, flash := u);
      RunAppend(c, s, start, [Go(true), Go(true), Isr, Go(true), Go(true), Go(true)]);
      WaitAndPress(c, t);
    }
  }

  /** The erase that began in `s` has erased the rows below `size` in `t`. */
  ghost predicate ErasedTo(c: Config, s: State, t: State, size: nat) {
    t.pc.Erase? && t.toErase == Rows(c) - RowOffsets(size, c.rowSize) && t.held == s.held && t.rsp == s.rsp
  }

  lemma EraseOneRuns(c: Config, s: State, t: State, size: nat)
    requires 0 < c.rowSize <= size <= SlotSize(c) && Aligned(size, c.rowSize)
    requires ErasedTo(c, s, t, size - c.rowSize)
    ensures ErasedTo(c, s, Run(c, t, [EraseRow(size - c.rowSize)]), size)
  {
    hide WithRow, Next, Run;
    LastRow(size, c.rowSize);
    assert size - c.rowSize in t.toErase;
    RunOne(c, t, EraseRow(size - c.rowSize));
  }

  lemma {:induction false} EraseAllRuns(c: Config, s: State, size: nat)
    requires 0 < c.rowSize && Aligned(size, c.rowSize) && size <= SlotSize(c)
    requires s.pc.Erase? && s.toErase == Rows(c)
    ensures ErasedTo(c, s, Run(c, s, EraseAll(c.rowSize, size)), size)
    decreases size
  {
    hide Step, Run, ErasedTo, Rows, EraseAll, Aligned;
    if size == 0 {
      EraseNone(c, s);
    } else {
      EraseBelow(c, size);
      var o := size - c.rowSize;
      EraseAllRuns(c, s, o);
      RunAppend(c, s, EraseAll(c.rowSize, o), [EraseRow(o)]);
      EraseOneRuns(c, s, Run(c, s, EraseAll(c.rowSize, o)), size);
    }
  }

  lemma EraseNone(c: Config, s: State)
    requires s.pc.Erase? && s.toErase == Rows(c)
    ensures ErasedTo(c, s, Run(c, s, EraseAll(c.rowSize, 0)), 0)
  {
    hide Step;
    assert RowOffsets(0, c.rowSize) == {};
  }

  lemma EraseBelow(c: Config, size: nat)
    requires Aligned(size, c.rowSize) && 0 < size
    ensures 0 < c.rowSize <= size && Aligned(size - c.rowSize, c.rowSize)
    ensures EraseAll(c.rowSize, size) == EraseAll(c.rowSize, size - c.rowSize) + [EraseRow(size - c.rowSize)]
  {
  }

  /** The loop that began in `s` has copied `n` bytes in `t`. */
  ghost predicate LoopAt(c: Config, s: State, t: State, n: nat) {
    Base(c, t) && t.pc.LoopHead? && t.index == n && t.held == s.held && t.rsp == s.rsp
  }

  /** One turn of the loop. */
  lemma CopyOneRuns(c: Config, s: State, t: State, n: nat)
    requires Copyable(c) && LoopAt(c, s, t, n) && n < SlotSize(c)
    ensures LoopAt(c, s, Run(c, t, [Go(true), Go(true), Go(true)]), n + c.rowSize)
  {
    hide Fits, Factory, WithRow, ReadAt, Aligned, Run;
    Run3(c, t, Go(true), Go(true), Go(true));
    LoopHeadStep(c, t, true);
    var a := GoCopy(c, t, true);
    ReadRowStep(c, a, true);
    var b := GoCopy(c, a, true);
    WriteRowStep(c, b);
  }

  lemma {:induction false} CopyAllRuns(c: Config, s: State, size: nat)
    requires Copyable(c) && LoopAt(c, s, s, 0) && Aligned(size, c.rowSize) && size <= SlotSize(c)
    ensures LoopAt(c, s, Run(c, s, CopyAll(c.rowSize, size)), size)
    decreases size
  {
    hide LoopAt, Step, Run, Copyable, Aligned, CopyAll;
    if size == 0 {
      CopyNone(c, s);
    } else {
      NextBelow(c, size);
      var before := CopyAll(c.rowSize, size - c.rowSize);
      CopyAllRuns(c, s, size - c.rowSize);
      RunAppend(c, s, before, [Go(true), Go(true), Go(true)]);
      CopyOneRuns(c, s, Run(c, s, before), size - c.rowSize);
    }
  }

  lemma CopyNone(c: Config, s: State)
    ensures Run(c, s, CopyAll(c.rowSize, 0)) == s
  {
    hide Step;
  }

  lemma NextBelow(c: Config, size: nat)
    requires Aligned(size, c.rowSize) && 0 < size
    ensures 0 < c.rowSize <= size && Aligned(size - c.rowSize, c.rowSize)
    ensures CopyAll(c.rowSize, size) == CopyAll(c.rowSize, size - c.rowSize) + [Go(true), Go(true), Go(true)]
  {
  }

  /** Open the slot and find the magic. */
  lemma StartTransfer(c: Config, s: State)
    requires s.pc.Open? && MagicOk(c, s.flash)
    ensures var t := Run(c, s, [Go(true), Go(true)]);
            t.pc.Erase? && t.toErase == Rows(c) && t.held == s.held && t.rsp == s.rsp
  {
    hide Run, MagicOk, Rows;
    Run2(c, s, Go(true), Go(true));
    assert Step(c, s, Go(true)) == s.(pc := ReadMagic);
  }

  /** The erase is done and the loop set up. */
  lemma StartCopy(c: Config, s: State)
    requires Copyable(c) && s.pc.Erase? && s.toErase == {}
    ensures var t := Run(c, s, [Go(true), Go(true)]);
            t.pc.LoopHead? && t.index == 0 && t.held == s.held && t.rsp == s.rsp
  {
    hide Run;
    Run2(c, s, Go(true), Go(true));
    AlignedExactly(SlotSize(c), c.rowSize);
    assert Step(c, s, Go(true)) == s.(pc := CopyInit);
  }

  lemma EndCopy(c: Config, s: State)
    requires s.pc.LoopHead? && s.index == SlotSize(c)
    ensures Run(c, s, [Go(true)]) == s.(pc := Transferred(true))
  {
    hide Run;
    RunOne(c, s, Go(true));
  }

  /** A failure-free transfer from the right magic reports success. */
  lemma TransferRuns(c: Config, s: State)
    requires Copyable(c) && Base(c, s) && s.pc.Open? && MagicOk(c, s.flash)
    ensures var t := Run(c, s, Transfer(c)); t.pc == Transferred(true) && t.held == s.held && t.rsp == s.rsp
  {
    hide Base, MagicOk, RowOffsets, Run, EraseAll, CopyAll;
    var go2 := [Go(true), Go(true)];
    var erase, copy := EraseAll(c.rowSize, SlotSize(c)), CopyAll(c.rowSize, SlotSize(c));
    StartTransfer(c, s);
    RunAppend(c, s, go2, erase);
    EraseAllRuns(c, Run(c, s, go2), SlotSize(c));
    RunAppend(c, s, go2 + erase, go2);
    StartCopy(c, Run(c, s, go2 + erase));
    CursorRun(c, s, go2 + erase + go2);
    RunAppend(c, s, go2 + erase + go2, copy);
    CopyAllRuns(c, Run(c, s, go2 + erase + go2), SlotSize(c));
    RunAppend(c, s, go2 + erase + go2 + copy, [Go(true)]);
    EndCopy(c, Run(c, s, go2 + erase + go2 + copy));
  }

  /** A successful transfer is judged by boot_go and started. */
  lemma StartsCopied(c: Config, s: State)
    requires s.pc == Transferred(true) && !s.flash.pending && c.valid(Primary(c, s.flash))
    ensures Run(c, s, [Go(true), Go(true), Go(true)]) == s.(pc := Running(Response(c, s.flash)))
  {
    hide Run, Response, Primary, Incoming;
    Run3(c, s, Go(true), Go(true), Go(true));
    assert Step(c, s, Go(true)) == s.(pc := Validate);
    assert Step(c, s.(pc := Validate), Go(true)) == s.(pc := StartCM4(Response(c, s.flash)));
  }
}
