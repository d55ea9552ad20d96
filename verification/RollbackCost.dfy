/** What a rollback costs, and why it ends. */
module RollbackCost {
  import opened Memory
  import opened BootMachine
  import opened BootInvariants
  import opened CopyLoop
  import opened RollbackShape
  import opened BootSafety
  import opened BootDecision

  /** The whole cost of a completed rollback: one magic read, and one erase, one read and one program
      operation for every row. */
  function FullCost(c: Config): Ops
    requires 0 < c.rowSize
  {
    var rows := SlotSize(c) / c.rowSize;
    Ops(1, rows, rows, rows)
  }

  const NO_COST := Ops(0, 0, 0, 0)

  ghost predicate Counted(c: Config, s: State)
    requires 0 < c.rowSize
  {
    var n := s.index / c.rowSize;
    match s.pc
    case Open => s.ops == NO_COST
    case ReadMagic => s.ops == NO_COST
    case Erase => s.ops == Ops(1, s.ops.erases, 0, 0) && s.ops.erases + |s.toErase| == SlotSize(c) / c.rowSize
    case CopyInit => s.ops == FullCost(c).(rowReads := 0, rowWrites := 0)
    case LoopHead => s.ops == FullCost(c).(rowReads := n, rowWrites := n)
    case ReadRow => s.ops == FullCost(c).(rowReads := n, rowWrites := n)
    case WriteRow => s.ops == FullCost(c).(rowReads := n + 1, rowWrites := n)
    case Transferred(ok) => if ok then s.ops == FullCost(c) else true
    case Validate => c.halts ==> s.ops == FullCost(c)
    case StartCM4(_) => c.halts ==> s.ops == NO_COST || s.ops == FullCost(c)
    case Running(_) => c.halts ==> s.ops == NO_COST || s.ops == FullCost(c)
    case _ => Starting(s.pc) ==> s.ops == NO_COST
  }

  lemma StartCounted(c: Config, s: State, ok: bool)
    requires 0 < c.rowSize && Counted(c, s) && Starting(s.pc)
    ensures Counted(c, GoStart(c, s, ok))
  {
    hide Upgrade, Response, Primary, FullCost;
  }

  lemma PrepareCounted(c: Config, s: State, ok: bool)
    requires WellFormed(c) && Counted(c, s) && Preparing(s.pc) && Guarded(c, s.flash)
    ensures Counted(c, GoPrepare(c, s, ok))
  {
    hide MagicOk, Aligned, RowOffsets;
    RowCount(SlotSize(c), c.rowSize);
    DivModUnique(0, 0, 0, c.rowSize);
    match s.pc {
      case Open =>
      case ReadMagic =>
      case Erase =>
      case CopyInit =>
    }
  }

  lemma CopyCounted(c: Config, s: State, ok: bool)
    requires WellFormed(c) && Base(c, s) && Counted(c, s) && Copying(s.pc)
    ensures Counted(c, GoCopy(c, s, ok))
  {
    hide Fits, WithRow, ReadAt, Aligned;
    OneRowMore(s.index, c.rowSize);
    if s.pc.WriteRow? {
      NoWrap(s.index + c.rowSize);
    }
  }

  lemma FinishCounted(c: Config, s: State)
    requires 0 < c.rowSize && Counted(c, s) && !Starting(s.pc) && !Preparing(s.pc) && !Copying(s.pc)
    ensures Counted(c, GoFinish(c, s))
  {
    hide Upgrade, Response, Primary, FullCost;
    assert s.pc.Validate? && c.halts ==> !GoFinish(c, s).pc.Exited?;
  }

  lemma NextCounted(c: Config, s: State, ok: bool)
    requires WellFormed(c) && Base(c, s) && Counted(c, s) && Guarded(c, s.flash)
    ensures Counted(c, Next(c, s, ok))
  {
    hide Base, Counted, GoStart, GoPrepare, GoCopy, GoFinish;
    if Starting(s.pc) {
      StartCounted(c, s, ok);
    } else if Preparing(s.pc) {
      PrepareCounted(c, s, ok);
    } else if Copying(s.pc) {
      CopyCounted(c, s, ok);
    } else {
      FinishCounted(c, s);
    }
  }

  lemma EraseCounted(c: Config, s: State, o: nat)
    requires 0 < c.rowSize && Counted(c, s)
    ensures Counted(c, Step(c, s, EraseRow(o)))
  {
    hide WithRow, FullCost;
    if s.pc.Erase? && o in s.toErase {
      assert |s.toErase - {o}| == |s.toErase| - 1;
    }
  }

  lemma EventCounted(c: Config, s: State, e: Event)
    requires 0 < c.rowSize && Counted(c, s) && !e.Go?
    ensures Counted(c, Step(c, s, e))
  {
    hide WithRow, WithPrimary, UpgradeDue, Patch, FullCost, Response;
    if e.EraseRow? {
      EraseCounted(c, s, e.row);
    }
  }

  lemma {:induction false} CountedRun(c: Config, s: State, evs: seq<Event>)
    requires WellFormed(c) && Base(c, s) && Counted(c, s) && Guarded(c, s.flash)
    ensures Counted(c, Run(c, s, evs))
    decreases |evs|
  {
    if evs != [] {
      hide Base, Counted, Next;
      var pre, e := evs[..|evs| - 1], evs[|evs| - 1];
      CountedRun(c, s, pre);
      BaseRun(c, s, pre);
      if e.Go? {
        NextCounted(c, Run(c, s, pre), e.ok);
      } else {
        EventCounted(c, Run(c, s, pre), e);
      }
    }
  }

  /** In every run, with any number of power failures and failing driver calls before: the n-th row a rollback
      programs is the n-th row of the slot; when a transfer reports success it has cost exactly `FullCost`;
      and CM4 is only ever started after a complete transfer or after none. */
  lemma {:induction false} CompletedRollbackCost(c: Config, s: State, evs: seq<Event>)
    requires WellFormed(c) && Initial(c, s) && Guarded(c, s.flash)
    ensures var t := Run(c, s, evs);
            && (t.pc.WriteRow? ==> t.primOff / c.rowSize == t.ops.rowWrites)
            && (t.pc == Transferred(true) ==> t.ops == FullCost(c))
            && (c.halts && t.pc.Running? ==> t.ops == NO_COST || t.ops == FullCost(c))
  {
    hide Run, MagicOk, FullCost, Fits;
    CountedRun(c, s, evs);
    BaseRun(c, s, evs);
  }

  /** A check of the model: once CM4 runs, the bootloader touches no flash and counts no operation until the
      power is lost. */
  lemma {:induction false} NothingAfterStart(c: Config, s: State, evs: seq<Event>)
    requires s.pc.Running? && forall i :: 0 <= i < |evs| ==> !PowerLoss(evs[i])
    ensures var t := Run(c, s, evs);
            t.pc == s.pc && t.ops == s.ops && t.flash.intern == s.flash.intern
    decreases |evs|
  {
    if evs != [] {
      hide GoStart, GoPrepare, GoCopy, Upgrade, WithRow;
      NothingAfterStart(c, s, evs[..|evs| - 1]);
    }
  }

  // ----- termination

  function RowsLeft(c: Config, s: State): int
    requires 0 < c.rowSize
  {
    (SlotSize(c) - s.index) / c.rowSize
  }

  /** How many steps a rollback takes from here if nothing fails. */
  function Rank(c: Config, s: State): int
    requires 0 < c.rowSize
  {
    var rows := SlotSize(c) / c.rowSize;
    match s.pc
    case Open => 4 * rows + 7
    case ReadMagic => 4 * rows + 6
    case Erase => |s.toErase| + 3 * rows + 5
    case CopyInit => 3 * rows + 4
    case LoopHead => 3 * RowsLeft(c, s) + 3
    case ReadRow => 3 * RowsLeft(c, s) + 2
    case WriteRow => 3 * RowsLeft(c, s) + 1
    case Transferred(_) => 2
    case Validate => 1
    case _ => 0
  }

  /** From `s` to `t` the rollback has come nearer to its end: by exactly one step if no call failed. */
  predicate Nearer(c: Config, s: State, t: State, clean: bool)
    requires 0 < c.rowSize
  {
    0 <= Rank(c, t) < Rank(c, s) && (clean ==> Rank(c, t) == Rank(c, s) - 1 && t.pc != Transferred(false))
  }

  lemma RowsAreSome(c: Config, n: nat)
    requires 0 < c.rowSize
    ensures 0 <= n / c.rowSize && (n == 0 ==> n / c.rowSize == 0) && (c.rowSize <= n ==> 1 <= n / c.rowSize)
  {
    DivModUnique(0, 0, 0, c.rowSize);
    if c.rowSize <= n {
      OneRowMore(n - c.rowSize, c.rowSize);
    }
  }

  lemma RankPrepare(c: Config, s: State, ok: bool)
    requires Copyable(c) && Preparing(s.pc)
    ensures var t := GoPrepare(c, s, ok);
            if ok && s.pc.Erase? && s.toErase != {} then t == s else Nearer(c, s, t, ok && MagicOk(c, s.flash))
  {
    hide MagicOk, Rows, Aligned;
    RowsAreSome(c, SlotSize(c));
    AllRows(c);
    AlignedExactly(SlotSize(c), c.rowSize);
    match s.pc {
      case Open =>
      case ReadMagic =>
      case Erase =>
      case CopyInit =>
    }
  }

  lemma AllRows(c: Config)
    requires Copyable(c)
    ensures |Rows(c)| == SlotSize(c) / c.rowSize
  {
    RowCount(SlotSize(c), c.rowSize);
  }

  lemma RankHead(c: Config, s: State, ok: bool)
    requires Copyable(c) && Base(c, s) && s.pc.LoopHead?
    ensures Nearer(c, s, GoCopy(c, s, ok), ok)
  {
    hide Fits;
    RowsAreSome(c, SlotSize(c) - s.index);
  }

  lemma RankRow(c: Config, s: State, ok: bool)
    requires Copyable(c) && Base(c, s) && (s.pc.ReadRow? || s.pc.WriteRow?)
    ensures Nearer(c, s, GoCopy(c, s, ok), ok)
  {
    hide Fits, WithRow, ReadAt, Aligned;
    RowsAreSome(c, SlotSize(c) - s.index);
    OneRowMore(SlotSize(c) - s.index - c.rowSize, c.rowSize);
    RowsAreSome(c, SlotSize(c) - s.index - c.rowSize);
    NoWrap(s.index + c.rowSize);
  }

  lemma RankFinish(c: Config, s: State)
    requires 0 < c.rowSize && (s.pc.Transferred? || s.pc.Validate?)
    ensures Nearer(c, s, GoFinish(c, s), s.pc != Transferred(false))
  {
    hide Upgrade, Response, Primary;
  }

  lemma RankNext(c: Config, s: State, ok: bool)
    requires Copyable(c) && Base(c, s) && RollingBack(s.pc)
    ensures var t := Next(c, s, ok);
            if ok && s.pc.Erase? && s.toErase != {} then t == s
            else Nearer(c, s, t, ok && MagicOk(c, s.flash) && s.pc != Transferred(false))
  {
    hide Base, MagicOk, Rank, GoStart, GoPrepare, GoCopy, GoFinish;
    if Preparing(s.pc) {
      RankPrepare(c, s, ok);
    } else if s.pc.LoopHead? {
      RankHead(c, s, ok);
    } else if Copying(s.pc) {
      RankRow(c, s, ok);
    } else {
      RankFinish(c, s);
    }
  }

  /** A step that no failing call spoils. */
  predicate Clean(c: Config, s: State, e: Event) {
    (e.Go? ==> e.ok) && MagicOk(c, s.flash) && s.pc != Transferred(false)
  }

  lemma RankErase(c: Config, s: State, o: nat)
    requires 0 < c.rowSize && s.pc.Erase? && o in s.toErase
    ensures Step(c, s, EraseRow(o)) != s && Nearer(c, s, Step(c, s, EraseRow(o)), true)
  {
    hide WithRow;
    assert |s.toErase - {o}| == |s.toErase| - 1;
    RowsAreSome(c, SlotSize(c));
  }

  lemma RankStep(c: Config, s: State, e: Event)
    requires Copyable(c) && Base(c, s) && RollingBack(s.pc) && !s.irqOn && !PowerLoss(e)
    ensures Step(c, s, e) == s || Nearer(c, s, Step(c, s, e), Clean(c, s, e))
  {
    hide Base, MagicOk, Rank, Next, WithRow;
    if e.Go? {
      RankNext(c, s, e.ok);
    } else if e.EraseRow? && s.pc.Erase? && e.row in s.toErase {
      RankErase(c, s, e.row);
    }
  }

  lemma PrepareKeepsFlash(c: Config, s: State, ok: bool)
    requires Preparing(s.pc)
    ensures GoPrepare(c, s, ok).flash == s.flash
    ensures var pc := GoPrepare(c, s, ok).pc; RollingBack(pc) || pc.Halted?
  {
    hide MagicOk, Rows;
  }

  lemma CopyKeepsExternal(c: Config, s: State, ok: bool)
    requires Copying(s.pc)
    ensures GoCopy(c, s, ok).flash.ext == s.flash.ext && RollingBack(GoCopy(c, s, ok).pc)
  {
    hide Patch, ReadAt;
  }

  lemma FinishKeepsFlash(c: Config, s: State)
    requires s.pc.Transferred?
    ensures GoFinish(c, s).flash == s.flash
  {
  }

  /** A rollback leaves the factory region's magic alone, and once it is over it is not taken up again
      without a reset. */
  lemma StaysOver(c: Config, s: State, e: Event)
    requires !Starting(s.pc) && !PowerLoss(e)
    ensures !Starting(Step(c, s, e).pc)
    ensures RollingBack(Step(c, s, e).pc) ==>
              RollingBack(s.pc) && MagicOk(c, Step(c, s, e).flash) == MagicOk(c, s.flash)
  {
    hide GoPrepare, GoCopy, GoFinish, Patch;
    if e.Go? {
      if Preparing(s.pc) {
        PrepareKeepsFlash(c, s, e.ok);
      } else if Copying(s.pc) {
        CopyKeepsExternal(c, s, e.ok);
      } else {
        FinishLeadsTo(c, s);
        if s.pc.Transferred? {
          FinishKeepsFlash(c, s);
        }
      }
    }
  }

  /** How many steps the rollback has taken: events that changed its state while it was under way. */
  function Moves(c: Config, s: State, evs: seq<Event>): nat {
    if evs == [] then 0
    else
      var pre := evs[..|evs| - 1];
      Moves(c, s, pre) + if RollingBack(Run(c, s, pre).pc) && Run(c, s, evs) != Run(c, s, pre) then 1 else 0
  }

  /** What `moves` steps have achieved on the way from `s` to `t`. */
  ghost predicate Closer(c: Config, s: State, t: State, moves: nat, clean: bool)
    requires 0 < c.rowSize
  {
    && !Starting(t.pc) && 0 <= Rank(c, t) && moves + Rank(c, t) <= Rank(c, s)
    && (RollingBack(t.pc) ==> MagicOk(c, t.flash) == MagicOk(c, s.flash))
    && (clean ==> moves + Rank(c, t) == Rank(c, s) && t.pc != Transferred(false))
  }

  lemma OverIsZero(c: Config, s: State)
    requires 0 < c.rowSize && !RollingBack(s.pc)
    ensures Rank(c, s) == 0
  {
  }

  lemma CloserStep(c: Config, s: State, t: State, moves: nat, e: Event, clean: bool)
    requires Copyable(c) && Base(c, t) && Latch(t) && !PowerLoss(e)
    requires Closer(c, s, t, moves, clean)
    requires clean ==> MagicOk(c, s.flash) && (e.Go? ==> e.ok)
    ensures var u := Step(c, t, e);
            Closer(c, s, u, moves + if RollingBack(t.pc) && u != t then 1 else 0, clean)
  {
    hide Base, MagicOk, Rank, Step, Aligned;
    StaysOver(c, t, e);
    if RollingBack(t.pc) {
      RankStep(c, t, e);
    } else {
      OverIsZero(c, t);
      OverIsZero(c, Step(c, t, e));
    }
  }

  lemma {:induction false} CloserRun(c: Config, s: State, evs: seq<Event>, clean: bool)
    requires Copyable(c) && Base(c, s) && Sane(c, s) && NoPowerLoss(evs) && Closer(c, s, s, 0, clean)
    requires clean ==> MagicOk(c, s.flash) && FailureFree(evs)
    ensures Closer(c, s, Run(c, s, evs), Moves(c, s, evs), clean)
    decreases |evs|
  {
    if evs != [] {
      hide Step, Base, MagicOk, Closer, Copyable, Fresh, NoRequest;
      var pre := evs[..|evs| - 1];
      CloserRun(c, s, pre, clean);
      CursorRun(c, s, pre);
      SaneRun(c, s, pre);
      CloserStep(c, s, Run(c, s, pre), Moves(c, s, pre), evs[|evs| - 1], clean);
    }
  }

  lemma RankNotNegative(c: Config, s: State)
    requires Copyable(c) && Base(c, s)
    ensures 0 <= Rank(c, s) && (RollingBack(s.pc) ==> 0 < Rank(c, s))
    ensures Rank(c, s) == 2 ==> s.pc.Transferred?
  {
    hide Fits, Aligned;
    RowsAreSome(c, SlotSize(c));
    if Copying(s.pc) {
      RowsAreSome(c, SlotSize(c) - s.index);
    }
  }

  /** While a rollback is under way, some successful call of its own takes it on. */
  lemma SomethingMoves(c: Config, s: State)
    requires Copyable(c) && Base(c, s) && RollingBack(s.pc)
    ensures exists e: Event :: (e == Go(true) || e.EraseRow?) && Step(c, s, e) != s
  {
    hide Base, MagicOk, Next, Rank, WithRow;
    if s.pc.Erase? && s.toErase != {} {
      var o :| o in s.toErase;
      assert Step(c, s, EraseRow(o)).toErase != s.toErase;
    } else {
      RankNext(c, s, true);
      assert Step(c, s, Go(true)) != s;
    }
  }

  /** From any point of any run at which a rollback is under way: whatever calls fail and whatever happens in
      between, it takes at most `Rank` more steps; if no call fails (and the magic is right) it has after every
      step exactly so many fewer to go; and as long as it is under way some successful call takes it on. */
  lemma {:induction false} RollbackEnds(c: Config, s: State, history: seq<Event>, evs: seq<Event>)
    requires Copyable(c) && Initial(c, s) && RollingBack(Run(c, s, history).pc) && NoPowerLoss(evs)
    ensures var r := Run(c, s, history);
            var t := Run(c, r, evs);
            && Moves(c, r, evs) + Rank(c, t) <= Rank(c, r) && 0 <= Rank(c, t)
            && (RollingBack(t.pc) <==> 0 < Rank(c, t))
            && (FailureFree(evs) && MagicOk(c, r.flash) && r.pc != Transferred(false) ==>
                  Moves(c, r, evs) + Rank(c, t) == Rank(c, r) && t.pc != Transferred(false))
            && (RollingBack(t.pc) ==> exists e: Event :: (e == Go(true) || e.EraseRow?) && Step(c, t, e) != t)
  {
    hide Run, Step, Base, MagicOk, Sane, Aligned, Rank, Moves;
    var r := Run(c, s, history);
    var t := Run(c, r, evs);
    var clean := FailureFree(evs) && MagicOk(c, r.flash) && r.pc != Transferred(false);
    StartsBased(c, s, history);
    RankNotNegative(c, r);
    CloserRun(c, r, evs, clean);
    CursorRun(c, r, evs);
    RankNotNegative(c, t);
    if RollingBack(t.pc) {
      SomethingMoves(c, t);
    } else {
      OverIsZero(c, t);
    }
  }

  lemma {:induction false} StartsBased(c: Config, s: State, history: seq<Event>)
    requires Copyable(c) && Initial(c, s)
    ensures Base(c, Run(c, s, history)) && Sane(c, Run(c, s, history))
  {
    hide Run;
    CursorRun(c, s, history);
    OffSane(c, s);
    SaneRun(c, s, history);
  }

  /** A rollback that starts with the right magic and in which no call fails reports success after exactly
      4 * rows + 5 steps, whatever else happens in between. */
  lemma {:induction false} FailureFreeRollback(c: Config, s: State, history: seq<Event>, evs: seq<Event>)
    requires Copyable(c) && Initial(c, s) && Run(c, s, history).pc.Open? && MagicOk(c, Run(c, s, history).flash)
    requires FailureFree(evs)
    ensures var r := Run(c, s, history);
            var t := Run(c, r, evs);
            Moves(c, r, evs) == 4 * (SlotSize(c) / c.rowSize) + 5 ==>
              t.pc == Transferred(true) && Primary(c, t.flash) == Factory(c, t.flash)
  {
    hide Run, Step, Base, MagicOk, Sane, Copyable, Moves, Primary, Factory;
    var r := Run(c, s, history);
    RollbackEnds(c, s, history, evs);
    StartsBased(c, s, history);
    CursorRun(c, r, evs);
    RankNotNegative(c, Run(c, r, evs));
    RunAppend(c, s, history, evs);
    SuccessMeansCopied(c, s, history + evs);
  }
}
