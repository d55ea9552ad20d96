/** What the primary slot can look like before, during and after rollbacks that power failures
    interrupt at any point. */
module RollbackShape {
  import opened Memory
  import opened BootMachine
  import opened BootInvariants

  /** Every undamaged row of the primary slot holds either its bytes of `img` or nothing. */
  ghost predicate OldOrBlank(c: Config, f: Flash, img: seq<Byte>) {
    forall o :: o in Rows(c) && o !in f.torn ==>
      SameRow(Primary(c, f), img, o, c.rowSize) || RowBlank(Primary(c, f), o, c.rowSize, c.erased)
  }

  /** Rows of the old application and rows of the factory application are never in the slot together. */
  ghost predicate NeverMixed(c: Config, f: Flash) {
    OldOrBlank(c, f, f.installed) || OldOrBlank(c, f, Factory(c, f))
  }

  /** Byte by byte: there is one image, the installed or the factory one, such that each undamaged row of the
      slot has all of its bytes, or is erased. */
  ghost predicate RowsOf(c: Config, f: Flash, img: seq<Byte>)
    requires |img| == |Primary(c, f)| == SlotSize(c)
  {
    forall o :: o in Rows(c) && o !in f.torn ==>
      BytesOf(Primary(c, f), img, o, o + c.rowSize) || BytesAre(Primary(c, f), c.erased, o, o + c.rowSize)
  }

  lemma RowsOfExactly(c: Config, f: Flash, img: seq<Byte>)
    requires WellFormed(c) && |img| == |Primary(c, f)| == SlotSize(c)
    ensures RowsOf(c, f, img) <==> OldOrBlank(c, f, img)
  {
    hide Primary, Fits, Rows, SameRow, RowBlank, BytesOf, BytesAre;
    forall o | o in Rows(c)
      ensures SameRow(Primary(c, f), img, o, c.rowSize) <==> BytesOf(Primary(c, f), img, o, o + c.rowSize)
      ensures RowBlank(Primary(c, f), o, c.rowSize, c.erased)
              <==> BytesAre(Primary(c, f), c.erased, o, o + c.rowSize)
    {
      RowEnd(c, o);
      SameRowAt(Primary(c, f), img, o, c.rowSize);
      BlankRowAt(Primary(c, f), o, c.rowSize, c.erased);
    }
  }

  lemma NeverMixedExactly(c: Config, f: Flash)
    requires WellFormed(c) && Fits(c, f)
    ensures |f.installed| == |Factory(c, f)| == |Primary(c, f)| == SlotSize(c)
    ensures NeverMixed(c, f) <==> RowsOf(c, f, f.installed) || RowsOf(c, f, Factory(c, f))
  {
    hide OldOrBlank, RowsOf, Rows;
    RowsOfExactly(c, f, f.installed);
    RowsOfExactly(c, f, Factory(c, f));
  }

  /** The first `n` bytes are the factory application's, whole rows; every later row is blank. */
  ghost predicate Copied(c: Config, f: Flash, n: nat) {
    && Aligned(n, c.rowSize) && n <= SlotSize(c) && f.torn == {}
    && |Primary(c, f)| == |Factory(c, f)| == SlotSize(c)
    && Primary(c, f)[..n] == Factory(c, f)[..n]
    && (forall o :: o in Rows(c) && n <= o ==> RowBlank(Primary(c, f), o, c.rowSize, c.erased))
  }

  ghost predicate BlankOutside(c: Config, f: Flash, todo: set<nat>) {
    forall o :: o in Rows(c) && o !in todo ==> o !in f.torn && RowBlank(Primary(c, f), o, c.rowSize, c.erased)
  }

  // ----- single flash operations

  lemma RowEnd(c: Config, o: nat)
    requires WellFormed(c) && o in Rows(c)
    ensures o + c.rowSize <= SlotSize(c) && Aligned(o, c.rowSize)
  {
    RowsApart(o, SlotSize(c), c.rowSize);
  }

  /** Writing row `o` of the slot leaves every other row as it was. */
  lemma OtherRows(c: Config, f: Flash, o: nat, row: seq<Byte>, p: nat)
    requires WellFormed(c) && Fits(c, f) && o in Rows(c) && p in Rows(c) && |row| == c.rowSize
    ensures p + c.rowSize <= SlotSize(c)
    ensures Primary(c, WithRow(c, f, o, row))[p..p + c.rowSize]
            == if p == o then row else Primary(c, f)[p..p + c.rowSize]
  {
    RowEnd(c, o);
    RowEnd(c, p);
    RowWritten(c, f, o, row);
    PatchRow(Primary(c, f), o, c.rowSize, row, p);
  }

  function ErasedAt(c: Config, f: Flash, o: nat): Flash {
    WithRow(c, f, o, Blank(c.rowSize, c.erased)).(torn := f.torn - {o})
  }

  lemma RowErased(c: Config, f: Flash, o: nat, img: seq<Byte>)
    requires WellFormed(c) && Fits(c, f) && o in Rows(c) && OldOrBlank(c, f, img)
    ensures OldOrBlank(c, ErasedAt(c, f, o), img)
  {
    var g := ErasedAt(c, f, o);
    RowEnd(c, o);
    RowWritten(c, f, o, Blank(c.rowSize, c.erased));
    forall p | p in Rows(c) && p !in g.torn
      ensures SameRow(Primary(c, g), img, p, c.rowSize) || RowBlank(Primary(c, g), p, c.rowSize, c.erased)
    {
      OtherRows(c, f, o, Blank(c.rowSize, c.erased), p);
    }
  }

  lemma LessToErase(c: Config, f: Flash, o: nat, todo: set<nat>)
    requires WellFormed(c) && Fits(c, f) && o in Rows(c) && BlankOutside(c, f, todo)
    ensures BlankOutside(c, ErasedAt(c, f, o), todo - {o})
  {
    var g := ErasedAt(c, f, o);
    RowEnd(c, o);
    RowWritten(c, f, o, Blank(c.rowSize, c.erased));
    forall p | p in Rows(c) && p !in todo - {o}
      ensures p !in g.torn && RowBlank(Primary(c, g), p, c.rowSize, c.erased)
    {
      OtherRows(c, f, o, Blank(c.rowSize, c.erased), p);
    }
  }

  lemma RowTorn(c: Config, f: Flash, o: nat, junk: seq<Byte>, g: Flash, img: seq<Byte>)
    requires WellFormed(c) && Fits(c, f) && o in Rows(c) && |junk| == c.rowSize
    requires g == WithRow(c, f, o, junk).(torn := f.torn + {o})
    requires OldOrBlank(c, f, img)
    ensures OldOrBlank(c, g, img)
  {
    forall p | p in Rows(c)
      ensures p + c.rowSize <= SlotSize(c)
      ensures p != o ==> Primary(c, g)[p..p + c.rowSize] == Primary(c, f)[p..p + c.rowSize]
    {
      OtherRows(c, f, o, junk, p);
    }
  }

  lemma RowCopied(c: Config, f: Flash, n: nat)
    requires WellFormed(c) && Fits(c, f) && Copied(c, f, n) && n < SlotSize(c)
    ensures n + c.rowSize <= SlotSize(c)
    ensures Copied(c, WithRow(c, f, n, ReadAt(f.ext, n, c.rowSize)), n + c.rowSize)
  {
    RowEnd(c, n);
    var row := ReadAt(f.ext, n, c.rowSize);
    ReadInside(f.ext, SlotSize(c), n, c.rowSize);
    var g := WithRow(c, f, n, row);
    RowWritten(c, f, n, row);
    PatchExtends(Primary(c, f), n, row);
    SliceExtends(Factory(c, f), n, c.rowSize);
    NextRow(n, c.rowSize);
    forall p | p in Rows(c) && n + c.rowSize <= p
      ensures RowBlank(Primary(c, g), p, c.rowSize, c.erased)
    {
      OtherRows(c, f, n, row, p);
    }
  }

  lemma CopiedIsNeverMixed(c: Config, f: Flash, n: nat)
    requires WellFormed(c) && Fits(c, f) && Copied(c, f, n)
    ensures OldOrBlank(c, f, Factory(c, f))
  {
    var p, img := Primary(c, f), Factory(c, f);
    forall o | o in Rows(c)
      ensures SameRow(p, img, o, c.rowSize) || RowBlank(p, o, c.rowSize, c.erased)
    {
      RowEnd(c, o);
      if o < n {
        RowsApart(o, n, c.rowSize);
        SliceOfPrefix(p, n, o, c.rowSize);
        SliceOfPrefix(img, n, o, c.rowSize);
      }
    }
  }

  lemma CopiedAll(c: Config, f: Flash)
    requires WellFormed(c) && Copied(c, f, SlotSize(c))
    ensures Primary(c, f) == Factory(c, f)
  {
    var p, img := Primary(c, f), Factory(c, f);
    assert p == p[..SlotSize(c)] && img == img[..SlotSize(c)];
  }

  lemma ErasedSlot(c: Config, f: Flash)
    requires WellFormed(c) && Fits(c, f) && BlankOutside(c, f, {}) && f.torn <= Rows(c)
    ensures Copied(c, f, 0)
  {
    assert Primary(c, f)[..0] == Factory(c, f)[..0] == [];
    assert f.torn == {};
  }

  // ----- the invariant

  /** Either assertions stop the CPU or the factory region carries the magic: then the copy loop never
      runs over a slot that was not erased first. */
  predicate Guarded(c: Config, f: Flash) {
    c.halts || MagicOk(c, f)
  }

  /** What the code has achieved by the time it stands at `s.pc`. */
  ghost predicate Progress(c: Config, s: State) {
    match s.pc
    case Erase => BlankOutside(c, s.flash, s.toErase) && s.ops.rowReads == 0
    case CopyInit => Copied(c, s.flash, 0)
    case LoopHead => Copied(c, s.flash, s.index)
    case ReadRow => Copied(c, s.flash, s.index)
    case WriteRow => Copied(c, s.flash, s.index)
    case Transferred(ok) =>
      if ok then Copied(c, s.flash, SlotSize(c))
      else c.halts || 0 < s.ops.rowReads ==> Copied(c, s.flash, s.index) && s.index < SlotSize(c)
    case Validate => c.halts ==> Copied(c, s.flash, SlotSize(c))
    case _ => Starting(s.pc) || Preparing(s.pc) ==> s.ops.rowReads == 0
  }

  ghost predicate Shape(c: Config, s: State) {
    && Base(c, s) && s.flash.torn <= Rows(c)
    && NeverMixed(c, s.flash) && Progress(c, s)
  }

  lemma SameSlotNeverMixed(c: Config, f: Flash)
    requires WellFormed(c) && Fits(c, f) && Primary(c, f) == f.installed
    ensures NeverMixed(c, f)
  {
    forall o | o in Rows(c) ensures SameRow(Primary(c, f), f.installed, o, c.rowSize) {
      RowEnd(c, o);
    }
  }

  lemma UpgradeShape(c: Config, f: Flash)
    requires WellFormed(c) && Fits(c, f) && NeverMixed(c, f) && f.torn <= Rows(c)
    ensures NeverMixed(c, Upgrade(c, f)) && Upgrade(c, f).torn <= Rows(c)
  {
    var g := Upgrade(c, f);
    UpgradeEffect(c, f);
    if UpgradeDue(c, f) {
      SameSlotNeverMixed(c, g);
    } else {
      assert Primary(c, g) == Primary(c, f) && Factory(c, g) == Factory(c, f);
    }
  }

  lemma StartShape(c: Config, s: State, ok: bool)
    requires WellFormed(c) && Shape(c, s) && Starting(s.pc)
    ensures Shape(c, GoStart(c, s, ok))
  {
    hide Cursors, NeverMixed, Upgrade, Primary, Copied, BlankOutside;
    StartStep(c, s, ok);
    if s.pc.BootGo? {
      UpgradeShape(c, s.flash);
    }
  }

  lemma PrepareShape(c: Config, s: State, ok: bool)
    requires WellFormed(c) && Shape(c, s) && Preparing(s.pc) && Guarded(c, s.flash)
    requires s.pc.CopyInit? ==> SlotSize(c) % c.rowSize == 0
    ensures Shape(c, GoPrepare(c, s, ok))
  {
    hide NeverMixed, Copied, MagicOk;
    PrepareStep(c, s, ok);
    if s.pc.Erase? && s.toErase == {} {
      ErasedSlot(c, s.flash);
    }
  }

  lemma WriteShape(c: Config, s: State)
    requires WellFormed(c) && Shape(c, s) && s.pc.WriteRow?
    ensures Shape(c, GoCopy(c, s, true))
  {
    var g := WithRow(c, s.flash, s.index, s.buf);
    WriteRowStep(c, s);
    assert GoCopy(c, s, true).flash == g;
    RowCopied(c, s.flash, s.index);
    FactoryUntouched(c, s.flash, g);
    CopiedIsNeverMixed(c, g, s.index + c.rowSize);
  }

  lemma CopyShape(c: Config, s: State, ok: bool)
    requires WellFormed(c) && Shape(c, s) && Copying(s.pc)
    ensures Shape(c, GoCopy(c, s, ok))
  {
    if s.pc.WriteRow? && ok {
      WriteShape(c, s);
    } else {
      CopyStep(c, s, ok);
    }
  }

  lemma ValidateShape(c: Config, s: State)
    requires WellFormed(c) && Shape(c, s) && s.pc.Validate?
    ensures Shape(c, GoFinish(c, s))
  {
    hide Cursors, NeverMixed, Upgrade, Primary;
    FinishStep(c, s);
    UpgradeShape(c, s.flash);
    assert GoFinish(c, s).flash == Upgrade(c, s.flash);
  }

  lemma FinishShape(c: Config, s: State)
    requires WellFormed(c) && Shape(c, s) && !Starting(s.pc) && !Preparing(s.pc) && !Copying(s.pc)
    ensures Shape(c, GoFinish(c, s))
  {
    if s.pc.Validate? {
      ValidateShape(c, s);
    } else {
      hide Base, NeverMixed, Copied;
      FinishStep(c, s);
      assert GoFinish(c, s).flash == s.flash;
    }
  }

  lemma NextShape(c: Config, s: State, ok: bool)
    requires WellFormed(c) && Shape(c, s) && Guarded(c, s.flash)
    ensures Shape(c, Next(c, s, ok))
  {
    hide Shape, GoStart, GoPrepare, GoCopy, GoFinish;
    if Copying(s.pc) {
      CopyShape(c, s, ok);
    } else if Preparing(s.pc) {
      AlignedExactly(SlotSize(c), c.rowSize);
      PrepareShape(c, s, ok);
    } else if Starting(s.pc) {
      StartShape(c, s, ok);
    } else {
      FinishShape(c, s);
    }
  }

  lemma EraseShape(c: Config, s: State, o: nat)
    requires WellFormed(c) && Shape(c, s) && s.pc.Erase? && o in s.toErase
    ensures Shape(c, Step(c, s, EraseRow(o)))
  {
    EraseStep(c, s, o);
    assert o in Rows(c);
    var g := ErasedAt(c, s.flash, o);
    assert Step(c, s, EraseRow(o)).flash == g;
    assert Factory(c, g) == Factory(c, s.flash);
    LessToErase(c, s.flash, o, s.toErase);
    if OldOrBlank(c, s.flash, s.flash.installed) {
      RowErased(c, s.flash, o, s.flash.installed);
    } else {
      RowErased(c, s.flash, o, Factory(c, s.flash));
    }
  }

  lemma RowTornShape(c: Config, s: State, o: nat, junk: seq<Byte>)
    requires WellFormed(c) && Shape(c, s) && InFlight(s, o) && |junk| == c.rowSize
    ensures Shape(c, Step(c, s, PowerFailInRow(o, junk)))
  {
    InFlightFits(c, s, o);
    PowerStep(c, s, PowerFailInRow(o, junk));
    var g := WithRow(c, s.flash, o, junk).(torn := s.flash.torn + {o});
    assert Factory(c, g) == Factory(c, s.flash);
    if OldOrBlank(c, s.flash, s.flash.installed) {
      RowTorn(c, s.flash, o, junk, g, s.flash.installed);
    } else {
      RowTorn(c, s.flash, o, junk, g, Factory(c, s.flash));
    }
  }

  lemma PowerShape(c: Config, s: State, e: Event)
    requires WellFormed(c) && Shape(c, s) && PowerLoss(e)
    ensures Shape(c, Step(c, s, e))
  {
    PowerStep(c, s, e);
    match e {
      case PowerFailInRow(o, junk) =>
        if InFlight(s, o) && |junk| == c.rowSize {
          RowTornShape(c, s, o, junk);
        }
      case _ =>
    }
  }

  lemma OtaShape(c: Config, s: State, image: seq<Byte>)
    requires WellFormed(c) && Shape(c, s)
    ensures Shape(c, Step(c, s, Ota(image)))
  {
    hide Copied, BlankOutside, Patch;
    OtaStep(c, s, image);
    if s.pc.Running? {
      FactoryUntouched(c, s.flash, Step(c, s, Ota(image)).flash);
    }
  }

  lemma InputShape(c: Config, s: State, e: Event)
    requires WellFormed(c) && Shape(c, s) && (e.Button? || e.Isr? || e.Wake?)
    ensures Shape(c, Step(c, s, e))
  {
    hide Base, NeverMixed, Copied, BlankOutside;
    InputStep(c, s, e);
  }

  lemma ShapeStep(c: Config, s: State, e: Event)
    requires WellFormed(c) && Shape(c, s) && Guarded(c, s.flash)
    ensures Shape(c, Step(c, s, e))
  {
    hide Shape, Next;
    match e {
      case Go(ok) => NextShape(c, s, ok);
      case EraseRow(o) =>
        if s.pc.Erase? && o in s.toErase {
          EraseShape(c, s, o);
        }
      case Ota(image) => OtaShape(c, s, image);
      case Button(_) => InputShape(c, s, e);
      case Isr => InputShape(c, s, e);
      case Wake => InputShape(c, s, e);
      case _ => PowerShape(c, s, e);
    }
  }

  lemma {:induction false} ShapeRun(c: Config, s: State, evs: seq<Event>)
    requires WellFormed(c) && Shape(c, s) && Guarded(c, s.flash)
    ensures Shape(c, Run(c, s, evs)) && Guarded(c, Run(c, s, evs).flash)
    decreases |evs|
  {
    BaseRun(c, s, evs);
    if evs != [] {
      var pre := evs[..|evs| - 1];
      ShapeRun(c, s, pre);
      ShapeStep(c, Run(c, s, pre), evs[|evs| - 1]);
    }
  }

  lemma InitialShape(c: Config, s: State)
    requires WellFormed(c) && Initial(c, s)
    ensures Shape(c, s)
  {
    SameSlotNeverMixed(c, s.flash);
  }
}
