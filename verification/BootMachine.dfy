/** The bootloader as a state machine: one step per observable action of its code, of the button
    interrupt, of the application it starts and of the power supply. */
module BootMachine {
  import opened Memory
  import FlashMap

  /** What is fixed when the bootloader is built and the parts of MCUboot it relies on.
      `halts` says whether CY_ASSERT stops the CPU (it does in the default Debug build),
      `valid` is MCUboot's verdict on a slot and `headerSize` what the image header holds. */
  datatype Config = Config(
    layout: FlashMap.Layout, rowSize: nat, erased: Byte, magic: nat, halts: bool,
    valid: seq<Byte> -> bool, headerSize: seq<Byte> -> nat)

  /** `struct boot_rsp`, together with the slot content it was computed from. */
  datatype Rsp = Rsp(imageOff: nat, headerSize: nat, image: seq<Byte>)

  datatype Pc =
    | Reset                  // start-up, before the external memory is initialised
    | BootGo                 // main's boot_go
    | ReadButton             // a valid image is installed: is the button held?
    | EnableIrq              // no valid image: arm the button interrupt
    | BeforeWfi              // about to execute WFI
    | Asleep                 // in WFI
    | CheckFlag              // woken up
    | DisableIrq
    | ClearFlag
    | Open                   // transfer_factory_image: open the primary slot
    | ReadMagic
    | Erase
    | CopyInit
    | LoopHead
    | ReadRow
    | WriteRow
    | Transferred(ok: bool)  // transfer_factory_image has returned
    | Validate               // rollback's boot_go
    | StartCM4(rsp: Rsp)     // do_boot
    | Running(rsp: Rsp)      // CM4 runs, CM0+ sleeps for good
    | Halted                 // a failed assertion
    | Exited                 // main returned

  /** Flash operations of one rollback, counted. */
  datatype Ops = Ops(magicReads: nat, erases: nat, rowReads: nat, rowWrites: nat)

  /** What survives a power failure. The last two fields are book-keeping that no step reads: the image
      last installed by an upgrade (or found at the very start), and the rows damaged by a power failure
      since they were last erased. */
  datatype Flash = Flash(
    intern: seq<Byte>, ext: seq<Byte>, pending: bool,
    installed: seq<Byte>, torn: set<nat>)

  /** `ops` is book-keeping as well. */
  datatype State = State(
    pc: Pc, flash: Flash,
    flag: bool, irqOn: bool, held: bool, rsp: Option<Rsp>,
    toErase: set<nat>, index: nat, factOff: nat, primOff: nat, buf: seq<Byte>, ops: Ops)

  datatype Event =
    | Go(ok: bool)                              // the code runs on; ok is the result of its driver call
    | EraseRow(row: nat)                        // the driver erases a row, in any order
    | Button(down: bool)                        // the level main reads from the pin
    | Isr                                       // the button interrupt
    | Wake                                      // any other wake-up from WFI
    | Ota(image: seq<Byte>)                     // the running application stores an upgrade
    | PowerFail
    | PowerFailInRow(row: nat, junk: seq<Byte>) // ... while this row is erased or programmed
    | PowerFailInUpgrade(junk: seq<Byte>)       // ... while MCUboot overwrites the primary slot

  predicate PowerLoss(e: Event) {
    e.PowerFail? || e.PowerFailInRow? || e.PowerFailInUpgrade?
  }

  ghost predicate NoPowerLoss(evs: seq<Event>) {
    forall i :: 0 <= i < |evs| ==> !PowerLoss(evs[i])
  }

  // ----- where things are

  function SlotSize(c: Config): nat { c.layout.primary1 }

  /** Offset of the primary slot in the internal flash. */
  function PrimaryOff(c: Config): nat { c.layout.bootSize }

  /** Offset of the secondary slot in the external flash. */
  function SecondaryOff(c: Config): nat { c.layout.factSize }

  /** The default kind of build (single image, secondary slot in external flash) with sizes for which
      the flash map is sound, and a slot that holds an image header. */
  predicate Placed(c: Config) {
    && FlashMap.Addressable(c.layout)
    && c.layout.external && !c.layout.dual
    && c.layout.primary1 <= c.layout.factSize
    && 4 <= c.layout.primary1
    && 0 < c.rowSize
  }

  /** ... whose slot is moreover a whole number of rows, as the transfer asserts. */
  predicate WellFormed(c: Config) {
    Placed(c) && Aligned(c.layout.primary1, c.rowSize)
  }

  /** What the copy loop needs, whatever the flash map is: a slot of whole rows whose size is a `uint32_t`,
      and as many bytes between the start of the external memory and the end of the address space. */
  predicate Copyable(c: Config) {
    && 0 < c.rowSize && Aligned(SlotSize(c), c.rowSize)
    && SlotSize(c) < U32 && c.layout.smifBase + SlotSize(c) <= U32
  }

  lemma MapIsCopyable(c: Config)
    requires WellFormed(c)
    ensures Copyable(c)
  {
  }

  /** The devices reach as far as the slots and the factory region. */
  predicate Fits(c: Config, f: Flash) {
    && PrimaryOff(c) + SlotSize(c) <= |f.intern|
    && SecondaryOff(c) + c.layout.secondary1 <= |f.ext|
    && SlotSize(c) <= |f.ext|
    && |f.installed| == SlotSize(c)
  }

  /** The offsets are those of the flash map's descriptors, counted from the start of the device. */
  lemma OffsetsAreTheMaps(c: Config)
    requires WellFormed(c)
    ensures FlashMap.Lookup(FlashMap.Table(c.layout), FlashMap.PrimaryArea(0))
            == Some(FlashMap.Area(FlashMap.PrimaryArea(0), FlashMap.Internal,
                                  c.layout.flashBase + PrimaryOff(c), SlotSize(c)))
    ensures FlashMap.Lookup(FlashMap.Table(c.layout), FlashMap.SecondaryArea(0))
            == Some(FlashMap.Area(FlashMap.SecondaryArea(0), FlashMap.External,
                                  c.layout.smifBase + SecondaryOff(c), c.layout.secondary1))
  {
    FlashMap.OffsetsDoNotWrap(c.layout);
    FlashMap.OpenFindsArea(c.layout, 1);
    FlashMap.OpenFindsArea(c.layout, 2);
  }

  function Primary(c: Config, f: Flash): seq<Byte> {
    ReadAt(f.intern, PrimaryOff(c), SlotSize(c))
  }

  /** The factory region: as many bytes of the external flash as the primary slot has. */
  function Factory(c: Config, f: Flash): seq<Byte> {
    ReadAt(f.ext, 0, SlotSize(c))
  }

  function Rows(c: Config): set<nat> {
    RowOffsets(SlotSize(c), c.rowSize)
  }

  function Word(b: seq<Byte>): nat
    requires |b| == 4
  {
    b[0] as int + b[1] as int * 0x100 + b[2] as int * 0x1_0000 + b[3] as int * 0x100_0000
  }

  /** The factory region starts with IMAGE_MAGIC. */
  predicate MagicOk(c: Config, f: Flash) {
    4 <= |f.ext| && Word(f.ext[..4]) == c.magic
  }

  /** The bytes of the 32-bit word `w` as this CPU stores them, lowest first. */
  predicate LittleEndian(w: nat, b: seq<Byte>) {
    var w1 := w / 0x100;
    var w2 := w1 / 0x100;
    |b| == 4 && b[0] == w % 0x100 && b[1] == w1 % 0x100 && b[2] == w2 % 0x100 && b[3] == w2 / 0x100
  }

  lemma WordIsLittleEndian(b: seq<Byte>)
    requires |b| == 4
    ensures LittleEndian(Word(b), b)
  {
    var w2 := b[2] as int + b[3] as int * 0x100;
    var w1 := b[1] as int + w2 * 0x100;
    DivModUnique(Word(b), w1, b[0], 0x100);
    DivModUnique(w1, w2, b[1], 0x100);
    DivModUnique(w2, b[3], b[2], 0x100);
  }

  /** No other word is stored in these bytes. */
  lemma LittleEndianIsOne(w: nat, b: seq<Byte>)
    requires LittleEndian(w, b)
    ensures w == Word(b)
  {
    var w1 := w / 0x100;
    var w2 := w1 / 0x100;
    assert w == w1 * 0x100 + w % 0x100 && w1 == w2 * 0x100 + w1 % 0x100;
    assert w2 == w2 / 0x100 * 0x100 + w2 % 0x100;
  }

  /** The magic test compares the first four bytes of the region, lowest first, with the bytes of IMAGE_MAGIC. */
  lemma MagicExactly(c: Config, f: Flash)
    ensures MagicOk(c, f) <==> 4 <= |f.ext| && LittleEndian(c.magic, f.ext[..4])
  {
    hide Word, LittleEndian;
    if 4 <= |f.ext| {
      WordIsLittleEndian(f.ext[..4]);
      if LittleEndian(c.magic, f.ext[..4]) {
        LittleEndianIsOne(c.magic, f.ext[..4]);
      }
    }
  }

  // ----- MCUboot

  /** The secondary slot's image as the overwrite leaves it in the primary slot. */
  function Incoming(c: Config, f: Flash): (r: seq<Byte>)
    ensures |r| == SlotSize(c)
  {
    var img := ReadAt(f.ext, SecondaryOff(c), c.layout.secondary1);
    if SlotSize(c) <= |img| then img[..SlotSize(c)] else img + Blank(SlotSize(c) - |img|, c.erased)
  }

  predicate UpgradeDue(c: Config, f: Flash) {
    f.pending && c.valid(Incoming(c, f))
  }

  function WithPrimary(c: Config, f: Flash, slot: seq<Byte>): Flash {
    f.(intern := Patch(f.intern, PrimaryOff(c), slot))
  }

  function WithRow(c: Config, f: Flash, o: nat, row: seq<Byte>): Flash {
    f.(intern := Patch(f.intern, PrimaryOff(c) + o, row))
  }

  /** What boot_go does to flash: a pending, valid upgrade overwrites the primary slot; the request is
      gone afterwards either way. */
  function Upgrade(c: Config, f: Flash): Flash {
    if UpgradeDue(c, f) then
      WithPrimary(c, f, Incoming(c, f)).(pending := false, installed := Incoming(c, f), torn := {})
    else
      f.(pending := false)
  }

  /** The response of a successful boot_go. */
  function Response(c: Config, f: Flash): Rsp {
    Rsp(FlashMap.Primary1(c.layout).off, c.headerSize(Primary(c, f)), Primary(c, f))
  }

  /** The address do_boot passes to Cy_SysEnableCM4. */
  function Entry(r: Rsp): nat {
    Wrap32(r.imageOff + r.headerSize)
  }

  // ----- steps

  /** CY_ASSERT(0): stop, or fall through to `next` in a build where it does nothing. */
  function Assert(c: Config, next: State): State {
    if c.halts then next.(pc := Halted) else next
  }

  /** The state after power comes back. */
  function Off(s: State): State {
    s.(pc := Reset, flag := false, irqOn := false, held := false, rsp := None,
       toErase := {}, index := 0, factOff := 0, primOff := 0, buf := [], ops := Ops(0, 0, 0, 0))
  }

  /** Row `o` is being erased or programmed right now. */
  predicate InFlight(s: State, o: nat) {
    (s.pc.Erase? && o in s.toErase) || (s.pc.WriteRow? && o == s.primOff)
  }

  function GoStart(c: Config, s: State, ok: bool): State {
    match s.pc
    case Reset => if ok then s.(pc := BootGo) else Assert(c, s.(pc := BootGo))
    case BootGo =>
      var u := Upgrade(c, s.flash);
      if c.valid(Primary(c, u)) then s.(pc := ReadButton, flash := u, rsp := Some(Response(c, u)))
      else s.(pc := EnableIrq, flash := u)
    case EnableIrq => s.(pc := BeforeWfi, irqOn := true)
    case BeforeWfi => s.(pc := Asleep)
    case CheckFlag => if s.flag then s.(pc := DisableIrq) else s.(pc := BeforeWfi)
    case DisableIrq => s.(pc := ClearFlag, irqOn := false)
    case ClearFlag => s.(pc := Open, flag := false, held := false)
    case _ => s
  }

  function GoPrepare(c: Config, s: State, ok: bool): State {
    match s.pc
    case Open => if ok then s.(pc := ReadMagic) else Assert(c, s.(pc := Transferred(false)))
    case ReadMagic =>
      var t := s.(ops := s.ops.(magicReads := s.ops.magicReads + 1));
      if !ok then Assert(c, t.(pc := Transferred(false)))
      else if MagicOk(c, s.flash) then t.(pc := Erase, toErase := Rows(c))
      else Assert(c, t.(pc := CopyInit))   // the result variable still holds success
    case Erase =>
      if !ok then Assert(c, s.(pc := Transferred(false)))
      else if s.toErase == {} then s.(pc := CopyInit)
      else s
    case CopyInit =>
      var t := s.(pc := LoopHead, index := 0, factOff := Wrap32(c.layout.smifBase), primOff := 0);
      if 0 < c.rowSize && SlotSize(c) % c.rowSize == 0 then t else Assert(c, t)
    case _ => s
  }

  function GoCopy(c: Config, s: State, ok: bool): State {
    match s.pc
    case LoopHead => if s.index < SlotSize(c) then s.(pc := ReadRow) else s.(pc := Transferred(true))
    case ReadRow =>
      var t := s.(ops := s.ops.(rowReads := s.ops.rowReads + 1));
      if ok then t.(pc := WriteRow, buf := ReadAt(s.flash.ext, s.factOff - c.layout.smifBase, c.rowSize))
      else t.(pc := Transferred(false))
    case WriteRow =>
      var t := s.(ops := s.ops.(rowWrites := s.ops.rowWrites + 1));
      if ok then
        t.(
          pc := LoopHead,
          flash := WithRow(c, s.flash, s.primOff, s.buf),
          factOff := Wrap32(s.factOff + c.rowSize),
          primOff := Wrap32(s.primOff + c.rowSize),
          index := Wrap32(s.index + c.rowSize))
      else t.(pc := Transferred(false))
    case _ => s
  }

  function GoFinish(c: Config, s: State): State {
    match s.pc
    case Transferred(ok) => if ok then s.(pc := Validate) else Assert(c, s.(pc := Validate))
    case Validate =>
      var u := Upgrade(c, s.flash);
      if c.valid(Primary(c, u)) then s.(pc := StartCM4(Response(c, u)), flash := u)
      // rollback_to_factory_image returns: into do_boot with main's response, or to the end of main
      else Assert(c, s.(pc := if s.held && s.rsp.Some? then StartCM4(s.rsp.value) else Exited, flash := u))
    case StartCM4(r) => s.(pc := Running(r))
    case _ => s
  }

  predicate Starting(pc: Pc) {
    pc.Reset? || pc.BootGo? || pc.ReadButton? || pc.EnableIrq? || pc.BeforeWfi? || pc.Asleep? || pc.CheckFlag?
    || pc.DisableIrq? || pc.ClearFlag?
  }

  predicate Preparing(pc: Pc) {
    pc.Open? || pc.ReadMagic? || pc.Erase? || pc.CopyInit?
  }

  predicate Copying(pc: Pc) {
    pc.LoopHead? || pc.ReadRow? || pc.WriteRow?
  }

  /** Inside rollback_to_factory_image, before its do_boot. */
  predicate RollingBack(pc: Pc) {
    Preparing(pc) || Copying(pc) || pc.Transferred? || pc.Validate?
  }

  function Next(c: Config, s: State, ok: bool): State {
    if Starting(s.pc) then GoStart(c, s, ok)
    else if Preparing(s.pc) then GoPrepare(c, s, ok)
    else if Copying(s.pc) then GoCopy(c, s, ok)
    else GoFinish(c, s)
  }

  function Step(c: Config, s: State, e: Event): State {
    match e
    case Go(ok) => Next(c, s, ok)
    case EraseRow(o) =>
      if s.pc.Erase? && o in s.toErase then
        s.(
          flash := WithRow(c, s.flash, o, Blank(c.rowSize, c.erased)).(torn := s.flash.torn - {o}),
          toErase := s.toErase - {o}, ops := s.ops.(erases := s.ops.erases + 1))
      else s
    case Button(down) =>
      if s.pc.ReadButton? && s.rsp.Some? then
        if down then s.(pc := Open, held := true) else s.(pc := StartCM4(s.rsp.value))
      else s
    case Isr =>
      if s.irqOn then s.(flag := true, pc := if s.pc.Asleep? then CheckFlag else s.pc) else s
    case Wake => if s.pc.Asleep? then s.(pc := CheckFlag) else s
    case Ota(image) =>
      if s.pc.Running? && |image| == c.layout.secondary1 then
        s.(flash := s.flash.(ext := Patch(s.flash.ext, SecondaryOff(c), image), pending := true))
      else s
    case PowerFail => Off(s)
    case PowerFailInRow(o, junk) =>
      if InFlight(s, o) && |junk| == c.rowSize then 
        Off(s.(flash := WithRow(c, s.flash, o, junk).(torn := s.flash.torn + {o})))
      else Off(s)
    case PowerFailInUpgrade(junk) =>
      if (s.pc.BootGo? || s.pc.Validate?) && UpgradeDue(c, s.flash) && |junk| == SlotSize(c) then
        Off(s.(flash := WithPrimary(c, s.flash, junk).(torn := Rows(c))))
      else Off(s)
  }

  /** The state after a sequence of events. */
  function Run(c: Config, s: State, evs: seq<Event>): State {
    if evs == [] then s else Step(c, Run(c, s, evs[..|evs| - 1]), evs[|evs| - 1])
  }

  /** A device as it may be when it is first switched on: any flash content, any upgrade request. */
  predicate Initial(c: Config, s: State) {
    Fits(c, s.flash) && s == Off(s) && s.flash.installed == Primary(c, s.flash) && s.flash.torn == {}
  }

  /** Any content of devices that are large enough, with or without an upgrade request, may be what the device
      is first switched on with. */
  lemma AnyFlashIsInitial(c: Config, intern: seq<Byte>, ext: seq<Byte>, pending: bool)
    requires PrimaryOff(c) + SlotSize(c) <= |intern|
    requires SecondaryOff(c) + c.layout.secondary1 <= |ext| && SlotSize(c) <= |ext|
    ensures exists s :: Initial(c, s) && s.flash.intern == intern && s.flash.ext == ext && s.flash.pending == pending
  {
    var f := Flash(intern, ext, pending, ReadAt(intern, PrimaryOff(c), SlotSize(c)), {});
    var s := State(Reset, f, false, false, false, None, {}, 0, 0, 0, [], Ops(0, 0, 0, 0));
    assert Initial(c, s);
  }

  lemma {:induction false} RunAppend(c: Config, s: State, a: seq<Event>, b: seq<Event>)
    ensures Run(c, s, a + b) == Run(c, Run(c, s, a), b)
    decreases |b|
  {
    if b == [] {
      assert a + b == a;
    } else {
      assert (a + b)[..|a + b| - 1] == a + b[..|b| - 1];
      RunAppend(c, s, a, b[..|b| - 1]);
    }
  }

  lemma RunOne(c: Config, s: State, e: Event)
    ensures Run(c, s, [e]) == Step(c, s, e)
  {
    assert [e][..0] == [];
    assert Run(c, s, []) == s;
  }
}
