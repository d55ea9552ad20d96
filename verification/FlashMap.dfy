/** The flash areas the bootloader is built with, under every build configuration. */
module FlashMap {
  import opened Memory

  datatype Device = Internal | External

  datatype AreaId = BootloaderArea | PrimaryArea(image: nat) | SecondaryArea(image: nat) | ScratchArea | FactoryApp

  datatype Area = Area(id: AreaId, dev: Device, off: nat, size: nat)

  /** The macros the descriptors are computed from; `dual`, `external` and `scratch` are the
      conditions MCUBOOT_IMAGE_NUMBER == 2, CY_BOOT_USE_EXTERNAL_FLASH and
      MCUBOOT_SWAP_USING_SCRATCH. */
  datatype Layout = Layout(
    flashBase: nat, bootStart: nat, bootSize: nat,
    primary1: nat, secondary1: nat, primary2: nat, secondary2: nat, scratchSize: nat,
    smifBase: nat, factSize: nat,
    dual: bool, external: bool, scratch: bool)

  function Bootloader(l: Layout): Area {
    Area(BootloaderArea, Internal, Wrap32(l.bootStart), l.bootSize)
  }

  function Primary1(l: Layout): Area {
    Area(PrimaryArea(0), Internal, Wrap32(l.flashBase + l.bootSize), l.primary1)
  }

  function Secondary1(l: Layout): Area {
    if l.external then
      Area(SecondaryArea(0), External, Wrap32(l.smifBase + l.factSize), l.secondary1)
    else
      Area(SecondaryArea(0), Internal, Wrap32(l.flashBase + l.bootSize + l.primary1), l.secondary1)
  }

  function Primary2(l: Layout): Area {
    Area(PrimaryArea(1), Internal, Wrap32(l.flashBase + l.bootSize + l.primary1 + l.secondary1), l.primary2)
  }

  function Secondary2(l: Layout): Area {
    if l.external then
      Area(SecondaryArea(1), External, Wrap32(l.smifBase + l.factSize + l.primary1), l.secondary2)
    else
      Area(SecondaryArea(1), Internal,
           Wrap32(l.flashBase + l.bootSize + l.primary1 + l.secondary1 + l.primary2), l.secondary2)
  }

  function Scratch(l: Layout): Area {
    Area(ScratchArea, Internal,
         Wrap32(l.flashBase + l.bootSize + l.primary1 + l.secondary1
                + if l.dual then l.primary2 + l.secondary2 else 0),
         l.scratchSize)
  }

  /** `boot_area_descs` without its closing NULL. */
  function Table(l: Layout): seq<Area> {
    [Bootloader(l), Primary1(l), Secondary1(l)]
    + (if l.dual then [Primary2(l), Secondary2(l)] else [])
    + (if l.scratch then [Scratch(l)] else [])
  }

  predicate Contains(a: Area, x: int) {
    a.off <= x < a.off + a.size
  }

  ghost predicate Disjoint(a: Area, b: Area) {
    a.dev == b.dev ==> forall x :: Contains(a, x) ==> !Contains(b, x)
  }

  ghost predicate PairwiseDisjoint(t: seq<Area>) {
    forall i, j :: 0 <= i < j < |t| ==> Disjoint(t[i], t[j])
  }

  /** Every area ends inside the 32-bit address space, so no descriptor's offset wraps, and the bootloader
      starts where the internal flash does. */
  predicate Addressable(l: Layout) {
    && l.flashBase == l.bootStart
    && l.flashBase + l.bootSize + l.primary1 + l.secondary1
       + (if l.dual then l.primary2 + l.secondary2 else 0) + (if l.scratch then l.scratchSize else 0) < U32
    && (l.external ==>
          && l.smifBase + l.primary1 < U32
          && l.smifBase + l.factSize + l.secondary1 < U32
          && (l.dual ==> l.smifBase + l.factSize + l.primary1 + l.secondary2 < U32))
  }

  lemma OffsetsDoNotWrap(l: Layout)
    requires Addressable(l)
    ensures Bootloader(l).off == l.flashBase
    ensures Primary1(l).off == l.flashBase + l.bootSize
    ensures Secondary1(l).off == if l.external then l.smifBase + l.factSize
                                 else l.flashBase + l.bootSize + l.primary1
    ensures Primary2(l).off == l.flashBase + l.bootSize + l.primary1 + l.secondary1
    ensures l.dual ==> Secondary2(l).off == if l.external then l.smifBase + l.factSize + l.primary1
                                            else l.flashBase + l.bootSize + l.primary1 + l.secondary1 + l.primary2
    ensures Scratch(l).off == l.flashBase + l.bootSize + l.primary1 + l.secondary1
                              + if l.dual then l.primary2 + l.secondary2 else 0
    ensures l.external ==> RollbackSource(l).off == l.smifBase
  {
  }

  /** Internal areas with nothing between them in the table leave no gap: each starts where the one before it
      ends. */
  lemma InternalMapIsContiguous(l: Layout, i: nat)
    requires Addressable(l) && i + 1 < |Table(l)|
    requires Table(l)[i].dev == Internal && Table(l)[i + 1].dev == Internal
    ensures Table(l)[i].off + Table(l)[i].size == Table(l)[i + 1].off
  {
    var t := Table(l);
    OffsetsDoNotWrap(l);
    if l.dual && l.scratch {
      assert t == [Bootloader(l), Primary1(l), Secondary1(l), Primary2(l), Secondary2(l), Scratch(l)];
    } else if l.dual {
      assert t == [Bootloader(l), Primary1(l), Secondary1(l), Primary2(l), Secondary2(l)];
    } else if l.scratch {
      assert t == [Bootloader(l), Primary1(l), Secondary1(l), Scratch(l)];
    }
  }

  /** All internal areas follow one another, whatever the configuration. */
  lemma InternalAreasDisjoint(l: Layout, i: nat, j: nat)
    requires Addressable(l) && i < j < |Table(l)|
    requires Table(l)[i].dev == Internal && Table(l)[j].dev == Internal
    ensures Disjoint(Table(l)[i], Table(l)[j])
  {
    var t := Table(l);
    OffsetsDoNotWrap(l);
    if l.dual && l.scratch {
      assert t == [Bootloader(l), Primary1(l), Secondary1(l), Primary2(l), Secondary2(l), Scratch(l)];
    } else if l.dual {
      assert t == [Bootloader(l), Primary1(l), Secondary1(l), Primary2(l), Secondary2(l)];
    } else if l.scratch {
      assert t == [Bootloader(l), Primary1(l), Secondary1(l), Scratch(l)];
    }
    assert t[i].off + t[i].size <= t[j].off;
  }

  /** The exact side condition of the whole map. Only the external dual-image layout can fail: there
      the second secondary slot is placed by the size of the first PRIMARY slot. */
  lemma DisjointExactly(l: Layout)
    requires Addressable(l)
    ensures PairwiseDisjoint(Table(l))
            <==> (l.dual && l.external ==> l.secondary1 <= l.primary1 || l.secondary2 == 0)
  {
    OffsetsDoNotWrap(l);
    var t := Table(l);
    var fine := l.dual && l.external ==> l.secondary1 <= l.primary1 || l.secondary2 == 0;
    if fine {
      forall i, j | 0 <= i < j < |t| ensures Disjoint(t[i], t[j]) {
        if t[i].dev == Internal && t[j].dev == Internal {
          InternalAreasDisjoint(l, i, j);
        } else if t[i].dev == t[j].dev {
          assert t[i] == Secondary1(l) && t[j] == Secondary2(l);
        }
      }
    } else {
      assert t[2] == Secondary1(l) && t[4] == Secondary2(l);
      assert Contains(t[2], t[4].off) && Contains(t[4], t[4].off);
      assert !Disjoint(t[2], t[4]);
    }
  }

  /** `flash_area_open`: the first descriptor that carries the id. */
  function Lookup(t: seq<Area>, id: AreaId): Option<Area>
  {
    if t == [] then None else if t[0].id == id then Some(t[0]) else Lookup(t[1..], id)
  }

  /** No two descriptors share an id, so opening an id finds the one area that carries it. */
  lemma IdsDistinct(l: Layout, i: nat, j: nat)
    requires i < |Table(l)| && j < |Table(l)| && Table(l)[i].id == Table(l)[j].id
    ensures i == j
  {
  }

  lemma {:induction false} LookupFinds(t: seq<Area>, k: nat)
    requires k < |t| && forall i, j :: 0 <= i < j < |t| ==> t[i].id != t[j].id
    ensures Lookup(t, t[k].id) == Some(t[k])
  {
    if k > 0 {
      LookupFinds(t[1..], k - 1);
    }
  }

  lemma OpenFindsArea(l: Layout, k: nat)
    requires k < |Table(l)|
    ensures Lookup(Table(l), Table(l)[k].id) == Some(Table(l)[k])
  {
    forall i, j | 0 <= i < j < |Table(l)| ensures Table(l)[i].id != Table(l)[j].id {
      if Table(l)[i].id == Table(l)[j].id {
        IdsDistinct(l, i, j);
      }
    }
    LookupFinds(Table(l), k);
  }

  /** What opening each id yields, in every build configuration: device, offset (nothing wraps) and size of the
      macros, or nothing where the configuration has no such area. */
  lemma OpensExactly(l: Layout)
    requires Addressable(l)
    ensures var t, first := Table(l), l.flashBase + l.bootSize;
            var second := first + l.primary1 + l.secondary1;
            && Lookup(t, BootloaderArea) == Some(Area(BootloaderArea, Internal, l.flashBase, l.bootSize))
            && Lookup(t, PrimaryArea(0)) == Some(Area(PrimaryArea(0), Internal, first, l.primary1))
            && Lookup(t, SecondaryArea(0))
               == Some(if l.external then Area(SecondaryArea(0), External, l.smifBase + l.factSize, l.secondary1)
                       else Area(SecondaryArea(0), Internal, first + l.primary1, l.secondary1))
            && Lookup(t, PrimaryArea(1))
               == (if l.dual then Some(Area(PrimaryArea(1), Internal, second, l.primary2)) else None)
            && Lookup(t, SecondaryArea(1))
               == (if !l.dual then None
                   else if l.external then
                     Some(Area(SecondaryArea(1), External, l.smifBase + l.factSize + l.primary1, l.secondary2))
                   else Some(Area(SecondaryArea(1), Internal, second + l.primary2, l.secondary2)))
            && Lookup(t, ScratchArea)
               == (if !l.scratch then None
                   else Some(Area(ScratchArea, Internal, second + (if l.dual then l.primary2 + l.secondary2 else 0),
                                  l.scratchSize)))
            && Lookup(t, FactoryApp) == None
  {
    OffsetsDoNotWrap(l);
    hide Wrap32;
    forall k | 0 <= k < |Table(l)| ensures Lookup(Table(l), Table(l)[k].id) == Some(Table(l)[k]) {
      OpenFindsArea(l, k);
    }
    hide Lookup;
    var t := Table(l);
    assert t[0] == Bootloader(l) && t[1] == Primary1(l) && t[2] == Secondary1(l);
    if l.dual {
      assert t[3] == Primary2(l) && t[4] == Secondary2(l);
    } else {
      NotInMap(t, PrimaryArea(1));
      NotInMap(t, SecondaryArea(1));
    }
    if l.scratch {
      assert t[|t| - 1] == Scratch(l);
    } else {
      NotInMap(t, ScratchArea);
    }
    NotInMap(t, FactoryApp);
  }

  lemma {:induction false} NotInMap(t: seq<Area>, id: AreaId)
    requires forall i :: 0 <= i < |t| ==> t[i].id != id
    ensures Lookup(t, id) == None
  {
    if t != [] {
      NotInMap(t[1..], id);
    }
  }

  /** The window the rollback reads: as many bytes as the primary slot has, from the start of the
      external device. The map has no descriptor for it. */
  function RollbackSource(l: Layout): Area {
    Area(FactoryApp, External, Wrap32(l.smifBase), l.primary1)
  }

  /** The rollback source meets no area of the map exactly when the primary slot is no bigger than the
      space reserved for the factory application (or there is no secondary slot to meet). */
  lemma RollbackSourceFreeExactly(l: Layout)
    requires Addressable(l) && l.external
    ensures (forall i :: 0 <= i < |Table(l)| ==> Disjoint(Table(l)[i], RollbackSource(l)))
            <==> l.primary1 <= l.factSize || l.secondary1 == 0
  {
    var t, src := Table(l), RollbackSource(l);
    OffsetsDoNotWrap(l);
    if l.primary1 <= l.factSize || l.secondary1 == 0 {
      forall i | 0 <= i < |t| ensures Disjoint(t[i], src) {
        if t[i].dev == External {
          assert t[i] == Secondary1(l) || (l.dual && t[i] == Secondary2(l));
        }
      }
    } else {
      assert t[2] == Secondary1(l);
      assert Contains(t[2], t[2].off) && Contains(src, t[2].off);
    }
  }

  /** The sizes the repository builds with. */
  const DEFAULT_LAYOUT := Layout(
    0x10000000, 0x10000000, 0x18000, 0x1C0000, 0x1C0000, 0, 0, 0x1000,
    0x18000000, 0x1C0000, false, true, false)

  const INTERNAL_FLASH_SIZE := 0x200000
  const EXTERNAL_FLASH_SIZE := 0x4000000

  /** With the default sizes the map is this one, it is sound, and everything lies inside its device. */
  lemma DefaultMapFits()
    ensures Table(DEFAULT_LAYOUT)
            == [Area(BootloaderArea, Internal, 0x10000000, 0x18000),
                Area(PrimaryArea(0), Internal, 0x10018000, 0x1C0000),
                Area(SecondaryArea(0), External, 0x181C0000, 0x1C0000)]
    ensures RollbackSource(DEFAULT_LAYOUT) == Area(FactoryApp, External, 0x18000000, 0x1C0000)
    ensures Addressable(DEFAULT_LAYOUT) && PairwiseDisjoint(Table(DEFAULT_LAYOUT))
    ensures forall a :: a in Table(DEFAULT_LAYOUT) ==>
      var (base, size) := if a.dev == Internal then (DEFAULT_LAYOUT.flashBase, INTERNAL_FLASH_SIZE)
                          else (DEFAULT_LAYOUT.smifBase, EXTERNAL_FLASH_SIZE);
      base <= a.off && a.off + a.size <= base + size
    ensures forall a :: a in Table(DEFAULT_LAYOUT) ==> Disjoint(a, RollbackSource(DEFAULT_LAYOUT))
  {
    DisjointExactly(DEFAULT_LAYOUT);
    RollbackSourceFreeExactly(DEFAULT_LAYOUT);
  }
}
