/** Bytes, 32-bit arithmetic and row-structured flash memory. */
module Memory {

  type Byte = b: int | 0 <= b < 256

  datatype Option<+T> = None | Some(value: T)

  const U32 := 0x1_0000_0000

  /** What a `uint32_t` holds after being assigned `x`. */
  function Wrap32(x: int): nat {
    x % U32
  }

  lemma NoWrap(x: nat)
    requires x < U32
    ensures Wrap32(x) == x
  {
  }

  /** `n` bytes as an erase leaves them. */
  function Blank(n: nat, v: Byte): seq<Byte> {
    seq(n, _ => v)
  }

  /** Reading `n` bytes at `off`; a read that leaves the device delivers nothing. */
  function ReadAt(mem: seq<Byte>, off: int, n: nat): seq<Byte> {
    if 0 <= off && off + n <= |mem| then mem[off..off + n] else []
  }

  /** Overwriting the bytes at `off` with `data`; a write that leaves the device does nothing. */
  function Patch(mem: seq<Byte>, off: nat, data: seq<Byte>): (m: seq<Byte>)
    ensures |m| == |mem|
  {
    if off + |data| <= |mem| then mem[..off] + data + mem[off + |data|..] else mem
  }

  lemma PatchAt(mem: seq<Byte>, off: nat, data: seq<Byte>, i: nat)
    requires off + |data| <= |mem| && i < |mem|
    ensures Patch(mem, off, data)[i] == if off <= i < off + |data| then data[i - off] else mem[i]
  {
  }

  /** Windows before and after the one written keep their bytes. */
  lemma PatchBeside(slot: seq<Byte>, o: nat, data: seq<Byte>, p: nat, n: nat)
    requires o + |data| <= |slot| && p + n <= |slot|
    requires p + n <= o || o + |data| <= p
    ensures Patch(slot, o, data)[p..p + n] == slot[p..p + n]
  {
    var m := Patch(slot, o, data);
    forall i | p <= i < p + n
      ensures m[i] == slot[i]
    {
      PatchAt(slot, o, data, i);
    }
  }

  /** Patching inside a window is patching the window, and nothing outside it changes. */
  lemma PatchWindow(mem: seq<Byte>, lo: nat, n: nat, o: nat, data: seq<Byte>)
    requires lo + n <= |mem| && o + |data| <= n
    ensures Patch(mem, lo + o, data)[lo..lo + n] == Patch(mem[lo..lo + n], o, data)
    ensures Patch(mem, lo + o, data)[..lo] == mem[..lo]
    ensures Patch(mem, lo + o, data)[lo + n..] == mem[lo + n..]
  {
    hide Patch;
    PatchBeside(mem, lo + o, data, 0, lo);
    PatchBeside(mem, lo + o, data, lo + n, |mem| - lo - n);
    var m := Patch(mem, lo + o, data);
    var w := Patch(mem[lo..lo + n], o, data);
    forall i | 0 <= i < n
      ensures m[lo + i] == w[i]
    {
      PatchAt(mem, lo + o, data, lo + i);
      PatchAt(mem[lo..lo + n], o, data, i);
    }
    assert m[lo..lo + n] == w;
  }

  /** Writing right behind a prefix extends it. */
  lemma PatchExtends(slot: seq<Byte>, n: nat, data: seq<Byte>)
    requires n + |data| <= |slot|
    ensures Patch(slot, n, data)[..n + |data|] == slot[..n] + data
  {
  }

  /** Writing two pieces one behind the other is writing both at once. */
  lemma PatchAppend(mem: seq<Byte>, off: nat, a: seq<Byte>, b: seq<Byte>)
    requires off + |a| + |b| <= |mem|
    ensures Patch(Patch(mem, off, a), off + |a|, b) == Patch(mem, off, a + b)
  {
    hide Patch;
    var twice, once := Patch(Patch(mem, off, a), off + |a|, b), Patch(mem, off, a + b);
    forall i | 0 <= i < |mem|
      ensures twice[i] == once[i]
    {
      PatchAt(mem, off, a, i);
      PatchAt(Patch(mem, off, a), off + |a|, b, i);
      PatchAt(mem, off, a + b, i);
    }
  }

  lemma PatchNothing(mem: seq<Byte>, off: nat)
    requires off <= |mem|
    ensures Patch(mem, off, []) == mem
  {
  }

  lemma PatchFront(slot: seq<Byte>, data: seq<Byte>)
    requires |data| <= |slot|
    ensures Patch(slot, 0, data) == data + slot[|data|..]
  {
  }

  lemma SliceExtends(b: seq<Byte>, n: nat, k: nat)
    requires n + k <= |b|
    ensures b[..n + k] == b[..n] + b[n..n + k]
  {
  }

  /** Reading inside a window that starts at 0 is taking a slice of the window. */
  lemma ReadInside(mem: seq<Byte>, size: nat, n: nat, k: nat)
    requires n + k <= size <= |mem|
    ensures ReadAt(mem, n, k) == ReadAt(mem, 0, size)[n..n + k]
  {
    SliceOfPrefix(mem, size, n, k);
  }

  lemma SliceOfPrefix(b: seq<Byte>, n: nat, o: nat, k: nat)
    requires o + k <= n <= |b|
    ensures b[..n][o..o + k] == b[o..o + k]
  {
  }

  // ----- rows: a row is named by the offset of its first byte in the slot

  /** `o` is a whole number of rows. */
  predicate Aligned(o: nat, rowSize: nat) {
    o == 0 || (0 < rowSize <= o && Aligned(o - rowSize, rowSize))
  }

  function RowOffsets(size: nat, rowSize: nat): set<nat> {
    set o: nat | o < size && Aligned(o, rowSize)
  }

  ghost predicate RowBlank(slot: seq<Byte>, o: nat, rowSize: nat, v: Byte) {
    o + rowSize <= |slot| && slot[o..o + rowSize] == Blank(rowSize, v)
  }

  ghost predicate SameRow(a: seq<Byte>, b: seq<Byte>, o: nat, rowSize: nat) {
    o + rowSize <= |a| && o + rowSize <= |b| && a[o..o + rowSize] == b[o..o + rowSize]
  }

  /** From `lo` up to `hi`, `a` has the bytes of `b`. */
  ghost predicate BytesOf(a: seq<Byte>, b: seq<Byte>, lo: nat, hi: nat) {
    forall i :: lo <= i < hi ==> i < |a| && i < |b| && a[i] == b[i]
  }

  /** From `lo` up to `hi`, `a` has the byte `v`. */
  ghost predicate BytesAre(a: seq<Byte>, v: Byte, lo: nat, hi: nat) {
    forall i :: lo <= i < hi ==> i < |a| && a[i] == v
  }

  lemma SameRowAt(a: seq<Byte>, b: seq<Byte>, o: nat, rowSize: nat)
    requires o + rowSize <= |a| && o + rowSize <= |b|
    ensures SameRow(a, b, o, rowSize) <==> BytesOf(a, b, o, o + rowSize)
  {
    if SameRow(a, b, o, rowSize) {
      forall i | o <= i < o + rowSize ensures a[i] == b[i] {
        assert a[o..o + rowSize][i - o] == b[o..o + rowSize][i - o];
      }
    }
  }

  lemma BlankRowAt(a: seq<Byte>, o: nat, rowSize: nat, v: Byte)
    requires o + rowSize <= |a|
    ensures RowBlank(a, o, rowSize, v) <==> BytesAre(a, v, o, o + rowSize)
  {
    if RowBlank(a, o, rowSize, v) {
      forall i | o <= i < o + rowSize ensures a[i] == v {
        assert a[o..o + rowSize][i - o] == Blank(rowSize, v)[i - o];
      }
    }
  }

  lemma MultipleMagnitude(e: int, d: int)
    requires 0 <= d
    ensures e >= 1 ==> e * d >= d
    ensures e <= -1 ==> e * d <= -d
  {
    if e >= 1 {
      assert (e - 1) * d >= 0;
    } else if e <= -1 {
      assert (-1 - e) * d >= 0;
    }
  }

  /** Division with remainder has one answer. */
  lemma DivModUnique(x: int, q: int, r: int, d: int)
    requires 0 <= r < d && x == q * d + r
    ensures x / d == q && x % d == r
  {
    var e := q - x / d;
    assert e * d == x % d - r;
    MultipleMagnitude(e, d);
  }

  /** One row more: the quotient grows by one and the remainder stays. */
  lemma OneRowMore(o: nat, rowSize: nat)
    requires 0 < rowSize
    ensures (o + rowSize) / rowSize == o / rowSize + 1
    ensures (o + rowSize) % rowSize == o % rowSize
  {
    DivModUnique(o + rowSize, o / rowSize + 1, o % rowSize, rowSize);
  }

  /** Being a whole number of rows is the test the bootloader makes with `%`. */
  lemma {:induction false} AlignedExactly(o: nat, rowSize: nat)
    requires 0 < rowSize
    ensures Aligned(o, rowSize) <==> o % rowSize == 0
    decreases o
  {
    if o < rowSize {
      DivModUnique(o, 0, o, rowSize);
    } else {
      AlignedExactly(o - rowSize, rowSize);
      OneRowMore(o - rowSize, rowSize);
    }
  }

  /** Two different rows do not overlap. */
  lemma {:induction false} RowsApart(o: nat, p: nat, rowSize: nat)
    requires 0 < rowSize && Aligned(o, rowSize) && Aligned(p, rowSize) && o < p
    ensures o + rowSize <= p
    decreases o
  {
    if o > 0 {
      RowsApart(o - rowSize, p - rowSize, rowSize);
    }
  }

  lemma NextRow(o: nat, rowSize: nat)
    requires 0 < rowSize && Aligned(o, rowSize)
    ensures Aligned(o + rowSize, rowSize)
  {
  }

  /** A window reads back what was just written to it. */
  lemma PatchRead(slot: seq<Byte>, o: nat, data: seq<Byte>)
    requires o + |data| <= |slot|
    ensures Patch(slot, o, data)[o..o + |data|] == data
  {
  }

  /** Writing one row replaces that row and no other. */
  lemma PatchRow(slot: seq<Byte>, o: nat, rowSize: nat, data: seq<Byte>, p: nat)
    requires 0 < rowSize && |data| == rowSize && Aligned(o, rowSize) && Aligned(p, rowSize)
    requires o + rowSize <= |slot| && p + rowSize <= |slot|
    ensures Patch(slot, o, data)[p..p + rowSize] == if p == o then data else slot[p..p + rowSize]
  {
    hide Patch;
    if p == o {
      PatchRead(slot, o, data);
    } else {
      if o < p {
        RowsApart(o, p, rowSize);
      } else {
        RowsApart(p, o, rowSize);
      }
      PatchBeside(slot, o, data, p, rowSize);
    }
  }

  /** The rows below the end of a slot are the rows below its last row, and that row. */
  lemma LastRow(size: nat, rowSize: nat)
    requires 0 < rowSize <= size && Aligned(size, rowSize)
    ensures RowOffsets(size, rowSize) == RowOffsets(size - rowSize, rowSize) + {size - rowSize}
  {
    var o := size - rowSize;
    forall p | p in RowOffsets(size, rowSize)
      ensures p in RowOffsets(o, rowSize) + {o}
    {
      if o < p {
        RowsApart(o, p, rowSize);
      }
    }
  }

  /** A slot of whole rows has exactly `size / rowSize` of them. */
  lemma {:induction false} RowCount(size: nat, rowSize: nat)
    requires 0 < rowSize && Aligned(size, rowSize)
    ensures |RowOffsets(size, rowSize)| == size / rowSize
    decreases size
  {
    if size == 0 {
      assert RowOffsets(0, rowSize) == {};
      DivModUnique(0, 0, 0, rowSize);
    } else {
      LastRow(size, rowSize);
      var o := size - rowSize;
      RowCount(o, rowSize);
      assert o !in RowOffsets(o, rowSize);
      OneRowMore(o, rowSize);
    }
  }
}
