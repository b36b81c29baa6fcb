/** The slotted page of block.h and block.c as a value: header, item ids and item bytes. */
module BlockLayout {
  import opened Bits
  import opened Storage

  type byte = b: int | 0 <= b < 256

  const HEADER := 6
  const DATA := PAGE_SIZE - HEADER
  const ITEM_ID := 4
  const MAX_RECORD := DATA - ITEM_ID   // the largest item an empty block can hold

  // ----- item ids: bit 30 availability, bits 29..15 offset, bits 14..0 size -----

  function Availability(id: nat): nat {
    id / 0x4000_0000 % 2
  }

  function Offset(id: nat): nat {
    id / 0x8000 % 0x8000
  }

  function Size(id: nat): nat {
    id % 0x8000
  }

  function Compose(availability: nat, offset: nat, size: nat): nat {
    availability % 2 * 0x4000_0000 + offset % 0x8000 * 0x8000 + size % 0x8000
  }

  lemma ComposeFields(availability: nat, offset: nat, size: nat)
    requires availability < 2 && offset < 0x8000 && size < 0x8000
    ensures var id := Compose(availability, offset, size);
            id < 0x8000_0000 && Availability(id) == availability && Offset(id) == offset && Size(id) == size
  {
    var id := Compose(availability, offset, size);
    assert id == (availability * 0x8000 + offset) * 0x8000 + size;
    assert id / 0x8000 == availability * 0x8000 + offset;
  }

  /** The arithmetic of item ids is that of the shift-and-mask macros. */
  lemma ItemIdBits(id: nat, availability: nat, offset: nat, size: nat)
    ensures Availability(id) == And(ShiftRight(id, 30), ShiftLeft(1, 1) - 1)
    ensures Offset(id) == And(ShiftRight(id, 15), ShiftLeft(1, 15) - 1)
    ensures Size(id) == And(id, ShiftLeft(1, 15) - 1)
    ensures Compose(availability, offset, size)
         == Or(Or(ShiftLeft(And(availability, 1), 30), ShiftLeft(And(offset, ShiftLeft(1, 15) - 1), 15)),
               And(size, ShiftLeft(1, 15) - 1))
  {
    Powers();
    var mask := ShiftLeft(1, 15) - 1;
    ShiftRightIs(id, 30);
    ShiftRightIs(id, 15);
    MaskIsRemainder(ShiftRight(id, 30), 1, 1);
    MaskIsRemainder(ShiftRight(id, 15), 15, mask);
    MaskIsRemainder(id, 15, mask);
    MaskIsRemainder(availability, 1, 1);
    MaskIsRemainder(offset, 15, mask);
    MaskIsRemainder(size, 15, mask);
    FieldsJoined(availability % 2, offset % 0x8000, size % 0x8000);
  }

  lemma FieldsJoined(a: nat, o: nat, z: nat)
    requires o < 0x8000 && z < 0x8000
    ensures Or(Or(ShiftLeft(a, 30), ShiftLeft(o, 15)), z) == a * 0x4000_0000 + o * 0x8000 + z
  {
    Powers();
    var high := a * 0x8000 + o;
    OrIsSum(a, ShiftLeft(o, 15), 30);
    assert ShiftLeft(high, 15) == ShiftLeft(a, 30) + ShiftLeft(o, 15);
    OrIsSum(high, z, 15);
  }

  lemma Powers()
    ensures Power(1) == 2 && Power(15) == 0x8000 && Power(30) == 0x4000_0000
  {
    assert Power(8) == 0x100;
    assert Power(15) == 0x8000;
    assert Power(22) == 0x40_0000;
  }

  // ----- 32-bit words in the bytes of a page -----

  function Word(d: seq<byte>, o: nat): nat
    requires o + 4 <= |d|
  {
    var a: int, b: int, c: int, e: int := d[o], d[o + 1], d[o + 2], d[o + 3];
    a + 0x100 * b + 0x1_0000 * c + 0x100_0000 * e
  }

  function PutWord(d: seq<byte>, o: nat, w: nat): (r: seq<byte>)
    requires o + 4 <= |d|
    ensures |r| == |d|
  {
    d[o := w % 0x100][o + 1 := w / 0x100 % 0x100][o + 2 := w / 0x1_0000 % 0x100][o + 3 := w / 0x100_0000 % 0x100]
  }

  lemma Digits(w: nat)
    requires w < 0x1_0000_0000
    ensures w == w % 0x100 + 0x100 * (w / 0x100 % 0x100)
               + 0x1_0000 * (w / 0x1_0000 % 0x100) + 0x100_0000 * (w / 0x100_0000 % 0x100)
  {
    assert w / 0x1_0000 == w / 0x100 / 0x100;
    assert w / 0x100_0000 == w / 0x1_0000 / 0x100;
    assert w / 0x100_0000 < 0x100;
  }

  lemma PutWordGet(d: seq<byte>, o: nat, w: nat)
    requires o + 4 <= |d| && w < 0x1_0000_0000
    ensures Word(PutWord(d, o, w), o) == w
    ensures forall p: nat | p + 4 <= |d| && (p + 4 <= o || o + 4 <= p) :: Word(PutWord(d, o, w), p) == Word(d, p)
    ensures forall p | 0 <= p < |d| && (p < o || o + 4 <= p) :: PutWord(d, o, w)[p] == d[p]
  {
    Digits(w);
  }

  // ----- slots -----

  datatype Slot = Slot(free: bool, off: int, size: int)

  /** A page image: the header fields and the 122 bytes after them. */
  datatype Image = Image(nItems: int, headPtr: int, tailPtr: int, data: seq<byte>)

  function Decode(id: nat): Slot {
    Slot(Availability(id) == 1, Offset(id), Size(id))
  }

  /** The item ids stored at the front of the data area. */
  function Slots(b: Image): (r: seq<Slot>)
    requires 0 <= b.nItems && ITEM_ID * b.nItems <= |b.data|
    ensures |r| == b.nItems
  {
    seq(b.nItems, i requires 0 <= i < b.nItems => Decode(Word(b.data, ITEM_ID * i)))
  }

  function SumSizes(s: seq<Slot>): int {
    if s == [] then 0 else s[0].size + SumSizes(s[1..])
  }

  ghost predicate Covers(t: Slot, p: int) {
    !t.free && t.off <= p < t.off + t.size
  }

  /** Byte p of the page belongs to a live item. */
  ghost predicate Covered(s: seq<Slot>, p: int) {
    exists i :: 0 <= i < |s| && Covers(s[i], p)
  }

  /** A slot's item lies in [tail, 128); a free slot has size 0. */
  ghost predicate InArea(t: Slot, tail: int) {
    0 <= t.off && 0 <= t.size && t.off + t.size <= PAGE_SIZE && (t.size > 0 ==> tail <= t.off && !t.free)
  }

  /** Two slots' items do not overlap. */
  ghost predicate Apart(t: Slot, u: Slot) {
    t.size > 0 && u.size > 0 ==> t.off + t.size <= u.off || u.off + u.size <= t.off
  }

  ghost predicate Laid(s: seq<Slot>, tail: int) {
    && (forall i {:trigger InArea(s[i], tail)} | 0 <= i < |s| :: InArea(s[i], tail))
    && (forall i, j {:trigger Apart(s[i], s[j])} | 0 <= i < j < |s| :: Apart(s[i], s[j]))
  }

  /** Live items lie in [tail, 128) without overlap or gap; free slots have size 0. */
  ghost predicate Tiled(s: seq<Slot>, tail: int) {
    && Laid(s, tail)
    && (forall p | tail <= p < PAGE_SIZE :: Covered(s, p))
    && SumSizes(s) == PAGE_SIZE - tail
  }

  /** What the tiling says of one slot, and of two. */
  lemma TiledPair(s: seq<Slot>, tail: int, i: int, j: int)
    requires Laid(s, tail) && 0 <= i < |s| && 0 <= j < |s|
    ensures InArea(s[i], tail) && InArea(s[j], tail) && (i != j ==> Apart(s[i], s[j]))
  {
    if j < i {
      assert Apart(s[j], s[i]);
    }
  }

  /** A well-formed block. */
  ghost predicate Ok(b: Image) {
    && |b.data| == DATA && 0 <= b.nItems && b.headPtr == HEADER + ITEM_ID * b.nItems
    && b.headPtr <= b.tailPtr <= PAGE_SIZE
    && Tiled(Slots(b), b.tailPtr)
  }

  /** The items of a block by slot number. */
  ghost function Items(b: Image): map<int, seq<byte>>
    requires Ok(b)
  {
    ItemsOf(Slots(b), b.data)
  }

  ghost function ItemsOf(s: seq<Slot>, d: seq<byte>): map<int, seq<byte>> {
    map i | 0 <= i < |s| && !s[i].free :: Bytes(d, s[i])
  }

  ghost function Bytes(d: seq<byte>, t: Slot): seq<byte> {
    if t.size > 0 && HEADER <= t.off && t.off + t.size <= HEADER + |d| then d[t.off - HEADER..t.off - HEADER + t.size]
      else []
  }

  ghost predicate HasFree(s: seq<Slot>) {
    exists i :: 0 <= i < |s| && s[i].free
  }

  /** The largest item that still fits; what get_block_size reports. */
  ghost function Room(b: Image): int
    requires Ok(b)
  {
    if HasFree(Slots(b)) then b.tailPtr - b.headPtr else b.tailPtr - b.headPtr - ITEM_ID
  }

  /** Sizes reported for reachable blocks. */
  lemma RoomRange(b: Image)
    requires Ok(b)
    ensures -4 <= Room(b) <= MAX_RECORD
  {
  }

  /** The space account of every well-formed block. */
  lemma SpaceAccount(b: Image)
    requires Ok(b)
    ensures b.tailPtr - b.headPtr == DATA - ITEM_ID * b.nItems - SumSizes(Slots(b))
  {
  }

  // ----- sums -----

  lemma {:induction false} SumAppend(a: seq<Slot>, b: seq<Slot>)
    ensures SumSizes(a + b) == SumSizes(a) + SumSizes(b)
  {
    if a == [] {
      assert a + b == b;
    } else {
      assert (a + b)[1..] == a[1..] + b;
      SumAppend(a[1..], b);
    }
  }

  lemma SumSet(s: seq<Slot>, i: int, t: Slot)
    requires 0 <= i < |s|
    ensures SumSizes(s[i := t]) == SumSizes(s) - s[i].size + t.size
  {
    var a, b := s[..i], s[i + 1..];
    assert s == a + ([s[i]] + b) && s[i := t] == a + ([t] + b);
    SumAppend(a, [s[i]] + b);
    SumAppend(a, [t] + b);
  }

  lemma SumLast(s: seq<Slot>, t: Slot)
    ensures SumSizes(s + [t]) == SumSizes(s) + t.size
  {
    SumAppend(s, [t]);
    assert SumSizes([t]) == t.size;
  }

  lemma {:induction false} SumSame(s: seq<Slot>, t: seq<Slot>)
    requires |s| == |t| && forall i | 0 <= i < |s| :: s[i].size == t[i].size
    ensures SumSizes(s) == SumSizes(t)
  {
    if s != [] {
      SumSame(s[1..], t[1..]);
    }
  }

  // ----- what insertion and deletion do to the tiling -----

  lemma TiledSet(s: seq<Slot>, tail: int, i: int, size: int)
    requires Tiled(s, tail) && 0 <= i < |s| && s[i].free && 0 <= size && 0 <= tail - size && tail <= PAGE_SIZE
    ensures Tiled(s[i := Slot(false, tail - size, size)], tail - size)
  {
    var t := Slot(false, tail - size, size);
    SumSet(s, i, t);
    assert InArea(s[i], tail);
    LaidPlus(s, s[i := t], tail, i, t);
    TiledCover(s, s[i := t], tail, i, t);
  }

  lemma TiledAdd(s: seq<Slot>, tail: int, size: int)
    requires Tiled(s, tail) && 0 <= size && 0 <= tail - size && tail <= PAGE_SIZE
    ensures Tiled(s + [Slot(false, tail - size, size)], tail - size)
  {
    var t := Slot(false, tail - size, size);
    SumLast(s, t);
    LaidPlus(s, s + [t], tail, |s|, t);
    TiledCover(s, s + [t], tail, |s|, t);
  }

  /** An item placed just below the others overlaps none of them. */
  lemma LaidPlus(s: seq<Slot>, s': seq<Slot>, tail: int, i: int, t: Slot)
    requires Laid(s, tail) && 0 <= i < |s'| && |s| <= |s'| <= |s| + 1 && s'[i] == t && tail <= PAGE_SIZE
    requires |s'| == |s| + 1 ==> i == |s|
    requires 0 <= t.off && 0 <= t.size && !t.free && t.off + t.size == tail
    requires forall q | 0 <= q < |s| && q != i :: s'[q] == s[q]
    ensures Laid(s', t.off)
  {
    forall q | 0 <= q < |s'| ensures InArea(s'[q], t.off) {
      if q != i {
        assert InArea(s[q], tail);
      }
    }
    forall p, q | 0 <= p < q < |s'| ensures Apart(s'[p], s'[q]) {
      if p < |s| && q < |s| {
        TiledPair(s, tail, p, q);
      } else {
        assert InArea(s[p], tail);
      }
    }
  }

  lemma TiledCover(s: seq<Slot>, s': seq<Slot>, tail: int, i: int, t: Slot)
    requires forall p | tail <= p < PAGE_SIZE :: Covered(s, p)
    requires 0 <= i < |s'| && |s| <= |s'| && s'[i] == t && !t.free && t.off + t.size == tail
    requires forall q | 0 <= q < |s| && (q != i || !s[q].free) :: s'[q] == s[q]
    ensures forall p | t.off <= p < PAGE_SIZE :: Covered(s', p)
  {
    forall p | t.off <= p < PAGE_SIZE ensures Covered(s', p) {
      if p < tail {
        assert Covers(s'[i], p);
      } else {
        assert Covered(s, p);
        var q :| 0 <= q < |s| && Covers(s[q], p);
        assert Covers(s'[q], p);
      }
    }
  }

  function ShiftSlot(t: Slot, pos: int, size: int): Slot {
    if t.off < pos then t.(off := t.off + size) else t
  }

  /** Offsets below pos grow by size: the items between tail and pos have been moved up. */
  function ShiftSlots(s: seq<Slot>, pos: int, size: int): (r: seq<Slot>)
    ensures |r| == |s|
  {
    seq(|s|, i requires 0 <= i < |s| => ShiftSlot(s[i], pos, size))
  }

  /** Compaction: the hole left by item i is closed and its slot freed. */
  lemma TiledDelete(s: seq<Slot>, tail: int, i: int)
    requires Tiled(s, tail) && 0 <= i < |s|
    ensures Tiled(ShiftSlots(s, s[i].off, s[i].size)[i := Slot(true, 0, 0)], tail + s[i].size)
  {
    var pos, size := s[i].off, s[i].size;
    var t := ShiftSlots(s, pos, size);
    SumSame(s, t);
    SumSet(t, i, Slot(true, 0, 0));
    LaidDelete(s, tail, i);
    DeleteCover(s, tail, i);
  }

  lemma LaidDelete(s: seq<Slot>, tail: int, i: int)
    requires Laid(s, tail) && 0 <= i < |s|
    ensures Laid(ShiftSlots(s, s[i].off, s[i].size)[i := Slot(true, 0, 0)], tail + s[i].size)
  {
    var r := ShiftSlots(s, s[i].off, s[i].size)[i := Slot(true, 0, 0)];
    TiledPair(s, tail, i, i);
    forall q | 0 <= q < |r| ensures InArea(r[q], tail + s[i].size) {
      TiledPair(s, tail, i, q);
    }
    forall p, q | 0 <= p < q < |r| ensures Apart(r[p], r[q]) {
      TiledPair(s, tail, p, q);
      TiledPair(s, tail, i, p);
      TiledPair(s, tail, i, q);
    }
  }

  lemma DeleteCover(s: seq<Slot>, tail: int, i: int)
    requires Tiled(s, tail) && 0 <= i < |s|
    ensures var r := ShiftSlots(s, s[i].off, s[i].size)[i := Slot(true, 0, 0)];
            forall p | tail + s[i].size <= p < PAGE_SIZE :: Covered(r, p)
  {
    var pos, size := s[i].off, s[i].size;
    var r := ShiftSlots(s, pos, size)[i := Slot(true, 0, 0)];
    TiledPair(s, tail, i, i);
    forall p | tail + size <= p < PAGE_SIZE ensures Covered(r, p) {
      var p0 := if p < pos + size then p - size else p;
      assert Covered(s, p0);
      var q :| 0 <= q < |s| && Covers(s[q], p0);
      TiledPair(s, tail, i, q);
      assert Covers(r[q], p);
    }
  }

  lemma LaidDropLast(s: seq<Slot>, tail: int)
    requires Laid(s, tail) && s != []
    ensures Laid(s[..|s| - 1], tail)
  {
    var r := s[..|s| - 1];
    forall q | 0 <= q < |r| ensures InArea(r[q], tail) {
      assert InArea(s[q], tail);
    }
    forall p, q | 0 <= p < q < |r| ensures Apart(r[p], r[q]) {
      assert Apart(s[p], s[q]);
    }
  }

  lemma TiledDropLast(s: seq<Slot>, tail: int)
    requires Tiled(s, tail) && s != [] && s[|s| - 1].free
    ensures Tiled(s[..|s| - 1], tail)
  {
    var r := s[..|s| - 1];
    assert s == r + [s[|s| - 1]];
    SumLast(r, s[|s| - 1]);
    LaidDropLast(s, tail);
    assert InArea(s[|s| - 1], tail);
    forall p | tail <= p < PAGE_SIZE ensures Covered(r, p) {
      assert Covered(s, p);
      var q :| 0 <= q < |s| && Covers(s[q], p);
      assert Covers(r[q], p);
    }
  }

  /** The bytes from tail to pos have moved up by size: what the compaction loop does to the data area. */
  ghost predicate Compacted(d: seq<byte>, d': seq<byte>, tail: int, pos: int, size: int)
    requires HEADER <= tail && 0 <= size
  {
    && |d| == |d'|
    && (forall q | tail - HEADER + size <= q < pos - HEADER + size && q < |d| :: d'[q] == d[q - size])
    && (forall q | pos - HEADER + size <= q < |d| && tail - HEADER <= q :: d'[q] == d[q])
  }

  /** Every other live item keeps its bytes. */
  lemma BytesKept(d: seq<byte>, d': seq<byte>, t: Slot, u: Slot, tail: int)
    requires |d| == DATA && HEADER <= tail && InArea(t, tail) && InArea(u, tail) && Apart(t, u)
    requires Compacted(d, d', tail, t.off, t.size)
    ensures Bytes(d', ShiftSlot(u, t.off, t.size)) == Bytes(d, u)
  {
    var v := ShiftSlot(u, t.off, t.size);
    if u.size > 0 {
      SliceKept(d, d', tail, t.off, t.size, u.off, v.off, u.size);
      BytesAre(d', v);
      BytesAre(d, u);
    }
  }

  /** The bytes of page offset off. */
  function Slice(d: seq<byte>, off: int, n: int): seq<byte>
    requires HEADER <= off && 0 <= n && off + n <= HEADER + |d|
  {
    d[off - HEADER..off - HEADER + n]
  }

  lemma BytesAre(d: seq<byte>, t: Slot)
    requires t.size > 0 && HEADER <= t.off && t.off + t.size <= HEADER + |d|
    ensures Bytes(d, t) == Slice(d, t.off, t.size)
  {
  }

  lemma SliceKept(d: seq<byte>, d': seq<byte>, tail: int, pos: int, size: int, off: int, off': int, n: int)
    requires |d| == DATA && HEADER <= tail <= off && 0 <= size && 0 < n && off + n <= PAGE_SIZE
        && Compacted(d, d', tail, pos, size)
    requires size > 0 ==> off + n <= pos || pos + size <= off
    requires pos + size <= PAGE_SIZE && off' == if off < pos then off + size else off
    ensures HEADER <= off' && off' + n <= PAGE_SIZE && Slice(d', off', n) == Slice(d, off, n)
  {
  }

  lemma TailSame(d: seq<byte>, d': seq<byte>, k: int)
    requires |d| == |d'| && 0 <= k <= |d| && d'[k..] == d[k..]
    ensures forall q | k <= q < |d| :: d'[q] == d[q]
  {
    forall q | k <= q < |d| ensures d'[q] == d[q] {
      assert d'[q] == d'[k..][q - k] && d[q] == d[k..][q - k];
    }
  }

  /** Bytes above a mark that two pages share. */
  lemma BytesAbove(d: seq<byte>, d': seq<byte>, t: Slot, tail: int)
    requires |d| == |d'| == DATA && HEADER <= tail <= PAGE_SIZE && InArea(t, tail)
        && d'[tail - HEADER..] == d[tail - HEADER..]
    ensures Bytes(d', t) == Bytes(d, t)
  {
    if t.size > 0 {
      TailSame(d, d', tail - HEADER);
    }
  }
}
