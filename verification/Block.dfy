/** The block routines of block.c on a page held in a frame. */
module Blocks {
  import opened Storage
  import opened BlockLayout

  /**
   Item id i and the item bytes at data index lo have been written; slots other than i and bytes above are as before.
   */
  ghost predicate Written(d: seq<byte>, d': seq<byte>, n: int, i: int, id: nat, lo: int, item: seq<byte>) {
    && |d| == |d'| == DATA && 0 <= i && ITEM_ID * n <= DATA && ITEM_ID * i + ITEM_ID <= DATA && 0 <= lo
      && lo + |item| <= DATA
    && Word(d', ITEM_ID * i) == id
    && (forall j | 0 <= j < n && j != i :: Word(d', ITEM_ID * j) == Word(d, ITEM_ID * j))
    && d'[lo..lo + |item|] == item
    && d'[lo + |item|..] == d[lo + |item|..]
  }

  /** The block after an item of |item| bytes has been placed in slot i, new or reused. */
  lemma ItemPlaced(b: Image, b': Image, i: int, item: seq<byte>, id: nat, lo: int)
    requires Ok(b) && 0 <= i <= b.nItems && (i < b.nItems ==> Slots(b)[i].free)
    requires b'.nItems == (if i == b.nItems then b.nItems + 1 else b.nItems)
        && b'.headPtr == HEADER + ITEM_ID * b'.nItems
    requires b'.tailPtr == b.tailPtr - |item| && b'.headPtr <= b'.tailPtr
    requires id == Compose(0, b'.tailPtr, |item|) && lo == b'.tailPtr - HEADER
    requires Written(b.data, b'.data, b.nItems, i, id, lo, item)
    ensures Ok(b') && i !in Items(b) && Items(b') == Items(b)[i := item]
    ensures Slots(b')[i] == Slot(false, b'.tailPtr, |item|)
    ensures forall j | 0 <= j < b.nItems && j != i :: Slots(b')[j] == Slots(b)[j]
  {
    SlotsPlaced(b, b', i, item, id, lo);
    TilingPlaced(Slots(b), Slots(b'), b.tailPtr, i, |item|);
    ItemsPlaced(Slots(b), Slots(b'), b.data, b'.data, b.tailPtr, i, item);
  }

  lemma SlotsPlaced(b: Image, b': Image, i: int, item: seq<byte>, id: nat, lo: int)
    requires |b.data| == DATA && 0 <= i <= b.nItems && ITEM_ID * b.nItems <= DATA && 0 <= b'.tailPtr <= PAGE_SIZE
        && |item| <= DATA
    requires b'.nItems == (if i == b.nItems then b.nItems + 1 else b.nItems) && ITEM_ID * b'.nItems <= DATA
    requires id == Compose(0, b'.tailPtr, |item|) && lo == b'.tailPtr - HEADER
    requires Written(b.data, b'.data, b.nItems, i, id, lo, item)
    ensures forall j | 0 <= j < b'.nItems :: Slots(b')[j] == if j == i then Slot(false, b'.tailPtr, |item|)
        else Slots(b)[j]
  {
    ComposeFields(0, b'.tailPtr, |item|);
  }

  lemma TilingPlaced(s: seq<Slot>, s': seq<Slot>, tail: int, i: int, size: nat)
    requires Tiled(s, tail) && 0 <= i <= |s| && (i < |s| ==> s[i].free) && 0 <= tail - size && tail <= PAGE_SIZE
    requires |s'| == (if i == |s| then |s| + 1 else |s|)
    requires forall j | 0 <= j < |s'| :: s'[j] == if j == i then Slot(false, tail - size, size) else s[j]
    ensures Tiled(s', tail - size) && forall j | 0 <= j < |s| :: InArea(s[j], tail)
  {
    if i == |s| {
      assert s' == s + [Slot(false, tail - size, size)];
      TiledAdd(s, tail, size);
    } else {
      assert s' == s[i := Slot(false, tail - size, size)];
      TiledSet(s, tail, i, size);
    }
  }

  lemma ItemsPlaced(s: seq<Slot>, s': seq<Slot>, d: seq<byte>, d': seq<byte>, tail: int, i: int, item: seq<byte>)
    requires |d| == |d'| == DATA && 0 <= i <= |s| && (i < |s| ==> s[i].free) && tail <= PAGE_SIZE
    requires forall j | 0 <= j < |s| :: InArea(s[j], tail)
    requires HEADER <= tail - |item| && d'[tail - |item| - HEADER..tail - HEADER] == item
        && d'[tail - HEADER..] == d[tail - HEADER..]
    requires |s'| == (if i == |s| then |s| + 1 else |s|)
    requires forall j | 0 <= j < |s'| :: s'[j] == if j == i then Slot(false, tail - |item|, |item|) else s[j]
    ensures i !in ItemsOf(s, d) && ItemsOf(s', d') == ItemsOf(s, d)[i := item]
  {
    forall j | 0 <= j < |s| && j != i ensures Bytes(d', s'[j]) == Bytes(d, s[j]) {
      BytesAbove(d, d', s[j], tail);
    }
    assert Bytes(d', s'[i]) == item;
  }

  /** The block after item i has been compacted away. */
  lemma ItemDeleted(b: Image, b': Image, i: int)
    requires Ok(b) && 0 <= i < b.nItems && |b'.data| == DATA
    requires var s := Slots(b);
             && 0 <= s[i].size && b'.tailPtr == b.tailPtr + s[i].size && b'.headPtr == HEADER + ITEM_ID * b'.nItems
             && b'.nItems == (if i == b.nItems - 1 then b.nItems - 1 else b.nItems)
             && Slots(b') == DeletedSlots(s, i)
             && Compacted(b.data, b'.data, b.tailPtr, s[i].off, s[i].size)
    ensures Ok(b') && Items(b') == Items(b) - {i}
  {
    TiledPair(Slots(b), b.tailPtr, i, i);
    var s, t := Slots(b), DeletedSlots(Slots(b), i);
    TilingDeleted(s, b.tailPtr, i, t, b'.tailPtr);
    ItemsCompacted(Slots(b), b.data, b'.data, b.tailPtr, i);
    HeadBelow(s, b.tailPtr, i);
    WellFormed(b', t);
  }

  lemma WellFormed(b: Image, s: seq<Slot>)
    requires |b.data| == DATA && 0 <= b.nItems && b.headPtr == HEADER + ITEM_ID * b.nItems
        && b.headPtr <= b.tailPtr <= PAGE_SIZE
    requires Tiled(s, b.tailPtr) && Slots(b) == s
    ensures Ok(b) && Items(b) == ItemsOf(s, b.data)
  {
  }

  /** What deletion does to the slots: items below move up, slot i becomes free. */
  lemma DeletedState(s: seq<Slot>, t: seq<Slot>, i: int)
    requires 0 <= i < |s| && t == DeletedSlots(s, i)
    ensures |t| == if i == |s| - 1 then |s| - 1 else |s|
    ensures i < |t| ==> t[i] == Slot(true, 0, 0)
    ensures forall j | 0 <= j < |t| && j != i ::
              t[j] == if s[j].off < s[i].off then s[j].(off := s[j].off + s[i].size) else s[j]
  {
  }

  /** Compaction does not take tailPtr past the end of the page. */
  lemma HeadBelow(s: seq<Slot>, tail: int, i: int)
    requires Laid(s, tail) && 0 <= i < |s| && tail <= PAGE_SIZE
    ensures 0 <= s[i].size && tail + s[i].size <= PAGE_SIZE
  {
    TiledPair(s, tail, i, i);
  }

  /** The slots once item i is gone: the last slot is given up, any other becomes free. */
  function DeletedSlots(s: seq<Slot>, i: int): seq<Slot>
    requires 0 <= i < |s|
  {
    var t := ShiftSlots(s, s[i].off, s[i].size);
    if i == |s| - 1 then t[..i] else t[i := Slot(true, 0, 0)]
  }

  lemma TilingDeleted(s: seq<Slot>, tail: int, i: int, s': seq<Slot>, tail': int)
    requires Tiled(s, tail) && 0 <= i < |s| && s' == DeletedSlots(s, i) && tail' == tail + s[i].size
    ensures Tiled(s', tail')
  {
    var t := ShiftSlots(s, s[i].off, s[i].size)[i := Slot(true, 0, 0)];
    TiledDelete(s, tail, i);
    if i == |s| - 1 {
      TiledDropLast(t, tail + s[i].size);
      assert DeletedSlots(s, i) == t[..|t| - 1];
    }
  }

  lemma ItemsCompacted(s: seq<Slot>, d: seq<byte>, d': seq<byte>, tail: int, i: int)
    requires |d| == DATA && HEADER <= tail && Laid(s, tail) && 0 <= i < |s| && 0 <= s[i].size
    requires Compacted(d, d', tail, s[i].off, s[i].size)
    ensures ItemsOf(DeletedSlots(s, i), d') == ItemsOf(s, d) - {i}
  {
    var t := ShiftSlots(s, s[i].off, s[i].size)[i := Slot(true, 0, 0)];
    forall j | 0 <= j < |s| && j != i ensures t[j].free == s[j].free && Bytes(d', t[j]) == Bytes(d, s[j]) {
      ItemKept(s, d, d', tail, i, j);
    }
    ItemsDeleted(s, t, d, d', i, DeletedSlots(s, i));
  }

  lemma ItemKept(s: seq<Slot>, d: seq<byte>, d': seq<byte>, tail: int, i: int, j: int)
    requires |d| == DATA && HEADER <= tail && Laid(s, tail) && 0 <= i < |s| && 0 <= j < |s| && i != j
    requires 0 <= s[i].size && Compacted(d, d', tail, s[i].off, s[i].size)
    ensures Bytes(d', ShiftSlot(s[j], s[i].off, s[i].size)) == Bytes(d, s[j])
  {
    TiledPair(s, tail, i, j);
    BytesKept(d, d', s[i], s[j], tail);
  }

  lemma ItemsDeleted(s: seq<Slot>, t: seq<Slot>, d: seq<byte>, d': seq<byte>, i: int, u: seq<Slot>)
    requires |s| == |t| && 0 <= i < |s| && t[i].free && u == if i == |s| - 1 then t[..i] else t
    requires forall j | 0 <= j < |s| && j != i :: t[j].free == s[j].free && Bytes(d', t[j]) == Bytes(d, s[j])
    ensures ItemsOf(u, d') == ItemsOf(s, d) - {i}
  {
  }

  /** An item id written below the item area, then the item's bytes. */
  lemma WritesMade(d: seq<byte>, d': seq<byte>, n: int, i: int, id: nat, lo: int, item: seq<byte>)
    requires |d| == DATA && 0 <= i && 0 <= n && ITEM_ID * n <= lo && ITEM_ID * i + ITEM_ID <= lo && lo + |item| <= DATA
        && id < 0x1_0000_0000
    requires var d1 := PutWord(d, ITEM_ID * i, id); d' == d1[..lo] + item + d1[lo + |item|..]
    ensures Written(d, d', n, i, id, lo, item)
  {
    var d1 := PutWord(d, ITEM_ID * i, id);
    PutWordGet(d, ITEM_ID * i, id);
    WordsKept(d1, d', lo);
    assert d'[lo + |item|..] == d1[lo + |item|..] == d[lo + |item|..];
    forall j | 0 <= j < n && j != i ensures Word(d', ITEM_ID * j) == Word(d, ITEM_ID * j) {
      assert Word(d', ITEM_ID * j) == Word(d1, ITEM_ID * j);
    }
  }

  lemma SlotsCut(b: Image, n: int)
    requires 0 <= n <= b.nItems && ITEM_ID * b.nItems <= |b.data|
    ensures forall head :: Slots(Image(n, head, b.tailPtr, b.data)) == Slots(b)[..n]
  {
  }

  lemma SlotsSet(b: Image, b': Image, i: int, id: nat)
    requires |b.data| == DATA && 0 <= i < b.nItems == b'.nItems && ITEM_ID * b.nItems <= DATA && id < 0x1_0000_0000
    requires b'.data == PutWord(b.data, ITEM_ID * i, id)
    ensures Slots(b') == Slots(b)[i := Decode(id)]
    ensures b'.data[ITEM_ID * b.nItems..] == b.data[ITEM_ID * b.nItems..]
  {
    PutWordGet(b.data, ITEM_ID * i, id);
    forall j | 0 <= j < b.nItems && j != i ensures Word(b'.data, ITEM_ID * j) == Word(b.data, ITEM_ID * j) {
    }
  }

  /** Slots are not touched by writes at or above tailPtr. */
  lemma SlotsKept(b: Image, b': Image)
    requires Ok(b) && b'.nItems == b.nItems && |b'.data| == DATA
        && b'.data[..b.tailPtr - HEADER] == b.data[..b.tailPtr - HEADER]
    ensures Slots(b') == Slots(b)
  {
    WordsKept(b.data, b'.data, b.tailPtr - HEADER);
    assert forall i | 0 <= i < b.nItems :: Word(b'.data, ITEM_ID * i) == Word(b.data, ITEM_ID * i);
  }

  lemma SlotsInArea(s: seq<Slot>, tail: int)
    requires Laid(s, tail)
    ensures forall j {:trigger InArea(s[j], tail)} {:trigger s[j].off} | 0 <= j < |s| :: InArea(s[j], tail)
    ensures forall j | 0 <= j < |s| :: 0 <= s[j].off && 0 <= s[j].size < 0x8000
  {
    forall j | 0 <= j < |s| ensures InArea(s[j], tail) {
      TiledPair(s, tail, j, j);
    }
  }

  /** Compaction concerns bytes from tailPtr up; rewriting the slots does not disturb it. */
  lemma CompactedAbove(d: seq<byte>, d1: seq<byte>, d2: seq<byte>, tail: int, pos: int, size: int, k: int)
    requires HEADER <= tail && 0 <= size && Compacted(d, d1, tail, pos, size) && |d| == |d1| == |d2| == DATA
    requires 0 <= k <= tail - HEADER && tail <= PAGE_SIZE && d2[k..] == d1[k..]
    ensures Compacted(d, d2, tail, pos, size)
  {
    assert forall q | k <= q < DATA :: d2[q] == d2[k..][q - k] == d1[k..][q - k] == d1[q];
  }

  /** A frame holding a block page. */
  class Block {
    var nItems: int
    var headPtr: int
    var tailPtr: int
    var data: array<byte>

    function Page(): Image
      reads this, data
    {
      Image(nItems, headPtr, tailPtr, data[..])
    }

    /** A frame into which a page has been read. */
    constructor (page: Image)
      requires |page.data| == DATA
      ensures Page() == page && fresh(data)
    {
      nItems, headPtr, tailPtr := page.nItems, page.headPtr, page.tailPtr;
      data := new byte[DATA](i requires 0 <= i < DATA => page.data[i]);
      new;
      assert data[..] == page.data;
    }

    /** init_block: only the header is written. */
    method InitBlock()
      requires data.Length == DATA
      modifies this`nItems, this`headPtr, this`tailPtr
      ensures Ok(Page()) && Items(Page()) == map[] && Room(Page()) == MAX_RECORD == 118
      ensures nItems == 0 && headPtr == 6 && tailPtr == 128
    {
      nItems := 0;
      headPtr := HEADER;
      tailPtr := PAGE_SIZE;
      assert Slots(Page()) == [];
    }

    /** get_item_id */
    function ItemId(i: int): nat
      requires 0 <= i && ITEM_ID * i + ITEM_ID <= data.Length
      reads this, data
    {
      Word(data[..], ITEM_ID * i)
    }

    method SetItemId(i: int, id: nat)
      requires 0 <= i && ITEM_ID * i + ITEM_ID <= data.Length && id < 0x1_0000_0000
      modifies data
      ensures data[..] == PutWord(old(data[..]), ITEM_ID * i, id)
    {
      var o := ITEM_ID * i;
      data[o] := id % 0x100;
      data[o + 1] := id / 0x100 % 0x100;
      data[o + 2] := id / 0x1_0000 % 0x100;
      data[o + 3] := id / 0x100_0000 % 0x100;
    }

    method CopyIn(lo: int, item: seq<byte>)
      requires 0 <= lo && lo + |item| <= data.Length
      modifies data
      ensures data[..] == old(data[..])[..lo] + item + old(data[..])[lo + |item|..]
    {
      var j := 0;
      while j < |item|
        invariant 0 <= j <= |item|
        invariant data[..] == old(data[..])[..lo] + item[..j] + old(data[..])[lo + j..]
      {
        data[lo + j] := item[j];
        j := j + 1;
      }
    }

    /** get_item: the offset of item i, or -1 for a slot out of range or not in use. */
    method GetItem(i: int) returns (offset: int)
      requires Ok(Page())
      ensures i in Items(Page()) ==> offset == Slots(Page())[i].off
      ensures i !in Items(Page()) ==> offset == -1
    {
      if i < 0 || i >= nItems {
        return -1;
      }
      var id := ItemId(i);
      assert Slots(Page())[i] == Decode(id);
      if Availability(id) != 0 {
        return -1;
      }
      offset := Offset(id);
    }

    /** new_item: reuses the first free slot, or opens a new one; without room it changes nothing. */
    method NewItem(item: seq<byte>) returns (idx: int)
      requires Ok(Page())
      modifies this`nItems, this`headPtr, this`tailPtr, data
      ensures Ok(Page())
      ensures |item| <= Room(old(Page())) ==>
          idx !in Items(old(Page())) && Items(Page()) == Items(old(Page()))[idx := item]
      ensures |item| <= Room(old(Page())) ==> 0 <= idx <= old(nItems)
      ensures |item| > Room(old(Page())) ==> Page() == old(Page())
      ensures |item| > Room(old(Page())) ==> if HasFree(Slots(Page())) then 0 <= idx < nItems
          && Slots(Page())[idx].free else idx == -1
      ensures var s, i := old(Slots(Page())), if idx == -1 then old(nItems) else idx;
              0 <= i <= |s| && (i < |s| ==> s[i].free) && forall q | 0 <= q < i :: !s[q].free
      ensures |item| <= Room(old(Page())) ==>
                && nItems == old(nItems) + (if idx == old(nItems) then 1 else 0) && headPtr == 6 + 4 * nItems
                && tailPtr == old(tailPtr) - |item| && Slots(Page())[idx] == Slot(false, tailPtr, |item|)
                && forall j | 0 <= j < old(nItems) && j != idx :: Slots(Page())[j] == old(Slots(Page()))[j]
    {
      ghost var b := Page();
      var avai := tailPtr - headPtr;
      var size := |item|;
      var i := 0;
      while i != nItems
        invariant 0 <= i <= nItems && Page() == b
        invariant forall q | 0 <= q < i :: !Slots(b)[q].free
      {
        var id := ItemId(i);
        assert Slots(b)[i] == Decode(id);
        if Availability(id) == 1 {
          if avai >= size {
            PutItem(i, item);
          }
          return i;
        }
        i := i + 1;
      }
      if avai < ITEM_ID + size {
        return -1;
      }
      idx := nItems;
      PutItem(nItems, item);
    }

    /** The writes of new_item for slot i, which is free or just past the last one. */
    method PutItem(i: int, item: seq<byte>)
      requires Ok(Page()) && 0 <= i <= nItems && (i < nItems ==> Slots(Page())[i].free)
      requires |item| + (if i == nItems then ITEM_ID else 0) <= tailPtr - headPtr
      modifies this`nItems, this`headPtr, this`tailPtr, data
      ensures Ok(Page()) && i !in Items(old(Page())) && Items(Page()) == Items(old(Page()))[i := item]
      ensures nItems == old(nItems) + (if i == old(nItems) then 1 else 0) && headPtr == 6 + 4 * nItems
      ensures tailPtr == old(tailPtr) - |item| && Slots(Page())[i] == Slot(false, tailPtr, |item|)
      ensures forall j | 0 <= j < old(nItems) && j != i :: Slots(Page())[j] == old(Slots(Page()))[j]
    {
      ghost var b := Page();
      var size := |item|;
      if i == nItems {
        headPtr := headPtr + ITEM_ID;
      }
      tailPtr := tailPtr - size;
      ComposeFields(0, tailPtr, size);
      var id, lo := Compose(0, tailPtr, size), tailPtr - HEADER;
      SetItemId(i, id);
      CopyIn(lo, item);
      WritesMade(b.data, data[..], nItems, i, id, lo, item);
      if i == nItems {
        nItems := nItems + 1;
      }
      ItemPlaced(b, Page(), i, item, id, lo);
    }

    /** The first loop of delete_item: the bytes between tailPtr and pos move up by size. */
    method MoveUp(pos: int, size: int)
      requires data.Length == DATA && HEADER <= tailPtr <= PAGE_SIZE && 0 <= size && pos + size <= PAGE_SIZE
      modifies data
      ensures Compacted(old(data[..]), data[..], tailPtr, pos, size)
      ensures data[..tailPtr - HEADER] == old(data[..tailPtr - HEADER])
    {
      ghost var d := data[..];
      var end := pos + size;
      var i := end - 1 - size;
      while i >= tailPtr
        invariant i < pos && (i >= tailPtr - 1 || i == pos - 1) && tailPtr == old(tailPtr)
        invariant forall q | i + 1 - HEADER + size <= q < pos - HEADER + size && tailPtr - HEADER + size <= q ::
            data[q] == d[q - size]
        invariant forall q | 0 <= q < DATA && (q < i + 1 - HEADER + size || pos - HEADER + size <= q) :: data[q] == d[q]
      {
        data[i + size - HEADER] := data[i - HEADER];
        i := i - 1;
      }
    }

    /** The second loop of delete_item: offsets below pos grow by size. */
    method ShiftOffsets(pos: int, size: int, ghost s: seq<Slot>)
      requires data.Length == DATA && 0 <= nItems && ITEM_ID * nItems <= DATA && |s| == nItems
      requires s == Slots(Page())
      requires 0 <= size && pos + size <= PAGE_SIZE && forall j | 0 <= j < nItems ::
          0 <= s[j].off && 0 <= s[j].size < 0x8000
      modifies data
      ensures Slots(Page()) == ShiftSlots(s, pos, size)
      ensures data[..][ITEM_ID * nItems..] == old(data[..])[ITEM_ID * nItems..]
    {
      var i := 0;
      while i < nItems
        invariant 0 <= i <= nItems
        invariant forall j | 0 <= j < nItems :: Decode(Word(data[..], ITEM_ID * j)) == if j < i then
            ShiftSlot(s[j], pos, size) else s[j]
        invariant data[..][ITEM_ID * nItems..] == old(data[..])[ITEM_ID * nItems..]
      {
        var id := ItemId(i);
        var tempPos, tempSize, avail := Offset(id), Size(id), Availability(id);
        assert s[i] == Decode(id);
        if tempPos < pos {
          ghost var d := data[..];
          ComposeFields(avail, tempPos + size, tempSize);
          PutWordGet(d, ITEM_ID * i, Compose(avail, tempPos + size, tempSize));
          SetItemId(i, Compose(avail, tempPos + size, tempSize));
        }
        i := i + 1;
      }
    }

    /** delete_item: the items below are moved up over the hole; a slot out of range is left alone. */
    method DeleteItem(idx: int)
      requires Ok(Page())
      modifies this`nItems, this`headPtr, this`tailPtr, data
      ensures Ok(Page()) && Items(Page()) == Items(old(Page())) - {idx}
      ensures idx < 0 || idx >= old(nItems) ==> Page() == old(Page())
      ensures 0 <= idx < old(nItems) ==>
                var s, last := old(Slots(Page())), idx == old(nItems) - 1;
                var pos, size := s[idx].off, s[idx].size;
                && nItems == old(nItems) - (if last then 1 else 0) && headPtr == old(headPtr) - (if last then 4 else 0)
                && tailPtr == old(tailPtr) + size
                && tailPtr - headPtr == old(tailPtr - headPtr) + size + (if last then 4 else 0)
                && (!last ==> Slots(Page())[idx] == Slot(true, 0, 0))
                && forall j | 0 <= j < nItems && j != idx ::
                     Slots(Page())[j] == if s[j].off < pos then s[j].(off := s[j].off + size) else s[j]
    {
      if idx < 0 || idx >= nItems {
        return;
      }
      ghost var b := Page();
      var id := ItemId(idx);
      assert Slots(b)[idx] == Decode(id);
      Compact(Offset(id), Size(id), idx);
      GiveUpSlot(idx, b);
    }

    /** The two loops of delete_item: item idx, size bytes at pos, is compacted away. */
    method Compact(pos: int, size: int, ghost idx: int)
      requires Ok(Page()) && 0 <= idx < nItems && Slots(Page())[idx].off == pos && Slots(Page())[idx].size == size
      modifies this`tailPtr, data
      ensures 0 <= size && tailPtr == old(tailPtr) + size
      ensures Slots(Page()) == ShiftSlots(old(Slots(Page())), pos, size)
      ensures Compacted(old(data[..]), data[..], old(tailPtr), pos, size)
    {
      ghost var b, s := Page(), Slots(Page());
      SlotsInArea(s, tailPtr);
      assert InArea(s[idx], tailPtr);
      MoveUp(pos, size);
      SlotsKept(b, Page());
      ghost var d1 := data[..];
      tailPtr := tailPtr + size;
      ShiftOffsets(pos, size, s);
      CompactedAbove(b.data, d1, data[..], b.tailPtr, pos, size, ITEM_ID * nItems);
    }

    /** Rewrites item id i. */
    method SetSlot(i: int, availability: nat, offset: nat, size: nat)
      requires data.Length == DATA && 0 <= i < nItems && ITEM_ID * nItems <= DATA
      requires availability < 2 && offset < 0x8000 && size < 0x8000
      modifies data
      ensures Slots(Page()) == old(Slots(Page()))[i := Slot(availability == 1, offset, size)]
      ensures data[..][ITEM_ID * nItems..] == old(data[..])[ITEM_ID * nItems..]
    {
      ghost var p := Page();
      var id := Compose(availability, offset, size);
      ComposeFields(availability, offset, size);
      SetItemId(i, id);
      SlotsSet(p, Page(), i, id);
    }

    /** The end of delete_item: the last slot is dropped, any other is marked free. */
    method GiveUpSlot(idx: int, ghost b: Image)
      requires Ok(b) && 0 <= idx < b.nItems == nItems && headPtr == b.headPtr
          && tailPtr == b.tailPtr + Slots(b)[idx].size
      requires data.Length == DATA && Slots(Page()) == ShiftSlots(Slots(b), Slots(b)[idx].off, Slots(b)[idx].size)
      requires 0 <= Slots(b)[idx].size && Compacted(b.data, data[..], b.tailPtr, Slots(b)[idx].off, Slots(b)[idx].size)
      modifies this`nItems, this`headPtr, data
      ensures Ok(Page()) && Items(Page()) == Items(b) - {idx}
      ensures nItems == b.nItems - (if idx == b.nItems - 1 then 1 else 0)
          && headPtr == b.headPtr - (if idx == b.nItems - 1 then 4 else 0)
      ensures idx < b.nItems - 1 ==> Slots(Page())[idx] == Slot(true, 0, 0)
      ensures var s, pos, size := Slots(b), Slots(b)[idx].off, Slots(b)[idx].size;
              forall j | 0 <= j < nItems && j != idx ::
                Slots(Page())[j] == if s[j].off < pos then s[j].(off := s[j].off + size) else s[j]
    {
      ghost var d2, p2 := data[..], Page();
      if idx == nItems - 1 {
        headPtr := headPtr - ITEM_ID;
        nItems := nItems - 1;
        SlotsCut(p2, idx);
      } else {
        SetSlot(idx, 1, 0, 0);
        CompactedAbove(b.data, d2, data[..], b.tailPtr, Slots(b)[idx].off, Slots(b)[idx].size, ITEM_ID * nItems);
      }
      ItemDeleted(b, Page(), idx);
      DeletedState(Slots(b), Slots(Page()), idx);
    }

    /** get_block_size */
    method GetBlockSize() returns (size: int)
      requires Ok(Page())
      ensures size == Room(Page())
      ensures size == tailPtr - headPtr - if exists i :: 0 <= i < nItems && Slots(Page())[i].free then 0 else 4
    {
      var i := 0;
      while i < nItems
        invariant 0 <= i <= nItems
        invariant forall q | 0 <= q < i :: !Slots(Page())[q].free
      {
        var id := ItemId(i);
        assert Slots(Page())[i] == Decode(id);
        if Availability(id) != 0 {
          return tailPtr - headPtr;
        }
        i := i + 1;
      }
      size := tailPtr - headPtr - ITEM_ID;
    }
  }

  lemma WordsKept(d: seq<byte>, d': seq<byte>, n: int)
    requires |d| == |d'| && 0 <= n <= |d| && d'[..n] == d[..n]
    ensures forall o: nat | o + 4 <= n :: Word(d', o) == Word(d, o)
  {
    assert forall q | 0 <= q < n :: d'[q] == d'[..n][q] == d[..n][q] == d[q];
  }
}
