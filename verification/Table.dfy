/** table.c: records in slotted pages, each page filed in the free-space map under the room it has left. */
module Tables {
  import opened Rids
  import opened Storage
  import opened BlockLayout
  import opened Blocks
  import F = FreeSpaceMaps

  type Images = map<int, Image>
  type Records = map<RID, seq<byte>>

  ghost predicate AllOk(pages: Images) {
    forall a {:trigger Ok(pages[a])} | a in pages :: Ok(pages[a])
  }

  /** Each data page is filed once, under the room it has left, and nothing else is filed. */
  ghost predicate Filing(bags: F.Bags, pages: Images)
    requires AllOk(pages)
  {
    && F.Sizes(bags)
    && forall s, a {:trigger Times(bags, s, a)} | s in bags :: Times(bags, s, a) == if a in pages
      && Room(pages[a]) == s then 1 else 0
  }

  ghost function Times(bags: F.Bags, s: int, a: int): nat
    requires s in bags
  {
    bags[s][a]
  }

  /** The records are the items of all pages. */
  ghost predicate Agree(pages: Images, records: Records)
    requires AllOk(pages)
  {
    forall r {:trigger RecordAt(pages, records, r)} :: RecordAt(pages, records, r)
  }

  ghost predicate RecordAt(pages: Images, records: Records, r: RID)
    requires AllOk(pages)
  {
    assert r.addr in pages ==> Ok(pages[r.addr]);
    && (r in records <==> r.addr in pages && r.idx in Items(pages[r.addr]))
    && (r in records ==> records[r] == Items(pages[r.addr])[r.idx])
  }

  /** The address of a page of a file of this length. */
  predicate InFile(a: int, length: int) {
    0 <= a < length && a % PAGE_SIZE == 0
  }

  /** The file holds whole pages. */
  ghost predicate Shape(pages: Images, length: int) {
    0 <= length && length % PAGE_SIZE == 0 && forall a {:trigger InFile(a, length)} :: InFile(a, length) <==> a in pages
  }

  // ----- filing -----

  lemma Unfile(bags: F.Bags, pages: Images, a: int)
    requires AllOk(pages) && Filing(bags, pages) && a in pages
    ensures var r := Room(pages[a]);
            r in bags && a in bags[r] && AllOk(pages - {a}) && Filing(bags[r := bags[r] - multiset{a}], pages - {a})
  {
    var r := Room(pages[a]);
    RoomRange(pages[a]);
    assert Times(bags, r, a) == 1;
    var bags' := bags[r := bags[r] - multiset{a}];
    forall s, c | s in bags' ensures Times(bags', s, c) == if c in pages - {a} && Room((pages - {a})[c]) == s then 1
      else 0 {
      assert Times(bags, s, c) == if c in pages && Room(pages[c]) == s then 1 else 0;
    }
  }

  lemma File(bags: F.Bags, rest: Images, a: int, b: Image, r: int, bags': F.Bags, pages: Images)
    requires AllOk(rest) && Filing(bags, rest) && a !in rest && Ok(b) && r == Room(b) && pages == rest[a := b]
    requires r in bags && bags' == bags[r := bags[r] + multiset{a}]
    ensures AllOk(pages) && Filing(bags', pages)
  {
    forall s, c | s in bags' ensures Times(bags', s, c) == if c in pages && Room(pages[c]) == s then 1 else 0 {
      assert Times(bags, s, c) == if c in rest && Room(rest[c]) == s then 1 else 0;
    }
  }

  lemma Rejoined(pages: Images, length: int, a: int, b: Image, rest: Images, pages': Images)
    requires Shape(pages, length) && a in pages && rest == pages - {a} && pages' == pages[a := b]
    ensures a !in rest && pages' == rest[a := b] && Shape(pages', length)
  {
  }

  lemma ShapeGrown(pages: Images, length: int, b: Image, pages': Images, length': int)
    requires Shape(pages, length) && pages' == pages[length := b] && length' == length + PAGE_SIZE
    ensures Shape(pages', length') && length !in pages
  {
    assert InFile(length, length) <==> length in pages;
    forall a ensures InFile(a, length') <==> a in pages' {
      assert InFile(a, length) <==> a in pages;
    }
  }

  /** A page found in a bag. */
  lemma Found(bags: F.Bags, pages: Images, s: int, a: int)
    requires AllOk(pages) && Filing(bags, pages) && s in bags && a in bags[s]
    ensures a in pages && Room(pages[a]) == s
  {
    assert Times(bags, s, a) > 0;
  }

  /** The smallest room from size on, in terms of the pages. */
  lemma BestFit(bags: F.Bags, pages: Images, size: int, a: int)
    requires AllOk(pages) && Filing(bags, pages) && a in pages && size <= Room(pages[a])
    ensures F.Lowest(bags, size) <= Room(pages[a])
  {
    var r := Room(pages[a]);
    RoomRange(pages[a]);
    assert Times(bags, r, a) == 1;
    assert a in bags[r];
    LowestAtMost(bags, size, r);
  }

  lemma {:induction false} LowestAtMost(bags: F.Bags, b: int, c: int)
    requires b <= c < F.MAX_SIZE && c in bags && bags[c] != multiset{}
    ensures F.Lowest(bags, b) <= c
    decreases c - b
  {
    if b < c {
      LowestAtMost(bags, b + 1, c);
    }
  }

  /** The block the search of the free-space map came up with. */
  lemma Chosen(bags: F.Bags, pages: Images, size: int, a: int)
    requires AllOk(pages) && Filing(bags, pages) && 0 <= size
    requires var b := F.Lowest(bags, size); b != F.MAX_SIZE && b in bags && a in bags[b]
    ensures var b := F.Lowest(bags, size);
            && a in pages && size <= b == Room(pages[a]) <= MAX_RECORD && forall c | c in pages
              && size <= Room(pages[c]) :: b <= Room(pages[c])
    ensures var b := F.Lowest(bags, size); AllOk(pages - {a}) && Filing(bags[b := bags[b] - multiset{a}], pages - {a})
  {
    var b := F.Lowest(bags, size);
    Found(bags, pages, b, a);
    RoomRange(pages[a]);
    F.LowestNext(bags, size);
    Unfile(bags, pages, a);
    forall c | c in pages && size <= Room(pages[c]) ensures b <= Room(pages[c]) {
      BestFit(bags, pages, size, c);
    }
  }

  /** The search found no block, or the address -1, which is not filed. */
  lemma NotFound(bags: F.Bags, pages: Images, size: int, length: int)
    requires AllOk(pages) && Filing(bags, pages) && Shape(pages, length)
    requires var b := F.Lowest(bags, size); b == F.MAX_SIZE || (b in bags && -1 in bags[b])
    ensures F.Lowest(bags, size) == F.MAX_SIZE
    ensures forall c | c in pages :: Room(pages[c]) < size
  {
    var b := F.Lowest(bags, size);
    assert InFile(-1, length) <==> -1 in pages;
    if b != F.MAX_SIZE {
      Found(bags, pages, b, -1);
    }
    forall c | c in pages ensures Room(pages[c]) < size {
      RoomRange(pages[c]);
      if size <= Room(pages[c]) {
        BestFit(bags, pages, size, c);
      }
    }
  }

  /** A record of this size belongs into page a: the tightest page that can hold it, or a new one if there is none. */
  ghost predicate BestFitting(pages: Images, length: int, size: int, a: int, length': int)
    requires AllOk(pages)
  {
    if forall c | c in pages :: Room(pages[c]) < size then
      a == length && length' == length + PAGE_SIZE
    else
      && a in pages && length' == length && size <= Room(pages[a])
      && forall c | c in pages && size <= Room(pages[c]) :: Room(pages[a]) <= Room(pages[c])
  }

  // ----- records -----

  lemma RecordPut(pages: Images, records: Records, a: int, b: Image, i: int, item: seq<byte>, pages': Images,
                  records': Records)
    requires AllOk(pages) && Agree(pages, records) && Ok(b) && pages' == pages[a := b]
        && records' == records[RID(a, i) := item]
    requires a in pages && Ok(pages[a]) && i !in Items(pages[a]) && Items(b) == Items(pages[a])[i := item]
    ensures AllOk(pages') && RID(a, i) !in records && Agree(pages', records')
  {
    assert RecordAt(pages, records, RID(a, i));
    AllOkSet(pages, a, b, pages');
    forall r: RID ensures RecordAt(pages', records', r) {
      assert RecordAt(pages, records, r);
    }
  }

  /** The records once src has been inserted under rid, if it fits a block at all. */
  ghost function With(records: Records, rid: RID, src: seq<byte>): Records {
    if |src| <= MAX_RECORD then records[rid := src] else records
  }

  /** A new block, with its first record or, if that is too large, without one. */
  lemma RecordFirst(pages: Images, records: Records, a: int, b: Image, i: int, item: seq<byte>, pages': Images,
                    records': Records)
    requires AllOk(pages) && Agree(pages, records) && Ok(b) && a !in pages && pages' == pages[a := b]
    requires records' == With(records, RID(a, i), item)
    requires Items(b) == if |item| <= MAX_RECORD then map[i := item] else map[]
    ensures AllOk(pages') && RID(a, i) !in records && Agree(pages', records')
  {
    assert RecordAt(pages, records, RID(a, i));
    AllOkSet(pages, a, b, pages');
    forall r: RID ensures RecordAt(pages', records', r) {
      assert RecordAt(pages, records, r);
    }
  }

  lemma AllOkSet(pages: Images, a: int, b: Image, pages': Images)
    requires AllOk(pages) && Ok(b) && pages' == pages[a := b]
    ensures AllOk(pages')
  {
    forall c | c in pages' ensures Ok(pages'[c]) {
      assert c != a ==> Ok(pages[c]);
    }
  }

  lemma RecordGone(pages: Images, records: Records, r: RID, b: Image, pages': Images, records': Records)
    requires AllOk(pages) && Agree(pages, records) && r.addr in pages && Ok(pages[r.addr]) && Ok(b)
    requires Items(b) == Items(pages[r.addr]) - {r.idx} && pages' == pages[r.addr := b] && records' == records - {r}
    ensures AllOk(pages') && Agree(pages', records')
  {
    AllOkSet(pages, r.addr, b, pages');
    forall q: RID ensures RecordAt(pages', records', q) {
      assert RecordAt(pages, records, q);
    }
  }

  lemma RecordBound(pages: Images, records: Records, r: RID)
    requires AllOk(pages) && Agree(pages, records) && r in records
    ensures r.addr in pages && 0 <= r.idx && ITEM_ID * r.idx + ITEM_ID <= DATA
  {
    assert RecordAt(pages, records, r);
    assert Ok(pages[r.addr]);
  }

  lemma NoRecord(pages: Images, records: Records, length: int, r: RID)
    requires AllOk(pages) && Agree(pages, records) && Shape(pages, length) && r.addr < 0
    ensures records - {r} == records
  {
    assert InFile(r.addr, length) <==> r.addr in pages;
    assert RecordAt(pages, records, r);
  }

  /** Where the bytes of a live item are. */
  lemma ItemBytes(b: Image, i: int, off: int, size: int)
    requires Ok(b) && i in Items(b) && off == Slots(b)[i].off && size == Slots(b)[i].size
    ensures BytesAt(b.data, off, size, Items(b)[i])
  {
    TiledPair(Slots(b), b.tailPtr, i, i);
    ItemIs(Slots(b), b.data, i);
    SlotBytes(b.data, Slots(b)[i], b.tailPtr, off, size, Items(b)[i]);
  }

  lemma SlotBytes(d: seq<byte>, t: Slot, tail: int, off: int, size: int, record: seq<byte>)
    requires |d| == DATA && HEADER <= tail && InArea(t, tail) && record == Bytes(d, t) && off == t.off && size == t.size
    ensures BytesAt(d, off, size, record)
  {
  }

  lemma ItemIs(s: seq<Slot>, d: seq<byte>, i: int)
    requires i in ItemsOf(s, d)
    ensures 0 <= i < |s| && ItemsOf(s, d)[i] == Bytes(d, s[i])
  {
  }

  /** The bytes of a record begin at this page offset. */
  ghost predicate BytesAt(d: seq<byte>, off: int, size: int, record: seq<byte>) {
    && size == |record|
    && (size > 0 ==>
          HEADER <= off && off + size <= HEADER + |d| && record == d[off - HEADER..off - HEADER + size])
  }

  // ----- runs -----

  /** An insertion, or the deletion of the record that insertion k made. */
  datatype Op = Put(item: seq<byte>) | Remove(k: nat)

  ghost predicate LegalAt(ops: seq<Op>, i: int)
    requires 0 <= i < |ops|
  {
    match ops[i]
    case Put(_) => true
    case Remove(k) => k < i && ops[k].Put?
  }

  ghost predicate Legal(ops: seq<Op>) {
    forall i {:trigger LegalAt(ops, i)} | 0 <= i < |ops| :: LegalAt(ops, i)
  }

  /** The map after the first n operations, insertion i having returned rids[i]. */
  ghost function After(m: Records, ops: seq<Op>, rids: seq<RID>, n: nat): Records
    requires n <= |ops| && n <= |rids| && Legal(ops)
  {
    if n == 0 then m else
      assert LegalAt(ops, n - 1);
      Apply(After(m, ops, rids, n - 1), ops[n - 1], rids[..n - 1], rids[n - 1])
  }

  /**
   What an operation does to the map; an insertion returned r, earlier ones rids. A record too large for a block is
   lost.
   */
  ghost function Apply(m: Records, op: Op, rids: seq<RID>, r: RID): Records
    requires op.Remove? ==> op.k < |rids|
  {
    match op
    case Put(item) => if |item| <= MAX_RECORD then m[r := item] else m
    case Remove(k) => m - {rids[k]}
  }

  /** Insertion i returned an identifier that was not live. */
  ghost predicate NewId(m: Records, ops: seq<Op>, rids: seq<RID>, i: nat)
    requires i < |ops| && i < |rids| && Legal(ops)
  {
    ops[i].Put? ==> rids[i] !in After(m, ops, rids, i)
  }

  lemma {:induction false} AfterPrefix(m: Records, ops: seq<Op>, rids: seq<RID>, r: RID, n: nat)
    requires n <= |ops| && n <= |rids| && Legal(ops)
    ensures After(m, ops, rids + [r], n) == After(m, ops, rids, n)
  {
    if n > 0 {
      assert LegalAt(ops, n - 1);
      AfterPrefix(m, ops, rids, r, n - 1);
      assert (rids + [r])[..n - 1] == rids[..n - 1];
    }
  }

  /** The operation meets the preconditions of table_insert or table_delete. */
  predicate Feasible(op: Op, rids: seq<RID>, length: int) {
    op.Remove? ==> op.k < |rids| && InFile(rids[op.k].addr, length)
  }

  /** The run so far: the records are those of the map, identifiers were new when returned, and their blocks stay. */
  ghost predicate History(m: Records, ops: seq<Op>, rids: seq<RID>, records: Records, length: int) {
    && Legal(ops) && |rids| <= |ops| && records == After(m, ops, rids, |rids|)
    && (forall i | 0 <= i < |rids| :: NewId(m, ops, rids, i))
    && (forall i | 0 <= i < |rids| && ops[i].Put? :: InFile(rids[i].addr, length))
  }

  lemma NextFeasible(m: Records, ops: seq<Op>, rids: seq<RID>, records: Records, length: int, op: Op)
    requires History(m, ops, rids, records, length) && |rids| < |ops| && op == ops[|rids|]
    ensures Feasible(op, rids, length)
  {
    assert LegalAt(ops, |rids|);
  }

  lemma RunStep(m: Records, ops: seq<Op>, rids: seq<RID>, op: Op, r: RID, rids': seq<RID>, records: Records,
                records': Records, length: int, length': int)
    requires History(m, ops, rids, records, length) && |rids| < |ops| && op == ops[|rids|] && rids' == rids + [r]
    requires Feasible(op, rids, length) && records' == Apply(records, op, rids, r) && length <= length'
    requires op.Put? ==> r !in records && InFile(r.addr, length')
    ensures History(m, ops, rids', records', length')
  {
    assert rids'[..|rids|] == rids && LegalAt(ops, |rids|);
    forall i: nat | i <= |rids| ensures After(m, ops, rids', i) == After(m, ops, rids, i) {
      AfterPrefix(m, ops, rids, r, i);
    }
    forall i | 0 <= i < |rids'| ensures NewId(m, ops, rids', i) {
      assert i < |rids| ==> NewId(m, ops, rids, i);
    }
  }

  class Table {
    /** The pages of the data file. */
    var pages: Images
    var length: int
    const fsm: F.FreeSpaceMap
    /** The live records. */
    ghost var records: Records

    ghost predicate Valid()
      reads this, fsm
    {
      && fsm.Valid() && fsm.pins == []
      && Shape(pages, length) && AllOk(pages) && Filing(fsm.Filed(), pages) && Agree(pages, records)
    }

    /** table_init on empty files. */
    constructor ()
      ensures Valid() && records == map[] && fsm.allocs == 0 && fresh(fsm)
    {
      pages, length, records := map[], 0, map[];
      fsm := new F.FreeSpaceMap(F.DIRECTORIES);
      new;
      forall s, a | s in fsm.Filed() ensures Times(fsm.Filed(), s, a) == 0 {
      }
    }

    /**
     * table_insert: the record goes into the block with the least sufficient room,
       or into a new block if there is none.
     * A record that does not fit an empty block is not stored: the new block stays empty,
       and the identifier has index -1.
     */
    method Insert(src: seq<byte>) returns (rid: RID)
      requires Valid() && fsm.allocs < F.PREPARED
      modifies this, fsm
      ensures Valid() && fsm.allocs <= old(fsm.allocs) + 1
      ensures rid !in old(records) && records == With(old(records), rid, src)
      ensures rid in records <==> |src| <= MAX_RECORD
      ensures |src| > MAX_RECORD ==> rid.idx == -1
      ensures BestFitting(old(pages), old(length), |src|, rid.addr, length)
      ensures F.LastOfLeast(old(fsm.rows), |src|, rid.addr)
      ensures records == if |src| <= 118 then old(records)[rid := src] else old(records)
      ensures rid.addr in pages && pages == old(pages)[rid.addr := pages[rid.addr]]
    {
      ghost var bags := fsm.Filed();
      var addr := fsm.PopLowerBound(|src|);
      if addr != -1 {
        Chosen(bags, pages, |src|, addr);
        rid := InsertInto(addr, src, pages - {addr});
      } else {
        NotFound(bags, pages, |src|, length);
        F.NoneFiled(old(fsm.rows), |src|, length);
        rid := InsertNew(src);
      }
    }

    /** The branch of table_insert that has found a block with room. */
    method InsertInto(addr: int, src: seq<byte>, ghost rest: Images) returns (rid: RID)
      requires fsm.Valid() && fsm.pins == [] && fsm.allocs < F.PREPARED
      requires Shape(pages, length) && AllOk(pages) && Agree(pages, records) && addr in pages && Ok(pages[addr])
          && |src| <= Room(pages[addr])
      requires rest == pages - {addr} && AllOk(rest) && Filing(fsm.Filed(), rest)
      modifies this, fsm
      ensures Valid() && fsm.allocs <= old(fsm.allocs) + 1 && length == old(length) && rid.addr == addr
          && rid in records
      ensures rid !in old(records) && records == old(records)[rid := src]
      ensures addr in pages && pages == old(pages)[addr := pages[addr]]
    {
      var block := new Block(pages[addr]);
      var idx, size := PutIn(block, src);
      var b := block.Page();
      var pages' := pages[addr := b];
      rid := RID(addr, idx);
      ghost var records' := records[rid := src];
      RecordPut(pages, records, addr, b, idx, src, pages', records');
      Rejoined(pages, length, addr, b, rest, pages');
      Commit(size, addr, b, rest, pages', length, records');
    }

    /** The branch of table_insert that opens a block at the end of the file, in a frame that may hold anything. */
    method InsertNew(src: seq<byte>) returns (rid: RID)
      requires Valid() && fsm.allocs < F.PREPARED
      modifies this, fsm
      ensures Valid() && fsm.allocs <= old(fsm.allocs) + 1 && length == old(length) + PAGE_SIZE
          && rid.addr == old(length)
      ensures rid !in old(records) && records == With(old(records), rid, src)
      ensures |src| > MAX_RECORD ==> rid.idx == -1
      ensures rid.addr in pages && pages == old(pages)[rid.addr := pages[rid.addr]]
    {
      var addr := length;
      var stale := new byte[DATA];
      var n: int, head: int, tail: int := *, *, *;
      var block := new Block(Image(n, head, tail, stale[..]));
      block.InitBlock();
      assert InFile(addr, length) <==> addr in pages;
      var idx, size := PutIn(block, src);
      var b := block.Page();
      var pages', length' := pages[addr := b], length + PAGE_SIZE;
      rid := RID(addr, idx);
      ghost var records' := With(records, rid, src);
      RecordFirst(pages, records, addr, b, idx, src, pages', records');
      ShapeGrown(pages, addr, b, pages', length');
      Commit(size, addr, b, pages, pages', length', records');
    }

    /** The page of a block goes back to the file, and the block into the free-space map under the room it now has. */
    method Commit(size: int, addr: int, ghost b: Image, ghost rest: Images, pages': Images, length': int,
                  ghost records': Records)
      requires fsm.Valid() && fsm.pins == [] && fsm.allocs < F.PREPARED && F.MIN_SIZE <= size < F.MAX_SIZE
      requires AllOk(rest) && Filing(fsm.Filed(), rest) && addr !in rest && Ok(b) && size == Room(b)
          && pages' == rest[addr := b]
      requires Shape(pages', length') && AllOk(pages') && Agree(pages', records')
      modifies this, fsm
      ensures Valid() && pages == pages' && length == length' && records == records'
      ensures fsm.allocs <= old(fsm.allocs) + 1
    {
      Refile(size, addr, b, rest, pages');
      pages, length, records := pages', length', records';
    }

    /** A block goes back into the free-space map under the room it now has. */
    method Refile(size: int, addr: int, ghost b: Image, ghost rest: Images, ghost pages': Images)
      requires fsm.Valid() && fsm.pins == [] && fsm.allocs < F.PREPARED && F.MIN_SIZE <= size < F.MAX_SIZE
      requires AllOk(rest) && Filing(fsm.Filed(), rest) && addr !in rest && Ok(b) && size == Room(b)
          && pages' == rest[addr := b]
      modifies fsm
      ensures fsm.Valid() && fsm.pins == [] && fsm.allocs <= old(fsm.allocs) + 1
      ensures AllOk(pages') && Filing(fsm.Filed(), pages')
    {
      fsm.Insert(size, addr);
      File(old(fsm.Filed()), rest, addr, b, size, fsm.Filed(), pages');
    }

    /** The part of table_insert that both branches share. */
    method PutIn(block: Block, src: seq<byte>) returns (idx: int, size: int)
      requires Ok(block.Page())
      modifies block, block.data
      ensures Ok(block.Page()) && F.MIN_SIZE <= size == Room(block.Page()) < F.MAX_SIZE
      ensures |src| <= Room(old(block.Page())) ==>
                idx !in Items(old(block.Page())) && Items(block.Page()) == Items(old(block.Page()))[idx := src]
      ensures |src| > Room(old(block.Page())) && old(block.nItems) == 0 ==>
          idx == -1 && block.Page() == old(block.Page())
    {
      idx := block.NewItem(src);
      size := block.GetBlockSize();
      RoomRange(block.Page());
    }

    /** table_delete: a negative address is ignored; a record that is not there leaves the others as they are. */
    method Delete(rid: RID)
      requires Valid() && (rid.addr < 0 || (rid.addr in pages && fsm.allocs < F.PREPARED))
      modifies this, fsm
      ensures Valid() && fsm.allocs <= old(fsm.allocs) + 1 && length == old(length)
      ensures records == old(records) - {rid}
      ensures if rid.addr < 0 then pages == old(pages)
              else rid.addr in pages && pages == old(pages)[rid.addr := pages[rid.addr]]
    {
      var addr := rid.addr;
      if addr < 0 {
        NoRecord(pages, records, length, rid);
        return;
      }
      assert Ok(pages[addr]);
      var block := new Block(pages[addr]);
      var size := block.GetBlockSize();
      block.DeleteItem(rid.idx);
      var b := block.Page();
      ghost var rest := pages - {addr};
      TakeOut(size, addr, pages, rest);
      size := block.GetBlockSize();
      RoomRange(b);
      var pages' := pages[addr := b];
      ghost var records' := records - {rid};
      RecordGone(pages, records, rid, b, pages', records');
      Rejoined(pages, length, addr, b, rest, pages');
      Commit(size, addr, b, rest, pages', length, records');
    }

    /** A block is taken out of the free-space map, where it is filed under the room it has. */
    method TakeOut(size: int, addr: int, ghost before: Images, ghost rest: Images)
      requires fsm.Valid() && fsm.pins == []
      requires AllOk(before) && Filing(fsm.Filed(), before) && addr in before && size == Room(before[addr])
          && rest == before - {addr}
      modifies fsm
      ensures fsm.Valid() && fsm.pins == [] && fsm.allocs == old(fsm.allocs)
      ensures AllOk(rest) && Filing(fsm.Filed(), rest)
    {
      Unfile(fsm.Filed(), before, addr);
      RoomRange(before[addr]);
      ghost var _ := fsm.Pop(size, addr);
    }

    /** Where a live record can be. */
    lemma Live(rid: RID)
      requires Valid() && rid in records
      ensures rid.addr in pages && 0 <= rid.addr < length && 0 <= rid.idx && ITEM_ID * rid.idx + ITEM_ID <= DATA
    {
      RecordBound(pages, records, rid);
      assert InFile(rid.addr, length);
    }

    /** table_read: the bytes of a live record are copied; otherwise nothing is. */
    method Read(rid: RID, dest: array<byte>)
      requires Valid() && rid.addr in pages && 0 <= rid.idx && ITEM_ID * rid.idx + ITEM_ID <= DATA
      requires rid in records ==> |records[rid]| <= dest.Length
      modifies dest
      ensures rid in records ==> dest[..] == records[rid] + old(dest[..])[|records[rid]|..]
      ensures rid !in records ==> dest[..] == old(dest[..])
    {
      assert RecordAt(pages, records, rid);
      assert Ok(pages[rid.addr]);
      var block := new Block(pages[rid.addr]);
      var id := block.ItemId(rid.idx);
      var size := Size(id);
      var item := block.GetItem(rid.idx);
      if item == -1 {
        return;
      }
      assert Slots(block.Page())[rid.idx] == Decode(id);
      ItemBytes(block.Page(), rid.idx, item, size);
      CopyOut(block, item, size, dest, Items(block.Page())[rid.idx]);
    }

    /** The byte-copy loop of table_read. */
    method CopyOut(block: Block, item: int, size: int, dest: array<byte>, ghost record: seq<byte>)
      requires |record| <= dest.Length && dest != block.data && BytesAt(block.data[..], item, size, record)
      modifies dest
      ensures dest[..] == record + old(dest[..])[size..]
    {
      var i := 0;
      while i < size
        invariant 0 <= i <= size
        invariant forall j | 0 <= j < i :: dest[j] == record[j]
        invariant forall j | i <= j < dest.Length :: dest[j] == old(dest[j])
      {
        assert record[i] == block.data[..][item - HEADER..item - HEADER + size][i];
        dest[i] := block.data[item - HEADER + i];
        i := i + 1;
      }
    }

    /** One operation of a run. */
    method Perform(op: Op, rids: seq<RID>) returns (rid: RID)
      requires Valid() && fsm.allocs < F.PREPARED
      requires Feasible(op, rids, length)
      modifies this, fsm
      ensures Valid() && fsm.allocs <= old(fsm.allocs) + 1 && old(length) <= length
      ensures records == Apply(old(records), op, rids, rid)
      ensures op.Put? ==> rid !in old(records) && InFile(rid.addr, length)
    {
      rid := NULL_RID;
      match op {
        case Put(item) =>
          rid := Insert(item);
          assert RecordAt(pages, records, rid);
        case Remove(k) =>
          Delete(rids[k]);
      }
    }

    /**
     Every run of insertions and deletions does to the records what it does to a map. The run is cut short
     only when the last prepared page of the free-space map has been handed out.
     */
    method Run(ops: seq<Op>) returns (rids: seq<RID>)
      requires Valid() && Legal(ops)
      modifies this, fsm
      ensures Valid() && |rids| <= |ops| && (|rids| < |ops| ==> fsm.allocs == F.PREPARED)
      ensures records == After(old(records), ops, rids, |rids|)
      ensures forall i | 0 <= i < |rids| :: NewId(old(records), ops, rids, i)
    {
      rids := [];
      ghost var m := records;
      var more := fsm.HasPage();
      while |rids| < |ops| && more
        invariant Valid() && |rids| <= |ops| && (more <==> fsm.allocs < F.PREPARED)
        invariant History(m, ops, rids, records, length)
        decreases |ops| - |rids|
      {
        ghost var before, live, len := rids, records, length;
        var op := ops[|rids|];
        NextFeasible(m, ops, rids, records, length, op);
        var rid := Perform(op, rids);
        rids := rids + [rid];
        RunStep(m, ops, before, op, rid, rids, live, records, len, length);
        more := fsm.HasPage();
      }
    }
  }
}
