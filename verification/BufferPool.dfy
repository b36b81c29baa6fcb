/** buffer_pool.c over file_io.c: eight frames that cache the pages of a file. */
module BufferPools {
  import opened Storage

  /** The contents of a page. */
  type Page = seq<int>

  datatype FileIOResult = FILE_IO_SUCCESS | INVALID_ADDR | ADDR_OUT_OF_RANGE

  /**
   The state of the pool: the address and reference count of each frame, its page, the file, and what a client sees.
   */
  datatype State = State(addrs: seq<int>, refs: seq<int>, pages: seq<Page>, file: seq<Page>, logical: seq<Page>)

  /** The address of page p. */
  function Addr(p: int): int {
    PAGE_SIZE * p
  }

  ghost predicate Pinned(s: State, p: int)
    requires |s.addrs| == |s.refs|
  {
    exists i :: 0 <= i < |s.addrs| && s.addrs[i] == Addr(p) && s.refs[i] > 0
  }

  /** A frame is empty, or holds a page of the file as the client sees it; an unpinned frame equals its file page. */
  ghost predicate FrameOk(s: State, i: int)
    requires 0 <= i < |s.addrs| == |s.refs| == |s.pages| && |s.file| == |s.logical|
  {
    && s.refs[i] >= 0
    && if s.addrs[i] == -1 then
         s.refs[i] == 0
       else
         var p := s.addrs[i] / PAGE_SIZE;
         s.addrs[i] == Addr(p) && 0 <= p < |s.file| && s.pages[i] == s.logical[p]
           && (s.refs[i] == 0 ==> s.file[p] == s.logical[p])
  }

  /** Two frames do not hold the same page. */
  ghost predicate Apart(s: State, i: int, j: int)
    requires 0 <= i < |s.addrs| && 0 <= j < |s.addrs|
  {
    s.addrs[i] == s.addrs[j] ==> s.addrs[i] == -1
  }

  /** A page that is not pinned is in the file as the client sees it. */
  ghost predicate PageOk(s: State, p: int)
    requires |s.addrs| == |s.refs| && 0 <= p < |s.file| == |s.logical|
  {
    Pinned(s, p) || s.file[p] == s.logical[p]
  }

  ghost predicate Good(s: State) {
    && |s.addrs| == |s.refs| == |s.pages| == CACHE_PAGE && |s.file| == |s.logical|
    && (forall i {:trigger FrameOk(s, i)} | 0 <= i < CACHE_PAGE :: FrameOk(s, i))
    && (forall i, j {:trigger Apart(s, i, j)} | 0 <= i < j < CACHE_PAGE :: Apart(s, i, j))
    && (forall p {:trigger PageOk(s, p)} | 0 <= p < |s.file| :: PageOk(s, p))
  }

  lemma OneFrame(s: State, i: int, j: int)
    requires Good(s) && 0 <= i < CACHE_PAGE && 0 <= j < CACHE_PAGE && s.addrs[i] == s.addrs[j] != -1
    ensures i == j
  {
    assert i < j ==> Apart(s, i, j);
    assert j < i ==> Apart(s, j, i);
  }

  // ----- the steps of the pool on states -----

  /** One more reference to the page in frame i. */
  function Taken(s: State, i: int): State
    requires 0 <= i < |s.refs|
  {
    s.(refs := s.refs[i := s.refs[i] + 1])
  }

  lemma TakenGood(s: State, i: int)
    requires Good(s) && 0 <= i < CACHE_PAGE && s.addrs[i] != -1
    ensures Good(Taken(s, i))
  {
    var t := Taken(s, i);
    forall j | 0 <= j < CACHE_PAGE ensures FrameOk(t, j) {
      assert FrameOk(s, j);
    }
    forall j, k | 0 <= j < k < CACHE_PAGE ensures Apart(t, j, k) {
      assert Apart(s, j, k);
    }
    forall p | 0 <= p < |t.file| ensures PageOk(t, p) {
      assert PageOk(s, p);
      if Pinned(s, p) {
        var j :| 0 <= j < |s.addrs| && s.addrs[j] == Addr(p) && s.refs[j] > 0;
        assert t.addrs[j] == Addr(p) && t.refs[j] > 0;
      }
    }
  }

  /**
   Frame i, which is not pinned, is given to page p of the file, or to a new last page with whatever the frame holds.
   */
  function Loaded(s: State, i: int, p: int): State
    requires 0 <= i < |s.addrs| == |s.refs| == |s.pages| && 0 <= p <= |s.file|
  {
    var s' := s.(addrs := s.addrs[i := Addr(p)], refs := s.refs[i := s.refs[i] + 1]);
    if p < |s.file| then
      s'.(pages := s.pages[i := s.file[p]])
    else
      s'.(file := s.file + [s.pages[i]], logical := s.logical + [s.pages[i]])
  }

  /** The same, spelled out. */
  lemma LoadedIs(s: State, i: int, a: int)
    requires Good(s) && 0 <= i < CACHE_PAGE && s.refs[i] == 0 && 0 <= a <= PAGE_SIZE * |s.file| && a % PAGE_SIZE == 0
    ensures var t := Loaded(s, i, a / PAGE_SIZE);
            && t.refs == s.refs[i := 1] && t.addrs == s.addrs[i := a]
            && if a < PAGE_SIZE * |s.file| then
                 t.file == s.file && t.pages == s.pages[i := s.file[a / PAGE_SIZE]]
               else
                 t.file == s.file + [s.pages[i]] && t.pages == s.pages
    ensures forall j | 0 <= j < CACHE_PAGE && s.refs[j] != 0 :: s.refs[j] > 0
  {
    assert a / PAGE_SIZE < |s.file| <==> a < PAGE_SIZE * |s.file|;
    forall j | 0 <= j < CACHE_PAGE && s.refs[j] != 0 ensures s.refs[j] > 0 {
      assert FrameOk(s, j);
    }
  }

  lemma LoadedGood(s: State, i: int, p: int)
    requires Good(s) && 0 <= i < CACHE_PAGE && s.refs[i] == 0 && 0 <= p <= |s.file|
    requires forall j | 0 <= j < CACHE_PAGE :: s.addrs[j] != Addr(p)
    ensures Good(Loaded(s, i, p))
  {
    var t := Loaded(s, i, p);
    assert Addr(p) / PAGE_SIZE == p;
    if p < |s.file| {
      assert PageOk(s, p);
    }
    forall j | 0 <= j < CACHE_PAGE ensures FrameOk(t, j) {
      assert FrameOk(s, j);
    }
    forall j, k | 0 <= j < k < CACHE_PAGE ensures Apart(t, j, k) {
      assert Apart(s, j, k);
    }
    forall q | 0 <= q < |t.file| ensures PageOk(t, q) {
      if q < |s.file| {
        assert PageOk(s, q);
        if Pinned(s, q) {
          var j :| 0 <= j < |s.addrs| && s.addrs[j] == Addr(q) && s.refs[j] > 0;
          assert t.addrs[j] == Addr(q) && t.refs[j] > 0;
        }
      }
    }
  }

  /** One reference less to the page in frame i, which is written to the file. */
  function Dropped(s: State, i: int): State
    requires 0 <= i < |s.addrs| == |s.refs| == |s.pages|
  {
    var p := s.addrs[i] / PAGE_SIZE;
    s.(refs := s.refs[i := s.refs[i] - 1], file := if 0 <= p < |s.file| then s.file[p := s.pages[i]] else s.file)
  }

  lemma DroppedGood(s: State, i: int)
    requires Good(s) && 0 <= i < CACHE_PAGE && s.refs[i] > 0
    ensures Good(Dropped(s, i))
  {
    var t, p := Dropped(s, i), s.addrs[i] / PAGE_SIZE;
    assert FrameOk(s, i);
    forall j | 0 <= j < CACHE_PAGE ensures FrameOk(t, j) {
      assert FrameOk(s, j);
    }
    forall j, k | 0 <= j < k < CACHE_PAGE ensures Apart(t, j, k) {
      assert Apart(s, j, k);
    }
    forall q | 0 <= q < |t.file| ensures PageOk(t, q) {
      assert PageOk(s, q);
      if q != p && Pinned(s, q) {
        var j :| 0 <= j < |s.addrs| && s.addrs[j] == Addr(q) && s.refs[j] > 0;
        assert t.addrs[j] == Addr(q) && t.refs[j] > 0;
      }
    }
  }

  /** A client writes the page it holds in frame i. */
  function Written(s: State, i: int, page: Page): State
    requires 0 <= i < |s.addrs| == |s.pages|
  {
    var p := s.addrs[i] / PAGE_SIZE;
    s.(pages := s.pages[i := page], logical := if 0 <= p < |s.logical| then s.logical[p := page] else s.logical)
  }

  lemma WrittenGood(s: State, i: int, page: Page)
    requires Good(s) && 0 <= i < CACHE_PAGE && s.refs[i] > 0
    ensures Good(Written(s, i, page))
  {
    var t, p := Written(s, i, page), s.addrs[i] / PAGE_SIZE;
    assert FrameOk(s, i);
    assert s.addrs[i] == Addr(p) && s.refs[i] > 0 && Pinned(s, p);
    forall j | 0 <= j < CACHE_PAGE ensures FrameOk(t, j) {
      assert FrameOk(s, j);
      if j != i && s.addrs[j] == s.addrs[i] {
        OneFrame(s, i, j);
      }
    }
    forall j, k | 0 <= j < k < CACHE_PAGE ensures Apart(t, j, k) {
      assert Apart(s, j, k);
    }
    forall q | 0 <= q < |t.file| ensures PageOk(t, q) {
      assert PageOk(s, q);
      if Pinned(s, q) {
        var j :| 0 <= j < |s.addrs| && s.addrs[j] == Addr(q) && s.refs[j] > 0;
        assert t.addrs[j] == Addr(q) && t.refs[j] > 0;
      }
    }
  }

  // ----- how many frames are pinned -----

  /** The addresses of pinned pages. */
  ghost function PinnedPages(s: State): set<int>
    requires |s.addrs| == |s.refs|
  {
    set i | 0 <= i < |s.addrs| && s.refs[i] > 0 :: s.addrs[i]
  }

  lemma {:induction false} DistinctCard(a: seq<int>)
    requires forall i, j | 0 <= i < j < |a| :: a[i] != a[j]
    ensures |set x | x in a| == |a|
  {
    if a != [] {
      DistinctCard(a[1..]);
      assert (set x | x in a) == {a[0]} + set x | x in a[1..];
      assert a[0] !in a[1..];
    }
  }

  lemma AllPinned(s: State)
    requires Good(s) && forall i | 0 <= i < CACHE_PAGE :: s.refs[i] != 0
    ensures |PinnedPages(s)| == CACHE_PAGE
  {
    forall i, j | 0 <= i < j < CACHE_PAGE ensures s.addrs[i] != s.addrs[j] {
      assert Apart(s, i, j) && FrameOk(s, i);
    }
    DistinctCard(s.addrs);
    forall x | x in s.addrs ensures x in PinnedPages(s) {
      var i :| 0 <= i < |s.addrs| && s.addrs[i] == x;
      assert FrameOk(s, i);
    }
    assert (set x | x in s.addrs) == PinnedPages(s);
  }

  /** With fewer than eight pages pinned, a frame is free. */
  lemma FrameFree(s: State)
    requires Good(s) && |PinnedPages(s)| < CACHE_PAGE
    ensures exists i :: 0 <= i < CACHE_PAGE && s.refs[i] == 0
  {
    if forall i | 0 <= i < CACHE_PAGE :: s.refs[i] != 0 {
      AllPinned(s);
    }
  }

  /** Page p is in the file as the client sees it, or a frame from i on holds it. */
  ghost predicate Flushed(s: State, file: seq<Page>, p: int, i: int)
    requires 0 <= p < |file| == |s.logical|
  {
    file[p] == s.logical[p] || exists j :: 0 <= i <= j < |s.addrs| && s.addrs[j] == Addr(p)
  }

  /** Two frames with the same address: they are one, or both empty. */
  lemma Matching(s: State, i: int, k: int)
    requires Good(s) && 0 <= i < CACHE_PAGE && -1 <= k < CACHE_PAGE
        && (k != -1 ==> s.addrs[i] == s.addrs[k] && s.refs[k] > 0)
    ensures k == -1 || i == k
    ensures s.addrs[i] != -1 ==> s.addrs[i] % PAGE_SIZE == 0 && 0 <= s.addrs[i] < PAGE_SIZE * |s.file|
    ensures s.refs[i] >= 0 && (s.addrs[i] == -1 ==> s.refs[i] == 0)
  {
    assert FrameOk(s, i);
    if k != -1 {
      assert FrameOk(s, k);
      OneFrame(s, i, k);
    }
  }

  class BufferPool {
    const addrs: array<int>
    const ref: array<int>
    const upd: array<int>
    const pages: array<Page>
    /** The pages of the file. */
    var file: seq<Page>
    /** What a client sees: the contents last written to each page. */
    ghost var logical: seq<Page>

    ghost function Now(): State
      reads this, addrs, ref, pages
    {
      State(addrs[..], ref[..], pages[..], file, logical)
    }

    ghost predicate Valid()
      reads this, addrs, ref, upd, pages
    {
      && addrs != ref && addrs != upd && ref != upd && upd.Length == CACHE_PAGE
      && Good(Now())
    }

    /** init_buffer_pool */
    constructor (file: seq<Page>)
      ensures Valid() && this.file == file && logical == file && PinnedPages(Now()) == {}
      ensures fresh(addrs) && fresh(ref) && fresh(upd) && fresh(pages)
      ensures forall i | 0 <= i < CACHE_PAGE :: addrs[i] == -1 && ref[i] == 0 && upd[i] == 0
    {
      this.file, logical := file, file;
      addrs := new int[CACHE_PAGE](_ => -1);
      ref := new int[CACHE_PAGE](_ => 0);
      upd := new int[CACHE_PAGE](_ => 0);
      pages := new Page[CACHE_PAGE](_ => []);
      new;
      forall i | 0 <= i < CACHE_PAGE ensures FrameOk(Now(), i) {
      }
    }

    /** read_page */
    method ReadPage(frame: int, addr: int) returns (r: FileIOResult)
      requires 0 <= frame < pages.Length
      modifies pages
      ensures r == (if addr % PAGE_SIZE != 0 then INVALID_ADDR else if addr < 0 || addr >= PAGE_SIZE * |file| then
                    ADDR_OUT_OF_RANGE else FILE_IO_SUCCESS)
      ensures pages[..] == if r == FILE_IO_SUCCESS then old(pages[..])[frame := file[addr / PAGE_SIZE]]
          else old(pages[..])
    {
      if addr % PAGE_SIZE != 0 {
        return INVALID_ADDR;
      }
      if addr < 0 || addr >= PAGE_SIZE * |file| {
        return ADDR_OUT_OF_RANGE;
      }
      pages[frame] := file[addr / PAGE_SIZE];
      return FILE_IO_SUCCESS;
    }

    /** write_page: a page written at the end of the file makes the file longer. */
    method WritePage(frame: int, addr: int)
      requires 0 <= frame < pages.Length
      modifies this`file
      ensures addr % PAGE_SIZE != 0 || addr < 0 || addr > PAGE_SIZE * |old(file)| ==> file == old(file)
      ensures addr % PAGE_SIZE == 0 && addr == PAGE_SIZE * |old(file)| ==> file == old(file) + [pages[frame]]
      ensures addr % PAGE_SIZE == 0 && 0 <= addr < PAGE_SIZE * |old(file)|
          ==> file == old(file)[addr / PAGE_SIZE := pages[frame]]
    {
      if addr % PAGE_SIZE != 0 {
        return;
      }
      if addr < 0 || addr > PAGE_SIZE * |file| {
        return;
      }
      if addr == PAGE_SIZE * |file| {
        file := file + [pages[frame]];
      } else {
        file := file[addr / PAGE_SIZE := pages[frame]];
      }
    }

    /** get_page: the frame of the page, or -1 if it is not cached and every frame is pinned. */
    method GetPage(addr: int) returns (frame: int)
      requires Valid() && addr % PAGE_SIZE == 0 && 0 <= addr <= PAGE_SIZE * |file|
      modifies this, ref, addrs, upd, pages
      ensures Valid()
      ensures frame == -1 <==> addr !in old(addrs[..]) && forall i | 0 <= i < CACHE_PAGE :: old(ref[i]) > 0
      ensures frame == -1 ==> Now() == old(Now())
      ensures frame != -1 ==> 0 <= frame < CACHE_PAGE && addrs[frame] == addr
      ensures frame != -1 ==> addr / PAGE_SIZE < |logical| && pages[frame] == logical[addr / PAGE_SIZE]
      ensures frame != -1 ==> logical == if addr < PAGE_SIZE * |old(file)| then old(logical)
          else old(logical) + [pages[frame]]
      ensures frame != -1 ==> Now() == if addr in old(addrs[..]) then Taken(old(Now()), frame)
          else Loaded(old(Now()), frame, addr / PAGE_SIZE)
      ensures frame != -1 && addr !in old(addrs[..]) ==> old(ref[frame]) == 0
      ensures forall j | 0 <= j < CACHE_PAGE && old(ref[j]) > 0 ::
          addrs[j] == old(addrs[j]) && pages[j] == old(pages[j]) && ref[j] >= old(ref[j])
      ensures |PinnedPages(old(Now()))| < CACHE_PAGE ==> frame != -1
      ensures addr in old(addrs[..]) ==>
                && frame != -1 && ref[..] == old(ref[..])[frame := old(ref[frame]) + 1] && file == old(file)
                && addrs[..] == old(addrs[..]) && pages[..] == old(pages[..]) && upd[..] == old(upd[..])
      ensures addr !in old(addrs[..]) && frame != -1 ==>
                forall j | 0 <= j < frame :: old(ref[j]) > 0
      ensures addr !in old(addrs[..]) && frame != -1 ==>
                && ref[..] == old(ref[..])[frame := 1] && addrs[..] == old(addrs[..])[frame := addr]
                && upd[..] == old(upd[..])[frame := if old(upd[frame]) == 1 then 0 else old(upd[frame])]
                && 0 <= addr / PAGE_SIZE < |file|
                && if addr < PAGE_SIZE * |old(file)| then
                     file == old(file) && pages[..] == old(pages[..])[frame := old(file)[addr / PAGE_SIZE]]
                   else
                     file == old(file) + [pages[frame]] && pages[..] == old(pages[..])
    {
      ghost var s := Now();
      var i := 0;
      while i != CACHE_PAGE
        invariant 0 <= i <= CACHE_PAGE && forall j | 0 <= j < i :: addrs[j] != addr
      {
        if addrs[i] == addr {
          ref[i] := ref[i] + 1;
          TakenGood(s, i);
          ghost var p := addr / PAGE_SIZE;
          assert FrameOk(s, i);
          assert s.addrs[i] == addr && p < |s.file| && s.pages[i] == s.logical[p];
          assert Now() == Taken(s, i);
          return i;
        }
        i := i + 1;
      }
      i := 0;
      while i != CACHE_PAGE
        invariant 0 <= i <= CACHE_PAGE && Now() == s && upd[..] == old(upd[..])
        invariant forall j | 0 <= j < i :: ref[j] != 0
      {
        if ref[i] == 0 {
          Load(i, addr);
          assert FrameOk(Now(), i);
          LoadedIs(s, i, addr);
          return i;
        }
        i := i + 1;
      }
      NoneFree(s);
      return -1;
    }

    /** The part of get_page that gives an unpinned frame to another page. */
    method Load(i: int, addr: int)
      requires Valid() && addr % PAGE_SIZE == 0 && 0 <= addr <= PAGE_SIZE * |file| && addr !in addrs[..]
      requires 0 <= i < CACHE_PAGE && ref[i] == 0
      modifies this, ref, addrs, upd, pages
      ensures Valid() && Now() == Loaded(old(Now()), i, addr / PAGE_SIZE)
      ensures upd[..] == old(upd[..])[i := if old(upd[i]) == 1 then 0 else old(upd[i])]
    {
      ghost var s := Now();
      if upd[i] == 1 {
        WriteBack(i);
        upd[i] := 0;
      }
      var r := ReadPage(i, addr);
      if r == ADDR_OUT_OF_RANGE {
        WritePage(i, addr);
        logical := logical + [pages[i]];
      }
      addrs[i] := addr;
      ref[i] := ref[i] + 1;
      LoadedGood(s, i, addr / PAGE_SIZE);
    }

    /** Writing back an unpinned frame changes nothing: it equals its file page. */
    method WriteBack(i: int)
      requires Good(Now()) && 0 <= i < CACHE_PAGE && ref[i] == 0
      modifies this`file
      ensures Now() == old(Now())
    {
      assert FrameOk(Now(), i);
      WritePage(i, addrs[i]);
    }

    /** release */
    method Release(addr: int)
      requires Valid()
      modifies this, ref, upd
      ensures Valid() && logical == old(logical)
      ensures forall i | 0 <= i < CACHE_PAGE && addrs[i] == addr && old(ref[i]) > 0 :: Now() == Dropped(old(Now()), i)
      ensures (forall i | 0 <= i < CACHE_PAGE && addrs[i] == addr :: old(ref[i]) == 0) ==> Now() == old(Now())
      ensures forall i | 0 <= i < CACHE_PAGE && addrs[i] == addr && old(ref[i]) > 0 ::
                && ref[..] == old(ref[..])[i := old(ref[i]) - 1] && 0 <= addr / PAGE_SIZE < |old(file)|
                && file == old(file)[addr / PAGE_SIZE := pages[i]]
      ensures forall i | 0 <= i < CACHE_PAGE :: upd[i] == if addrs[i] == addr then 0 else old(upd[i])
    {
      ghost var s := Now();
      var i := 0;
      ghost var k := -1;
      while i != CACHE_PAGE
        invariant 0 <= i <= CACHE_PAGE && -1 <= k < i && logical == old(logical)
        invariant if k == -1 then Now() == s else s.addrs[k] == addr && s.refs[k] > 0 && Now() == Dropped(s, k)
        invariant k == -1 ==> forall j | 0 <= j < i && s.addrs[j] == addr :: s.refs[j] == 0
        invariant forall j | 0 <= j < CACHE_PAGE :: upd[j] == if j < i && addrs[j] == addr then 0 else old(upd[j])
      {
        if addrs[i] == addr {
          Matching(s, i, k);
          if ref[i] > 0 {
            ref[i] := ref[i] - 1;
            WritePage(i, addrs[i]);
            k := i;
          }
          upd[i] := 0;
        }
        i := i + 1;
      }
      if k != -1 {
        DroppedGood(s, k);
        forall j | 0 <= j < CACHE_PAGE && s.addrs[j] == addr && s.refs[j] > 0 ensures j == k {
          Matching(s, j, k);
        }
        Matching(s, k, -1);
        assert s.addrs[k] == addr;
      }
    }

    /** close_buffer_pool: every frame is written, pinned or not. */
    method Close()
      requires Valid()
      modifies this`file
      ensures file == logical
    {
      ghost var s := Now();
      var i := 0;
      forall p | 0 <= p < |file| ensures Flushed(s, file, p, i) {
        assert PageOk(s, p);
      }
      while i != CACHE_PAGE
        invariant 0 <= i <= CACHE_PAGE && |file| == |logical|
        invariant forall p {:trigger Flushed(s, file, p, i)} | 0 <= p < |file| :: Flushed(s, file, p, i)
      {
        ghost var before, last := file, i;
        assert FrameOk(s, i);
        WritePage(i, addrs[i]);
        i := i + 1;
        forall p | 0 <= p < |file| ensures Flushed(s, file, p, i) {
          assert Flushed(s, before, p, last);
        }
      }
      forall p | 0 <= p < |file| ensures file[p] == logical[p] {
        assert Flushed(s, file, p, CACHE_PAGE);
      }
    }

    /** update */
    method Update(addr: int)
      requires Valid()
      modifies upd
      ensures Valid() && Now() == old(Now())
      ensures forall j | 0 <= j < CACHE_PAGE :: upd[j] == if addrs[j] == addr then 1 else old(upd[j])
    {
      var i := 0;
      while i != CACHE_PAGE
        invariant 0 <= i <= CACHE_PAGE && Now() == old(Now())
        invariant forall j | 0 <= j < CACHE_PAGE :: upd[j] == if j < i && addrs[j] == addr then 1 else old(upd[j])
      {
        if addrs[i] == addr {
          upd[i] := 1;
        }
        i := i + 1;
      }
    }

    /** A client writes to a page it has pinned. */
    method Write(i: int, page: Page)
      requires Valid() && 0 <= i < CACHE_PAGE && ref[i] > 0
      modifies this`logical, pages
      ensures Valid() && Now() == Written(old(Now()), i, page)
      ensures pages[..] == old(pages[..])[i := page]
      ensures 0 <= addrs[i] / PAGE_SIZE < |old(logical)| && logical == old(logical)[addrs[i] / PAGE_SIZE := page]
    {
      ghost var s := Now();
      WrittenGood(s, i, page);
      assert FrameOk(s, i);
      pages[i] := page;
      logical := Written(s, i, page).logical;
    }
  }

  lemma NoneFree(s: State)
    requires Good(s) && forall j | 0 <= j < CACHE_PAGE :: s.refs[j] != 0
    ensures |PinnedPages(s)| == CACHE_PAGE && forall j | 0 <= j < CACHE_PAGE :: s.refs[j] > 0
  {
    AllPinned(s);
    forall j | 0 <= j < CACHE_PAGE ensures s.refs[j] > 0 {
      assert FrameOk(s, j);
    }
  }
}
