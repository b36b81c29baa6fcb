/**
 The pins of the free-space map in the buffer pool: a pool that holds them, and nothing else, never runs out of
 frames.
 */
module PoolPins {
  import opened Storage
  import opened BufferPools
  import F = FreeSpaceMaps

  /** Frame i counts the pins of the page it holds. */
  ghost predicate Counts(s: State, pins: seq<int>, i: int)
    requires 0 <= i < |s.addrs| == |s.refs|
  {
    s.addrs[i] != -1 ==> s.refs[i] == multiset(pins)[s.addrs[i]]
  }

  ghost predicate Cached(s: State, a: int) {
    a != -1 && exists i :: 0 <= i < |s.addrs| && s.addrs[i] == a
  }

  /** The reference counts of the pool are those of the pins. */
  ghost predicate Matches(s: State, pins: seq<int>) {
    && Good(s)
    && (forall i {:trigger Counts(s, pins, i)} | 0 <= i < CACHE_PAGE :: Counts(s, pins, i))
    && forall a | a in pins :: Cached(s, a)
  }

  /** A pool in which nothing is pinned. */
  lemma MatchesNone(s: State)
    requires Good(s) && PinnedPages(s) == {}
    ensures Matches(s, [])
  {
    forall i | 0 <= i < CACHE_PAGE ensures Counts(s, [], i) {
      assert FrameOk(s, i);
      PinnedFrame(s, i);
    }
  }

  lemma PinnedFrame(s: State, i: int)
    requires |s.addrs| == |s.refs| && 0 <= i < |s.addrs|
    ensures s.refs[i] > 0 ==> s.addrs[i] in PinnedPages(s)
  {
  }

  lemma PinMore(pins: seq<int>, a: int, b: int)
    ensures multiset(pins + [a])[b] == multiset(pins)[b] + if a == b then 1 else 0
  {
  }

  /** A cached page is pinned once more. */
  lemma MatchesTaken(s: State, pins: seq<int>, i: int, a: int)
    requires Matches(s, pins) && 0 <= i < CACHE_PAGE && s.addrs[i] == a != -1
    ensures Matches(Taken(s, i), pins + [a])
  {
    var t := Taken(s, i);
    TakenGood(s, i);
    forall j | 0 <= j < CACHE_PAGE ensures Counts(t, pins + [a], j) {
      assert Counts(s, pins, j);
      PinMore(pins, a, s.addrs[j]);
      if s.addrs[j] == a {
        OneFrame(s, i, j);
      }
    }
    forall b | b in pins + [a] ensures Cached(t, b) {
      assert b in pins ==> Cached(s, b);
      assert t.addrs == s.addrs && s.addrs[i] == a;
    }
  }

  /** An unpinned frame is given to another page, which is pinned. */
  lemma MatchesLoaded(s: State, pins: seq<int>, i: int, p: int, a: int)
    requires Matches(s, pins) && 0 <= i < CACHE_PAGE && s.refs[i] == 0 && 0 <= p <= |s.file| && a == Addr(p)
    requires forall j | 0 <= j < CACHE_PAGE :: s.addrs[j] != a
    ensures Matches(Loaded(s, i, p), pins + [a])
  {
    var t := Loaded(s, i, p);
    LoadedGood(s, i, p);
    assert a in pins ==> Cached(s, a);
    assert a !in pins && multiset(pins)[a] == 0;
    forall j | 0 <= j < CACHE_PAGE ensures Counts(t, pins + [a], j) {
      assert Counts(s, pins, j);
      PinMore(pins, a, t.addrs[j]);
    }
    assert Counts(s, pins, i) && t.addrs[i] == a;
    forall b | b in pins + [a] ensures Cached(t, b) {
      if b != a {
        StillCached(s, pins, i, t, b);
      }
    }
  }

  /** A pinned page is not in the frame that changes hands. */
  lemma StillCached(s: State, pins: seq<int>, i: int, t: State, b: int)
    requires Matches(s, pins) && b in pins && 0 <= i < CACHE_PAGE && s.refs[i] == 0
    requires |t.addrs| == CACHE_PAGE && forall j | 0 <= j < CACHE_PAGE && j != i :: t.addrs[j] == s.addrs[j]
    ensures Cached(t, b)
  {
    assert Cached(s, b);
    var j :| 0 <= j < CACHE_PAGE && s.addrs[j] == b;
    assert Counts(s, pins, j) && multiset(pins)[b] > 0;
    assert t.addrs[j] == b;
  }

  /** The newest pin is released. */
  lemma MatchesDropped(s: State, pins: seq<int>, i: int, a: int)
    requires Matches(s, pins + [a]) && 0 <= i < CACHE_PAGE && s.addrs[i] == a
    ensures s.refs[i] > 0 && Matches(Dropped(s, i), pins)
  {
    assert Counts(s, pins + [a], i) && Cached(s, a) && a in pins + [a];
    PinMore(pins, a, a);
    var t := Dropped(s, i);
    DroppedGood(s, i);
    forall j | 0 <= j < CACHE_PAGE ensures Counts(t, pins, j) {
      assert Counts(s, pins + [a], j);
      PinMore(pins, a, s.addrs[j]);
      if s.addrs[j] == a {
        OneFrame(s, i, j);
      }
    }
    forall b | b in pins ensures Cached(t, b) {
      assert b in pins + [a] && Cached(s, b) && t.addrs == s.addrs;
    }
  }

  /** A client's writing leaves the pins as they are. */
  lemma MatchesWritten(s: State, pins: seq<int>, i: int, page: Page)
    requires Matches(s, pins) && 0 <= i < CACHE_PAGE && s.refs[i] > 0
    ensures Matches(Written(s, i, page), pins)
  {
    var t := Written(s, i, page);
    WrittenGood(s, i, page);
    forall j | 0 <= j < CACHE_PAGE ensures Counts(t, pins, j) {
      assert Counts(s, pins, j);
    }
    forall b | b in pins ensures Cached(t, b) {
      assert Cached(s, b) && t.addrs == s.addrs;
    }
  }

  /** The pinned pages of the pool are the pages with a pin. */
  lemma SamePins(s: State, pins: seq<int>)
    requires Matches(s, pins)
    ensures PinnedPages(s) == F.Pinned(pins)
  {
    forall a | a in PinnedPages(s) ensures a in pins {
      var i :| 0 <= i < CACHE_PAGE && s.refs[i] > 0 && s.addrs[i] == a;
      assert FrameOk(s, i) && Counts(s, pins, i);
    }
    forall a | a in pins ensures a in PinnedPages(s) {
      assert Cached(s, a);
      var i :| 0 <= i < CACHE_PAGE && s.addrs[i] == a;
      assert Counts(s, pins, i) && multiset(pins)[a] > 0;
    }
  }

  /** With the free-space map's pins, of at most five pages, a frame is free. */
  lemma NeverFull(s: State, pins: seq<int>)
    requires Matches(s, pins) && |F.Pinned(pins)| <= 5
    ensures |PinnedPages(s)| < CACHE_PAGE && exists i :: 0 <= i < CACHE_PAGE && s.refs[i] == 0
  {
    SamePins(s, pins);
    FrameFree(s);
  }

  /** get_page as the free-space map calls it: the pool has a frame for the page. */
  method Pin(pool: BufferPool, a: int, ghost pins: seq<int>) returns (frame: int)
    requires pool.Valid() && Matches(pool.Now(), pins) && |F.Pinned(pins + [a])| <= 5
    requires a % PAGE_SIZE == 0 && 0 <= a <= PAGE_SIZE * |pool.file|
    modifies pool, pool.ref, pool.addrs, pool.upd, pool.pages
    ensures pool.Valid() && Matches(pool.Now(), pins + [a])
    ensures 0 <= frame < CACHE_PAGE && pool.addrs[frame] == a
    ensures a / PAGE_SIZE < |pool.logical| && pool.pages[frame] == pool.logical[a / PAGE_SIZE]
  {
    ghost var s := pool.Now();
    FewerPins(pins, a);
    NeverFull(s, pins);
    frame := pool.GetPage(a);
    if a in s.addrs {
      MatchesTaken(s, pins, frame, a);
    } else {
      MatchesLoaded(s, pins, frame, a / PAGE_SIZE, a);
    }
  }

  lemma FewerPins(pins: seq<int>, a: int)
    requires |F.Pinned(pins + [a])| <= 5
    ensures |F.Pinned(pins)| <= 5
  {
    var P, Q := F.Pinned(pins), F.Pinned(pins + [a]);
    assert forall x | x in P :: x in pins + [a];
    assert P + (Q - P) == Q && P * (Q - P) == {};
  }

  /** release of the newest pin. */
  method Unpin(pool: BufferPool, a: int, ghost pins: seq<int>)
    requires pool.Valid() && Matches(pool.Now(), pins + [a])
    modifies pool, pool.ref, pool.upd
    ensures pool.Valid() && Matches(pool.Now(), pins) && pool.logical == old(pool.logical)
  {
    ghost var s := pool.Now();
    assert a in pins + [a] && Cached(s, a);
    ghost var i :| 0 <= i < CACHE_PAGE && s.addrs[i] == a;
    MatchesDropped(s, pins, i, a);
    pool.Release(a);
  }
}
