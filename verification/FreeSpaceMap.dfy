/** The free-space map of hash_map.c: pages of 64-bit words, one chain of pages for each size. */
module FreeSpaceMaps {
  import opened Storage

  const WORDS := 16          // HASH_MAP_DIR_BLOCK_SIZE
  const ROOM := 14           // HASH_MAP_BLOCK_SIZE
  const DIRECTORIES := 8     // n_directory_blocks of every table
  const MAX_SIZE := 128      // HASH_MAP_DIR_BLOCK_SIZE * n_directory_blocks
  const MIN_SIZE := -4
  const FIRST := 9           // number of the first chain page
  const PREPARED := 200000   // chain pages made by hash_table_init
  const U64 := 0x1_0000_0000_0000_0000

  // words of the control page
  const HEAD := 0
  const N_DIR := 1
  const LIMIT := 2
  const LAST := 3
  // words of a chain page
  const NEXT := 0
  const COUNT := 1
  const TABLE := 2

  /** The directory page of a size, in the 64-bit unsigned arithmetic of the source. */
  function DirPage(size: int): int {
    (size % U64 / WORDS + 1) * PAGE_SIZE % U64
  }

  function DirWord(size: int): int {
    size % U64 % WORDS
  }

  /** Negative sizes wrap to words 12..15 of page 0; the others follow from page 128 on. */
  lemma Location(size: int)
    requires MIN_SIZE <= size < MAX_SIZE
    ensures size < 0 ==> DirPage(size) == 0 && DirWord(size) == WORDS + size
    ensures size >= 0 ==> DirPage(size) == (size / WORDS + 1) * PAGE_SIZE && DirWord(size) == size % WORDS
    ensures 0 <= DirPage(size) < FIRST * PAGE_SIZE && 0 <= DirWord(size) < WORDS
    ensures DirPage(size) == 0 ==> DirWord(size) >= 12
  {
    if size < 0 {
      assert size % U64 == U64 + size;
      assert (U64 + size) / WORDS == U64 / WORDS - 1;
    } else {
      assert size % U64 == size;
    }
  }

  /** Different sizes have different directory words, none of them a control word. */
  lemma LocationInjective(s: int, t: int)
    requires MIN_SIZE <= s < MAX_SIZE && MIN_SIZE <= t < MAX_SIZE && s != t
    ensures DirPage(s) != DirPage(t) || DirWord(s) != DirWord(t)
  {
    Location(s);
    Location(t);
  }

  /** The words of a page. */
  type Words = s: seq<int> | |s| == WORDS witness seq(WORDS, _ => 0)

  type Pages = map<int, Words>

  /** The chain ch holds the addresses s, fourteen to a page, every page but the last full. */
  ghost predicate ChainOk(pages: Pages, ch: seq<int>, s: seq<int>) {
    && (s == [] <==> ch == [])
    && (ch != [] ==> ROOM * (|ch| - 1) < |s|) && |s| <= ROOM * |ch|
    && forall q {:trigger PageOk(pages, ch, s, q)} | 0 <= q < |ch| :: PageOk(pages, ch, s, q)
  }

  ghost predicate PageOk(pages: Pages, ch: seq<int>, s: seq<int>, q: int)
    requires 0 <= q < |ch|
  {
    var count := if q + 1 < |ch| then ROOM else |s| - ROOM * q;
    && ch[q] in pages && 0 <= count <= ROOM && ROOM * q + count <= |s|
    && pages[ch[q]][NEXT] == (if q + 1 < |ch| then ch[q + 1] else 0)
    && pages[ch[q]][COUNT] == count
    && pages[ch[q]][TABLE..TABLE + count] == s[ROOM * q..ROOM * q + count]
  }

  ghost predicate Sizes<T>(m: map<int, T>) {
    forall b :: b in m <==> MIN_SIZE <= b < MAX_SIZE
  }

  /** The chains' pages are distinct, and have all been handed out already. */
  ghost predicate Apart(chains: map<int, seq<int>>, head: int) {
    && (forall b, q | b in chains && 0 <= q < |chains[b]| :: FIRST * PAGE_SIZE <= chains[b][q] < head)
    && (forall b, q, c, r {:trigger Differ(chains[b], q, chains[c], r)} |
          b in chains && c in chains && 0 <= q < |chains[b]| && 0 <= r < |chains[c]| && (b != c || q != r) ::
          Differ(chains[b], q, chains[c], r))
  }

  ghost predicate Differ(c: seq<int>, q: int, d: seq<int>, r: int)
    requires 0 <= q < |c| && 0 <= r < |d|
  {
    c[q] != d[r]
  }

  /** The pages from number n on, up to the last prepared one, are linked, empty and unused. */
  ghost predicate Fresh(pages: Pages, n: int) {
    forall k | n <= k < FIRST + PREPARED ::
      PAGE_SIZE * k in pages && pages[PAGE_SIZE * k][NEXT] == PAGE_SIZE * (k + 1) && pages[PAGE_SIZE * k][COUNT] == 0
  }

  /** Control and directory pages: the free list starts at page n, each size points at its chain. */
  ghost predicate Rooted(pages: Pages, chains: map<int, seq<int>>, n: int) {
    && 0 in pages
    && pages[0][HEAD] == PAGE_SIZE * n && pages[0][LIMIT] == MAX_SIZE
      && pages[0][LAST] == PAGE_SIZE * (FIRST + PREPARED)
    && (forall b | b in chains :: DirPage(b) in pages)
    && (forall b | b in chains && 0 <= DirWord(b) < WORDS :: pages[DirPage(b)][DirWord(b)] == if chains[b] == [] then 0
        else chains[b][0])
  }

  ghost predicate Ok(pages: Pages, chains: map<int, seq<int>>, rows: map<int, seq<int>>, allocs: nat) {
    && Sizes(chains) && Sizes(rows) && allocs <= PREPARED
    && Rooted(pages, chains, FIRST + allocs)
    && Fresh(pages, FIRST + allocs)
    && Apart(chains, PAGE_SIZE * (FIRST + allocs))
    && forall b | b in chains :: ChainOk(pages, chains[b], rows[b])
  }

  /** A chain whose pages have not been written is as it was. */
  lemma ChainKept(pages: Pages, pages': Pages, ch: seq<int>, s: seq<int>)
    requires ChainOk(pages, ch, s) && forall q | 0 <= q < |ch| && ch[q] in pages ::
        ch[q] in pages' && pages'[ch[q]] == pages[ch[q]]
    ensures ChainOk(pages', ch, s)
  {
    forall q | 0 <= q < |ch| ensures PageOk(pages', ch, s, q) {
      assert PageOk(pages, ch, s, q);
    }
  }

  /** The control word HEAD and one directory word have been written. */
  lemma RootedSet(pages: Pages, pages': Pages, chains: map<int, seq<int>>, n: int, b: int, ch: seq<int>, n': int)
    requires Sizes(chains) && Rooted(pages, chains, n) && b in chains
    requires forall a | a in pages && a < FIRST * PAGE_SIZE && a != 0 && a != DirPage(b) ::
        a in pages' && pages'[a] == pages[a]
    requires var d, w := DirPage(b), DirWord(b);
             && 0 in pages' && d in pages' && 0 <= w < WORDS
             && pages'[0][HEAD] == PAGE_SIZE * n'
             && (forall k | 1 <= k < WORDS && (d != 0 || k != w) :: pages'[0][k] == pages[0][k])
             && pages'[d][w] == (if ch == [] then 0 else ch[0])
             && (d != 0 ==> forall k | 0 <= k < WORDS && k != w :: pages'[d][k] == pages[d][k])
    ensures Rooted(pages', chains[b := ch], n')
  {
    Location(b);
    forall c | c in chains
      ensures DirPage(c) in pages'
      ensures 0 <= DirWord(c) < WORDS && pages'[DirPage(c)][DirWord(c)] == if chains[b := ch][c] == [] then 0
          else chains[b := ch][c][0]
    {
      Location(c);
      if c != b {
        LocationInjective(b, c);
      }
    }
  }

  /** One size's chain has been rewritten; everything else is as it was. */
  lemma Replaced(pages: Pages, pages': Pages, chains: map<int, seq<int>>, rows: map<int, seq<int>>, allocs: nat,
                 b: int, ch: seq<int>, s: seq<int>, allocs': nat)
    requires Ok(pages, chains, rows, allocs) && b in chains && allocs <= allocs' <= allocs + 1 && allocs' <= PREPARED
    requires ch == chains[b] || (ch == chains[b] + [PAGE_SIZE * (FIRST + allocs)] && allocs' == allocs + 1)
          || (chains[b] != [] && ch == chains[b][..|chains[b]| - 1])
    requires ChainOk(pages', ch, s) && Rooted(pages', chains[b := ch], FIRST + allocs')
    requires forall a | a in pages && a != 0 && a != DirPage(b) && a != PAGE_SIZE * (FIRST + PREPARED)
        && a !in chains[b] && a != PAGE_SIZE * (FIRST + allocs) ::
               a in pages' && pages'[a] == pages[a]
    requires allocs' == allocs < PREPARED ==> var a := PAGE_SIZE * (FIRST + allocs);
        a in pages && a in pages' && pages'[a] == pages[a]
    ensures Ok(pages', chains[b := ch], rows[b := s], allocs')
  {
    Location(b);
    ReplacedFresh(pages, pages', chains, rows, allocs, b, allocs');
    ReplacedApart(chains, allocs, b, ch, allocs');
    forall c | c in chains && c != b ensures ChainOk(pages', chains[c], rows[c]) {
      forall q | 0 <= q < |chains[c]| && chains[c][q] in pages
        ensures chains[c][q] in pages' && pages'[chains[c][q]] == pages[chains[c][q]]
      {
        assert FIRST * PAGE_SIZE <= chains[c][q] < PAGE_SIZE * (FIRST + allocs);
        forall r | 0 <= r < |chains[b]| ensures chains[b][r] != chains[c][q] {
          assert Differ(chains[b], r, chains[c], q);
        }
      }
      ChainKept(pages, pages', chains[c], rows[c]);
    }
  }

  lemma ReplacedFresh(pages: Pages, pages': Pages, chains: map<int, seq<int>>, rows: map<int, seq<int>>, allocs: nat,
                      b: int, allocs': nat)
    requires Ok(pages, chains, rows, allocs) && b in chains && allocs <= allocs' <= allocs + 1
    requires forall a | a in pages && a != 0 && a != DirPage(b) && a != PAGE_SIZE * (FIRST + PREPARED)
        && a !in chains[b] && a != PAGE_SIZE * (FIRST + allocs) ::
               a in pages' && pages'[a] == pages[a]
    requires allocs' == allocs < PREPARED ==> var a := PAGE_SIZE * (FIRST + allocs);
        a in pages && a in pages' && pages'[a] == pages[a]
    ensures Fresh(pages', FIRST + allocs')
  {
    Location(b);
    forall k | FIRST + allocs' <= k < FIRST + PREPARED ensures PAGE_SIZE * k in pages'
      && pages'[PAGE_SIZE * k] == pages[PAGE_SIZE * k] {
      assert PAGE_SIZE * k in pages;
      assert forall r | 0 <= r < |chains[b]| :: chains[b][r] < PAGE_SIZE * (FIRST + allocs);
    }
  }

  lemma ReplacedApart(chains: map<int, seq<int>>, allocs: nat, b: int, ch: seq<int>, allocs': nat)
    requires Apart(chains, PAGE_SIZE * (FIRST + allocs)) && b in chains && allocs <= allocs'
    requires ch == chains[b] || (ch == chains[b] + [PAGE_SIZE * (FIRST + allocs)] && allocs' == allocs + 1)
          || (chains[b] != [] && ch == chains[b][..|chains[b]| - 1])
    ensures Apart(chains[b := ch], PAGE_SIZE * (FIRST + allocs'))
  {
    var chains' := chains[b := ch];
    forall c, q, d, r | c in chains' && d in chains' && 0 <= q < |chains'[c]| && 0 <= r < |chains'[d]|
      && (c != d || q != r)
      ensures Differ(chains'[c], q, chains'[d], r)
    {
      if q < |chains[c]| && r < |chains[d]| {
        assert Differ(chains[c], q, chains[d], r);
      }
    }
  }

  // ----- what happens to one chain -----

  /** A first page for an empty size. */
  lemma ChainStarted(pages: Pages, a: int, x: int)
    requires a in pages && pages[a][NEXT] == 0 && pages[a][COUNT] == 1 && pages[a][TABLE] == x
    ensures ChainOk(pages, [a], [x])
  {
    assert pages[a][TABLE..TABLE + 1] == [x];
  }

  /** An address goes into the last page. */
  lemma ChainAppended(pages: Pages, pages': Pages, ch: seq<int>, s: seq<int>, x: int)
    requires ChainOk(pages, ch, s) && ch != [] && |s| < ROOM * |ch| && Distinct(ch)
    requires var l := ch[|ch| - 1]; var n := |s| - ROOM * (|ch| - 1);
             && l in pages && l in pages' && pages'[l] == pages[l][TABLE + n := x][COUNT := n + 1]
             && forall a | a in pages && a != l :: a in pages' && pages'[a] == pages[a]
    ensures ChainOk(pages', ch, s + [x])
  {
    forall q | 0 <= q < |ch| ensures PageOk(pages', ch, s + [x], q) {
      assert PageOk(pages, ch, s, q);
      if q + 1 < |ch| {
        assert (s + [x])[ROOM * q..ROOM * q + ROOM] == s[ROOM * q..ROOM * q + ROOM];
      } else {
        var l, n := ch[q], |s| - ROOM * q;
        assert pages'[l][TABLE..TABLE + n + 1] == pages[l][TABLE..TABLE + n] + [x];
        assert (s + [x])[ROOM * q..ROOM * q + n + 1] == s[ROOM * q..ROOM * q + n] + [x];
      }
    }
  }

  ghost predicate Distinct(ch: seq<int>) {
    forall q, r | 0 <= q < r < |ch| :: ch[q] != ch[r]
  }

  /** A further page is linked after a full last one. */
  lemma ChainExtended(pages: Pages, pages': Pages, ch: seq<int>, s: seq<int>, a: int, x: int)
    requires ChainOk(pages, ch, s) && ch != [] && |s| == ROOM * |ch| && Distinct(ch) && a !in ch
    requires var l := ch[|ch| - 1];
             && l in pages && l in pages' && pages'[l] == pages[l][NEXT := a]
             && a in pages' && pages'[a][NEXT] == 0 && pages'[a][COUNT] == 1 && pages'[a][TABLE] == x
             && forall c | c in pages && c != l && c != a :: c in pages' && pages'[c] == pages[c]
    ensures ChainOk(pages', ch + [a], s + [x])
  {
    var ch', s' := ch + [a], s + [x];
    forall q | 0 <= q < |ch'| ensures PageOk(pages', ch', s', q) {
      if q < |ch| {
        assert PageOk(pages, ch, s, q);
        assert s'[ROOM * q..ROOM * q + ROOM] == s[ROOM * q..ROOM * q + ROOM];
        assert pages'[ch[q]][TABLE..TABLE + ROOM] == pages[ch[q]][TABLE..TABLE + ROOM];
      } else {
        assert pages'[a][TABLE..TABLE + 1] == [x] == s'[ROOM * q..ROOM * q + 1];
      }
    }
  }

  /** Swap-with-last removal of position t, as far as the pages of the chain go. */
  function Swapped(pages: Pages, x: int, k: int, l: int, n: int): Pages
    requires x in pages && l in pages && 0 <= k < ROOM && 1 <= n <= ROOM
  {
    var p1 := pages[x := pages[x][TABLE + k := pages[l][TABLE + n - 1]]];
    p1[l := p1[l][TABLE + n - 1 := 0][COUNT := n - 1]]
  }

  function Without(s: seq<int>, t: int): seq<int>
    requires 0 <= t < |s|
  {
    s[t := s[|s| - 1]][..|s| - 1]
  }

  lemma WithoutLast(s: seq<int>)
    requires s != []
    ensures Without(s, |s| - 1) == s[..|s| - 1]
  {
  }

  lemma WithoutBag(s: seq<int>, t: int)
    requires 0 <= t < |s|
    ensures multiset(Without(s, t)) == multiset(s) - multiset{s[t]}
  {
    var m := |s| - 1;
    var u := s[t := s[m]];
    assert u == Without(s, t) + [s[m]];
    assert multiset(Without(s, t) + [s[m]]) == multiset(Without(s, t)) + multiset{s[m]};
    assert multiset(u) == multiset(s) - multiset{s[t]} + multiset{s[m]};
    Cancel(multiset(Without(s, t)), multiset(s) - multiset{s[t]}, s[m]);
  }

  lemma Cancel(a: multiset<int>, b: multiset<int>, x: int)
    requires a + multiset{x} == b + multiset{x}
    ensures a == b
  {
    forall y ensures a[y] == b[y] {
      assert (a + multiset{x})[y] == (b + multiset{x})[y];
    }
  }

  lemma WithoutSlice(s: seq<int>, t: int, lo: int, hi: int)
    requires 0 <= t < |s| && 0 <= lo <= hi < |s|
    ensures Without(s, t)[lo..hi] == if lo <= t < hi then s[lo..hi][t - lo := s[|s| - 1]] else s[lo..hi]
  {
  }

  lemma ChainShrunk(pages: Pages, ch: seq<int>, s: seq<int>, q0: int, k0: int)
    requires ChainOk(pages, ch, s) && Distinct(ch) && 0 <= q0 < |ch| && 0 <= k0 < ROOM && ROOM * q0 + k0 < |s|
    ensures var l := ch[|ch| - 1]; var n := |s| - ROOM * (|ch| - 1);
            && 1 <= n <= ROOM && l in pages && ch[q0] in pages
            && pages[l][NEXT] == 0 && pages[l][COUNT] == n && pages[ch[q0]][TABLE + k0] == s[ROOM * q0 + k0]
            && var pages' := Swapped(pages, ch[q0], k0, l, n);
            && (n > 1 ==> ChainOk(pages', ch, Without(s, ROOM * q0 + k0)))
            && (n == 1 && |ch| == 1 ==> Without(s, ROOM * q0 + k0) == [])
            && (n == 1 && |ch| > 1 ==>
                 var c := ch[|ch| - 2];
                 c in pages' &&
                 ChainOk(pages'[c := pages'[c][NEXT := 0]], ch[..|ch| - 1], Without(s, ROOM * q0 + k0)))
  {
    var l, n, t := ch[|ch| - 1], |s| - ROOM * (|ch| - 1), ROOM * q0 + k0;
    assert PageOk(pages, ch, s, |ch| - 1);
    assert PageOk(pages, ch, s, q0);
    var s', pages' := Without(s, t), Swapped(pages, ch[q0], k0, l, n);
    assert pages[l][TABLE + n - 1] == pages[l][TABLE..TABLE + n][n - 1] == s[|s| - 1];
    assert pages[ch[q0]][TABLE + k0] == s[t] by {
      var count := if q0 + 1 < |ch| then ROOM else n;
      assert pages[ch[q0]][TABLE..TABLE + count][k0] == s[ROOM * q0..ROOM * q0 + count][k0];
    }
    if n > 1 {
      forall q | 0 <= q < |ch| ensures PageOk(pages', ch, s', q) {
        ShrunkPage(pages, ch, s, q0, k0, q);
      }
    } else if |ch| > 1 {
      ChainCut(pages, ch, s, q0, k0, n, t);
    }
  }

  /** The emptied last page is cut off. */
  lemma ChainCut(pages: Pages, ch: seq<int>, s: seq<int>, q0: int, k0: int, n: int, t: int)
    requires ChainOk(pages, ch, s) && Distinct(ch) && 0 <= q0 < |ch| && 0 <= k0 < ROOM && t == ROOM * q0 + k0 < |s|
    requires n == |s| - ROOM * (|ch| - 1) == 1 && |ch| > 1 && ch[|ch| - 1] in pages && ch[q0] in pages
    requires pages[ch[|ch| - 1]][TABLE + n - 1] == s[|s| - 1]
    ensures var pages', c := Swapped(pages, ch[q0], k0, ch[|ch| - 1], n), ch[|ch| - 2];
            c in pages' && ChainOk(pages'[c := pages'[c][NEXT := 0]], ch[..|ch| - 1], Without(s, t))
  {
    var pages', s', c, ch' := Swapped(pages, ch[q0], k0, ch[|ch| - 1], n), Without(s, t), ch[|ch| - 2], ch[..|ch| - 1];
    assert PageOk(pages, ch, s, |ch| - 2);
    var pages2 := pages'[c := pages'[c][NEXT := 0]];
    forall q | 0 <= q < |ch'| ensures PageOk(pages2, ch', s', q) {
      ShrunkPage(pages, ch, s, q0, k0, q);
      assert pages2[ch[q]][TABLE..TABLE + ROOM] == pages'[ch[q]][TABLE..TABLE + ROOM];
    }
  }

  lemma ShrunkPage(pages: Pages, ch: seq<int>, s: seq<int>, q0: int, k0: int, q: int)
    requires ChainOk(pages, ch, s) && Distinct(ch) && 0 <= q0 < |ch| && 0 <= k0 < ROOM && ROOM * q0 + k0 < |s|
        && 0 <= q < |ch|
    requires var l := ch[|ch| - 1]; var n := |s| - ROOM * (|ch| - 1);
             && l in pages && ch[q0] in pages && 1 <= n <= ROOM
             && pages[l][TABLE + n - 1] == s[|s| - 1]
    ensures var n := |s| - ROOM * (|ch| - 1); var pages' := Swapped(pages, ch[q0], k0, ch[|ch| - 1], n);
            var s' := Without(s, ROOM * q0 + k0); var count := if q + 1 < |ch| then ROOM else n - 1;
            && ch[q] in pages && ch[q] in pages' && ROOM * q + count <= |s'|
            && pages'[ch[q]][NEXT] == pages[ch[q]][NEXT] && pages'[ch[q]][COUNT] == count
            && pages'[ch[q]][TABLE..TABLE + count] == s'[ROOM * q..ROOM * q + count]
            && (q + 1 < |ch| ==> pages[ch[q]][NEXT] == ch[q + 1])
            && (q + 1 == |ch| ==> pages[ch[q]][NEXT] == 0)
  {
    assert PageOk(pages, ch, s, q);
    var l, n, t := ch[|ch| - 1], |s| - ROOM * (|ch| - 1), ROOM * q0 + k0;
    var s', pages' := Without(s, t), Swapped(pages, ch[q0], k0, l, n);
    var full, count := if q + 1 < |ch| then ROOM else n, if q + 1 < |ch| then ROOM else n - 1;
    var w, w' := pages[ch[q]], pages'[ch[q]];
    Shorten(w, s, ROOM * q, full, count);
    assert (ch[q] == ch[q0] <==> q == q0) && (ch[q] == l <==> q + 1 == |ch|);
    SwappedTable(w, w', q == q0, k0, s[|s| - 1], q + 1 == |ch|, n, count);
    WithoutSlice(s, t, ROOM * q, ROOM * q + count);
  }

  lemma Shorten(w: Words, s: seq<int>, lo: int, full: int, count: int)
    requires 0 <= count <= full <= ROOM && 0 <= lo && lo + full <= |s| && w[TABLE..TABLE + full] == s[lo..lo + full]
    ensures w[TABLE..TABLE + count] == s[lo..lo + count]
  {
    assert w[TABLE..TABLE + count] == w[TABLE..TABLE + full][..count];
    assert s[lo..lo + count] == s[lo..lo + full][..count];
  }

  /** What the swap does to the words of one page: the page of the removed address, the last page, or both. */
  lemma SwappedTable(w: Words, w': Words, hit: bool, k0: int, v: int, last: bool, n: int, count: int)
    requires 0 <= k0 < ROOM && 1 <= n <= ROOM && count == if last then n - 1 else ROOM
    requires var w1 := if hit then w[TABLE + k0 := v] else w;
             w' == if last then w1[TABLE + n - 1 := 0][COUNT := n - 1] else w1
    ensures w'[NEXT] == w[NEXT] && w'[COUNT] == if last then count else w[COUNT]
    ensures w'[TABLE..TABLE + count] == if hit && k0 < count then w[TABLE..TABLE + count][k0 := v]
        else w[TABLE..TABLE + count]
  {
  }

  // ----- whole-map steps -----

  function Set(pages: Pages, a: int, w: int, v: int): Pages
    requires a in pages && 0 <= w < |pages[a]|
  {
    pages[a := pages[a][w := v]]
  }

  lemma ChainDistinct(chains: map<int, seq<int>>, head: int, b: int)
    requires Apart(chains, head) && b in chains
    ensures Distinct(chains[b]) && head !in chains[b]
  {
    forall q, r | 0 <= q < r < |chains[b]| ensures chains[b][q] != chains[b][r] {
      assert Differ(chains[b], q, chains[b], r);
    }
  }

  /** What the caller may rely on before touching the pages of size b. */
  lemma Here(pages: Pages, chains: map<int, seq<int>>, rows: map<int, seq<int>>, allocs: nat, b: int)
    requires Ok(pages, chains, rows, allocs) && b in chains
    ensures 0 in pages && DirPage(b) in pages
    ensures 0 <= DirWord(b) < WORDS && 0 <= DirPage(b) < FIRST * PAGE_SIZE && (DirPage(b) == 0 ==> DirWord(b) >= 12)
    ensures pages[DirPage(b)][DirWord(b)] == if chains[b] == [] then 0 else chains[b][0]
    ensures chains[b] == [] <==> rows[b] == []
    ensures forall q | 0 <= q < |chains[b]| ::
              chains[b][q] in pages && FIRST * PAGE_SIZE <= chains[b][q] < PAGE_SIZE * (FIRST + allocs)
    ensures pages[0][HEAD] == PAGE_SIZE * (FIRST + allocs) && pages[0][LAST] == PAGE_SIZE * (FIRST + PREPARED)
    ensures allocs < PREPARED ==>
              var a := PAGE_SIZE * (FIRST + allocs);
              a in pages && pages[a][NEXT] == PAGE_SIZE * (FIRST + allocs + 1) && pages[a][COUNT] == 0
                && a !in chains[b]
  {
    Location(b);
    ChainDistinct(chains, PAGE_SIZE * (FIRST + allocs), b);
    assert ChainOk(pages, chains[b], rows[b]);
    forall q | 0 <= q < |chains[b]|
      ensures chains[b][q] in pages
    {
      assert PageOk(pages, chains[b], rows[b], q);
    }
    if allocs < PREPARED {
      var k := FIRST + allocs;
      assert PAGE_SIZE * k in pages;
    }
  }

  /** There is no room in the pages of the chain. */
  ghost predicate Full(ch: seq<int>, s: seq<int>) {
    ch == [] || |s| - ROOM * (|ch| - 1) == ROOM
  }

  /** The last page is full exactly when the number of addresses is a multiple of a page's room. */
  lemma Fullness(pages: Pages, ch: seq<int>, s: seq<int>)
    requires ChainOk(pages, ch, s)
    ensures ch != [] ==> 1 <= |s| - ROOM * (|ch| - 1) <= ROOM
    ensures |s| % ROOM == 0 <==> Full(ch, s)
    ensures |s| % ROOM == 1 <==> ch != [] && |s| - ROOM * (|ch| - 1) == 1
  {
    if ch != [] {
      var n := |s| - ROOM * (|ch| - 1);
      assert |s| == ROOM * (|ch| - 1) + n;
    }
  }

  /** The fields of page q of a chain. */
  lemma ChainPage(pages: Pages, ch: seq<int>, s: seq<int>, q: int)
    requires ChainOk(pages, ch, s) && 0 <= q < |ch|
    ensures ch[q] in pages
    ensures pages[ch[q]][NEXT] == if q + 1 < |ch| then ch[q + 1] else 0
    ensures pages[ch[q]][COUNT] == if q + 1 < |ch| then ROOM else |s| - ROOM * q
    ensures 1 <= pages[ch[q]][COUNT] <= ROOM && ROOM * q + pages[ch[q]][COUNT] <= |s|
  {
    assert PageOk(pages, ch, s, q);
  }

  /** The words of the file for one size: its directory word, and the link, count and addresses of each chain page. */
  lemma FileFormat(pages: Pages, chains: map<int, seq<int>>, rows: map<int, seq<int>>, allocs: nat, b: int)
    requires Ok(pages, chains, rows, allocs) && -4 <= b < 128
    ensures b in chains && b in rows
    ensures var d, w := if b < 0 then 0 else 128 * (b / 16 + 1), if b < 0 then 16 + b else b % 16;
            d in pages && pages[d][w] == if chains[b] == [] then 0 else chains[b][0]
    ensures forall q | 0 <= q < |chains[b]| ::
              chains[b][q] in pages && ChainWords(pages[chains[b][q]], chains[b], rows[b], q)
  {
    Here(pages, chains, rows, allocs, b);
    Location(b);
    forall q | 0 <= q < |chains[b]|
      ensures chains[b][q] in pages && ChainWords(pages[chains[b][q]], chains[b], rows[b], q)
    {
      ChainPage(pages, chains[b], rows[b], q);
      assert PageOk(pages, chains[b], rows[b], q);
    }
  }

  /** Page q of a chain: the next page or 0, the number of addresses, and those addresses. */
  ghost predicate ChainWords(page: Words, ch: seq<int>, s: seq<int>, q: int) {
    var n := if q + 1 < |ch| then 14 else |s| - 14 * q;
    && 0 <= q < |ch| && 1 <= n <= 14 && 14 * q + n <= |s|
    && page[0] == (if q + 1 < |ch| then ch[q + 1] else 0) && page[1] == n && page[2..2 + n] == s[14 * q..14 * q + n]
  }

  /** The pages after a size receives its first address x. */
  function Started(pages: Pages, d: int, w: int, a: int, x: int): Pages
    requires 0 in pages && d in pages && a in pages && a != 0 && a != d && 0 <= w < WORDS
  {
    var p := Set(Set(pages, d, w, a), 0, HEAD, pages[a][NEXT]);
    Set(Set(Set(p, a, NEXT, 0), a, TABLE, x), a, COUNT, pages[a][COUNT] + 1)
  }

  lemma StartedOk(pages: Pages, chains: map<int, seq<int>>, rows: map<int, seq<int>>, allocs: nat, b: int, x: int)
    requires Ok(pages, chains, rows, allocs) && b in chains && chains[b] == [] && allocs < PREPARED
    ensures var a := PAGE_SIZE * (FIRST + allocs); var d, w := DirPage(b), DirWord(b);
            && 0 in pages && d in pages && a in pages && a != 0 && a != d && 0 <= w < WORDS
            && Ok(Started(pages, d, w, a, x), chains[b := chains[b] + [a]], rows[b := rows[b] + [x]], allocs + 1)
  {
    Here(pages, chains, rows, allocs, b);
    var a, d, w := PAGE_SIZE * (FIRST + allocs), DirPage(b), DirWord(b);
    var pages' := Started(pages, d, w, a, x);
    ChainStarted(pages', a, x);
    RootedSet(pages, pages', chains, FIRST + allocs, b, [a], FIRST + allocs + 1);
    assert chains[b] + [a] == [a] && rows[b] + [x] == [x];
    Replaced(pages, pages', chains, rows, allocs, b, [a], [x], allocs + 1);
  }

  /** An address goes into a last page that has room. */
  lemma AppendedOk(pages: Pages, chains: map<int, seq<int>>, rows: map<int, seq<int>>, allocs: nat, b: int, x: int)
    requires Ok(pages, chains, rows, allocs) && b in chains && chains[b] != [] && |rows[b]| < ROOM * |chains[b]|
    ensures var ch := chains[b]; var l := ch[|ch| - 1]; var n := |rows[b]| - ROOM * (|ch| - 1);
            && l in pages && 0 <= n < ROOM
            && Ok(Set(Set(pages, l, TABLE + n, x), l, COUNT, n + 1), chains, rows[b := rows[b] + [x]], allocs)
  {
    Here(pages, chains, rows, allocs, b);
    ChainDistinct(chains, PAGE_SIZE * (FIRST + allocs), b);
    var ch := chains[b];
    var l, n := ch[|ch| - 1], |rows[b]| - ROOM * (|ch| - 1);
    ChainPage(pages, ch, rows[b], |ch| - 1);
    var pages' := Set(Set(pages, l, TABLE + n, x), l, COUNT, n + 1);
    ChainAppended(pages, pages', ch, rows[b], x);
    RootedSet(pages, pages', chains, FIRST + allocs, b, ch, FIRST + allocs);
    Replaced(pages, pages', chains, rows, allocs, b, ch, rows[b] + [x], allocs);
    assert chains[b := ch] == chains;
  }

  /** The pages after a further page a is linked behind the full page l. */
  function Extended(pages: Pages, l: int, a: int, x: int): Pages
    requires 0 in pages && l in pages && a in pages && a != 0 && a != l && l != 0
  {
    var p := Set(Set(pages, l, NEXT, a), 0, HEAD, pages[a][NEXT]);
    Set(Set(Set(p, a, NEXT, 0), a, TABLE, x), a, COUNT, pages[a][COUNT] + 1)
  }

  lemma ExtendedOk(pages: Pages, chains: map<int, seq<int>>, rows: map<int, seq<int>>, allocs: nat, b: int, x: int)
    requires Ok(pages, chains, rows, allocs) && b in chains && chains[b] != [] && |rows[b]| == ROOM * |chains[b]|
        && allocs < PREPARED
    ensures var ch := chains[b]; var l := ch[|ch| - 1]; var a := PAGE_SIZE * (FIRST + allocs);
            && 0 in pages && l in pages && a in pages && a != 0 && a != l && l != 0
            && Ok(Extended(pages, l, a, x), chains[b := ch + [a]], rows[b := rows[b] + [x]], allocs + 1)
  {
    Here(pages, chains, rows, allocs, b);
    ChainDistinct(chains, PAGE_SIZE * (FIRST + allocs), b);
    var ch := chains[b];
    var l, a := ch[|ch| - 1], PAGE_SIZE * (FIRST + allocs);
    var pages' := Extended(pages, l, a, x);
    ExtendedChain(pages, ch, rows[b], a, x);
    RootedSet(pages, pages', chains, FIRST + allocs, b, ch + [a], FIRST + allocs + 1);
    Replaced(pages, pages', chains, rows, allocs, b, ch + [a], rows[b] + [x], allocs + 1);
  }

  lemma ExtendedChain(pages: Pages, ch: seq<int>, s: seq<int>, a: int, x: int)
    requires ChainOk(pages, ch, s) && ch != [] && |s| == ROOM * |ch| && Distinct(ch) && a !in ch && 0 !in ch && a != 0
    requires 0 in pages && a in pages && ch[|ch| - 1] in pages
    requires pages[a][COUNT] == 0
    ensures ChainOk(Extended(pages, ch[|ch| - 1], a, x), ch + [a], s + [x])
  {
    var pages0 := Set(pages, 0, HEAD, pages[a][NEXT]);
    assert forall q | 0 <= q < |ch| :: ch[q] in ch;
    ChainKept(pages, pages0, ch, s);
    ChainExtended(pages0, Extended(pages, ch[|ch| - 1], a, x), ch, s, a, x);
  }

  lemma ChainItem(pages: Pages, ch: seq<int>, s: seq<int>, q: int, k: int)
    requires ChainOk(pages, ch, s) && 0 <= q < |ch| && ch[q] in pages
    requires 0 <= k < pages[ch[q]][COUNT]
    ensures ROOM * q + k < |s| && k < ROOM && pages[ch[q]][TABLE + k] == s[ROOM * q + k]
  {
    assert PageOk(pages, ch, s, q);
    var n := pages[ch[q]][COUNT];
    assert pages[ch[q]][TABLE..TABLE + n][k] == s[ROOM * q..ROOM * q + n][k];
  }

  /**
   Among the first m addresses, addr was last seen as item k of page q of the chain; target is 0 if it was not seen.
   */
  ghost predicate Seen(s: seq<int>, addr: int, m: int, ch: seq<int>, target: int, k: int, q: int) {
    if target == 0 then
      forall i | 0 <= i < m && i < |s| :: s[i] != addr
    else
      0 <= q < |ch| && target == ch[q] && 0 <= k < ROOM && ROOM * q + k < m && ROOM * q + k < |s|
        && s[ROOM * q + k] == addr && forall i | ROOM * q + k < i < m && i < |s| :: s[i] != addr
  }

  /** Address t is the last one equal to addr. */
  ghost predicate LastAt(s: seq<int>, addr: int, t: int) {
    0 <= t < |s| && s[t] == addr && forall i | t < i < |s| :: s[i] != addr
  }

  /** What an operation on one size sees: chain ch with addresses s, its directory word, and the next free page a. */
  ghost predicate Site(pages: Pages, ch: seq<int>, s: seq<int>, a: int, d: int, w: int) {
    && 0 in pages && pages[0][HEAD] == a && d in pages
    && 0 <= w < WORDS && (d == 0 ==> w >= 12) && a != 0 && a != d
    && pages[d][w] == (if ch == [] then 0 else ch[0])
    && ChainOk(pages, ch, s) && 0 !in ch && d !in ch
  }

  ghost predicate FreePage(pages: Pages, ch: seq<int>, a: int) {
    a in pages && a !in ch
  }

  lemma SiteOf(pages: Pages, chains: map<int, seq<int>>, rows: map<int, seq<int>>, allocs: nat, b: int)
    requires Ok(pages, chains, rows, allocs) && b in chains
    ensures Site(pages, chains[b], rows[b], PAGE_SIZE * (FIRST + allocs), DirPage(b), DirWord(b))
    ensures allocs < PREPARED ==> FreePage(pages, chains[b], PAGE_SIZE * (FIRST + allocs))
    ensures Distinct(chains[b]) && pages[0][LAST] == PAGE_SIZE * (FIRST + PREPARED)
        && PAGE_SIZE * (FIRST + PREPARED) !in chains[b]
    ensures DirPage(b) < FIRST * PAGE_SIZE
  {
    Here(pages, chains, rows, allocs, b);
    ChainDistinct(chains, PAGE_SIZE * (FIRST + allocs), b);
  }

  /** Whether the next address of size b needs a page of its own. */
  ghost predicate NeedsPage(rows: map<int, seq<int>>, b: int) {
    b in rows && |rows[b]| % ROOM == 0
  }

  /** The chains after an insertion, which takes page a if it needs one. */
  ghost function Longer(chains: map<int, seq<int>>, rows: map<int, seq<int>>, b: int, a: int): map<int, seq<int>>
    requires b in chains
  {
    if NeedsPage(rows, b) then chains[b := chains[b] + [a]] else chains
  }

  /** The number of pages handed out after an insertion. */
  ghost function Taken(rows: map<int, seq<int>>, b: int, allocs: nat): nat {
    if NeedsPage(rows, b) then allocs + 1 else allocs
  }

  /** The pages after an insertion. */
  ghost predicate Inserted(pages: Pages, pages': Pages, ch: seq<int>, s: seq<int>, a: int, d: int, w: int, x: int) {
    if ch == [] then
      && 0 in pages && d in pages && a in pages && a != 0 && a != d && 0 <= w < WORDS
      && pages' == Started(pages, d, w, a, x)
    else
      Lengthened(pages, pages', ch[|ch| - 1], |s| - ROOM * (|ch| - 1), a, x)
  }

  /** An address has gone into the last page l, which holds n, or into a page a behind it. */
  ghost predicate Lengthened(pages: Pages, pages': Pages, l: int, n: int, a: int, x: int) {
    if n == ROOM then
      && 0 in pages && l in pages && a in pages && a != 0 && a != l && l != 0
      && pages' == Extended(pages, l, a, x)
    else
      Appended(pages, pages', l, n, x)
  }

  ghost predicate Appended(pages: Pages, pages': Pages, l: int, n: int, x: int) {
    && l in pages && 0 <= n < ROOM
    && pages' == Set(Set(pages, l, TABLE + n, x), l, COUNT, n + 1)
  }

  lemma InsertedOk(pages: Pages, pages': Pages, chains: map<int, seq<int>>, rows: map<int, seq<int>>, allocs: nat,
                   b: int, x: int, a: int, chains': map<int, seq<int>>, rows': map<int, seq<int>>, allocs': nat)
    requires Ok(pages, chains, rows, allocs) && b in chains && (NeedsPage(rows, b) ==> allocs < PREPARED)
    requires a == PAGE_SIZE * (FIRST + allocs) && Inserted(pages, pages', chains[b], rows[b], a, DirPage(b),
                                                           DirWord(b), x)
    requires chains' == Longer(chains, rows, b, a) && rows' == rows[b := rows[b] + [x]]
        && allocs' == Taken(rows, b, allocs)
    ensures Ok(pages', chains', rows', allocs')
  {
    Fullness(pages, chains[b], rows[b]);
    if chains[b] == [] {
      StartedOk(pages, chains, rows, allocs, b, x);
    } else if |rows[b]| == ROOM * |chains[b]| {
      ExtendedOk(pages, chains, rows, allocs, b, x);
    } else {
      AppendedOk(pages, chains, rows, allocs, b, x);
    }
  }

  /** Removal of one address that does not empty the last page. */
  lemma SwappedOk(pages: Pages, chains: map<int, seq<int>>, rows: map<int, seq<int>>, allocs: nat, b: int, q0: int,
                  k0: int)
    requires Ok(pages, chains, rows, allocs) && b in chains && 0 <= q0 < |chains[b]| && 0 <= k0 < ROOM
        && ROOM * q0 + k0 < |rows[b]|
    requires |rows[b]| - ROOM * (|chains[b]| - 1) > 1
    ensures var ch := chains[b]; var l := ch[|ch| - 1]; var n := |rows[b]| - ROOM * (|ch| - 1);
            && ch[q0] in pages && l in pages && n <= ROOM
            && Ok(Swapped(pages, ch[q0], k0, l, n), chains, rows[b := Without(rows[b], ROOM * q0 + k0)], allocs)
  {
    Here(pages, chains, rows, allocs, b);
    ChainDistinct(chains, PAGE_SIZE * (FIRST + allocs), b);
    var ch := chains[b];
    ChainShrunk(pages, ch, rows[b], q0, k0);
    var pages' := Swapped(pages, ch[q0], k0, ch[|ch| - 1], |rows[b]| - ROOM * (|ch| - 1));
    assert ch[q0] in ch && ch[|ch| - 1] in ch;
    RootedSet(pages, pages', chains, FIRST + allocs, b, ch, FIRST + allocs);
    Replaced(pages, pages', chains, rows, allocs, b, ch, Without(rows[b], ROOM * q0 + k0), allocs);
    assert chains[b := ch] == chains;
  }

  /** The chain without its emptied last page. */
  lemma UnlinkedChain(pages: Pages, pages': Pages, ch: seq<int>, s: seq<int>, d: int, w: int, z: int, q0: int, k0: int,
                      v: Words, ch': seq<int>, s': seq<int>, t: int)
    requires ChainOk(pages, ch, s) && Distinct(ch) && d !in ch && z !in ch && 0 !in ch
    requires 0 <= q0 < |ch| && 0 <= k0 < ROOM && t == ROOM * q0 + k0 < |s| && |s| - ROOM * (|ch| - 1) == 1
    requires Removed(pages, pages', ch, s, d, w, z, q0, k0, v) && ch' == ch[..|ch| - 1] && s' == Without(s, t)
    ensures ChainOk(pages', ch', s')
  {
    ChainShrunk(pages, ch, s, q0, k0);
    var l, swapped := ch[|ch| - 1], Swapped(pages, ch[q0], k0, ch[|ch| - 1], 1);
    assert ch[q0] in ch && l in ch;
    if |ch| == 1 {
      assert s' == [];
    } else {
      var c := ch[|ch| - 2];
      assert c in ch;
      var pages2 := swapped[c := swapped[c][NEXT := 0]];
      forall q | 0 <= q < |ch'| && ch'[q] in pages2 ensures ch'[q] in pages' && pages'[ch'[q]] == pages2[ch'[q]] {
        assert ch'[q] == ch[q] != l;
      }
      ChainKept(pages2, pages', ch', s');
    }
  }

  /** The last page has been emptied and unlinked, and page z made to point at the page the address was in. */
  lemma UnlinkedOk(pages: Pages, pages': Pages, chains: map<int, seq<int>>, rows: map<int, seq<int>>, allocs: nat,
                   b: int, q0: int, k0: int, v: Words)
    requires Ok(pages, chains, rows, allocs) && b in chains && 0 <= q0 < |chains[b]| && 0 <= k0 < ROOM
        && ROOM * q0 + k0 < |rows[b]|
    requires |rows[b]| - ROOM * (|chains[b]| - 1) == 1
    requires Removed(pages, pages', chains[b], rows[b], DirPage(b), DirWord(b), PAGE_SIZE * (FIRST + PREPARED), q0, k0,
                     v)
    ensures Ok(pages', chains[b := chains[b][..|chains[b]| - 1]], rows[b := Without(rows[b], ROOM * q0 + k0)], allocs)
  {
    Here(pages, chains, rows, allocs, b);
    ChainDistinct(chains, PAGE_SIZE * (FIRST + allocs), b);
    var ch := chains[b];
    var ch', s' := ch[..|ch| - 1], Without(rows[b], ROOM * q0 + k0);
    assert forall q | 0 <= q < |ch| :: ch[q] in ch;
    UnlinkedChain(pages, pages', ch, rows[b], DirPage(b), DirWord(b), PAGE_SIZE * (FIRST + PREPARED), q0, k0, v, ch',
                  s', ROOM * q0 + k0);
    RootedSet(pages, pages', chains, FIRST + allocs, b, ch', FIRST + allocs);
    Replaced(pages, pages', chains, rows, allocs, b, ch', s', allocs);
  }

  /** Page l is cut off: from its predecessor c, or from directory word w of page d if it has none. */
  function Cut(pages: Pages, l: int, c: int, d: int, w: int): Pages
    requires d in pages && 0 <= w < WORDS && l in pages && (c != 0 ==> c in pages)
  {
    Set(if c == 0 then Set(pages, d, w, 0) else Set(pages, c, NEXT, 0), l, NEXT, 0)
  }

  /**
   * Item k of page x is replaced by the last of the n items of page l; if that empties l, it is cut off and page z
   * is overwritten with v.
   */
  ghost predicate TakenOut(pages: Pages, pages': Pages, l: int, c: int, x: int, k: int, n: int, d: int, w: int, z: int,
                           v: Words) {
    && x in pages && l in pages && d in pages && 0 <= w < WORDS && (c != 0 ==> c in pages) && 0 <= k < ROOM
      && 1 <= n <= ROOM
    && if n == 1 then
         pages' == Cut(Swapped(pages, x, k, l, 1), l, c, d, w)[z := v]
       else
         pages' == Swapped(pages, x, k, l, n)
  }

  /** The words v of page z: those it had, but for the link to page x. */
  ghost predicate Relinked(pages: Pages, z: int, v: Words, x: int) {
    v[NEXT] == x && (z in pages ==> v == pages[z][NEXT := x])
  }

  /** The pages after the removal of address k0 of page q0. */
  ghost predicate Removed(pages: Pages, pages': Pages, ch: seq<int>, s: seq<int>, d: int, w: int, z: int, q0: int,
                          k0: int, v: Words) {
    && 0 <= q0 < |ch| && 0 <= k0 && ROOM * q0 + k0 < |s|
    && TakenOut(pages, pages', ch[|ch| - 1], Before(ch), ch[q0], k0, |s| - ROOM * (|ch| - 1), d, w, z, v)
  }

  /** When the removal of address t empties a page, the page behind the last prepared one names the page t was in. */
  ghost predicate FiledBack(chains: map<int, seq<int>>, rows: map<int, seq<int>>, size: int, pages: Pages, t: int) {
    size in chains && size in rows && |rows[size]| % 14 == 1 ==>
      && 128 * 200009 in pages && 0 <= t / 14 < |chains[size]| && pages[128 * 200009][0] == chains[size][t / 14]
  }

  lemma RemovedBy(pages: Pages, pages': Pages, ch: seq<int>, s: seq<int>, d: int, w: int, z: int, q0: int, k0: int,
                  v: Words, l: int, c: int, t: int, n: int)
    requires 0 <= q0 < |ch| && 0 <= k0 && ROOM * q0 + k0 < |s|
    requires l == ch[|ch| - 1] && c == Before(ch) && t == ch[q0] && n == |s| - ROOM * (|ch| - 1)
    requires TakenOut(pages, pages', l, c, t, k0, n, d, w, z, v)
    ensures Removed(pages, pages', ch, s, d, w, z, q0, k0, v)
  {
  }

  /** The last page but one, if there is one. */
  function Before(ch: seq<int>): int {
    if |ch| > 1 then ch[|ch| - 2] else 0
  }

  /** The chain that is left. */
  ghost function Shorter(ch: seq<int>, s: seq<int>): seq<int>
    requires ch != []
  {
    if |s| % ROOM == 1 then ch[..|ch| - 1] else ch
  }

  lemma RemovedOk(pages: Pages, pages': Pages, chains: map<int, seq<int>>, rows: map<int, seq<int>>, allocs: nat,
                  b: int, q0: int, k0: int, v: Words)
    requires Ok(pages, chains, rows, allocs) && b in chains && chains[b] != []
    requires Removed(pages, pages', chains[b], rows[b], DirPage(b), DirWord(b), PAGE_SIZE * (FIRST + PREPARED), q0, k0,
                     v)
    ensures Ok(pages', chains[b := Shorter(chains[b], rows[b])], rows[b := Without(rows[b], ROOM * q0 + k0)], allocs)
  {
    Fullness(pages, chains[b], rows[b]);
    if |rows[b]| - ROOM * (|chains[b]| - 1) == 1 {
      UnlinkedOk(pages, pages', chains, rows, allocs, b, q0, k0, v);
    } else {
      SwappedOk(pages, chains, rows, allocs, b, q0, k0);
      assert chains == chains[b := chains[b]];
    }
  }

  /** The pages still on the free list are consecutive, empty, and in no chain. */
  lemma FreeList(pages: Pages, chains: map<int, seq<int>>, rows: map<int, seq<int>>, allocs: nat, k: int)
    requires Ok(pages, chains, rows, allocs) && FIRST + allocs <= k < FIRST + PREPARED
    ensures pages[0][HEAD] == PAGE_SIZE * (FIRST + allocs)
    ensures PAGE_SIZE * k in pages && pages[PAGE_SIZE * k][NEXT] == PAGE_SIZE * k + PAGE_SIZE
        && pages[PAGE_SIZE * k][COUNT] == 0
    ensures forall b, q | b in chains && 0 <= q < |chains[b]| :: chains[b][q] != PAGE_SIZE * k
  {
    assert PAGE_SIZE * k in pages;
  }

  /** No page is in two chains, nor twice in one. */
  lemma ChainsApart(pages: Pages, chains: map<int, seq<int>>, rows: map<int, seq<int>>, allocs: nat, b: int, q: int,
                    c: int, r: int)
    requires Ok(pages, chains, rows, allocs) && b in chains && c in chains && 0 <= q < |chains[b]|
        && 0 <= r < |chains[c]|
    ensures chains[b][q] == chains[c][r] <==> b == c && q == r
  {
    if b != c || q != r {
      assert Differ(chains[b], q, chains[c], r);
    }
  }

  // ----- the abstract map -----

  type Bags = map<int, multiset<int>>

  ghost function BagsOf(rows: map<int, seq<int>>): Bags {
    map b | b in rows :: multiset(rows[b])
  }

  lemma BagsSet(rows: map<int, seq<int>>, b: int, s: seq<int>, bag: multiset<int>)
    requires multiset(s) == bag
    ensures BagsOf(rows[b := s]) == BagsOf(rows)[b := bag]
  {
  }

  lemma BagsAdd(rows: map<int, seq<int>>, b: int, x: int)
    requires b in rows
    ensures BagsOf(rows[b := rows[b] + [x]]) == BagsOf(rows)[b := BagsOf(rows)[b] + multiset{x}]
  {
    BagsSet(rows, b, rows[b] + [x], BagsOf(rows)[b] + multiset{x});
  }

  lemma BagsRemove(rows: map<int, seq<int>>, b: int, t: int)
    requires b in rows && 0 <= t < |rows[b]|
    ensures BagsOf(rows[b := Without(rows[b], t)]) == BagsOf(rows)[b := BagsOf(rows)[b] - multiset{rows[b][t]}]
  {
    WithoutBag(rows[b], t);
    BagsSet(rows, b, Without(rows[b], t), BagsOf(rows)[b] - multiset{rows[b][t]});
  }

  /** The smallest size from b on with an address filed under it, MAX_SIZE if none. */
  ghost function Lowest(bags: Bags, b: int): int
    decreases MAX_SIZE - b
  {
    if b >= MAX_SIZE then MAX_SIZE
    else if b in bags && bags[b] != multiset{} then b
    else Lowest(bags, b + 1)
  }

  lemma {:induction false} LowestIs(bags: Bags, b: int, c: int)
    requires b <= c < MAX_SIZE
    ensures Lowest(bags, b) == c <==> c in bags && bags[c] != multiset{} && forall d | b <= d < c
        && d in bags :: bags[d] == multiset{}
    ensures Lowest(bags, b) == MAX_SIZE ==> c in bags ==> bags[c] == multiset{}
    decreases MAX_SIZE - b
  {
    if b < c {
      LowestIs(bags, b + 1, c);
    }
    if !(b in bags && bags[b] != multiset{}) && b == c && b + 1 < MAX_SIZE {
      LowestNext(bags, b + 1);
    }
  }

  lemma {:induction false} LowestNext(bags: Bags, b: int)
    ensures Lowest(bags, b) >= b || Lowest(bags, b) == MAX_SIZE
    decreases MAX_SIZE - b
  {
    if b < MAX_SIZE {
      LowestNext(bags, b + 1);
    }
  }

  /** Size b is the smallest from size on with an address; it is MAX_SIZE if there is none. */
  ghost predicate FirstRow(rows: map<int, seq<int>>, size: int, b: int) {
    && (b == MAX_SIZE || (size <= b < MAX_SIZE && b in rows && rows[b] != []))
    && forall c | size <= c < b && c in rows :: rows[c] == []
  }

  /** Address a is the last one of the least size from size on with any. */
  ghost predicate LastOfLeast(rows: map<int, seq<int>>, size: int, a: int) {
    forall b | FirstRow(rows, size, b) && b < MAX_SIZE :: a == rows[b][|rows[b]| - 1]
  }

  lemma FirstRowOne(rows: map<int, seq<int>>, size: int, b: int, c: int)
    requires FirstRow(rows, size, b) && FirstRow(rows, size, c)
    ensures b == c
  {
  }

  /** The outcome of a search, by the least size. */
  lemma PoppedLeast(rows: map<int, seq<int>>, rows': map<int, seq<int>>, size: int, b: int, t: int, addr: int)
    requires FirstRow(rows, size, b) && (b == MAX_SIZE ==> addr == -1 && rows' == rows)
    requires b < MAX_SIZE ==> 0 <= t == |rows[b]| - 1 && rows[b][t] == addr && rows' == rows[b := Without(rows[b], t)]
    ensures LastOfLeast(rows, size, addr)
    ensures forall c | FirstRow(rows, size, c) ::
              if c == 128 then addr == -1 && rows' == rows
              else addr == rows[c][|rows[c]| - 1] && rows' == rows[c := rows[c][..|rows[c]| - 1]]
  {
    if b < MAX_SIZE {
      WithoutLast(rows[b]);
    }
    forall c | FirstRow(rows, size, c) ensures c == b {
      FirstRowOne(rows, size, b, c);
    }
  }

  lemma {:induction false} NoneFiled(rows: map<int, seq<int>>, size: int, a: int)
    requires Lowest(BagsOf(rows), size) == MAX_SIZE
    ensures LastOfLeast(rows, size, a)
  {
    forall b | FirstRow(rows, size, b) && b < MAX_SIZE ensures false {
      LowestIs(BagsOf(rows), size, b);
    }
  }

  lemma {:induction false} LowestRow(rows: map<int, seq<int>>, size: int, b: int)
    requires Sizes(rows) && MIN_SIZE <= size && FirstRow(rows, size, b)
    ensures Lowest(BagsOf(rows), size) == b
    decreases MAX_SIZE - size
  {
    if size < MAX_SIZE {
      LowestStep(rows, size);
      if rows[size] == [] {
        LowestRow(rows, size + 1, b);
      }
    }
  }

  /** One step of the search for the smallest size with an address. */
  lemma LowestStep(rows: map<int, seq<int>>, b: int)
    requires b in rows && b < MAX_SIZE
    ensures Lowest(BagsOf(rows), b) == if rows[b] == [] then Lowest(BagsOf(rows), b + 1) else b
  {
    assert BagsOf(rows)[b] == multiset(rows[b]);
    if rows[b] != [] {
      assert rows[b][0] in multiset(rows[b]);
    }
  }

  // ----- pins -----

  /** The pinned pages are among p, q, r and t. */
  ghost predicate Holding(pins: seq<int>, p: int, q: int, r: int, t: int) {
    forall a | a in pins :: a == p || a == q || a == r || a == t
  }

  function Pinned(pins: seq<int>): set<int> {
    set a | a in pins
  }

  /** One more pinned page makes five at most. */
  lemma FewPins(pins: seq<int>, p: int, q: int, r: int, t: int, a: int)
    requires Holding(pins, p, q, r, t)
    ensures |Pinned(pins + [a])| <= 5
  {
    var P, S := Pinned(pins + [a]), {p, q, r, t, a};
    forall x | x in P ensures x in S {
      assert x in pins || x == a;
    }
    assert P + (S - P) == S && P * (S - P) == {};
  }

  // ----- the initial state -----

  ghost function NoChains(b: int): (m: map<int, seq<int>>)
    ensures forall c :: c in m <==> b <= c < MAX_SIZE
    ensures forall c | c in m :: m[c] == []
    decreases MAX_SIZE - b
  {
    if b >= MAX_SIZE then map[] else NoChains(b + 1)[b := []]
  }

  ghost predicate Control(pages: Pages) {
    && 0 in pages && pages[0][HEAD] == PAGE_SIZE * FIRST && pages[0][N_DIR] == DIRECTORIES
      && pages[0][LIMIT] == MAX_SIZE
    && pages[0][LAST] == PAGE_SIZE * (FIRST + PREPARED) && forall k | LAST < k < WORDS :: pages[0][k] == 0
  }

  ghost predicate Cleared(pages: Pages, n: int) {
    PAGE_SIZE * n in pages && forall k | 0 <= k < WORDS :: pages[PAGE_SIZE * n][k] == 0
  }

  /** The words hash_table_init writes. */
  lemma InitialPages(pages: Pages)
    requires Control(pages) && forall j | 1 <= j <= DIRECTORIES :: Cleared(pages, j)
    requires forall k | FIRST <= k < FIRST + PREPARED :: Prepared(pages, k)
    ensures 0 in pages && pages[0][..4] == [1152, 8, 128, 128 * 200009]
    ensures forall n | 1 <= n <= 8 :: 128 * n in pages && forall k | 0 <= k < 16 :: pages[128 * n][k] == 0
    ensures forall n | 9 <= n < 200009 ::
              128 * n in pages && pages[128 * n][0] == 128 * (n + 1) && forall k | 1 <= k < 16 :: pages[128 * n][k] == 0
  {
    forall n | 1 <= n <= 8 ensures 128 * n in pages && forall k | 0 <= k < 16 :: pages[128 * n][k] == 0 {
      assert Cleared(pages, n);
    }
    forall n | 9 <= n < 200009
      ensures 128 * n in pages && pages[128 * n][0] == 128 * (n + 1) && forall k | 1 <= k < 16 :: pages[128 * n][k] == 0
    {
      assert Prepared(pages, n);
    }
  }

  ghost predicate Prepared(pages: Pages, n: int) {
    && PAGE_SIZE * n in pages && pages[PAGE_SIZE * n][NEXT] == PAGE_SIZE * (n + 1)
    && forall k | COUNT <= k < WORDS :: pages[PAGE_SIZE * n][k] == 0
  }

  /** Writing page n leaves the others as they were. */
  lemma Untouched(pages: Pages, pages': Pages, n: int)
    requires n >= 1 && forall a | a in pages && a != PAGE_SIZE * n :: a in pages' && pages'[a] == pages[a]
    ensures Control(pages) ==> Control(pages')
    ensures forall j | j != n && Cleared(pages, j) :: Cleared(pages', j)
    ensures forall j | j != n && Prepared(pages, j) :: Prepared(pages', j)
  {
    forall j | j != n && Cleared(pages, j) ensures Cleared(pages', j) {
      assert PAGE_SIZE * j != PAGE_SIZE * n;
    }
    forall j | j != n && Prepared(pages, j) ensures Prepared(pages', j) {
      assert PAGE_SIZE * j != PAGE_SIZE * n;
    }
  }

  lemma Initial(pages: Pages, chains: map<int, seq<int>>)
    requires Control(pages) && Sizes(chains) && forall b | b in chains :: chains[b] == []
    requires forall j | 1 <= j <= DIRECTORIES :: Cleared(pages, j)
    requires forall k | FIRST <= k < FIRST + PREPARED :: Prepared(pages, k)
    ensures Ok(pages, chains, chains, 0)
  {
    forall b | b in chains
      ensures DirPage(b) in pages && 0 <= DirWord(b) < WORDS && pages[DirPage(b)][DirWord(b)] == 0
    {
      Location(b);
      assert b >= 0 ==> Cleared(pages, b / WORDS + 1);
    }
    forall k | FIRST <= k < FIRST + PREPARED
      ensures PAGE_SIZE * k in pages && pages[PAGE_SIZE * k][NEXT] == PAGE_SIZE * (k + 1)
          && pages[PAGE_SIZE * k][COUNT] == 0
    {
      assert Prepared(pages, k);
    }
  }

  class FreeSpaceMap {
    var pages: Pages
    /**
     The pins held in the buffer pool, oldest first: the reference count of a page is the number of its occurrences.
     */
    var pins: seq<int>
    ghost var chains: map<int, seq<int>>
    ghost var rows: map<int, seq<int>>
    ghost var allocs: nat

    ghost predicate Valid()
      reads this
    {
      Ok(pages, chains, rows, allocs)
    }

    /** hash_table_init on an empty file: the first page read comes from a zero-filled frame. */
    constructor (directories: int)
      requires directories == DIRECTORIES
      ensures Valid() && pins == [] && allocs == 0
      ensures forall b | b in Filed() :: Filed()[b] == multiset{}
      ensures 0 in pages && pages[0][..4] == [1152, 8, 128, 128 * 200009]
      ensures forall n | 1 <= n <= 8 :: 128 * n in pages && forall k | 0 <= k < 16 :: pages[128 * n][k] == 0
      ensures forall n | 9 <= n < 200009 ::
                128 * n in pages && pages[128 * n][0] == 128 * (n + 1) && forall k | 1 <= k < 16 ::
                  pages[128 * n][k] == 0
    {
      pages := map[0 := seq(WORDS, _ => 0)];
      pins := [0];
      chains, rows, allocs := NoChains(MIN_SIZE), NoChains(MIN_SIZE), 0;
      new;
      WriteControl(directories);
      ClearDirectories();
      PreparePages();
      Release(0);
      Initial(pages, chains);
      InitialPages(pages);
    }

    /** The control page of hash_table_init. */
    method WriteControl(directories: int)
      requires directories == DIRECTORIES && 0 in pages && pins == [0] && forall k | LAST < k < WORDS ::
          pages[0][k] == 0
      modifies this`pages
      ensures Control(pages)
    {
      Put(0, HEAD, (PAGE_SIZE / WORDS + 1) * PAGE_SIZE);
      Put(0, N_DIR, directories);
      Put(0, LIMIT, WORDS * directories);
      Put(0, LAST, (PREPARED + 1 + PAGE_SIZE / WORDS) * PAGE_SIZE);
    }

    method ClearDirectories()
      requires Control(pages) && pins == [0]
      modifies this`pins, this`pages
      ensures Control(pages) && pins == old(pins) && forall j | 1 <= j <= DIRECTORIES :: Cleared(pages, j)
    {
      var i := 0;
      while i < pages[0][N_DIR]
        invariant 0 <= i <= DIRECTORIES && Control(pages) && pins == [0]
        invariant forall j | 1 <= j <= i :: Cleared(pages, j)
      {
        ghost var before := pages;
        ClearDirectory(i + 1);
        Untouched(before, pages, i + 1);
        i := i + 1;
      }
    }

    method PreparePages()
      requires Control(pages) && pins == [0] && forall j | 1 <= j <= DIRECTORIES :: Cleared(pages, j)
      modifies this`pins, this`pages
      ensures Control(pages) && pins == old(pins) && forall j | 1 <= j <= DIRECTORIES :: Cleared(pages, j)
      ensures forall k | FIRST <= k < FIRST + PREPARED :: Prepared(pages, k)
    {
      var i := 0;
      while i != PREPARED
        invariant 0 <= i <= PREPARED && Control(pages) && pins == [0]
        invariant forall j | 1 <= j <= DIRECTORIES :: Cleared(pages, j)
        invariant forall k | FIRST <= k < FIRST + i :: Prepared(pages, k)
        decreases PREPARED - i
      {
        ghost var before := pages;
        PreparePage(i + PAGE_SIZE / WORDS + 1);
        Untouched(before, pages, i + FIRST);
        i := i + 1;
      }
    }

    /** One directory page of hash_table_init. */
    method ClearDirectory(n: int)
      requires n >= 1 && pins == [0]
      modifies this`pins, this`pages
      ensures Cleared(pages, n) && pins == old(pins)
      ensures forall a | a in old(pages) && a != PAGE_SIZE * n :: a in pages && pages[a] == old(pages)[a]
    {
      GetPage(n * PAGE_SIZE, 0, 0, 0, 0);
      Clear(n * PAGE_SIZE, 0, WORDS);
      Release(n * PAGE_SIZE);
    }

    /** One chain page of hash_table_init. */
    method PreparePage(n: int)
      requires n >= 1 && pins == [0]
      modifies this`pins, this`pages
      ensures Prepared(pages, n) && pins == old(pins)
      ensures forall a | a in old(pages) && a != PAGE_SIZE * n :: a in pages && pages[a] == old(pages)[a]
    {
      GetPage(n * PAGE_SIZE, 0, 0, 0, 0);
      Put(n * PAGE_SIZE, COUNT, 0);
      Put(n * PAGE_SIZE, NEXT, (n + 1) * PAGE_SIZE);
      Clear(n * PAGE_SIZE, TABLE, WORDS);
      Release(n * PAGE_SIZE);
    }

    method Clear(a: int, lo: int, hi: int)
      requires a in pages && 0 <= lo <= hi <= WORDS
      modifies this`pages
      ensures a in pages && forall k | 0 <= k < WORDS :: pages[a][k] == if lo <= k < hi then 0 else old(pages)[a][k]
      ensures forall b | b in old(pages) && b != a :: b in pages && pages[b] == old(pages)[b]
    {
      var j := lo;
      while j != hi
        invariant lo <= j <= hi && a in pages
        invariant forall k | 0 <= k < WORDS :: pages[a][k] == if lo <= k < j then 0 else old(pages)[a][k]
        invariant forall b | b in old(pages) && b != a :: b in pages && pages[b] == old(pages)[b]
        decreases hi - j
      {
        Put(a, j, 0);
        j := j + 1;
      }
    }

    /** For each size, the addresses filed under it. */
    ghost function Filed(): Bags
      reads this
    {
      BagsOf(rows)
    }

    /**
     * get_page: pins the page, which is appended with arbitrary words when the file ends before it.
     * The pages already pinned are among the four named, so that the buffer pool has a frame (PoolPins).
     */
    method GetPage(a: int, ghost p: int, ghost q: int, ghost r: int, ghost t: int)
      requires Holding(pins, p, q, r, t)
      modifies this`pins, this`pages
      ensures pins == old(pins) + [a] && |Pinned(pins)| <= 5 < CACHE_PAGE
      ensures a in pages && (a in old(pages) ==> pages == old(pages))
      ensures a !in old(pages) ==> pages == old(pages)[a := pages[a]]
    {
      FewPins(pins, p, q, r, t, a);
      pins := pins + [a];
      if a !in pages {
        var words: Words := seq(WORDS, _ => 0);
        var i := 0;
        while i < WORDS
          invariant 0 <= i <= WORDS
        {
          var w: int := *;
          words := words[i := w];
          i := i + 1;
        }
        pages := pages[a := words];
      }
    }

    /** release; pins are released in the reverse order of taking them. */
    method Release(a: int)
      requires pins != [] && a == pins[|pins| - 1]
      modifies this`pins
      ensures pins == old(pins)[..|old(pins)| - 1]
    {
      pins := pins[..|pins| - 1];
    }

    method Put(a: int, w: int, v: int)
      requires a in pages && 0 <= w < |pages[a]|
      modifies this`pages
      ensures pages == Set(old(pages), a, w, v)
    {
      pages := pages[a := pages[a][w := v]];
    }

    /** The scans of insert and pop_lower_bound: from the first to the last page of a chain, past full pages only. */
    method LastPage(ghost ch: seq<int>, ghost s: seq<int>, ghost d: int, ghost others: seq<int>, first: int)
        returns (last: int)
      requires ChainOk(pages, ch, s) && ch != [] && first == ch[0] && 0 !in ch
      requires Holding(others, 0, 0, d, d) && pins == others + [first]
      modifies this`pins, this`pages
      ensures pages == old(pages) && last == ch[|ch| - 1]
      ensures pins == others + [last]
    {
      ghost var q := 0;
      last := first;
      ChainPage(pages, ch, s, 0);
      while pages[last][NEXT] != 0
        invariant 0 <= q < |ch| && last == ch[q] && pages == old(pages)
        invariant last in pages
        invariant pins == others + [last]
        decreases |ch| - q
      {
        ChainPage(pages, ch, s, q);
        if pages[last][COUNT] == ROOM {
          Release(last);
          q := q + 1;
          ChainPage(pages, ch, s, q);
          last := pages[last][NEXT];
          GetPage(last, 0, 0, d, d);
        }
      }
      ChainPage(pages, ch, s, q);
    }

    /** The branch of insert that opens a chain. */
    method FirstPage(dir: int, w: int, addr: int, ghost a: int)
      requires 0 in pages && a == pages[0][HEAD]
      requires dir in pages && 0 <= w < WORDS && (dir == 0 ==> w >= 12)
      requires a in pages && a != 0 && a != dir && Holding(pins, 0, 0, dir, dir)
      modifies this`pins, this`pages
      ensures pages == Started(old(pages), dir, w, a, addr) && pins == old(pins)
    {
      var pre := pages[0][HEAD];
      GetPage(pre, 0, 0, dir, dir);
      Put(dir, w, pre);
      Put(0, HEAD, pages[pre][NEXT]);
      Put(pre, NEXT, 0);
      Put(pre, TABLE, addr);
      Put(pre, COUNT, pages[pre][COUNT] + 1);
      Release(pre);
    }

    /** The branch of insert that links a page behind a full one. */
    method FurtherPage(pre: int, addr: int, ghost a: int, ghost dir: int, ghost others: seq<int>)
      requires 0 in pages && a == pages[0][HEAD]
      requires pre in pages && pre != 0
      requires a in pages && a != 0 && a != pre && pins == others + [pre] && Holding(others, 0, 0, 0, dir)
      modifies this`pins, this`pages
      ensures pages == Extended(old(pages), pre, a, addr) && pins == others
    {
      Put(pre, NEXT, pages[0][HEAD]);
      Release(pre);
      var next := pages[0][HEAD];
      GetPage(next, 0, 0, 0, dir);
      Put(0, HEAD, pages[next][NEXT]);
      Put(next, NEXT, 0);
      Put(next, TABLE, addr);
      Put(next, COUNT, pages[next][COUNT] + 1);
      Release(next);
    }

    /** Whether a prepared page is left on the free list. */
    method HasPage() returns (more: bool)
      requires Valid()
      ensures more <==> allocs < PREPARED
    {
      more := pages[0][HEAD] != PAGE_SIZE * (FIRST + PREPARED);
    }

    /** hash_table_insert */
    method Insert(size: int, addr: int)
      requires Valid() && MIN_SIZE <= size < MAX_SIZE && (NeedsPage(rows, size) ==> allocs < PREPARED) && pins == []
      modifies this
      ensures Valid() && pins == old(pins)
      ensures Filed() == old(Filed())[size := old(Filed())[size] + multiset{addr}]
      ensures rows == old(rows)[size := old(rows)[size] + [addr]]
      ensures if |old(rows)[size]| % 14 == 0 then
                allocs == old(allocs) + 1
                  && chains == old(chains)[size := old(chains)[size] + [128 * (9 + old(allocs))]]
              else
                allocs == old(allocs) && chains == old(chains)
      ensures 0 in pages && pages[0][0] == 128 * (9 + allocs)
      ensures allocs == Taken(old(rows), size, old(allocs))
          && chains == Longer(old(chains), old(rows), size, PAGE_SIZE * (FIRST + old(allocs)))
    {
      BagsAdd(rows, size, addr);
      InsertLast(size, addr);
    }

    /** Insertion, as seen on the addresses in the order of the chain. */
    method InsertLast(size: int, addr: int)
      requires Valid() && MIN_SIZE <= size < MAX_SIZE && (NeedsPage(rows, size) ==> allocs < PREPARED) && pins == []
      modifies this
      ensures Valid() && pins == old(pins) && rows == old(rows)[size := old(rows)[size] + [addr]]
      ensures allocs == Taken(old(rows), size, old(allocs))
          && chains == Longer(old(chains), old(rows), size, PAGE_SIZE * (FIRST + old(allocs)))
    {
      SiteOf(pages, chains, rows, allocs, size);
      Fullness(pages, chains[size], rows[size]);
      ghost var a := PAGE_SIZE * (FIRST + allocs);
      InsertPages(DirPage(size), DirWord(size), addr, chains[size], rows[size], a);
      ghost var chains', rows' := Longer(chains, rows, size, a), rows[size := rows[size] + [addr]];
      InsertedOk(old(pages), pages, chains, rows, allocs, size, addr, a, chains', rows', Taken(rows, size, allocs));
      chains, rows, allocs := chains', rows', Taken(rows, size, allocs);
    }

    /** The page operations of hash_table_insert. */
    method InsertPages(dir: int, w: int, addr: int, ghost ch: seq<int>, ghost s: seq<int>, ghost a: int)
      requires Site(pages, ch, s, a, dir, w) && (Full(ch, s) ==> FreePage(pages, ch, a)) && pins == []
      modifies this`pins, this`pages
      ensures Inserted(old(pages), pages, ch, s, a, dir, w, addr)
      ensures pins == old(pins)
    {
      GetPage(0, 0, 0, 0, 0);
      GetPage(dir, 0, 0, 0, 0);
      if pages[dir][w] == 0 {
        FirstPage(dir, w, addr, a);
      } else {
        InsertBehind(dir, pages[dir][w], addr, ch, s, a);
      }
      Release(dir);
      Release(0);
    }

    /** The branch of insert for a chain that exists. */
    method InsertBehind(ghost dir: int, first: int, addr: int, ghost ch: seq<int>, ghost s: seq<int>, ghost a: int)
      requires 0 in pages && pages[0][HEAD] == a && a != 0 && (Full(ch, s) ==> FreePage(pages, ch, a))
      requires ChainOk(pages, ch, s) && ch != [] && first == ch[0] && 0 !in ch && Holding(pins, 0, 0, dir, dir)
      modifies this`pins, this`pages
      ensures Lengthened(old(pages), pages, ch[|ch| - 1], |s| - ROOM * (|ch| - 1), a, addr)
      ensures pins == old(pins)
    {
      ChainPage(pages, ch, s, 0);
      GetPage(first, 0, 0, dir, dir);
      var pre := LastPage(ch, s, dir, old(pins), first);
      ChainPage(pages, ch, s, |ch| - 1);
      assert pre in ch;
      if pages[pre][COUNT] == ROOM {
        FurtherPage(pre, addr, a, dir, old(pins));
      } else {
        LastSlot(pre, addr, old(pins));
      }
    }

    /** The branch of insert that finds room in the last page. */
    method LastSlot(pre: int, addr: int, ghost others: seq<int>)
      requires pre in pages && 0 <= pages[pre][COUNT] < ROOM && pins == others + [pre]
      modifies this`pins, this`pages
      ensures Appended(old(pages), pages, pre, old(pages)[pre][COUNT], addr) && pins == others
    {
      Put(pre, TABLE + pages[pre][COUNT], addr);
      Put(pre, COUNT, pages[pre][COUNT] + 1);
      Release(pre);
    }

    /** hash_table_pop: the last occurrence t of the address makes way for the last address of the chain. */
    method Pop(size: int, addr: int) returns (ghost t: int)
      requires Valid() && MIN_SIZE <= size < MAX_SIZE && addr in Filed()[size] && pins == []
      modifies this
      ensures Valid() && pins == old(pins)
      ensures Filed() == old(Filed())[size := old(Filed())[size] - multiset{addr}]
      ensures allocs == old(allocs) && chains == old(chains)[size := Shorter(old(chains)[size], old(rows)[size])]
      ensures var s := old(rows)[size];
              && LastAt(s, addr, t) && rows == old(rows)[size := s[t := s[|s| - 1]][..|s| - 1]]
              && FiledBack(old(chains), old(rows), size, pages, t)
              && chains == if |s| % 14 == 1 then old(chains)[size := old(chains)[size][..|old(chains)[size]| - 1]]
                           else old(chains)
    {
      t := PopOne(size, addr);
      BagsRemove(old(rows), size, t);
    }

    /** Removal, as seen on the addresses in the order of the chain: the last one takes the place of the one removed. */
    method PopOne(size: int, addr: int) returns (ghost t: int)
      requires Valid() && MIN_SIZE <= size < MAX_SIZE && addr in rows[size] && Holding(pins, 0, 0, 0, DirPage(size))
      modifies this
      ensures Valid() && pins == old(pins)
      ensures LastAt(old(rows)[size], addr, t) && rows == old(rows)[size := Without(old(rows)[size], t)]
      ensures allocs == old(allocs) && chains == old(chains)[size := Shorter(old(chains)[size], old(rows)[size])]
      ensures FiledBack(old(chains), old(rows), size, pages, t)
    {
      SiteOf(pages, chains, rows, allocs, size);
      ghost var q0, k0, v := PopPages(DirPage(size), DirWord(size), addr, chains[size], rows[size],
                                      PAGE_SIZE * (FIRST + allocs));
      RemovedOk(old(pages), pages, chains, rows, allocs, size, q0, k0, v);
      t := ROOM * q0 + k0;
      Fullness(old(pages), chains[size], rows[size]);
      chains, rows := chains[size := Shorter(chains[size], rows[size])], rows[size := Without(rows[size], t)];
    }

    /** hash_table_pop_lower_bound */
    method PopLowerBound(size: int) returns (addr: int)
      requires Valid() && MIN_SIZE <= size && pins == []
      modifies this
      ensures Valid() && pins == old(pins) && allocs == old(allocs)
      ensures var b := Lowest(old(Filed()), size);
              if b == MAX_SIZE then
                addr == -1 && Filed() == old(Filed())
              else
                MIN_SIZE <= b < MAX_SIZE && addr in old(Filed())[b]
                  && Filed() == old(Filed())[b := old(Filed())[b] - multiset{addr}]
      ensures (forall c | size <= c < 128 && c in old(rows) :: old(rows)[c] == []) ==> addr == -1 && rows == old(rows)
      ensures LastOfLeast(old(rows), size, addr)
      ensures forall c | FirstRow(old(rows), size, c) ::
                if c == 128 then
                  addr == -1 && rows == old(rows)
                else
                  && addr == old(rows)[c][|old(rows)[c]| - 1]
                  && rows == old(rows)[c := old(rows)[c][..|old(rows)[c]| - 1]]
    {
      ghost var b, t;
      addr, b, t := PopFirst(size);
      LowestRow(old(rows), size, b);
      if b < MAX_SIZE {
        BagsRemove(old(rows), b, t);
      }
      PoppedLeast(old(rows), rows, size, b, t, addr);
    }

    /** The search of pop_lower_bound, for the smallest size b that has an address. */
    method PopFirst(size: int) returns (addr: int, ghost b: int, ghost t: int)
      requires Valid() && MIN_SIZE <= size && pins == []
      modifies this
      ensures Valid() && pins == old(pins) && allocs == old(allocs) && FirstRow(old(rows), size, b)
      ensures b == MAX_SIZE ==> addr == -1 && rows == old(rows)
      ensures b < MAX_SIZE ==>
                0 <= t == |old(rows)[b]| - 1 && old(rows)[b][t] == addr
                  && rows == old(rows)[b := Without(old(rows)[b], t)]
    {
      Limit();
      GetPage(0, 0, 0, 0, 0);
      var i := size;
      t := 0;
      var found := false;
      while i < pages[0][LIMIT]
        invariant size <= i && (i <= MAX_SIZE || i == size) && pins == [0]
        invariant Valid() && rows == old(rows) && allocs == old(allocs) && 0 in pages && pages[0][LIMIT] == MAX_SIZE
        invariant forall c | size <= c < i && c in rows :: rows[c] == []
        decreases MAX_SIZE - i
      {
        found, addr, t := PopHere(i);
        if found {
          Release(0);
          return addr, i, t;
        }
        Limit();
        i := i + 1;
      }
      Release(0);
      return -1, MAX_SIZE, t;
    }

    lemma Limit()
      requires Valid()
      ensures 0 in pages && pages[0][LIMIT] == MAX_SIZE && Sizes(rows)
    {
    }

    /** One turn of pop_lower_bound: the last address of this size, if there is one, is popped. */
    method PopHere(size: int) returns (found: bool, addr: int, ghost t: int)
      requires Valid() && MIN_SIZE <= size < MAX_SIZE && pins == [0]
      modifies this
      ensures Valid() && pins == old(pins) && allocs == old(allocs)
      ensures !found ==> rows == old(rows) && rows[size] == []
      ensures found ==>
          && 0 <= t == |old(rows)[size]| - 1 && old(rows)[size][t] == addr
          && rows == old(rows)[size := Without(old(rows)[size], t)]
    {
      SiteOf(pages, chains, rows, allocs, size);
      var dir, w := DirPage(size), DirWord(size);
      GetPage(dir, 0, 0, 0, 0);
      found, addr, t := pages[dir][w] != 0, -1, 0;
      if found {
        addr := LastAddress(chains[size], rows[size], dir, pages[dir][w]);
        t := PopOne(size, addr);
      }
      Release(dir);
    }

    /** The address that pop_lower_bound removes: the last one of the chain. */
    method LastAddress(ghost ch: seq<int>, ghost s: seq<int>, ghost dir: int, first: int) returns (addr: int)
      requires ChainOk(pages, ch, s) && ch != [] && first == ch[0] && 0 !in ch && Holding(pins, 0, 0, dir, dir)
      modifies this`pins, this`pages
      ensures s != [] && addr == s[|s| - 1] && pages == old(pages) && pins == old(pins)
    {
      ChainPage(pages, ch, s, 0);
      GetPage(first, 0, 0, dir, dir);
      var pre := LastPage(ch, s, dir, old(pins), first);
      Release(pre);
      ChainPage(pages, ch, s, |ch| - 1);
      ChainItem(pages, ch, s, |ch| - 1, pages[pre][COUNT] - 1);
      addr := pages[pre][TABLE + pages[pre][COUNT] - 1];
    }

    /** The page operations of hash_table_pop. */
    method PopPages(dir: int, w: int, addr: int, ghost ch: seq<int>, ghost s: seq<int>, ghost a: int)
      returns (ghost q0: int, ghost k0: int, ghost v: Words)
      requires Site(pages, ch, s, a, dir, w) && Distinct(ch) && addr in s && Holding(pins, 0, 0, 0, dir)
      requires pages[0][LAST] == PAGE_SIZE * (FIRST + PREPARED) && PAGE_SIZE * (FIRST + PREPARED) !in ch
          && dir < FIRST * PAGE_SIZE
      modifies this`pins, this`pages
      ensures Removed(old(pages), pages, ch, s, dir, w, PAGE_SIZE * (FIRST + PREPARED), q0, k0, v)
          && LastAt(s, addr, ROOM * q0 + k0)
      ensures |s| - ROOM * (|ch| - 1) == 1 ==> Relinked(old(pages), PAGE_SIZE * (FIRST + PREPARED), v, ch[q0])
      ensures pins == old(pins)
    {
      GetPage(0, 0, 0, 0, dir);
      GetPage(dir, 0, 0, 0, dir);
      var pre, lp, target, item;
      pre, lp, target, item, q0 := Find(dir, pages[dir][w], addr, ch, s);
      k0 := item;
      ChainPage(pages, ch, s, |ch| - 1);
      ChainPage(pages, ch, s, q0);
      ghost var pages0, n := pages, pages[pre][COUNT];
      v := TakeOut(dir, w, pre, lp, target, item);
      RemovedBy(pages0, pages, ch, s, dir, w, pages0[0][LAST], q0, k0, v, pre, lp, target, n);
      Release(pre);
      Release(dir);
      Release(0);
    }

    /**
     The end of pop: the last address of page pre takes the place of the one found, and an emptied page is cut off.
     */
    method TakeOut(dir: int, w: int, pre: int, lp: int, target: int, item: int) returns (ghost v: Words)
      requires 0 in pages && dir in pages && 0 <= w < WORDS && (dir == 0 ==> w >= 12)
      requires pre in pages && target in pages && pre !in {0, dir} && target !in {0, dir}
      requires 0 <= item < ROOM && 1 <= pages[pre][COUNT] <= ROOM
      requires (pages[dir][w] == pre <==> lp == 0) && (lp != 0 ==> lp in pages && lp !in {dir, pre})
      requires Holding(pins, 0, 0, dir, pre) && pages[0][LAST] !in {0, dir, pre, lp, target}
      modifies this`pins, this`pages
      ensures TakenOut(old(pages), pages, pre, lp, target, item, old(pages)[pre][COUNT], dir, w, old(pages)[0][LAST], v)
      ensures old(pages)[pre][COUNT] == 1 ==> Relinked(old(pages), old(pages)[0][LAST], v, target)
      ensures pins == old(pins)
    {
      GetPage(target, 0, 0, dir, pre);
      MoveLast(pre, target, item);
      if pages[pre][COUNT] == 0 {
        Unlink(dir, w, pre, lp, target);
        v := Recycle(dir, pre, target);
      } else {
        v := pages[pre];
      }
      Release(target);
    }

    /** The last address of page pre takes the place of item of page target. */
    method MoveLast(pre: int, target: int, item: int)
      requires pre in pages && target in pages && 0 <= item < ROOM && 1 <= pages[pre][COUNT] <= ROOM
      modifies this`pages
      ensures pages == Swapped(old(pages), target, item, pre, old(pages)[pre][COUNT])
    {
      Put(target, TABLE + item, pages[pre][TABLE + pages[pre][COUNT] - 1]);
      Put(pre, TABLE + pages[pre][COUNT] - 1, 0);
      Put(pre, COUNT, pages[pre][COUNT] - 1);
    }

    /** The emptied page pre is unlinked from its predecessor lp, or from the directory. */
    method Unlink(dir: int, w: int, pre: int, lp: int, ghost target: int)
      requires dir in pages && 0 <= w < WORDS && pre in pages && lp != pre && (lp != 0 ==> lp in pages)
      requires (pages[dir][w] == pre <==> lp == 0) && Holding(pins, 0, dir, pre, target)
      modifies this`pins, this`pages
      ensures pages == Cut(old(pages), pre, lp, dir, w)
      ensures pins == old(pins)
    {
      if pages[dir][w] == pre {
        Put(dir, w, 0);
      }
      if lp != 0 {
        GetPage(lp, 0, dir, pre, target);
        Put(lp, NEXT, 0);
        Release(lp);
      }
      Put(pre, NEXT, 0);
    }

    /** The last page of the free list is made to point at the page the address was in. */
    method Recycle(ghost dir: int, ghost pre: int, target: int) returns (ghost v: Words)
      requires 0 in pages && pages[0][LAST] != 0 && Holding(pins, 0, dir, pre, target)
      modifies this`pins, this`pages
      ensures pages == old(pages)[old(pages)[0][LAST] := v] && Relinked(old(pages), old(pages)[0][LAST], v, target)
      ensures pins == old(pins)
    {
      GetPage(pages[0][LAST], 0, dir, pre, target);
      Put(pages[0][LAST], NEXT, target);
      v := pages[pages[0][LAST]];
      Release(pages[0][LAST]);
    }

    /** The scan of pop: the last page pre, its predecessor lp, and the last place the address was seen. */
    method Find(ghost dir: int, first: int, addr: int, ghost ch: seq<int>, ghost s: seq<int>)
      returns (pre: int, lp: int, target: int, item: int, ghost q0: int)
      requires ChainOk(pages, ch, s) && ch != [] && first == ch[0] && 0 !in ch && addr in s
          && Holding(pins, 0, 0, 0, dir)
      modifies this`pins, this`pages
      ensures pages == old(pages) && pins == old(pins) + [pre]
      ensures pre == ch[|ch| - 1] && lp == Before(ch)
      ensures Seen(s, addr, ROOM * |ch|, ch, target, item, q0)
      ensures pre in ch && target in ch && target in pages && (lp != 0 ==> lp in ch && lp in pages)
    {
      ghost var q := 0;
      ChainPage(pages, ch, s, 0);
      GetPage(first, 0, 0, 0, dir);
      pre, lp, target, item, q0 := first, 0, 0, 0, 0;
      while pages[pre][NEXT] != 0
        invariant 0 <= q < |ch| && pre == ch[q] && lp == (if q > 0 then ch[q - 1] else 0)
        invariant pages == old(pages) && pins == old(pins) + [pre]
        invariant pre in pages
        invariant Seen(s, addr, ROOM * q, ch, target, item, q0)
        decreases |ch| - q
      {
        ChainPage(pages, ch, s, q);
        target, item, q0 := ScanPage(pre, addr, target, item, ch, s, q, q0);
        Release(pre);
        assert pins == old(pins);
        lp := pre;
        q := q + 1;
        ChainPage(pages, ch, s, q);
        pre := pages[pre][NEXT];
        GetPage(pre, 0, 0, 0, dir);
      }
      ChainPage(pages, ch, s, q);
      target, item, q0 := ScanPage(pre, addr, target, item, ch, s, q, q0);
      ChainPage(pages, ch, s, q0);
      if q > 0 {
        ChainPage(pages, ch, s, q - 1);
      }
    }

    method ScanPage(pre: int, addr: int, target0: int, item0: int, ghost ch: seq<int>, ghost s: seq<int>, ghost q: int,
                    ghost p0: int)
        returns (target: int, item: int, ghost q0: int)
      requires ChainOk(pages, ch, s) && 0 <= q < |ch| && pre == ch[q] && pre != 0
      requires Seen(s, addr, ROOM * q, ch, target0, item0, p0)
      ensures Seen(s, addr, ROOM * (q + 1), ch, target, item, q0)
    {
      ChainPage(pages, ch, s, q);
      target, item, q0 := target0, item0, p0;
      var i := 0;
      while i != pages[pre][COUNT]
        invariant 0 <= i <= pages[pre][COUNT]
        invariant Seen(s, addr, ROOM * q + i, ch, target, item, q0)
      {
        ChainItem(pages, ch, s, q, i);
        if pages[pre][TABLE + i] == addr {
          item := i;
          target := pre;
          q0 := q;
        }
        i := i + 1;
      }
    }
  }
}
