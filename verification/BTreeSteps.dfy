/** What single steps of the B+ tree routines do to a heap that stores a tree. */
module BTreeSteps {
  import opened Rids
  import opened BTreeShape
  import opened BTreeContext

  /** A leaf page in which a search for rank k reads no cell past the end of its arrays. */
  ghost predicate LeafSafe(rank: RID -> int, b: BNode, k: int) {
    && |b.child| == |b.row| == SLOTS && 0 <= b.n <= SLOTS && b.child[0] == NIL
    && (b.n <= LIMIT || k <= rank(b.row[0]))
  }

  /** A parent of leaves in which replacing separators of rank k by target changes nothing. */
  ghost predicate LeafParent(rank: RID -> int, heap: map<int, BNode>, p: int, k: int, target: RID) {
    && p in heap
    && |heap[p].child| == |heap[p].row| == SLOTS && 1 <= heap[p].n <= SLOTS && heap[p].child[0] != NIL
    && forall q | 0 <= q < heap[p].n ::
         && (rank(heap[p].row[q]) == k ==> heap[p].row[q] == target)
         && heap[p].child[q] in heap && LeafSafe(rank, heap[heap[p].child[q]], k)
  }

  /** The rows of a frame: least keys on the left, m at the hole, least keys on the right. */
  lemma FrameRows(heap: map<int, BNode>, g: Ctx, a: int, m: RID)
    requires g.Hole? && FrameOk(heap, g, a, m)
    ensures var b, i := heap[g.addr], |g.left|;
            && b.n == i + 1 + |g.right| <= |b.row| == |b.child| && b.child[i] == a && b.row[i] == m
            && (forall q | 0 <= q < i :: b.row[q] == Min(g.left[q]))
            && (forall q | i < q < b.n :: b.row[q] == Min(g.right[q - i - 1]))
  {
    var b, i := heap[g.addr], |g.left|;
    var rows := MinList(g.left) + [m] + MinList(g.right);
    var kids := AddrList(g.left) + [a] + AddrList(g.right);
    assert forall q | 0 <= q < |rows| :: b.row[q] == rows[q];
    assert b.child[i] == kids[i];
  }

  /** What a search for rank k finds in the rows of a frame that routes it to the hole. */
  lemma FrameSlot(rank: RID -> int, heap: map<int, BNode>, g: Ctx, a: int, m: RID, k: int, j: int)
    requires g.Hole? && FrameOk(heap, g, a, m) && FrameRoutes(rank, g, m, k)
    requires 0 <= j <= heap[g.addr].n <= |heap[g.addr].row|
    requires forall l | 0 <= l < j :: rank(heap[g.addr].row[l]) < k
    requires j < heap[g.addr].n ==> k <= rank(heap[g.addr].row[j])
    ensures var b, i := heap[g.addr], |g.left|;
            && b.n == i + 1 + |g.right| <= |b.row| == |b.child| && b.child[i] == a && b.row[i] == m
            && (rank(m) == k <==> j < b.n && rank(b.row[j]) == k)
            && (rank(m) == k ==> j == i)
            && (if (j == b.n || k < rank(b.row[j])) && j > 0 then j - 1 == i else j == i)
  {
    FrameRows(heap, g, a, m);
    var b, i := heap[g.addr], |g.left|;
    assert forall q | 0 <= q < i :: rank(b.row[q]) < k;
    assert forall q | i < q < b.n :: k < rank(b.row[q]);
    assert g.right != [] ==> k < rank(b.row[i + 1]);
    assert i <= j <= i + 1;
    assert b.row[i] == m;
  }

  function FrameAddrs(g: Ctx): multiset<int>
    requires g.Hole?
  {
    multiset{g.addr} + AddrsF(g.left) + AddrsF(g.right)
  }

  lemma OnceOnly(x: int, l: multiset<int>, r: multiset<int>)
    requires Unique(multiset{x} + l + r)
    ensures x !in l && x !in r
  {
    assert (multiset{x} + l + r)[x] <= 1;
  }

  /** Rewriting the hole's separator. */
  lemma FrameSet(heap: map<int, BNode>, g: Ctx, a: int, m: RID, m': RID) returns (heap': map<int, BNode>)
    requires g.Hole? && FrameOk(heap, g, a, m) && Unique(FrameAddrs(g))
    ensures |g.left| < |heap[g.addr].row|
    ensures heap' == heap[g.addr := heap[g.addr].(row := heap[g.addr].row[|g.left| := m'])]
    ensures FrameOk(heap', g, a, m')
  {
    FrameRows(heap, g, a, m);
    heap' := heap[g.addr := heap[g.addr].(row := heap[g.addr].row[|g.left| := m'])];
    OnceOnly(g.addr, AddrsF(g.left), AddrsF(g.right));
    AgreeApart(heap, heap', AddrsF(g.left), g.addr, g.addr, g.addr);
    AgreeApart(heap, heap', AddrsF(g.right), g.addr, g.addr, g.addr);
    StoredFrameF(heap, heap', g.left);
    StoredFrameF(heap, heap', g.right);
    var rows := MinList(g.left) + [m] + MinList(g.right);
    assert rows[|g.left| := m'] == MinList(g.left) + [m'] + MinList(g.right);
    assert Pad(rows, NULL_RID)[|g.left| := m'] == Pad(rows[|g.left| := m'], NULL_RID);
  }

  lemma {:induction false} FrameKeeps(heap: map<int, BNode>, heap': map<int, BNode>, g: Ctx, a: int, m: RID)
    requires g.Hole? && FrameOk(heap, g, a, m) && Agree(heap, heap', FrameAddrs(g))
    ensures FrameOk(heap', g, a, m)
  {
    StoredFrameF(heap, heap', g.left);
    StoredFrameF(heap, heap', g.right);
    assert g.addr in FrameAddrs(g);
  }

  /** What a call of ReAdj at page a relies on: d internal levels down to p, whose context is c. */
  ghost predicate AdjReady(rank: RID -> int, heap: map<int, BNode>, a: int, c: Ctx, p: int, m: RID, k: int,
                           target: RID, d: nat)
  {
    && a in heap
    && (d == 0 ==> c == Top && LeafSafe(rank, heap[a], k))
    && (d > 0 ==>
      && d == Levels(c) && a == TopAddr(c, p) && 0 <= p && p !in Spine(c)
      && LeafParent(rank, heap, p, k, target)
      && (forall q | 0 <= q < heap[p].n :: heap[p].child[q] !in Spine(c))
      && StoredC(heap, c, p, m) && Routes(rank, c, m, k)
      && Unique(AddrsC(c)) && (forall x | x in AddrsC(c) :: 0 <= x))
  }

  /** What it leaves: the spine repaired, every other page as it was. */
  ghost predicate AdjDone(heap: map<int, BNode>, heap': map<int, BNode>, c: Ctx, p: int, m: RID, m': RID, d: nat) {
    && heap'.Keys == heap.Keys
    && (forall x | x in heap && x !in Spine(c) :: heap'[x] == heap[x])
    && (d > 0 ==> StoredC(heap', c, p, m'))
    && (d == 0 || m' == m ==> heap' == heap)
  }

  /** The root frame of a context that ReAdj works through. */
  lemma AdjFrame(rank: RID -> int, heap: map<int, BNode>, c: Ctx, p: int, m: RID, k: int)
    requires c.Hole? && StoredC(heap, c, p, m) && Unique(AddrsC(c)) && Routes(rank, c, m, k)
    ensures var g, a, m0 := Outer(c), TopAddr(Inner(c), p), TopMin(Inner(c), m);
            && TopAddr(c, p) == g.addr
            && FrameOk(heap, g, a, m0) && FrameRoutes(rank, g, m0, k)
            && Unique(FrameAddrs(g)) && Unique(AddrsC(Inner(c)))
            && (forall x | x in FrameAddrs(g) :: x !in AddrsC(Inner(c)) && x in AddrsC(c))
            && (forall x | x in AddrsC(Inner(c)) :: x in AddrsC(c))
    ensures StoredC(heap, Inner(c), p, m) && Routes(rank, Inner(c), m, k)
    ensures Spine(c) == Spine(Inner(c)) + {Outer(c).addr}
  {
    Peel(heap, c, p, m);
    PeelAddrs(c, p);
    PeelRoutes(rank, c, m, k);
    assert forall x :: AddrsC(c)[x] == AddrsC(Inner(c))[x] + FrameAddrs(Outer(c))[x];
  }

  lemma FrameFirst(heap: map<int, BNode>, g: Ctx, a: int, m: RID)
    requires g.Hole? && FrameOk(heap, g, a, m)
    ensures heap[g.addr].child[0] == if g.left == [] then a else g.left[0].addr
    ensures g.left != [] ==> g.left[0].addr in FrameAddrs(g)
  {
    var kids := AddrList(g.left) + [a] + AddrList(g.right);
    assert heap[g.addr].child[0] == kids[0];
    if g.left != [] {
      AddrOf(g.left[0]);
      assert g.left[0].addr in AddrsF(g.left);
    }
  }

  /** The next page on the spine is stored at a proper address. */
  lemma InnerTop(heap: map<int, BNode>, c: Ctx, p: int, m: RID)
    requires StoredC(heap, c, p, m) && (forall x | x in AddrsC(c) :: 0 <= x) && 0 <= p && p in heap
    ensures 0 <= TopAddr(c, p) && TopAddr(c, p) in heap
  {
    if c.Hole? {
      Peel(heap, c, p, m);
      PeelAddrs(c, p);
      assert Outer(c).addr in AddrsC(c);
    }
  }

  /** One internal level of ReAdj: the page after the rewrite, and readiness for the level below. */
  lemma AdjStep(rank: RID -> int, heap: map<int, BNode>, c: Ctx, p: int, m: RID, k: int, target: RID, d: nat)
      returns (heap': map<int, BNode>)
    requires c.Hole? && AdjReady(rank, heap, TopAddr(c, p), c, p, m, k, target, d)
    ensures var g, a, m0 := Outer(c), TopAddr(Inner(c), p), TopMin(Inner(c), m);
            && FrameOk(heap, g, a, m0) && FrameRoutes(rank, g, m0, k) && g.addr == TopAddr(c, p)
            && |g.left| < |heap[g.addr].row| && heap[g.addr].child[0] != NIL
            && heap' == heap[g.addr := heap[g.addr].(row := heap[g.addr].row[|g.left| := Fix(rank, m0, k, target)])]
            && FrameOk(heap', g, a, Fix(rank, m0, k, target))
            && AdjReady(rank, heap', a, Inner(c), p, m, k, target, d - 1)
    ensures Outer(c).addr !in Spine(Inner(c))
  {
    var g, a, m0 := Outer(c), TopAddr(Inner(c), p), TopMin(Inner(c), m);
    AdjFrame(rank, heap, c, p, m, k);
    heap' := FrameSet(heap, g, a, m0, Fix(rank, m0, k, target));
    AdjFirst(rank, heap, c, p, m, k, target, d, g, a, m0);
    AdjBelow(rank, heap, heap', c, p, m, k, target, d, d - 1, g.addr, heap'[g.addr], Inner(c), a);
  }

  /** The page of an internal level has a first child. */
  lemma AdjFirst(rank: RID -> int, heap: map<int, BNode>, c: Ctx, p: int, m: RID, k: int, target: RID, d: nat, g: Ctx,
                 a: int, m0: RID)
    requires c.Hole? && AdjReady(rank, heap, TopAddr(c, p), c, p, m, k, target, d)
    requires g == Outer(c) && a == TopAddr(Inner(c), p) && FrameOk(heap, g, a, m0)
    requires StoredC(heap, Inner(c), p, m) && (forall x | x in FrameAddrs(g) :: x in AddrsC(c))
        && forall x | x in AddrsC(Inner(c)) :: x in AddrsC(c)
    ensures |heap[g.addr].child| > 0 && heap[g.addr].child[0] != NIL
  {
    InnerTop(heap, Inner(c), p, m);
    FrameFirst(heap, g, a, m0);
  }

  /** A rewrite of the root frame's page leaves the level below ready. */
  lemma {:induction false} AdjBelow(rank: RID -> int, heap: map<int, BNode>, heap': map<int, BNode>, c: Ctx, p: int,
                                    m: RID, k: int, target: RID, d: nat, e: nat, x: int, b: BNode, i: Ctx, a: int)
    requires c.Hole? && AdjReady(rank, heap, TopAddr(c, p), c, p, m, k, target, d) && d == e + 1
    requires x == Outer(c).addr && i == Inner(c) && a == TopAddr(i, p) && heap' == heap[x := b]
    ensures AdjReady(rank, heap', a, i, p, m, k, target, e)
    ensures x !in Spine(i)
  {
    AdjFrame(rank, heap, c, p, m, k);
    InnerTop(heap, i, p, m);
    assert x in FrameAddrs(Outer(c));
    StoredFrameC(heap, heap', i, p, m);
    if x in Spine(i) {
      SpineIsStored(i, x);
    }
    LeafParentKept(rank, heap, p, k, target, x, b);
  }

  lemma LeafParentKept(rank: RID -> int, heap: map<int, BNode>, p: int, k: int, target: RID, x: int, b: BNode)
    requires LeafParent(rank, heap, p, k, target) && x != p && forall q | 0 <= q < heap[p].n :: heap[p].child[q] != x
    ensures LeafParent(rank, heap[x := b], p, k, target)
  {
  }

  /** Once the inner context is repaired, so is the whole one. */
  lemma {:induction false} AdjFinish(rank: RID -> int, heap: map<int, BNode>, h1: map<int, BNode>, h2: map<int, BNode>,
                                     c: Ctx, p: int, m: RID, k: int, target: RID, d: nat)
    requires c.Hole? && AdjReady(rank, heap, TopAddr(c, p), c, p, m, k, target, d)
    requires var g, a, m0 := Outer(c), TopAddr(Inner(c), p), TopMin(Inner(c), m);
             && g.addr in heap && |g.left| < |heap[g.addr].row|
             && h1 == heap[g.addr := heap[g.addr].(row := heap[g.addr].row[|g.left| := Fix(rank, m0, k, target)])]
             && FrameOk(h1, g, a, Fix(rank, m0, k, target))
    requires AdjDone(h1, h2, Inner(c), p, m, Fix(rank, m, k, target), d - 1)
    ensures AdjDone(heap, h2, c, p, m, Fix(rank, m, k, target), d)
  {
    var g, a, m0, m' := Outer(c), TopAddr(Inner(c), p), TopMin(Inner(c), m), Fix(rank, m, k, target);
    AdjFrame(rank, heap, c, p, m, k);
    FixTop(rank, Inner(c), m, k, target);
    AdjStored(h1, h2, c, p, m, m', d - 1, g, Inner(c), a, TopMin(Inner(c), m'));
    RowSame(heap, g, a, m0);
    AdjWhole(heap, h1, h2, c, p, m, m', d, d - 1, Inner(c), g.addr, h1[g.addr]);
  }

  lemma RowSame(heap: map<int, BNode>, g: Ctx, a: int, m: RID)
    requires g.Hole? && FrameOk(heap, g, a, m)
    ensures |g.left| < |heap[g.addr].row| && heap[g.addr].(row := heap[g.addr].row[|g.left| := m]) == heap[g.addr]
  {
    FrameRows(heap, g, a, m);
  }

  /** What is done below the root's frame, and in it, makes up the whole. */
  lemma {:induction false} AdjWhole(heap: map<int, BNode>, h1: map<int, BNode>, h2: map<int, BNode>, c: Ctx, p: int,
                                    m: RID, m': RID, d: nat, e: nat, i: Ctx, x: int, b: BNode)
    requires x in heap && h1 == heap[x := b] && (m' == m ==> b == heap[x]) && d == e + 1
    requires AdjDone(h1, h2, i, p, m, m', e) && Spine(c) == Spine(i) + {x} && StoredC(h2, c, p, m')
    ensures AdjDone(heap, h2, c, p, m, m', d)
  {
  }

  /** The repaired inner context inside the root's frame. */
  lemma {:induction false} AdjStored(h1: map<int, BNode>, h2: map<int, BNode>, c: Ctx, p: int, m: RID, m': RID, e: int,
                                     g: Ctx, i: Ctx, a: int, z: RID)
    requires c.Hole? && g == Outer(c) && i == Inner(c) && a == TopAddr(i, p) && z == TopMin(i, m') && e >= 0
    requires FrameOk(h1, g, a, z) && AdjDone(h1, h2, i, p, m, m', e) && (e == 0 ==> i == Top)
    requires forall x | x in FrameAddrs(g) :: x !in AddrsC(i)
    ensures StoredC(h2, c, p, m')
  {
    forall x | x in FrameAddrs(g) && x in h1 ensures x in h2 && h2[x] == h1[x] {
      if x in Spine(i) {
        SpineIsStored(i, x);
      }
    }
    FrameKeeps(h1, h2, g, a, z);
    Peel(h2, c, p, m');
  }

  /** The separator above a leaf's parent once its least key, of rank k, has been replaced by that of keys. */
  function NewSeparator(rank: RID -> int, m: RID, k: int, keys: seq<RID>): RID {
    if keys == [] then m else Fix(rank, m, k, keys[0])
  }

  /** Rewrites row i of page p, if there is such a page. */
  function SetRow(heap: map<int, BNode>, p: int, i: int, r: RID): map<int, BNode>
    requires p != NIL ==> p in heap && 0 <= i < |heap[p].row|
  {
    if p == NIL then heap else heap[p := heap[p].(row := heap[p].row[i := r])]
  }

  /** A parent p of leaves ks, in a stored context up, from whose leaf i a key may be removed. */
  ghost predicate LeafSite(rank: RID -> int, heap: map<int, BNode>, root: int, p: int, ks: seq<Tree>, i: int, up: Ctx,
                           m: RID) {
    && Stored(heap, Node(p, ks)) && 0 <= i < |ks|
    && (forall q | 0 <= q < |ks| ::
          ks[q].Leaf? && (q != i ==> Size(ks[q]) <= LIMIT && rank(Min(ks[q])) != rank(Min(ks[i]))))
    && ks[i].keys != [] && Sorted(rank, ks[i].keys) && Real(ks[i].keys)
    && StoredC(heap, up, p, m) && Routes(rank, up, m, rank(Min(ks[i]))) && root == TopAddr(up, p)
    && Unique(Addrs(Node(p, ks)) + AddrsC(up)) && (forall x | x in Addrs(Node(p, ks)) + AddrsC(up) :: 0 <= x)
  }

  /** A parent p of leaves in key order, of which only leaf i may be overfull, in a stored context up. */
  ghost predicate LeafRow(rank: RID -> int, heap: map<int, BNode>, root: int, p: int, ks: seq<Tree>, i: int, up: Ctx,
                          m: RID) {
    && Stored(heap, Node(p, ks)) && 0 <= i < |ks|
    && (forall q | 0 <= q < |ks| :: ks[q].Leaf? && ks[q].keys != [] && (q != i ==> Size(ks[q]) <= LIMIT))
    && Sorted(rank, Flat(ks)) && Real(Flat(ks))
    && StoredC(heap, up, p, m) && root == TopAddr(up, p)
    && Unique(Addrs(Node(p, ks)) + AddrsC(up)) && (forall x | x in Addrs(Node(p, ks)) + AddrsC(up) :: 0 <= x)
  }

  lemma RowSite(rank: RID -> int, heap: map<int, BNode>, root: int, p: int, ks: seq<Tree>, i: int, up: Ctx, m: RID)
    requires LeafRow(rank, heap, root, p, ks, i, up, m) && Routes(rank, up, m, rank(Min(ks[i])))
    ensures LeafSite(rank, heap, root, p, ks, i, up, m)
  {
    KidSorted(rank, ks, i);
    forall q | 0 <= q < |ks| && q != i ensures rank(Min(ks[q])) != rank(Min(ks[i])) {
      if q < i {
        MinsApart(rank, ks, q, i);
      } else {
        MinsApart(rank, ks, i, q);
      }
    }
  }

  /** The heap after leaves a and b, children i and i + 1 of p, are rewritten with keys ak and bk. */
  function Relaid(h: map<int, BNode>, p: int, a: int, b: int, i: int, ak: seq<RID>, bk: seq<RID>): map<int, BNode>
    requires p in h && 0 <= i && i + 1 < |h[p].row| && |ak| <= SLOTS && |bk| <= SLOTS
  {
    h[a := Page([], ak)][b := Page([], bk)][p := h[p].(row := h[p].row[i := Head(ak)][i + 1 := Head(bk)])]
  }

  /** Moving keys across the boundary of two neighbouring leaves keeps the row of leaves a legal one. */
  lemma {:induction false} RelaidRow(rank: RID -> int, h: map<int, BNode>, root: int, p: int, l: seq<Tree>, a: Tree,
                                     b: Tree, r: seq<Tree>, i: int, i': int, up: Ctx, m: RID, ak: seq<RID>,
                                     bk: seq<RID>)
    requires LeafRow(rank, h, root, p, l + [a, b] + r, i, up, m) && (i == |l| || i == |l| + 1)
        && (i' == |l| || i' == |l| + 1)
    requires a.Leaf? && b.Leaf? && ak + bk == a.keys + b.keys && |ak| <= SLOTS && |bk| <= SLOTS
    ensures p in h && |l| + 1 < |h[p].row| && a.addr != b.addr && p != a.addr && p != b.addr && a.addr in h
        && b.addr in h
    ensures var h' := Relaid(h, p, a.addr, b.addr, |l|, ak, bk); var ks' := l + [Leaf(a.addr, ak),
        Leaf(b.addr, bk)] + r;
            && Stored(h', Node(p, ks'))
            && StoredC(h', up, p, m)
            && Flat(ks') == Flat(l + [a, b] + r) && Addrs(Node(p, ks')) == Addrs(Node(p, l + [a, b] + r))
            && (ak != [] && bk != [] && |if i' == |l| then bk else ak| <= LIMIT
                ==> LeafRow(rank, h', root, p, ks', i', up, m))
  {
    var ks, a', b' := l + [a, b] + r, Leaf(a.addr, ak), Leaf(b.addr, bk);
    UniqueParts(Addrs(Node(p, ks)), AddrsC(up));
    var h' := RelaidStored(h, p, l, a, b, r, ak, bk);
    RelaidSums(p, l, a, b, r, ak, bk);
    RelaidAbove(h, h', p, ks, l, a, b, r, up, m);
    RelaidLeaves(l, a, b, r, a', b', i, i');
  }

  lemma RelaidStored(h: map<int, BNode>, p: int, l: seq<Tree>, a: Tree, b: Tree, r: seq<Tree>, ak: seq<RID>,
                     bk: seq<RID>)
      returns (h': map<int, BNode>)
    requires Stored(h, Node(p, l + [a, b] + r)) && Unique(Addrs(Node(p, l + [a, b] + r)))
    requires a.Leaf? && b.Leaf? && |ak| <= SLOTS && |bk| <= SLOTS
    ensures p in h && |l| + 1 < |h[p].row| && a.addr != b.addr && p != a.addr && p != b.addr && a.addr in h
        && b.addr in h
    ensures h' == Relaid(h, p, a.addr, b.addr, |l|, ak, bk)
    ensures Stored(h', Node(p, l + [Leaf(a.addr, ak), Leaf(b.addr, bk)] + r))
  {
    var a', b' := Leaf(a.addr, ak), Leaf(b.addr, bk);
    PairParts(h, p, l, a, b, r);
    h' := Relaid(h, p, a.addr, b.addr, |l|, ak, bk);
    PairApart(p, l, a, b, r, p);
    PairApart(p, l, a, b, r, a.addr);
    RelaidPage(h, p, l, a, b, r, ak, bk);
    RelaidFrame(h, p, a.addr, b.addr, |l|, ak, bk);
    PairStored(h, h', p, l, a, b, r, a', b');
  }

  lemma RelaidFrame(h: map<int, BNode>, p: int, a: int, b: int, i: int, ak: seq<RID>, bk: seq<RID>)
    requires p in h && 0 <= i && i + 1 < |h[p].row| && |ak| <= SLOTS && |bk| <= SLOTS && p != a && p != b && a != b
    ensures var h' := Relaid(h, p, a, b, i, ak, bk);
            && Stored(h', Leaf(a, ak)) && Stored(h', Leaf(b, bk))
            && forall y | y in h && y != p && y != a && y != b :: y in h' && h'[y] == h[y]
  {
  }

  lemma RelaidSums(p: int, l: seq<Tree>, a: Tree, b: Tree, r: seq<Tree>, ak: seq<RID>, bk: seq<RID>)
    requires a.Leaf? && b.Leaf? && ak + bk == a.keys + b.keys
    ensures var ks' := l + [Leaf(a.addr, ak), Leaf(b.addr, bk)] + r;
            Flat(ks') == Flat(l + [a, b] + r) && Addrs(Node(p, ks')) == Addrs(Node(p, l + [a, b] + r))
  {
    FlatAround2(l, a, b, r);
    FlatAround2(l, Leaf(a.addr, ak), Leaf(b.addr, bk), r);
  }

  /** Two neighbouring leaves of a row: their pages, and what a rewrite with their own keys does. */
  lemma RowPair(rank: RID -> int, h: map<int, BNode>, root: int, p: int, l: seq<Tree>, a: Tree, b: Tree, r: seq<Tree>,
                i: int, up: Ctx, m: RID)
    requires LeafRow(rank, h, root, p, l + [a, b] + r, i, up, m) && (i == |l| || i == |l| + 1)
    ensures a.Leaf? && b.Leaf? && a.keys != [] && b.keys != [] && |a.keys| <= SLOTS && |b.keys| <= SLOTS
    ensures if i == |l| then |b.keys| <= LIMIT else |a.keys| <= LIMIT
    ensures p in h && |l| + 1 < |h[p].row| && a.addr in h && b.addr in h
    ensures p != a.addr && p != b.addr && a.addr != b.addr && p != NIL
    ensures h[a.addr] == Page([], a.keys) && h[b.addr] == Page([], b.keys)
    ensures Relaid(h, p, a.addr, b.addr, |l|, a.keys, b.keys) == h
  {
    var ks := l + [a, b] + r;
    assert ks[|l|] == a && ks[|l| + 1] == b;
    assert p in Addrs(Node(p, ks)) + AddrsC(up);
    UniqueParts(Addrs(Node(p, ks)), AddrsC(up));
    PairLeaves(h, p, l, a, b, r);
  }

  lemma PairLeaves(h: map<int, BNode>, p: int, l: seq<Tree>, a: Tree, b: Tree, r: seq<Tree>)
    requires Stored(h, Node(p, l + [a, b] + r)) && a.Leaf? && b.Leaf?
    requires Unique(Addrs(Node(p, l + [a, b] + r)))
    ensures |a.keys| <= SLOTS && |b.keys| <= SLOTS
    ensures p in h && |l| + 1 < |h[p].row| && a.addr in h && b.addr in h
    ensures p != a.addr && p != b.addr && a.addr != b.addr
    ensures h[a.addr] == Page([], a.keys) && h[b.addr] == Page([], b.keys)
    ensures Relaid(h, p, a.addr, b.addr, |l|, a.keys, b.keys) == h
  {
    PairParts(h, p, l, a, b, r);
    PairApart(p, l, a, b, r, p);
    PairApart(p, l, a, b, r, a.addr);
    RelaidSame(h, p, a, b, MinList(l), MinList(r));
  }

  lemma RelaidSame(h: map<int, BNode>, p: int, a: Tree, b: Tree, l: seq<RID>, r: seq<RID>)
    requires p in h && a.addr in h && b.addr in h && a.Leaf? && b.Leaf? && |a.keys| <= SLOTS && |b.keys| <= SLOTS
    requires h[a.addr] == Page([], a.keys) && h[b.addr] == Page([], b.keys)
    requires |l| + 2 + |r| <= SLOTS && h[p].row == Pad(l + [Min(a), Min(b)] + r, NULL_RID)
    requires p != a.addr && p != b.addr && a.addr != b.addr
    ensures Relaid(h, p, a.addr, b.addr, |l|, a.keys, b.keys) == h
  {
    var i, row := |l|, h[p].row;
    assert row[i] == Head(a.keys) && row[i + 1] == Head(b.keys);
    assert row[i := Head(a.keys)][i + 1 := Head(b.keys)] == row;
  }

  /** Leaf a rewritten first, then leaf b. */
  lemma RelaidRight(h: map<int, BNode>, p: int, a: int, b: int, i: int, ak: seq<RID>, bk: seq<RID>, i': int)
    requires p in h && 0 <= i && i' == i + 1 < |h[p].row| && |ak| <= SLOTS && |bk| <= SLOTS && bk != []
    requires p != a && p != b && a != b && p != NIL
    ensures SetRow(SetRow(h[a := Page([], ak)], p, i, Head(ak))[b := Page([], bk)], p, i', bk[0]) == Relaid(h, p, a, b,
        i, ak, bk)
  {
  }

  /** Leaf b rewritten first, then leaf a. */
  lemma RelaidLeft(h: map<int, BNode>, p: int, a: int, b: int, i: int, ak: seq<RID>, bk: seq<RID>, i': int)
    requires p in h && 0 <= i && i' == i + 1 < |h[p].row| && |ak| <= SLOTS && |bk| <= SLOTS && ak != []
    requires p != a && p != b && a != b && p != NIL
    ensures SetRow(SetRow(h[b := Page([], bk)], p, i', Head(bk))[a := Page([], ak)], p, i, ak[0]) == Relaid(h, p, a, b,
        i, ak, bk)
  {
    var row := h[p].row;
    assert row[i' := Head(bk)][i := ak[0]] == row[i := Head(ak)][i' := Head(bk)];
  }

  /** The last j keys of ak have gone in front of bk. */
  ghost predicate PassedRight(ak: seq<RID>, bk: seq<RID>, a1: seq<RID>, b1: seq<RID>, j: int) {
    0 <= j <= |ak| && a1 == ak[..|ak| - j] && b1 == ak[|ak| - j..] + bk
  }

  /** One more key goes: a1 and b1 become a2 and b2. */
  ghost predicate PassesRight(rank: RID -> int, ak: seq<RID>, bk: seq<RID>, up: Ctx, m: RID, a1: seq<RID>,
                              b1: seq<RID>, a2: seq<RID>, b2: seq<RID>) {
    && a1 + b1 == ak + bk && a1 != [] && b1 != [] && |a1| <= SLOTS && |b1| <= LIMIT
    && Routes(rank, up, m, rank(a1[0])) && (rank(m) == rank(a1[0]) ==> m == a1[0])
    && a2 == a1[..|a1| - 1] && b2 == [a1[|a1| - 1]] + b1
  }

  lemma PassRight(rank: RID -> int, ak: seq<RID>, bk: seq<RID>, up: Ctx, m: RID, a1: seq<RID>, b1: seq<RID>, j: int,
                  j': int)
      returns (a2: seq<RID>, b2: seq<RID>)
    requires PassedRight(ak, bk, a1, b1, j) && j < |ak| <= SLOTS && bk != [] && |bk| + j < SLOTS && j' == j + 1
    requires Routes(rank, up, m, rank(ak[0])) && (rank(m) == rank(ak[0]) ==> m == ak[0])
    ensures PassesRight(rank, ak, bk, up, m, a1, b1, a2, b2) && PassedRight(ak, bk, a2, b2, j')
  {
    a2, b2 := a1[..|a1| - 1], [a1[|a1| - 1]] + b1;
    assert a1[0] == ak[0] && a1 + b1 == ak + bk;
  }

  /** The first j keys of bk have gone behind ak. */
  ghost predicate PassedLeft(ak: seq<RID>, bk: seq<RID>, a1: seq<RID>, b1: seq<RID>, j: int) {
    0 <= j <= |bk| && a1 == ak + bk[..j] && b1 == bk[j..]
  }

  lemma PassLeft(ak: seq<RID>, bk: seq<RID>, a1: seq<RID>, b1: seq<RID>, j: int) returns (a2: seq<RID>, b2: seq<RID>)
    requires PassedLeft(ak, bk, a1, b1, j) && j < |bk|
    ensures |a1| == |ak| + j && |b1| == |bk| - j && b1[0] in bk && a1 + b1 == ak + bk
    ensures a2 == a1 + [b1[0]] && b2 == b1[1..] && PassedLeft(ak, bk, a2, b2, j + 1)
  {
    a2, b2 := a1 + [b1[0]], b1[1..];
  }

  lemma RelaidTwice(h: map<int, BNode>, p: int, a: int, b: int, i: int, ak: seq<RID>, bk: seq<RID>, ak': seq<RID>,
                    bk': seq<RID>)
    requires p in h && 0 <= i && i + 1 < |h[p].row| && |ak| <= SLOTS && |bk| <= SLOTS && |ak'| <= SLOTS
        && |bk'| <= SLOTS
    requires p != a && p != b && a != b
    ensures Relaid(Relaid(h, p, a, b, i, ak, bk), p, a, b, i, ak', bk') == Relaid(h, p, a, b, i, ak', bk')
  {
    var row := h[p].row;
    assert row[i := Head(ak)][i + 1 := Head(bk)][i := Head(ak')][i + 1 := Head(bk')]
        == row[i := Head(ak')][i + 1 := Head(bk')];
  }

  lemma RelaidPage(h: map<int, BNode>, p: int, l: seq<Tree>, a: Tree, b: Tree, r: seq<Tree>, ak: seq<RID>, bk: seq<RID>)
    requires p in h && |l| + 2 + |r| <= SLOTS && |ak| <= SLOTS && |bk| <= SLOTS
    requires h[p] == Page(AddrList(l) + [a.addr, b.addr] + AddrList(r), MinList(l) + [Min(a), Min(b)] + MinList(r))
    ensures Relaid(h, p, a.addr, b.addr, |l|, ak, bk)[p]
         == Page(AddrList(l) + [a.addr, b.addr] + AddrList(r), MinList(l) + [Head(ak), Head(bk)] + MinList(r))
  {
    var rows := MinList(l) + [Min(a), Min(b)] + MinList(r);
    PadSet(rows, NULL_RID, |l|, Head(ak));
    PadSet(rows[|l| := Head(ak)], NULL_RID, |l| + 1, Head(bk));
    assert rows[|l| := Head(ak)][|l| + 1 := Head(bk)] == MinList(l) + [Head(ak), Head(bk)] + MinList(r);
  }

  lemma RelaidAbove(h: map<int, BNode>, h': map<int, BNode>, p: int, ks: seq<Tree>, l: seq<Tree>, a: Tree, b: Tree,
                    r: seq<Tree>, up: Ctx, m: RID)
    requires ks == l + [a, b] + r && StoredC(h, up, p, m) && Unique(Addrs(Node(p, ks)) + AddrsC(up))
    requires forall y | y in h && y != p && y != a.addr && y != b.addr :: y in h' && h'[y] == h[y]
    ensures StoredC(h', up, p, m)
  {
    FlatAround2(l, a, b, r);
    forall y | y in AddrsC(up) ensures y != p && y != a.addr && y != b.addr {
      assert (Addrs(Node(p, ks)) + AddrsC(up))[y] <= 1;
    }
    StoredFrameC(h, h', up, p, m);
  }

  lemma RelaidLeaves(l: seq<Tree>, a: Tree, b: Tree, r: seq<Tree>, a': Tree, b': Tree, i: int, i': int)
    requires (i == |l| || i == |l| + 1) && (i' == |l| || i' == |l| + 1) && a'.Leaf? && b'.Leaf?
    requires var ks := l + [a, b] + r;
             forall q | 0 <= q < |ks| :: ks[q].Leaf? && ks[q].keys != [] && (q != i ==> Size(ks[q]) <= LIMIT)
    ensures var ks' := l + [a', b'] + r;
            a'.keys != [] && b'.keys != [] && Size(if i' == |l| then b' else a') <= LIMIT ==>
              forall q | 0 <= q < |ks'| :: ks'[q].Leaf? && ks'[q].keys != [] && (q != i' ==> Size(ks'[q]) <= LIMIT)
  {
    var ks, ks' := l + [a, b] + r, l + [a', b'] + r;
    assert forall q | 0 <= q < |ks'| && q != |l| && q != |l| + 1 :: ks'[q] == ks[q];
  }

  /** The pages around a leaf site: p, its leaves and the spine above are all distinct. */
  lemma {:induction false} LeafSitePages(rank: RID -> int, heap: map<int, BNode>, root: int, p: int, ks: seq<Tree>,
                                         i: int, up: Ctx, m: RID, q: int)
    requires LeafSite(rank, heap, root, p, ks, i, up, m) && 0 <= q < |ks|
    ensures p in heap && p !in AddrsC(up) && 0 <= p
    ensures heap[p] == Page(AddrList(ks), MinList(ks)) && heap[p].n == |ks| && 0 <= heap[p].child[0]
    ensures heap[p].child[q] == ks[q].addr && heap[p].row[q] == Min(ks[q])
    ensures ks[q].addr in heap && Size(ks[q]) <= SLOTS && heap[ks[q].addr] == Page([], ks[q].keys)
    ensures ks[q].addr != p && ks[q].addr !in AddrsC(up) && (q != i ==> ks[q].addr != ks[i].addr)
  {
    var P, x := Node(p, ks), ks[q].addr;
    assert Stored(heap, ks[q]);
    CountOne(ks, q, x);
    if q < i {
      CountTwo(ks, q, i, x);
    } else if i < q {
      CountTwo(ks, i, q, x);
    }
    CountOne(ks, 0, ks[0].addr);
    CountBelow(p, AddrsF(ks), AddrsC(up), x);
    CountBelow(p, AddrsF(ks), AddrsC(up), p);
    CountBelow(p, AddrsF(ks), AddrsC(up), ks[0].addr);
    assert Addrs(P) == multiset{p} + AddrsF(ks);
  }

  lemma CountBelow(p: int, f: multiset<int>, u: multiset<int>, x: int)
    ensures ((multiset{p} + f) + u)[x] == (if x == p then 1 else 0) + f[x] + u[x]
  {
  }

  /** After a leaf loses a key, and its parent's separator is refreshed, ReAdj may run. */
  lemma {:induction false} LeafReady(rank: RID -> int, heap: map<int, BNode>, root: int, p: int, ks: seq<Tree>, i: int,
                                     up: Ctx, m: RID, keys': seq<RID>)
      returns (heap': map<int, BNode>)
    requires LeafSite(rank, heap, root, p, ks, i, up, m)
    requires |keys'| == |ks[i].keys| - 1 && keys' != [] && rank(Min(ks[i])) <= rank(keys'[0])
    ensures ks[i].addr in heap && p in heap && i < SLOTS && |heap[p].row| == SLOTS && p != ks[i].addr && |keys'| < SLOTS
    ensures heap' == SetRow(heap[ks[i].addr := heap[ks[i].addr].(row := Pad(keys', NULL_RID))], p, i, keys'[0])
    ensures AdjReady(rank, heap', root, up, p, m, rank(Min(ks[i])), keys'[0], Levels(up))
  {
    var x := ks[i].addr;
    LeafSitePages(rank, heap, root, p, ks, i, up, m, i);
    heap' := SetRow(heap[x := heap[x].(row := Pad(keys', NULL_RID))], p, i, keys'[0]);
    assert LeafParent(rank, heap', p, rank(Min(ks[i])), keys'[0]) by {
      forall q | 0 <= q < heap'[p].n
        ensures (rank(heap'[p].row[q]) == rank(Min(ks[i])) ==> heap'[p].row[q] == keys'[0])
        ensures heap'[p].child[q] in heap' && LeafSafe(rank, heap'[heap'[p].child[q]], rank(Min(ks[i])))
      {
        LeafSitePages(rank, heap, root, p, ks, i, up, m, q);
      }
    }
    LeafReadySpine(rank, heap, heap', root, p, ks, i, up, m);
  }

  lemma {:induction false} LeafReadySpine(rank: RID -> int, heap: map<int, BNode>, heap': map<int, BNode>, root: int,
                                          p: int, ks: seq<Tree>, i: int, up: Ctx, m: RID)
    requires LeafSite(rank, heap, root, p, ks, i, up, m)
    requires heap'.Keys == heap.Keys && forall y | y in heap && y != p && y != ks[i].addr :: heap'[y] == heap[y]
    requires p in heap && heap'[p].n == heap[p].n && heap'[p].child == heap[p].child
    ensures root in heap' && p !in Spine(up) && StoredC(heap', up, p, m)
    ensures |heap'[p].child| == SLOTS && heap'[p].n == |ks| <= SLOTS
    ensures forall q | 0 <= q < heap'[p].n :: heap'[p].child[q] !in Spine(up)
    ensures Unique(AddrsC(up)) && forall y | y in AddrsC(up) :: 0 <= y
  {
    LeafSitePages(rank, heap, root, p, ks, i, up, m, i);
    assert forall y :: AddrsC(up)[y] <= (Addrs(Node(p, ks)) + AddrsC(up))[y];
    StoredFrameC(heap, heap', up, p, m);
    InnerTop(heap, up, p, m);
    forall y | y in Spine(up) ensures y in AddrsC(up) {
      SpineIsStored(up, y);
    }
    forall q | 0 <= q < heap'[p].n ensures heap'[p].child[q] !in Spine(up) {
      LeafSitePages(rank, heap, root, p, ks, i, up, m, q);
    }
  }

  /** The parked entry count of the leaf is no part of what ReAdj repaired. */
  lemma {:induction false} LeafSettled(h1: map<int, BNode>, h2: map<int, BNode>, up: Ctx, p: int, m: RID, m': RID,
                                       d: nat, x: int, b: BNode, g1: map<int, BNode>, g2: map<int, BNode>)
    requires AdjDone(h1, h2, up, p, m, m', d) && x in h1 && x !in AddrsC(up) && g1 == h1[x := b] && g2 == h2[x := b]
    ensures AdjDone(g1, g2, up, p, m, m', d)
  {
    LeafOutside(h1, h2, up, p, m, m', d, x);
    if d > 0 {
      StoredFrameC(h2, g2, up, p, m');
    }
  }

  /** Leaf x once its entry count has followed its rows, with page b0 before and b after. */
  lemma LeafCommitted(h0: map<int, BNode>, h2: map<int, BNode>, up: Ctx, p: int, m: RID, m': RID, d: nat, x: int,
                      i: int, r: RID, b0: BNode, b: BNode)
    requires x in h0 && x !in AddrsC(up) && p in h0 && p != x && p != NIL && 0 <= i < |h0[p].row|
    requires AdjDone(SetRow(h0[x := b0], p, i, r), h2, up, p, m, m', d)
    ensures x in h2 && h2[x] == b0
    ensures AdjDone(SetRow(h0[x := b], p, i, r), h2[x := b], up, p, m, m', d)
  {
    var h1, g1 := SetRow(h0[x := b0], p, i, r), SetRow(h0[x := b], p, i, r);
    LeafOutside(h1, h2, up, p, m, m', d, x);
    assert g1 == h1[x := b];
    LeafSettled(h1, h2, up, p, m, m', d, x, b, g1, h2[x := b]);
  }

  /** ReAdj does not touch a page outside the context. */
  lemma LeafOutside(h1: map<int, BNode>, h2: map<int, BNode>, up: Ctx, p: int, m: RID, m': RID, d: nat, x: int)
    requires AdjDone(h1, h2, up, p, m, m', d) && x in h1 && x !in AddrsC(up)
    ensures x in h2 && h2[x] == h1[x] && x !in Spine(up)
  {
    if x in Spine(up) {
      SpineIsStored(up, x);
    }
  }

  /** Every tree of ts starts at a page other than a and b that shows its least key in cell 0. */
  ghost predicate KidPages(h: map<int, BNode>, ts: seq<Tree>, a: int, b: int) {
    forall q | 0 <= q < |ts| ::
      && ts[q].addr in h && ts[q].addr != a && ts[q].addr != b
      && |h[ts[q].addr].row| == SLOTS && h[ts[q].addr].row[0] == Min(ts[q])
  }

  lemma KidPagesOf(h: map<int, BNode>, t: Tree, a: int, b: int, ht: nat)
    requires t.Node? && Stored(h, t) && KidsOk(t.kids, ht)
    requires a !in AddrsF(t.kids) && b !in AddrsF(t.kids)
    ensures KidPages(h, t.kids, a, b)
  {
    forall q | 0 <= q < |t.kids|
      ensures t.kids[q].addr in AddrsF(t.kids) && Stored(h, t.kids[q]) && Image(t.kids[q]).row[0] == Min(t.kids[q])
    {
      AddrOf(t.kids[q]);
      CountOne(t.kids, q, t.kids[q].addr);
      ImageHead(t.kids[q], ht);
    }
  }

  /** The heap after internal nodes a and b are rewritten with children ak and bk. */
  function Rekid(h: map<int, BNode>, a: int, b: int, ak: seq<Tree>, bk: seq<Tree>): map<int, BNode>
    requires |ak| <= SLOTS && |bk| <= SLOTS
  {
    h[a := Page(AddrList(ak), MinList(ak))][b := Page(AddrList(bk), MinList(bk))]
  }

  lemma RekidSame(h: map<int, BNode>, a: Tree, b: Tree)
    requires a.addr in h && b.addr in h && Size(a) <= SLOTS && Size(b) <= SLOTS && h[a.addr] == Image(a)
        && h[b.addr] == Image(b)
    ensures a.Node? && b.Node? ==> h == Rekid(h, a.addr, b.addr, a.kids, b.kids)
  {
  }

  lemma ImageFirst(t: Tree, h: nat)
    requires Shape(t, h) || Size(t) == 0
    requires Size(t) <= SLOTS
    ensures Image(t).row[0] == Min(t)
  {
    if Size(t) > 0 {
      ImageHead(t, h);
    } else {
      assert Keys(t) == [];
      assert Image(t).row == Pad([], NULL_RID);
    }
  }

  /** What is left of a after n entries cross the boundary between neighbours a and b, to the right or to the left. */
  function LeftPart(a: Tree, b: Tree, n: int, right: bool): Tree
    requires (a.Leaf? <==> b.Leaf?) && 0 <= n <= (if right then Size(a) else Size(b))
  {
    if right then Take(a, Size(a) - n) else Join(a.addr, a, Take(b, n))
  }

  function RightPart(a: Tree, b: Tree, n: int, right: bool): Tree
    requires (a.Leaf? <==> b.Leaf?) && 0 <= n <= (if right then Size(a) else Size(b))
  {
    if right then Join(b.addr, Drop(a, b.addr, Size(a) - n), b) else Drop(b, b.addr, n)
  }

  /** The heap once neighbours a and b, children i and i + 1 of p, have become a' and b'. */
  function Moved(h: map<int, BNode>, p: int, i: int, a': Tree, b': Tree): map<int, BNode>
    requires p in h && 0 <= i && i + 1 < |h[p].row| && Size(a') <= SLOTS && Size(b') <= SLOTS
  {
    var row := if a'.Leaf? then h[p].row[i := Min(a')] else h[p].row;
    h[a'.addr := Image(a')][b'.addr := Image(b')][p := h[p].(row := row[i + 1 := Min(b')])]
  }

  /** The heap after the entries, but not yet the separators above internal nodes, have moved. */
  function Shifted(h: map<int, BNode>, p: int, i: int, a: Tree, b: Tree): map<int, BNode>
    requires p in h && 0 <= i && i + 1 < |h[p].row| && Size(a) <= SLOTS && Size(b) <= SLOTS && (a.Leaf? <==> b.Leaf?)
  {
    if a.Leaf? then Relaid(h, p, a.addr, b.addr, i, a.keys, b.keys) else Rekid(h, a.addr, b.addr, a.kids, b.kids)
  }

  /** Move's last assignment to the parent's separators, after a shift of keys or of children. */
  lemma MovedIs(h: map<int, BNode>, p: int, i: int, a: Tree, b: Tree)
    requires p in h && 0 <= i && i + 1 < |h[p].row| && Size(a) <= SLOTS && Size(b) <= SLOTS && (a.Leaf? <==> b.Leaf?)
    requires p != a.addr && p != b.addr && p != NIL
    ensures SetRow(Shifted(h, p, i, a, b), p, i + 1, Min(b)) == Moved(h, p, i, a, b)
    ensures Shifted(h, p, i, a, b)[b.addr] == Image(b)
  {
    var row := h[p].row[i := Min(a)];
    assert row[i + 1 := Min(b)][i + 1 := Min(b)] == row[i + 1 := Min(b)];
  }

  /** Neighbours a and b, children |l| and |l| + 1 of p, between which Move may shift n entries. */
  ghost predicate PairSite(rank: RID -> int, heap: map<int, BNode>, root: int, p: int, l: seq<Tree>, a: Tree, b: Tree,
                           r: seq<Tree>, n: int, right: bool, up: Ctx, m: RID, h: nat) {
    && Shape(a, h) && Shape(b, h) && 1 <= Size(a) && 1 <= Size(b)
    && 0 <= n <= (if right then Size(a) else Size(b)) && (if right then Size(b) else Size(a)) + n <= SLOTS
    && Stored(heap, a) && Stored(heap, b) && rank(Min(a)) < rank(Min(b))
    && p in heap && |heap[p].row| == SLOTS && |l| + 2 + |r| <= SLOTS
    && Unique(Addrs(Node(p, l + [a, b] + r))) && (forall x | x in Addrs(Node(p, l + [a, b] + r)) :: 0 <= x)
    && (h == 0 ==>
      && LeafRow(rank, heap, root, p, l + [a, b] + r, if right then |l| else |l| + 1, up, m)
      && (right ==> Routes(rank, up, m, rank(Min(a))) && (rank(m) == rank(Min(a)) ==> m == Min(a)))
      && (!right ==> forall k | k in b.keys :: Routes(rank, up, m, rank(k)) && rank(m) != rank(k)))
  }

  /** The pages of such neighbours. */
  lemma {:induction false} PairPages(rank: RID -> int, heap: map<int, BNode>, root: int, p: int, l: seq<Tree>, a: Tree,
                                     b: Tree, r: seq<Tree>, n: int, right: bool, up: Ctx, m: RID, h: nat)
    requires PairSite(rank, heap, root, p, l, a, b, r, n, right, up, m, h)
    ensures p != a.addr && p != b.addr && a.addr != b.addr && a.addr in heap && b.addr in heap && p != NIL
    ensures heap[a.addr] == Image(a) && heap[b.addr] == Image(b)
    ensures heap[a.addr].row[0] == Min(a) && heap[b.addr].row[0] == Min(b)
    ensures heap[a.addr].child[0] == NIL <==> h == 0
    ensures heap[b.addr].child[0] == NIL <==> h == 0
    ensures h > 0 ==> KidPages(heap, a.kids, a.addr, b.addr) && KidPages(heap, b.kids, a.addr, b.addr)
  {
    AddrOf(a);
    AddrOf(b);
    AddrOf(Node(p, l + [a, b] + r));
    PairApart(p, l, a, b, r, p);
    PairApart(p, l, a, b, r, a.addr);
    PairApart(p, l, a, b, r, b.addr);
    ImageFirst(a, h);
    ImageFirst(b, h);
    if h > 0 {
      KidPagesOf(heap, a, a.addr, b.addr, h - 1);
      KidPagesOf(heap, b, a.addr, b.addr, h - 1);
      FirstKid(p, l, a, b, r);
    }
  }

  lemma FirstKid(p: int, l: seq<Tree>, a: Tree, b: Tree, r: seq<Tree>)
    requires forall x | x in Addrs(Node(p, l + [a, b] + r)) :: 0 <= x
    ensures a.Node? && a.kids != [] ==> 0 <= a.kids[0].addr
    ensures b.Node? && b.kids != [] ==> 0 <= b.kids[0].addr
  {
    FlatAround2(l, a, b, r);
    KidAddr(a);
    KidAddr(b);
    if a.Node? && a.kids != [] {
      InMiddle(p, AddrsF(l), Addrs(a), Addrs(b), AddrsF(r), a.kids[0].addr);
      assert a.kids[0].addr in Addrs(Node(p, l + [a, b] + r));
    }
    if b.Node? && b.kids != [] {
      InMiddle(p, AddrsF(l), Addrs(a), Addrs(b), AddrsF(r), b.kids[0].addr);
      assert b.kids[0].addr in Addrs(Node(p, l + [a, b] + r));
    }
  }

  lemma KidAddr(t: Tree)
    ensures t.Node? && t.kids != [] ==> t.kids[0].addr in Addrs(t)
  {
    if t.Node? && t.kids != [] {
      AddrOf(t.kids[0]);
    }
  }

  lemma InMiddle(p: int, l: multiset<int>, a: multiset<int>, b: multiset<int>, r: multiset<int>, y: int)
    requires y in a || y in b
    ensures y in multiset{p} + (l + (a + b) + r)
  {
  }

  /** Both parts have the height of the neighbours, unless they are empty. */
  lemma PartsShape(a: Tree, b: Tree, n: int, right: bool, h: nat)
    requires Shape(a, h) && Shape(b, h) && 0 <= n <= (if right then Size(a) else Size(b))
    ensures var a' := LeftPart(a, b, n, right); Shape(a', h) || Size(a') == 0
    ensures var b' := RightPart(a, b, n, right); Shape(b', h) || Size(b') == 0
  {
  }

  lemma PartsFirst(a: Tree, b: Tree, n: int, right: bool, h: nat)
    requires Shape(a, h) && Shape(b, h) && 0 <= n <= (if right then Size(a) else Size(b)) && Size(b) <= SLOTS
    requires (if right then Size(b) else Size(a)) + n <= SLOTS
    ensures var b' := RightPart(a, b, n, right); Size(b') <= SLOTS && Image(b').row[0] == Min(b') && b'.addr == b.addr
  {
    PartsShape(a, b, n, right, h);
    ImageFirst(RightPart(a, b, n, right), h);
  }

  /** The separator Move refreshes last: the front cell of b's page goes above b, child i of p. */
  lemma MovedSeparator(h0: map<int, BNode>, p: int, i0: int, a: Tree, b: Tree, h1: map<int, BNode>, x: int, i: int)
    requires p in h0 && 0 <= i0 && i == i0 + 1 < |h0[p].row| && Size(a) <= SLOTS && Size(b) <= SLOTS
        && (a.Leaf? <==> b.Leaf?)
    requires p != a.addr && p != b.addr && p != NIL && x == b.addr && Image(b).row[0] == Min(b)
    requires h1 == Shifted(h0, p, i0, a, b)
    ensures x in h1 && |h1[x].row| == SLOTS && p in h1 && i < |h1[p].row|
    ensures SetRow(h1, p, i, h1[x].row[0]) == Moved(h0, p, i0, a, b)
  {
    MovedIs(h0, p, i0, a, b);
  }
}
