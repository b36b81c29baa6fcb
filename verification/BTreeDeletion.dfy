/** What deletion makes of a node and its parent: borrowing from a neighbour, merging with one. */
module BTreeDeletion {
  import opened Rids
  import opened BTreeShape
  import opened BTreeContext
  import opened BTreeSteps
  import opened BTreeOutcome
  import opened BTreeOrder
  import opened BTreeInsertion

  /** The key is out: t has become t1, possibly with one entry too few, and every separator is exact. */
  ghost predicate Shrunk(rank: RID -> int, heap: map<int, BNode>, root: int, free: int, c: Ctx, t: Tree, t1: Tree,
                         h: nat, k: int) {
    && Stored(heap, t1) && Shape(t1, h) && t1.addr == t.addr && Size(t) - 1 <= Size(t1) <= Size(t)
    && Keys(t1) == Del(rank, Keys(t), k)
    && Unique(Addrs(t1) + AddrsC(c)) && Bounded(Addrs(t1) + AddrsC(c), free)
    && StoredC(heap, c, t1.addr, Min(t1)) && root == TopAddr(c, t1.addr)
  }

  /** The parent of t after the whole step: legal children, exact separators, the key gone from its keys. */
  ghost predicate Removed(rank: RID -> int, heap: map<int, BNode>, root: int, free: int, c: Ctx, t: Tree, out: Tree,
                          h: nat, k: int)
    requires c.Hole?
  {
    && out.Node? && out.addr == c.addr && Stored(heap, out) && StoredC(heap, c.up, c.addr, Min(out))
      && root == TopAddr(c.up, c.addr)
    && KidsOk(out.kids, h) && |c.left| + |c.right| <= |out.kids| <= |c.left| + 1 + |c.right|
    && Keys(out) == Del(rank, Around3(Flat(c.left), Keys(t), Flat(c.right)), k)
    && Unique(Addrs(out) + AddrsC(c.up)) && Bounded(Addrs(out) + AddrsC(c.up), free)
  }

  ghost predicate RemovedTop(rank: RID -> int, heap: map<int, BNode>, free: int, t: Tree, out: Tree, h: nat, h': nat,
                             k: int) {
    && Stored(heap, out) && RootOk(out, h') && (h' == h || h' + 1 == h)
    && Keys(out) == Del(rank, Keys(t), k)
    && Unique(Addrs(out)) && Bounded(Addrs(out), free)
  }

  /** A shrunk node below a parent, in order: where rebalancing starts. */
  ghost predicate ShrunkHole(rank: RID -> int, heap: map<int, BNode>, root: int, free: int, c: Ctx, t: Tree, t1: Tree,
                             h: nat, k: int) {
    && c.Hole? && Shrunk(rank, heap, root, free, c, t, t1, h, k)
    && ShapeC(c, h) && DEGREE <= Size(t) <= LIMIT && InOrder(rank, c, t1) && Routed(rank, c, t, k)
  }

  lemma ShrunkOrder(rank: RID -> int, c: Ctx, t: Tree, t1: Tree, k: int)
    requires InOrder(rank, c, t) && Keys(t1) == Del(rank, Keys(t), k) && Routed(rank, c, t, k)
    ensures InOrder(rank, c, t1)
  {
    DelBetween(rank, LeftKeys(c), Keys(t), RightKeys(c), k);
    DelSorted(rank, Around3(LeftKeys(c), Keys(t), RightKeys(c)), k);
  }

  lemma ShrunkKeys(rank: RID -> int, c: Ctx, t: Tree, t1: Tree, k: int)
    requires c.Hole? && Routed(rank, c, t, k) && Keys(t1) == Del(rank, Keys(t), k)
    ensures Around3(Flat(c.left), Keys(t1), Flat(c.right)) == Del(rank, Around3(Flat(c.left), Keys(t), Flat(c.right)),
                                                                  k)
  {
    DelBetween(rank, Flat(c.left), Keys(t), Flat(c.right), k);
  }

  /** The least key of the parent's subtree. */
  lemma AroundMin(c: Ctx, t1: Tree, h: nat)
    requires c.Hole? && Shape(t1, h) && Size(t1) >= 1 && KidsOk(c.left, h)
    ensures Min(Around(c, t1)) == UpMin(c, Min(t1))
  {
    HasKeys(t1, h);
    var ks := c.left + [t1] + c.right;
    if c.left != [] {
      HasKeys(c.left[0], h);
      assert ks[0] == c.left[0];
    } else {
      assert ks[0] == t1;
    }
    HeadFlat(ks);
  }

  /** A child's parent, after the step below, is a shrunk node. */
  lemma {:induction false} ShrunkFromBelow(rank: RID -> int, heap: map<int, BNode>, root: int, free: int, c: Ctx,
                                           t: Tree, h: nat, j: int, out: Tree, k: int, d: Ctx, g: nat)
    requires t.Node? && 0 <= j < |t.kids| && Shape(t, h) && h == g + 1 && 2 <= Size(t) && d == Down(c, t, j)
    requires Removed(rank, heap, root, free, d, t.kids[j], out, g, k)
    ensures Shrunk(rank, heap, root, free, c, t, out, h, k)
  {
    FlatSplit(t.kids, j);
    KidsShape(out, g, h);
  }

  lemma {:induction false} KidsShape(t: Tree, g: nat, h: nat)
    requires t.Node? && t.kids != [] && KidsOk(t.kids, g) && h == g + 1
    ensures Shape(t, h)
  {
    assert forall q | 0 <= q < |t.kids| :: Kid(t.kids[q], g);
  }

  lemma RemovedBelow(rank: RID -> int, heap: map<int, BNode>, root: int, free: int, c: Ctx, t: Tree, h: nat, j: int,
                     out: Tree, k: int, s: int, d: Ctx, g: nat)
    requires t.Node? && 0 <= j < |t.kids| <= LIMIT && Shape(t, h) && h == g + 1 && 2 <= Size(t) && d == Down(c, t, j)
    requires Removed(rank, heap, root, free, d, t.kids[j], out, g, k)
    requires s == if j < |out.kids| then out.kids[j].addr else NIL
    ensures Shrunk(rank, heap, root, free, c, t, out, h, k)
    ensures t.addr in heap && j < |heap[t.addr].child| && heap[t.addr].child[j] == s
  {
    ShrunkFromBelow(rank, heap, root, free, c, t, h, j, out, k, d, g);
    OutPage(heap, out);
  }

  /** Enough entries left: the parent's subtree is already right. */
  lemma EnoughOut(rank: RID -> int, heap: map<int, BNode>, root: int, free: int, c: Ctx, t: Tree, t1: Tree, h: nat,
                  k: int)
    requires ShrunkHole(rank, heap, root, free, c, t, t1, h, k) && DEGREE <= Size(t1)
    ensures Removed(rank, heap, root, free, c, t, Around(c, t1), h, k)
  {
    Close(heap, c, t1);
    ShrunkKeys(rank, c, t, t1, k);
    AroundMin(c, t1, h);
    KeepKids(c, t1, h);
    HoleUnique(c, t1);
  }

  // ----- the site of a borrow or a merge -----

  /** Keys of the parent's subtree are routed to it from above, and only the least one may equal its separator there. */
  lemma ExactRoutes(rank: RID -> int, c: Ctx, t1: Tree, h: nat, x: RID)
    requires c.Hole? && InOrder(rank, c, t1) && ShapeC(c, h) && Shape(t1, h) && Size(t1) >= 1
    requires x in Flat(c.left + [t1] + c.right)
    ensures Routes(rank, c.up, UpMin(c, Min(t1)), rank(x))
    ensures rank(UpMin(c, Min(t1))) <= rank(x) && (rank(UpMin(c, Min(t1))) == rank(x) ==> UpMin(c, Min(t1)) == x)
  {
    var P := Around(c, t1);
    OrderUp(rank, c, t1);
    OrderParts(rank, LeftKeys(c.up), Keys(P), RightKeys(c.up));
    AroundMin(c, t1, h);
    HasKeys(t1, h);
    LeastKey(rank, Keys(P), x);
    RoutesBetween(rank, c.up, UpMin(c, Min(t1)), rank(x), h + 1);
  }

  lemma LeastKey(rank: RID -> int, s: seq<RID>, x: RID)
    requires Sorted(rank, s) && x in s
    ensures rank(Head(s)) <= rank(x) && (rank(Head(s)) == rank(x) ==> Head(s) == x)
  {
    var i :| 0 <= i < |s| && s[i] == x;
    assert i > 0 ==> rank(s[0]) < rank(s[i]);
  }

  /** The row of leaves in which a leaf has too few keys. */
  lemma DeleteLeafRow(rank: RID -> int, heap: map<int, BNode>, root: int, free: int, c: Ctx, t1: Tree, l: seq<Tree>,
                      a: Tree, b: Tree, r: seq<Tree>, i: int)
    requires c.Hole? && Stored(heap, t1) && StoredC(heap, c, t1.addr, Min(t1)) && root == TopAddr(c, t1.addr)
    requires Unique(Addrs(t1) + AddrsC(c)) && Bounded(Addrs(t1) + AddrsC(c), free)
    requires ShapeC(c, 0) && Shape(t1, 0) && 1 <= Size(t1) <= LIMIT && InOrder(rank, c, t1)
    requires c.left + [t1] + c.right == l + [a, b] + r && Shape(a, 0) && Shape(b, 0) && Size(a) >= 1 && Size(b) >= 1
    requires i == |l| || i == |l| + 1
    ensures LeafRow(rank, heap, root, c.addr, l + [a, b] + r, i, c.up, UpMin(c, Min(t1)))
  {
    Close(heap, c, t1);
    PairOrder(rank, c, t1, l, a, b, r, 0);
    AllLeaves(c, t1, l, a, b, r);
    HoleUnique(c, t1);
    var ks := l + [a, b] + r;
    assert ks[|c.left|] == t1;
  }

  /** A node with too few entries and a neighbour are a site for Move, in either direction. */
  lemma {:induction false} DeleteSite(rank: RID -> int, heap: map<int, BNode>, root: int, free: int, c: Ctx, t: Tree,
                                      t1: Tree, h: nat, k: int, l: seq<Tree>, a: Tree, b: Tree, r: seq<Tree>, n: int,
                                      right: bool, onLeft: bool)
    requires ShrunkHole(rank, heap, root, free, c, t, t1, h, k) && 1 <= Size(t1) < DEGREE
    requires c.left + [t1] + c.right == l + [a, b] + r
    requires if onLeft then a == t1 && l == c.left else b == t1 && |l| + 1 == |c.left|
    requires Kid(if onLeft then b else a, h)
    requires 1 <= n <= (if right then Size(a) else Size(b)) && (if right then Size(b) else Size(a)) + n <= SLOTS
    ensures PairSite(rank, heap, root, c.addr, l, a, b, r, n, right, c.up, UpMin(c, Min(t1)), h)
    ensures PairPage(heap, c.addr, l, a, b, r, Min(a), Min(b)) && StoredF(heap, l) && StoredF(heap, r)
  {
    FramePair(heap, c, t1, Min(t1), l, a, b, r, onLeft);
    PairOrder(rank, c, t1, l, a, b, r, h);
    HoleUnique(c, t1);
    assert Node(c.addr, l + [a, b] + r) == Around(c, t1);
    assert forall x | x in Addrs(Around(c, t1)) :: x in Addrs(Around(c, t1)) + AddrsC(c.up);
    if h == 0 {
      DeleteLeafRow(rank, heap, root, free, c, t1, l, a, b, r, if right then |l| else |l| + 1);
      DeleteRoutes(rank, c, t1, l, a, b, r, right);
    }
  }

  lemma DeleteRoutes(rank: RID -> int, c: Ctx, t1: Tree, l: seq<Tree>, a: Tree, b: Tree, r: seq<Tree>, right: bool)
    requires c.Hole? && InOrder(rank, c, t1) && ShapeC(c, 0) && Shape(t1, 0) && Size(t1) >= 1
    requires c.left + [t1] + c.right == l + [a, b] + r && a.Leaf? && b.Leaf? && a.keys != [] && b.keys != []
    requires rank(Min(a)) < rank(Min(b))
    ensures var m := UpMin(c, Min(t1));
            && (right ==> Routes(rank, c.up, m, rank(Min(a))) && (rank(m) == rank(Min(a)) ==> m == Min(a)))
            && (!right ==> forall x | x in b.keys :: Routes(rank, c.up, m, rank(x)) && rank(m) != rank(x))
  {
    var ks, m := l + [a, b] + r, UpMin(c, Min(t1));
    FlatAround2(l, a, b, r);
    assert Min(a) in Flat(ks);
    ExactRoutes(rank, c, t1, 0, Min(a));
    forall x | x in b.keys ensures Routes(rank, c.up, m, rank(x)) && rank(m) != rank(x) {
      assert x in Flat(ks);
      ExactRoutes(rank, c, t1, 0, x);
      OrderUp(rank, c, t1);
      assert ks[|l| + 1] == b;
      KidSorted(rank, ks, |l| + 1);
      LeastKey(rank, b.keys, x);
    }
  }

  // ----- the outcomes -----

  /** What a regrouping of the parent's children with the same keys amounts to. */
  lemma RegroupOut(rank: RID -> int, heap: map<int, BNode>, heap': map<int, BNode>, root: int, free: int, c: Ctx,
                   t: Tree, t1: Tree, h: nat, k: int, out: Tree, x: int, y: int)
    requires ShrunkHole(rank, heap, root, free, c, t, t1, h, k) && Size(t1) >= 1
    requires out.Node? && out.addr == c.addr && Stored(heap', out) && KidsOk(out.kids, h)
    requires |c.left| + |c.right| <= |out.kids| <= |c.left| + 1 + |c.right|
    requires Flat(out.kids) == Around3(Flat(c.left), Keys(t1), Flat(c.right))
    requires forall w :: (Addrs(out) + AddrsC(c.up))[w] <= (Addrs(t1) + AddrsC(c))[w]
    requires x in Addrs(t1) || x in AddrsF(c.left) || x in AddrsF(c.right)
    requires y in Addrs(t1) || y in AddrsF(c.left) || y in AddrsF(c.right)
    requires forall w | w in heap && w != c.addr && w != x && w != y :: w in heap' && heap'[w] == heap[w]
    ensures Removed(rank, heap', root, free, c, t, out, h, k)
  {
    ShrunkKeys(rank, c, t, t1, k);
    AroundMin(c, t1, h);
    FlatAround(c.left, t1, c.right);
    AboveKept(heap, heap', c, t1, UpMin(c, Min(t1)), free, x, y);
    SubBounded(Addrs(out) + AddrsC(c.up), Addrs(t1) + AddrsC(c), free);
  }

  lemma SubBounded(a: multiset<int>, b: multiset<int>, free: int)
    requires Unique(b) && Bounded(b, free) && forall w :: a[w] <= b[w]
    ensures Unique(a) && Bounded(a, free)
  {
    assert forall w | w in a :: w in b;
  }

  /** Borrowing one entry from neighbour a (right) or b (left). */
  lemma {:induction false} BorrowSettled(rank: RID -> int, heap: map<int, BNode>, root: int, free: int, c: Ctx,
                                         t: Tree, t1: Tree, h: nat, k: int, l: seq<Tree>, a: Tree, b: Tree,
                                         r: seq<Tree>, right: bool)
    requires BorrowCase(rank, heap, root, free, c, t, t1, h, k, l, a, b, r, right)
    ensures PairSite(rank, heap, root, c.addr, l, a, b, r, 1, right, c.up, UpMin(c, Min(t1)), h) && a.addr != b.addr
    ensures var a', b' := LeftPart(a, b, 1, right), RightPart(a, b, 1, right);
            c.addr in heap && |l| + 1 < |heap[c.addr].row| && Size(a') <= SLOTS && Size(b') <= SLOTS &&
            Removed(rank, Moved(heap, c.addr, |l|, a', b'), root, free, c, t, Node(c.addr, l + [a', b'] + r), h, k)
  {
    DeleteSite(rank, heap, root, free, c, t, t1, h, k, l, a, b, r, 1, right, !right);
    PairPages(rank, heap, root, c.addr, l, a, b, r, 1, right, c.up, UpMin(c, Min(t1)), h);
    BorrowHeap(heap, c.addr, l, a, b, r, right, h);
    var a', b' := LeftPart(a, b, 1, right), RightPart(a, b, 1, right);
    PartsAddrs(a, b, 1, right);
    PartsFacts(a, b, 1, right);
    PartsShape(a, b, 1, right, h);
    RegroupPair(c.addr, l, a, b, r, a', b');
    HoleAddrs(c, t1, l, [a, b], r);
    PairInHole(c, t1, l, a, b, r, !right);
    PairKids(c, t1, l, a, b, r, a', b', h, !right);
    RegroupOut(rank, heap, Moved(heap, c.addr, |l|, a', b'), root, free, c, t, t1, h, k,
               Node(c.addr, l + [a', b'] + r), a.addr, b.addr);
  }

  lemma BorrowHeap(heap: map<int, BNode>, p: int, l: seq<Tree>, a: Tree, b: Tree, r: seq<Tree>, right: bool, h: nat)
    requires PairPage(heap, p, l, a, b, r, Min(a), Min(b)) && p != NIL && p != a.addr && p != b.addr && a.addr != b.addr
    requires StoredF(heap, l) && StoredF(heap, r) && Stored(heap, a) && Stored(heap, b)
        && Unique(Addrs(Node(p, l + [a, b] + r)))
    requires Shape(a, h) && Shape(b, h) && 1 <= Size(a) && 1 <= Size(b)
    requires (if right then Size(b) else Size(a)) < SLOTS && (if right then 2 <= Size(a) else 2 <= Size(b))
    ensures |l| + 1 < |heap[p].row|
    ensures Size(LeftPart(a, b, 1, right)) <= SLOTS && Size(RightPart(a, b, 1, right)) <= SLOTS
    ensures var a', b' := LeftPart(a, b, 1, right), RightPart(a, b, 1, right);
            var m := Moved(heap, p, |l|, a', b');
            && Stored(m, Node(p, l + [a', b'] + r))
            && forall w | w in heap && w != p && w != a.addr && w != b.addr :: w in m && m[w] == heap[w]
  {
    ShiftAt(heap, p, l, a, b, r, Min(a), Min(b), right, h);
    LeftMin(a, b, 1, right, h);
    PartsFacts(a, b, 1, right);
    ShiftExact(heap, p, l, a, b, r, Min(b), LeftPart(a, b, 1, right), RightPart(a, b, 1, right));
  }

  /** The tree that survives a merge: all of a and b, at b's page (right) or a's. */
  function Merged(a: Tree, b: Tree, right: bool): Tree
    requires a.Leaf? <==> b.Leaf?
  {
    if right then RightPart(a, b, Size(a), true) else LeftPart(a, b, Size(b), false)
  }

  lemma {:induction false} MergedFacts(a: Tree, b: Tree, right: bool, h: nat)
    requires Shape(a, h) && Shape(b, h)
    ensures var m := Merged(a, b, right);
            && Keys(m) == Keys(a) + Keys(b) && Below(m) == Below(a) + Below(b) && Size(m) == Size(a) + Size(b)
            && m.addr == (if right then b.addr else a.addr) && Shape(m, h)
  {
    var n := if right then Size(a) else Size(b);
    PartsFacts(a, b, n, right);
    PartsShape(a, b, n, right, h);
    var e, m := if right then LeftPart(a, b, n, right) else RightPart(a, b, n, right), Merged(a, b, right);
    EmptyTree(e);
    NothingElse(Keys(e), Keys(m), Keys(a) + Keys(b), Below(e), Below(m), Below(a) + Below(b), right);
  }

  lemma NothingElse(ek: seq<RID>, mk: seq<RID>, sk: seq<RID>, eb: multiset<int>, mb: multiset<int>, sb: multiset<int>,
                    right: bool)
    requires ek == [] && eb == multiset{}
    requires if right then ek + mk == sk && eb + mb == sb else mk + ek == sk && mb + eb == sb
    ensures mk == sk && mb == sb
  {
  }

  lemma EmptyTree(e: Tree)
    requires Size(e) == 0
    ensures Keys(e) == [] && Below(e) == multiset{}
  {
  }

  lemma MergedSums(p: int, l: seq<Tree>, a: Tree, b: Tree, r: seq<Tree>, m: Tree, u: multiset<int>)
    requires Keys(m) == Keys(a) + Keys(b) && Below(m) == Below(a) + Below(b) && (m.addr == a.addr || m.addr == b.addr)
    ensures Flat(l + [m] + r) == Flat(l + [a, b] + r)
    ensures forall w :: (Addrs(Node(p, l + [m] + r)) + u)[w] <= (Addrs(Node(p, l + [a, b] + r)) + u)[w]
  {
    FlatAround(l, m, r);
    FlatAround2(l, a, b, r);
    MergeSum(p, AddrsF(l), AddrsF(r), m.addr, a.addr, b.addr, Below(a), Below(b), u);
  }

  lemma MergeSum(p: int, l: multiset<int>, r: multiset<int>, m: int, x: int, y: int, bx: multiset<int>,
                 by': multiset<int>, u: multiset<int>)
    requires m == x || m == y
    ensures forall w :: ((multiset{p} + (l + (multiset{m} + (bx + by')) + r)) + u)[w]
                     <= ((multiset{p} + (l + ((multiset{x} + bx) + (multiset{y} + by')) + r)) + u)[w]
  {
  }

  /** The parent's page after the emptied child's entry is dropped. */
  lemma MergePage(l: seq<Tree>, a: Tree, b: Tree, r: seq<Tree>, za: RID, zb: RID, right: bool)
    ensures var cs, rs := AddrList(l) + [a.addr, b.addr] + AddrList(r), MinList(l) + [za, zb] + MinList(r);
            var i := if right then |l| else |l| + 1;
            && DelAt(cs, i) == AddrList(l) + [if right then b.addr else a.addr] + AddrList(r)
            && DelAt(rs, i) == MinList(l) + [if right then zb else za] + MinList(r)
  {
  }

  /** A short node t1 whose neighbour, the next child if right holds, cannot spare an entry. */
  ghost predicate MergeCase(rank: RID -> int, heap: map<int, BNode>, root: int, free: int, c: Ctx, t: Tree, t1: Tree,
                            h: nat, k: int, l: seq<Tree>, a: Tree, b: Tree, r: seq<Tree>, right: bool) {
    && ShrunkHole(rank, heap, root, free, c, t, t1, h, k) && Size(t1) == DEGREE - 1
    && c.left + [t1] + c.right == l + [a, b] + r
    && (if right then a == t1 && l == c.left else b == t1 && |l| + 1 == |c.left|)
    && Kid(if right then b else a, h) && Size(if right then b else a) == DEGREE
  }

  /** Neighbours a and b of parent p, small enough to merge. */
  ghost predicate MergeBase(heap: map<int, BNode>, p: int, l: seq<Tree>, a: Tree, b: Tree, r: seq<Tree>, h: nat) {
    && PairPage(heap, p, l, a, b, r, Min(a), Min(b)) && p != NIL && p != a.addr && p != b.addr && a.addr != b.addr
    && StoredF(heap, l) && StoredF(heap, r) && Stored(heap, a) && Stored(heap, b)
      && Unique(Addrs(Node(p, l + [a, b] + r)))
    && Shape(a, h) && Shape(b, h) && 1 <= Size(a) && 1 <= Size(b) && Size(a) + Size(b) <= SLOTS
  }

  lemma {:induction false} MergeBaseOf(rank: RID -> int, heap: map<int, BNode>, root: int, free: int, c: Ctx, t: Tree,
                                       t1: Tree, h: nat, k: int, l: seq<Tree>, a: Tree, b: Tree, r: seq<Tree>,
                                       right: bool, n: int, p: int)
    requires MergeCase(rank, heap, root, free, c, t, t1, h, k, l, a, b, r, right)
    requires p == c.addr && n == DEGREE - 1
    ensures MergeBase(heap, p, l, a, b, r, h) && PairSite(rank, heap, root, p, l, a, b, r, n, right, c.up,
                                                          UpMin(c, Min(t1)), h)
    ensures n == if right then Size(a) else Size(b)
  {
    DeleteSite(rank, heap, root, free, c, t, t1, h, k, l, a, b, r, n, right, right);
    PairPages(rank, heap, root, p, l, a, b, r, n, right, c.up, UpMin(c, Min(t1)), h);
  }

  lemma {:induction false} MergeHeap(heap: map<int, BNode>, p: int, l: seq<Tree>, a: Tree, b: Tree, r: seq<Tree>,
                                     right: bool, h: nat, h1: map<int, BNode>, h2: map<int, BNode>)
    requires MergeBase(heap, p, l, a, b, r, h)
    requires |l| + 1 < |heap[p].row|
    requires var n := if right then Size(a) else Size(b); h1 == Moved(heap, p, |l|, LeftPart(a, b, n, right),
                                                                      RightPart(a, b, n, right))
    requires h2 == h1[p := Page(AddrList(l) + [Merged(a, b, right).addr] + AddrList(r),
                                MinList(l) + [Min(Merged(a, b, right))] + MinList(r))]
    ensures Stored(h2, Node(p, l + [Merged(a, b, right)] + r))
    ensures forall w | w in heap && w != p && w != a.addr && w != b.addr :: w in h2 && h2[w] == heap[w]
  {
    var n, m := if right then Size(a) else Size(b), Merged(a, b, right);
    var a', b' := LeftPart(a, b, n, right), RightPart(a, b, n, right);
    PartsFacts(a, b, n, right);
    MovedPage(heap, p, l, a, b, r, Min(a), Min(b), a', b');
    MergedStored(heap, h2, p, l, a, b, r, n, right);
    MergedSplice(heap, h2, p, l, a, b, r, m);
  }

  lemma MergedSplice(heap: map<int, BNode>, h2: map<int, BNode>, p: int, l: seq<Tree>, a: Tree, b: Tree, r: seq<Tree>,
                     m: Tree)
    requires StoredF(heap, l) && StoredF(heap, r) && Unique(Addrs(Node(p, l + [a, b] + r))) && Stored(h2, m)
    requires forall w | w in heap && w != p && w != a.addr && w != b.addr :: w in h2 && h2[w] == heap[w]
    requires |l| + 2 + |r| <= SLOTS && p in h2
        && h2[p] == Page(AddrList(l) + [m.addr] + AddrList(r), MinList(l) + [Min(m)] + MinList(r))
    ensures Stored(h2, Node(p, l + [m] + r))
  {
    PairAgree(heap, h2, p, l, a, b, r);
    StoredFrameF(heap, h2, l);
    StoredFrameF(heap, h2, r);
    assert AddrList([m]) == [m.addr] && MinList([m]) == [Min(m)];
    SpliceStored(h2, p, l, [m], r);
  }

  lemma MergedStored(heap: map<int, BNode>, h2: map<int, BNode>, p: int, l: seq<Tree>, a: Tree, b: Tree, r: seq<Tree>,
                     n: int, right: bool)
    requires Stored(heap, a) && Stored(heap, b) && Unique(Addrs(Node(p, l + [a, b] + r)))
    requires (a.Leaf? <==> b.Leaf?) && n == (if right then Size(a) else Size(b))
    requires forall w | w in heap && w != p && w != a.addr && w != b.addr :: w in h2 && h2[w] == heap[w]
    requires var a', b' := LeftPart(a, b, n, right), RightPart(a, b, n, right);
             && Size(a') <= SLOTS && Size(b') <= SLOTS
             && a.addr in h2 && h2[a.addr] == Image(a') && b.addr in h2 && h2[b.addr] == Image(b')
    ensures Stored(h2, Merged(a, b, right))
  {
    KidsKept(heap, h2, p, l, a, b, r);
    PartsStored(h2, a, b, n, right);
  }

  /** Merging t1 into a neighbour: once all its entries have moved, dropping its entry settles the parent. */
  lemma {:induction false} MergeSettled(rank: RID -> int, heap: map<int, BNode>, root: int, free: int, c: Ctx, t: Tree,
                                        t1: Tree, h: nat, k: int, l: seq<Tree>, a: Tree, b: Tree, r: seq<Tree>,
                                        right: bool, n: int, p: int, h1: map<int, BNode>, h2: map<int, BNode>,
                                        cs: seq<int>, rs: seq<RID>, i: int)
    requires MergeCase(rank, heap, root, free, c, t, t1, h, k, l, a, b, r, right)
    requires n == DEGREE - 1
    requires p == c.addr && p in heap && |l| + 1 < |heap[p].row| && Dropping(l, a, b, r, right, cs, rs, i)
    requires h1 == Moved(heap, p, |l|, LeftPart(a, b, n, right), RightPart(a, b, n, right))
    requires h2 == h1[p := Page(DelAt(cs, i), DelAt(rs, i))]
    ensures Removed(rank, h2, root, free, c, t, Node(p, l + [Merged(a, b, right)] + r), h, k)
  {
    MergeStored(rank, heap, root, free, c, t, t1, h, k, l, a, b, r, right, n, p, h1, h2);
    MergedOut(rank, heap, h2, root, free, c, t, t1, h, k, l, a, b, r, right);
  }

  lemma {:induction false} MergedOut(rank: RID -> int, heap: map<int, BNode>, h2: map<int, BNode>, root: int,
                                     free: int, c: Ctx, t: Tree, t1: Tree, h: nat, k: int, l: seq<Tree>, a: Tree,
                                     b: Tree, r: seq<Tree>, right: bool)
    requires MergeCase(rank, heap, root, free, c, t, t1, h, k, l, a, b, r, right)
    requires Stored(h2, Node(c.addr, l + [Merged(a, b, right)] + r))
    requires forall w | w in heap && w != c.addr && w != a.addr && w != b.addr :: w in h2 && h2[w] == heap[w]
    ensures Removed(rank, h2, root, free, c, t, Node(c.addr, l + [Merged(a, b, right)] + r), h, k)
  {
    MergedFacts(a, b, right, h);
    MergedRegroup(c, t1, l, a, b, r, right, h);
    RegroupOut(rank, heap, h2, root, free, c, t, t1, h, k, Node(c.addr, l + [Merged(a, b, right)] + r), a.addr, b.addr);
  }

  lemma {:induction false} MergedRegroup(c: Ctx, t1: Tree, l: seq<Tree>, a: Tree, b: Tree, r: seq<Tree>, right: bool,
                                         h: nat)
    requires c.Hole? && c.left + [t1] + c.right == l + [a, b] + r && Shape(a, h) && Shape(b, h)
        && Kid(Merged(a, b, right), h)
    requires if right then a == t1 && l == c.left else b == t1 && |l| + 1 == |c.left|
    requires KidsOk(c.left, h) && KidsOk(c.right, h)
    ensures var out := Node(c.addr, l + [Merged(a, b, right)] + r);
            && KidsOk(out.kids, h) && Flat(out.kids) == Around3(Flat(c.left), Keys(t1), Flat(c.right))
            && forall w :: (Addrs(out) + AddrsC(c.up))[w] <= (Addrs(t1) + AddrsC(c))[w]
    ensures a.addr in Addrs(t1) || a.addr in AddrsF(c.left) || a.addr in AddrsF(c.right)
    ensures b.addr in Addrs(t1) || b.addr in AddrsF(c.left) || b.addr in AddrsF(c.right)
  {
    MergedFacts(a, b, right, h);
    MergedSums(c.addr, l, a, b, r, Merged(a, b, right), AddrsC(c.up));
    HoleAddrs(c, t1, l, [a, b], r);
    PairInHole(c, t1, l, a, b, r, right);
    MergedKids(c, t1, l, a, b, r, Merged(a, b, right), h, right);
  }

  lemma {:induction false} MergeStored(rank: RID -> int, heap: map<int, BNode>, root: int, free: int, c: Ctx, t: Tree,
                                       t1: Tree, h: nat, k: int, l: seq<Tree>, a: Tree, b: Tree, r: seq<Tree>,
                                       right: bool, n: int, p: int, h1: map<int, BNode>, h2: map<int, BNode>)
    requires MergeCase(rank, heap, root, free, c, t, t1, h, k, l, a, b, r, right)
    requires n == DEGREE - 1
    requires p == c.addr && p in heap && |l| + 1 < |heap[p].row|
    requires h1 == Moved(heap, p, |l|, LeftPart(a, b, n, right), RightPart(a, b, n, right))
    requires h2 == h1[p := Page(AddrList(l) + [Merged(a, b, right).addr] + AddrList(r),
                                MinList(l) + [Min(Merged(a, b, right))] + MinList(r))]
    ensures Stored(h2, Node(p, l + [Merged(a, b, right)] + r))
    ensures forall w | w in heap && w != p && w != a.addr && w != b.addr :: w in h2 && h2[w] == heap[w]
  {
    MergeBaseOf(rank, heap, root, free, c, t, t1, h, k, l, a, b, r, right, n, p);
    MergeHeap(heap, p, l, a, b, r, right, h, h1, h2);
  }

  lemma MergedKids(c: Ctx, t1: Tree, l: seq<Tree>, a: Tree, b: Tree, r: seq<Tree>, m: Tree, h: nat, right: bool)
    requires c.Hole? && c.left + [t1] + c.right == l + [a, b] + r && KidsOk(c.left, h) && KidsOk(c.right, h)
        && Kid(m, h)
    requires if right then a == t1 && l == c.left else b == t1 && |l| + 1 == |c.left|
    ensures KidsOk(l + [m] + r, h)
  {
    PairInHole(c, t1, l, a, b, r, right);
    assert KidsOk(l, h) && KidsOk(r, h) by {
      if right {
        assert forall q | 0 <= q < |r| :: r[q] == c.right[q + 1];
      } else {
        assert forall q | 0 <= q < |l| :: l[q] == c.left[q];
      }
    }
  }

  /** The parent's lists without entry i are those around the merged node. */
  ghost predicate Dropping(l: seq<Tree>, a: Tree, b: Tree, r: seq<Tree>, right: bool, cs: seq<int>, rs: seq<RID>,
                           i: int)
    requires a.Leaf? <==> b.Leaf?
  {
    && |cs| == |rs| <= SLOTS && 0 <= i < |cs|
    && DelAt(cs, i) == AddrList(l) + [Merged(a, b, right).addr] + AddrList(r)
    && DelAt(rs, i) == MinList(l) + [Min(Merged(a, b, right))] + MinList(r)
  }

  /** The parent's page between Move and the drop of the emptied child. */
  lemma MergeMid(rank: RID -> int, heap: map<int, BNode>, root: int, free: int, c: Ctx, t: Tree, t1: Tree, h: nat,
                 k: int, l: seq<Tree>, a: Tree, b: Tree, r: seq<Tree>, right: bool, n: int, p: int, x: int, s: int,
                 i: int)
      returns (cs: seq<int>, rs: seq<RID>)
    requires MergeCase(rank, heap, root, free, c, t, t1, h, k, l, a, b, r, right)
    requires p == c.addr && i == |c.left| && n == DEGREE - 1
    requires x == t1.addr && s == (if right then b else a).addr
    ensures PairSite(rank, heap, root, p, l, a, b, r, n, right, c.up, UpMin(c, Min(t1)), h)
    ensures p in heap && |l| + 1 < |heap[p].row|
    ensures x in heap && heap[x].n == n && s in heap && heap[s].n == DEGREE
    ensures Dropping(l, a, b, r, right, cs, rs, i)
    ensures var a', b' := LeftPart(a, b, n, right), RightPart(a, b, n, right);
            Size(a') <= SLOTS && Size(b') <= SLOTS && Moved(heap, p, |l|, a', b')[p] == Page(cs, rs)
  {
    MergeBaseOf(rank, heap, root, free, c, t, t1, h, k, l, a, b, r, right, n, p);
    cs, rs := MergeLists(heap, p, l, a, b, r, right, h);
  }

  lemma MergeLists(heap: map<int, BNode>, p: int, l: seq<Tree>, a: Tree, b: Tree, r: seq<Tree>, right: bool, h: nat)
      returns (cs: seq<int>, rs: seq<RID>)
    requires MergeBase(heap, p, l, a, b, r, h)
    ensures |l| + 1 < |heap[p].row|
    ensures var n := if right then Size(a) else Size(b);
            var a', b' := LeftPart(a, b, n, right), RightPart(a, b, n, right); var i := if right then |l| else |l| + 1;
            && Size(a') <= SLOTS && Size(b') <= SLOTS && Dropping(l, a, b, r, right, cs, rs, i)
            && |cs| == |rs| && Moved(heap, p, |l|, a', b')[p] == Page(cs, rs)
  {
    var n := if right then Size(a) else Size(b);
    var a', b' := LeftPart(a, b, n, right), RightPart(a, b, n, right);
    PartsFacts(a, b, n, right);
    MergedFacts(a, b, right, h);
    MovedPage(heap, p, l, a, b, r, Min(a), Min(b), a', b');
    var za := if a'.Leaf? then Min(a') else Min(a);
    if !right {
      LeftMin(a, b, n, right, h);
    }
    cs, rs := AddrList(l) + [a.addr, b.addr] + AddrList(r), MinList(l) + [za, Min(b')] + MinList(r);
    MergePage(l, a, b, r, za, Min(b'), right);
  }

  /** The root has lost all but one child, which becomes the root. */
  lemma RootCollapse(rank: RID -> int, heap: map<int, BNode>, root: int, free: int, t: Tree, t1: Tree, h: nat, k: int)
    requires Shrunk(rank, heap, root, free, Top, t, t1, h, k) && t1.Node? && |t1.kids| == 1
    ensures h > 0 && RemovedTop(rank, heap, free, t, t1.kids[0], h, h - 1, k)
  {
    assert t1.kids == [t1.kids[0]];
    FlatOne(t1.kids[0]);
    assert Addrs(t1) + AddrsC(Top) == Addrs(t1);
    UniqueParts(multiset{t1.addr}, Addrs(t1.kids[0]));
    assert forall x | x in Addrs(t1.kids[0]) :: x in Addrs(t1);
  }

  // ----- removal from a leaf -----

  /** The leaf and its context after ReMove. */
  lemma {:induction false} LeafShrunk(rank: RID -> int, heap: map<int, BNode>, root: int, free: int, c: Ctx, t: Tree,
                                      j: int, heap': map<int, BNode>)
    requires Placed(rank, heap, root, free, c, t, 0) && c.Hole? && 0 <= j < |t.keys|
    requires c.addr in heap && |c.left| < |heap[c.addr].row| && |t.keys| <= SLOTS
    requires var keys, keys', m := t.keys, DelAt(t.keys, j), UpMin(c, Min(t));
             AdjDone(SetRow(heap[t.addr := Page([], keys')], c.addr, |c.left|, Head(keys')), heap', c.up, c.addr, m,
                     NewSeparator(rank, m, rank(keys[0]), keys'), Levels(c.up))
    ensures Shrunk(rank, heap', root, free, c, t, Leaf(t.addr, DelAt(t.keys, j)), 0, rank(t.keys[j]))
  {
    var keys' := DelAt(t.keys, j);
    PlacedSorted(rank, heap, root, free, c, t, 0);
    DelHere(rank, t.keys, j, rank(t.keys[j]));
    assert keys' != [];
    LeafAbove(heap, free, c, t, keys');
    var h1 := SetRow(heap[t.addr := Page([], keys')], c.addr, |c.left|, keys'[0]);
    HoleUnique(c, t);
    SpineApart(h1, heap', c, t);
    FrameKeeps(h1, heap', c, t.addr, keys'[0]);
    LeafUpMin(rank, c, t, keys', j);
  }

  lemma SpineApart(h1: map<int, BNode>, h2: map<int, BNode>, c: Ctx, t: Tree)
    requires c.Hole? && Unique(Addrs(t) + AddrsC(c)) && h1.Keys == h2.Keys
    requires forall x | x in h1 && x !in Spine(c.up) :: h2[x] == h1[x]
    ensures Agree(h1, h2, FrameAddrs(c)) && Agree(h1, h2, Addrs(t))
  {
    HoleUnique(c, t);
    UniqueParts(Addrs(t), AddrsC(c));
    UniqueParts(FrameAddrs(c), AddrsC(c.up));
    forall x | x in Spine(c.up) ensures x !in FrameAddrs(c) && x !in Addrs(t) {
      SpineIsStored(c.up, x);
      assert x in AddrsC(c);
    }
  }

  /** The separator ReAdj leaves above is the least key of the parent's subtree. */
  lemma LeafUpMin(rank: RID -> int, c: Ctx, t: Tree, keys': seq<RID>, j: int)
    requires c.Hole? && t.Leaf? && InOrder(rank, c, t) && KidsOk(c.left, 0) && 0 <= j < |t.keys|
        && keys' == DelAt(t.keys, j) && keys' != []
    ensures Fix(rank, UpMin(c, Min(t)), rank(t.keys[0]), keys'[0]) == UpMin(c, keys'[0])
  {
    OrderParts(rank, LeftKeys(c), Keys(t), RightKeys(c));
    if c.left != [] {
      HasKeys(c.left[0], 0);
      MinInFlat(c.left, 0);
      assert t.keys[0] in Keys(t) && Min(c.left[0]) in LeftKeys(c);
    }
  }

  /** A leaf in its place is one ReMove may take a key from. */
  lemma PlacedLeafSite(rank: RID -> int, heap: map<int, BNode>, root: int, free: int, c: Ctx, t: Tree)
    requires Placed(rank, heap, root, free, c, t, 0) && c.Hole?
    ensures LeafSite(rank, heap, root, c.addr, c.left + [t] + c.right, |c.left|, c.up, UpMin(c, Min(t)))
    ensures (c.left + [t] + c.right)[|c.left|] == t
  {
    var ks := c.left + [t] + c.right;
    Close(heap, c, t);
    OrderUp(rank, c, t);
    HoleUnique(c, t);
    RowOfLeaves(c, t);
    FlatAround(c.left, t, c.right);
    assert Min(t) in Flat(ks);
    ExactRoutes(rank, c, t, 0, Min(t));
    RowSite(rank, heap, root, c.addr, ks, |c.left|, c.up, UpMin(c, Min(t)));
  }

  lemma RowOfLeaves(c: Ctx, t: Tree)
    requires c.Hole? && KidsOk(c.left, 0) && KidsOk(c.right, 0) && Kid(t, 0)
    ensures var ks := c.left + [t] + c.right;
            forall q | 0 <= q < |ks| :: ks[q].Leaf? && ks[q].keys != [] && Size(ks[q]) <= LIMIT
  {
    var ks := c.left + [t] + c.right;
    assert forall q | 0 <= q < |ks| ::
        ks[q] == if q < |c.left| then c.left[q] else if q == |c.left| then t else c.right[q - |c.left| - 1];
  }

  /** The parent's page lists its children, and -1 after them. */
  lemma OutPage(heap: map<int, BNode>, out: Tree)
    requires out.Node? && Stored(heap, out)
    ensures out.addr in heap && |heap[out.addr].child| == SLOTS
    ensures forall q | 0 <= q < SLOTS :: heap[out.addr].child[q] == if q < |out.kids| then out.kids[q].addr else NIL
  {
    assert forall q | 0 <= q < |out.kids| :: heap[out.addr].child[q] == AddrList(out.kids)[q];
  }

  lemma ShrunkPage(rank: RID -> int, heap: map<int, BNode>, root: int, free: int, c: Ctx, t: Tree, t1: Tree, h: nat,
                   k: int)
    requires Shrunk(rank, heap, root, free, c, t, t1, h, k)
    ensures t1.addr in heap && heap[t1.addr].n == Size(t1) && |heap[t1.addr].child| == SLOTS
    ensures h == 0 <==> heap[t1.addr].child[0] == NIL
    ensures h == 0 <==> t1.Leaf?
  {
    if t1.Node? {
      KidAddr(t1);
      SumMembers(t1.kids[0].addr, t1.addr, Addrs(t1), AddrsC(c));
      assert AddrList(t1.kids)[0] == heap[t1.addr].child[0];
    }
  }

  /** No such key: the tree is its own result. */
  lemma AbsentOut(rank: RID -> int, heap: map<int, BNode>, root: int, free: int, c: Ctx, t: Tree, h: nat, k: int)
      returns (out: Tree)
    requires Placed(rank, heap, root, free, c, t, h) && Routed(rank, c, t, k) && Absent(rank, Keys(t), k)
    ensures RemoveDone(rank, heap, heap, root, free, c, t, out, h, h, k, t.addr)
  {
    out := Same(c, t);
    DelAbsent(rank, Keys(t), k);
    if c.Hole? {
      EnoughOut(rank, heap, root, free, c, t, t, h, k);
    } else {
      assert Addrs(t) + AddrsC(Top) == Addrs(t);
    }
  }

  /**
   What RecursiveRemove leaves, from heap0: the whole new tree or the parent's new subtree without the key of rank k,
   and the heap as it was if there is no such key; r is the page now in the place of t.
   */
  ghost predicate RemoveDone(rank: RID -> int, heap0: map<int, BNode>, heap: map<int, BNode>, root: int, free: int,
                             c: Ctx, t: Tree, out: Tree, h: nat, h': nat, k: int, r: int) {
    && (c.Top? ==> RemovedTop(rank, heap, free, t, out, h, h', k) && r == out.addr)
    && (c.Hole? ==> Removed(rank, heap, root, free, c, t, out, h, k) && r == if |c.left| < |out.kids| then
        out.kids[|c.left|].addr else NIL)
    && (Absent(rank, Keys(t), k) ==> heap == heap0 && r == t.addr && out == Same(c, t))
  }

  /** Node t after the step below it, from heap0: shrunk, and as it was if there is no key of rank k. */
  ghost predicate ShrunkStep(rank: RID -> int, heap0: map<int, BNode>, heap: map<int, BNode>, root: int, free: int,
                             c: Ctx, t: Tree, t1: Tree, h: nat, k: int) {
    && Shrunk(rank, heap, root, free, c, t, t1, h, k)
    && (Absent(rank, Keys(t), k) ==> heap == heap0 && t1 == t)
  }

  /** A shrunk node as RecursiveRemove finds it when it comes to repairs; heap0 is where the call started. */
  ghost predicate ShrunkFrom(rank: RID -> int, heap0: map<int, BNode>, heap: map<int, BNode>, root: int, free: int,
                             c: Ctx, t: Tree, t1: Tree, h: nat, k: int) {
    && ShrunkStep(rank, heap0, heap, root, free, c, t, t1, h, k)
    && SiteOk(rank, root, c, t, h) && InOrder(rank, c, t1) && Routed(rank, c, t, k)
  }

  /** The step below, seen from the parent. */
  lemma RemoveDoneBelow(rank: RID -> int, heap0: map<int, BNode>, heap: map<int, BNode>, root: int, free: int, c: Ctx,
                        t: Tree, h: nat, j: int, out: Tree, k: int, s: int, d: Ctx, g: nat, g': nat)
    requires Placed(rank, heap0, root, free, c, t, h) && t.Node? && Picks(rank, t.kids, j, k)
    requires h == g + 1 && d == Down(c, t, j)
    requires RemoveDone(rank, heap0, heap, root, free, d, t.kids[j], out, g, g', k, s)
    ensures ShrunkStep(rank, heap0, heap, root, free, c, t, out, h, k)
    ensures t.addr in heap && j < |heap[t.addr].child| && heap[t.addr].child[j] == s
  {
    RemovedBelow(rank, heap, root, free, c, t, h, j, out, k, s, d, g);
    PlacedSorted(rank, heap0, root, free, c, t, h);
    KidSorted(rank, t.kids, j);
    AroundDown(c, t, j);
  }

  /** No repair is needed. */
  lemma RemoveKept(rank: RID -> int, heap0: map<int, BNode>, heap: map<int, BNode>, root: int, free: int, c: Ctx,
                   t: Tree, t1: Tree, h: nat, k: int)
      returns (out: Tree)
    requires ShrunkFrom(rank, heap0, heap, root, free, c, t, t1, h, k)
    requires if c.Top? then t1.Node? ==> 2 <= Size(t1) else DEGREE <= Size(t1)
    ensures RemoveDone(rank, heap0, heap, root, free, c, t, out, h, h, k, t1.addr) && out == Same(c, t1)
  {
    out := Same(c, t1);
    if c.Hole? {
      EnoughOut(rank, heap, root, free, c, t, t1, h, k);
    } else {
      assert Addrs(t1) + AddrsC(Top) == Addrs(t1);
    }
  }

  /** The root's only child r becomes the root. */
  lemma RootCollapsed(rank: RID -> int, heap0: map<int, BNode>, heap: map<int, BNode>, root: int, free: int, t: Tree,
                      t1: Tree, h: nat, k: int, r: int)
      returns (out: Tree, h': nat)
    requires ShrunkFrom(rank, heap0, heap, root, free, Top, t, t1, h, k) && t1.Node? && Size(t1) < 2
    requires t1.addr in heap && 0 < |heap[t1.addr].child| && r == heap[t1.addr].child[0]
    ensures RemoveDone(rank, heap0, heap, root, free, Top, t, out, h, h', k, r) && t1.kids != [] && out == t1.kids[0]
  {
    RootCollapse(rank, heap, root, free, t, t1, h, k);
    OutPage(heap, t1);
    out, h' := t1.kids[0], h - 1;
  }

  ghost predicate Absent(rank: RID -> int, s: seq<RID>, k: int) {
    forall x | x in s :: rank(x) != k
  }

  /** The stored key of rank k, or the null RID when there is none. */
  ghost predicate Found(rank: RID -> int, s: seq<RID>, k: int, r: RID) {
    (r in s && rank(r) == k) || (r == NULL_RID && Absent(rank, s, k))
  }

  /** Where the scan of search and delete settles: on the key of a leaf, or on a child of an internal node. */
  ghost predicate Sits(heap: map<int, BNode>, rank: RID -> int, t: Tree, k: int, j: int) {
    if t.Leaf? then
      0 <= j < |t.keys| && rank(t.keys[j]) == k && t.addr in heap && j < |heap[t.addr].row|
        && heap[t.addr].row[j] == t.keys[j]
    else
      Picks(rank, t.kids, j, k)
  }

  /** Where the scan of search and delete stops in a leaf: on the key, if there is one. */
  lemma LeafFind(rank: RID -> int, t: Tree, b: BNode, j: int, k: int)
    requires t.Leaf? && Size(t) <= LIMIT && b == Image(t) && 0 <= j <= b.n && Sorted(rank, t.keys)
    requires forall l | 0 <= l < j :: rank(b.row[l]) < k
    requires j < b.n ==> k <= rank(b.row[j])
    ensures j < |t.keys| ==> b.row[j] == t.keys[j]
    ensures j == |t.keys| || rank(t.keys[j]) != k ==> Absent(rank, t.keys, k)
  {
    assert forall l | 0 <= l < |t.keys| :: b.row[l] == t.keys[l];
  }

  /** Where it stops in an internal node: on the child to take, or one past it. */
  lemma {:induction false} NodeFind(rank: RID -> int, t: Tree, b: BNode, j: int, k: int, h: nat, i: int)
    requires t.Node? && Shape(t, h) && Size(t) <= LIMIT && b == Image(t) && 0 <= j <= b.n && Sorted(rank, Keys(t))
    requires forall l | 0 <= l < j :: rank(b.row[l]) < k
    requires j < b.n ==> k <= rank(b.row[j])
    requires i == if (j == b.n || k < rank(b.row[j])) && j > 0 then j - 1 else j
    ensures Picks(rank, t.kids, i, k)
  {
    assert forall l | 0 <= l < |t.kids| :: b.row[l] == MinList(t.kids)[l] == Min(t.kids[l]);
    assert j > 0 ==> rank(b.row[j - 1]) < k;
    if i + 1 < |t.kids| && i == j {
      HasKeys(t.kids[i], h - 1);
      HasKeys(t.kids[i + 1], h - 1);
      MinsApart(rank, t.kids, i, i + 1);
    }
  }

  /** A key of rank k can only be below the child the search takes. */
  lemma FoundBelow(rank: RID -> int, c: Ctx, t: Tree, j: int, k: int, d: Ctx, r: RID)
    requires t.Node? && 0 <= j < |t.kids| && d == Down(c, t, j) && Routed(rank, d, t.kids[j], k)
        && Found(rank, Keys(t.kids[j]), k, r)
    ensures Found(rank, Keys(t), k, r)
  {
    FlatSplit(t.kids, j);
    FoundBetween(rank, Flat(t.kids[..j]), Keys(t.kids[j]), Flat(t.kids[j + 1..]), LeftKeys(c), RightKeys(c), k, r);
  }

  lemma FoundBetween(rank: RID -> int, a: seq<RID>, s: seq<RID>, b: seq<RID>, l: seq<RID>, u: seq<RID>, k: int, r: RID)
    requires AllBelow(rank, l + a, k) && AllAbove(rank, b + u, k) && Found(rank, s, k, r)
    ensures Found(rank, a + s + b, k, r)
  {
    assert forall x | x in a :: x in l + a;
    assert forall x | x in b :: x in b + u;
  }

  /** A well-formed root is in its place. */
  lemma TopPlaced(rank: RID -> int, heap: map<int, BNode>, root: int, free: int, t: Tree, h: nat)
    requires Stored(heap, t) && RootOk(t, h) && Unique(Addrs(t)) && Bounded(Addrs(t), free) && root == t.addr
    requires Sorted(rank, Keys(t)) && Real(Keys(t))
    ensures Placed(rank, heap, root, free, Top, t, h)
  {
    assert Addrs(t) + AddrsC(Top) == Addrs(t);
    assert Around3(LeftKeys(Top), Keys(t), RightKeys(Top)) == Keys(t);
  }

  /**
   The parent's children once the short t has been repaired: t has taken the first entry of the next child, or the
   last of the previous one, if they can spare one; otherwise the previous child, or the next if there is none, has
   taken all of t.
   */
  ghost predicate RefilledOut(c: Ctx, t: Tree, kids: seq<Tree>)
    requires c.Hole? && 2 <= |c.left| + 1 + |c.right|
  {
    if c.right != [] && Size(c.right[0]) > DEGREE then
      var b := c.right[0];
      (t.Leaf? <==> b.Leaf?) && kids == c.left + [Join(t.addr, t, Take(b, 1)), Drop(b, b.addr, 1)] + c.right[1..]
    else if c.left == [] then
      var b := c.right[0];
      (t.Leaf? <==> b.Leaf?) && kids == [Join(b.addr, t, b)] + c.right[1..]
    else
      var i := |c.left| - 1;
      var a := c.left[i];
      var n := Size(a) - 1;
      && (t.Leaf? <==> a.Leaf?)
      && kids == if n >= DEGREE then c.left[..i] + [Take(a, n), Join(t.addr, Drop(a, t.addr, n), t)] + c.right
                 else c.left[..i] + [Join(a.addr, a, t)] + c.right
  }

  /** Neighbours t1 and a donor, the previous child if right holds, with an entry to spare. */
  ghost predicate BorrowCase(rank: RID -> int, heap: map<int, BNode>, root: int, free: int, c: Ctx, t: Tree, t1: Tree,
                             h: nat, k: int, l: seq<Tree>, a: Tree, b: Tree, r: seq<Tree>, right: bool) {
    && ShrunkHole(rank, heap, root, free, c, t, t1, h, k) && Size(t1) == DEGREE - 1
    && c.left + [t1] + c.right == l + [a, b] + r
    && (if right then b == t1 && |l| + 1 == |c.left| else a == t1 && l == c.left)
    && Kid(if right then a else b, h) && Size(if right then a else b) > DEGREE
  }

  /** The donor FindDonor has found, and what borrowing from it makes of the parent's children. */
  lemma BorrowParts(rank: RID -> int, heap: map<int, BNode>, root: int, free: int, c: Ctx, t: Tree, t1: Tree, h: nat,
                    k: int, s: int, j: int, i: int)
      returns (l: seq<Tree>, a: Tree, b: Tree, r: seq<Tree>, right: bool)
    requires ShrunkHole(rank, heap, root, free, c, t, t1, h, k) && Size(t1) == DEGREE - 1 && i == |c.left|
    requires c.addr in heap && Donor(heap, heap[c.addr], i, s, j) && s != NIL
    ensures BorrowCase(rank, heap, root, free, c, t, t1, h, k, l, a, b, r, right)
    ensures s == (if right then a else b).addr && j == if right then |l| else |l| + 1
    ensures RefilledOut(c, t1, l + [LeftPart(a, b, 1, right), RightPart(a, b, 1, right)] + r)
  {
    DonorSides(heap, c, t1, free, s, j, i);
    right := j == i - 1;
    if right {
      l, a, b, r := c.left[..i - 1], c.left[i - 1], t1, c.right;
      assert Kid(a, h);
      SiblingParts(c, t1, true);
      BorrowPrevious(c, t1, l);
    } else {
      l, a, b, r := c.left, t1, c.right[0], c.right[1..];
      assert Kid(b, h);
      SiblingParts(c, t1, false);
      BorrowNext(c, t1, r);
    }
  }

  lemma BorrowNext(c: Ctx, t: Tree, r: seq<Tree>)
    requires c.Hole? && c.right != [] && Size(c.right[0]) > DEGREE && (t.Leaf? <==> c.right[0].Leaf?)
        && r == c.right[1..]
    ensures RefilledOut(c, t, c.left + [LeftPart(t, c.right[0], 1, false), RightPart(t, c.right[0], 1, false)] + r)
  {
  }

  lemma BorrowPrevious(c: Ctx, t: Tree, l: seq<Tree>)
    requires c.Hole? && c.left != [] && l == c.left[..|c.left| - 1]
    requires Size(c.left[|c.left| - 1]) > DEGREE && (t.Leaf? <==> c.left[|c.left| - 1].Leaf?)
    requires c.right != [] ==> Size(c.right[0]) <= DEGREE
    ensures var a := c.left[|c.left| - 1];
            RefilledOut(c, t, l + [LeftPart(a, t, 1, true), RightPart(a, t, 1, true)] + c.right)
  {
  }

  /** The neighbour a short node is merged with, and what that makes of the parent's children. */
  lemma MergeParts(rank: RID -> int, heap: map<int, BNode>, root: int, free: int, c: Ctx, t: Tree, t1: Tree, h: nat,
                   k: int, s: int, j: int, i: int)
      returns (l: seq<Tree>, a: Tree, b: Tree, r: seq<Tree>, right: bool)
    requires ShrunkHole(rank, heap, root, free, c, t, t1, h, k) && Size(t1) == DEGREE - 1 && i == |c.left|
    requires c.addr in heap && Donor(heap, heap[c.addr], i, NIL, j)
    requires |heap[c.addr].child| == SLOTS && s == heap[c.addr].child[if i == 0 then 1 else i - 1]
    ensures MergeCase(rank, heap, root, free, c, t, t1, h, k, l, a, b, r, right)
    ensures s == (if right then b else a).addr
    ensures RefilledOut(c, t1, l + [Merged(a, b, right)] + r)
  {
    DonorSides(heap, c, t1, free, NIL, j, i);
    right := i == 0;
    if right {
      l, a, b, r := c.left, t1, c.right[0], c.right[1..];
      assert Kid(b, h);
      SiblingParts(c, t1, false);
      MergeNext(c, t1, r);
    } else {
      l, a, b, r := c.left[..i - 1], c.left[i - 1], t1, c.right;
      assert Kid(a, h);
      SiblingParts(c, t1, true);
      MergePrevious(c, t1, l);
    }
  }

  lemma MergeNext(c: Ctx, t: Tree, r: seq<Tree>)
    requires c.Hole? && c.left == [] && c.right != [] && Size(c.right[0]) <= DEGREE && (t.Leaf? <==> c.right[0].Leaf?)
    requires r == c.right[1..]
    ensures RefilledOut(c, t, c.left + [Merged(t, c.right[0], true)] + r)
  {
    MergedIs(t, c.right[0], true);
    assert c.left + [Merged(t, c.right[0], true)] + r == [Merged(t, c.right[0], true)] + r;
  }

  lemma MergePrevious(c: Ctx, t: Tree, l: seq<Tree>)
    requires c.Hole? && c.left != [] && l == c.left[..|c.left| - 1]
    requires Size(c.left[|c.left| - 1]) <= DEGREE && (t.Leaf? <==> c.left[|c.left| - 1].Leaf?)
    requires c.right != [] ==> Size(c.right[0]) <= DEGREE
    ensures RefilledOut(c, t, l + [Merged(c.left[|c.left| - 1], t, false)] + c.right)
  {
    MergedIs(c.left[|c.left| - 1], t, false);
  }

  /**
   The rule of FindSiblingn_M_2 for child i of page p: the next child if it has an entry to spare, else the previous.
   */
  ghost predicate Donor(heap: map<int, BNode>, p: BNode, i: int, r: int, j: int) {
    && |p.child| == SLOTS && 2 <= p.n <= LIMIT && 0 <= i < p.n && (forall q | 0 <= q < p.n :: p.child[q] in heap)
    && if i + 1 < p.n && heap[p.child[i + 1]].n > DEGREE then
         r == p.child[i + 1] && j == i + 1
       else if i > 0 && heap[p.child[i - 1]].n > DEGREE then
         r == p.child[i - 1] && j == i - 1
       else
         r == NIL
  }

  /** The same rule on the trees. */
  lemma DonorSides(heap: map<int, BNode>, c: Ctx, t: Tree, free: int, s: int, j: int, i: int)
    requires c.Hole? && FrameOk(heap, c, t.addr, Min(t)) && Stored(heap, t) && i == |c.left|
    requires Unique(Addrs(t) + AddrsC(c)) && Bounded(Addrs(t) + AddrsC(c), free)
    requires Donor(heap, heap[c.addr], i, s, j)
    ensures |c.left| + 1 + |c.right| == heap[c.addr].n
    ensures c.right != [] ==> heap[c.addr].child[i + 1] == c.right[0].addr
    ensures c.left != [] ==> heap[c.addr].child[i - 1] == c.left[i - 1].addr
    ensures if c.right != [] && Size(c.right[0]) > DEGREE then s == c.right[0].addr && j == i + 1
            else if c.left != [] && Size(c.left[i - 1]) > DEGREE then s == c.left[i - 1].addr && j == i - 1
            else s == NIL
    ensures s == NIL && c.right != [] ==> Size(c.right[0]) <= DEGREE
    ensures s == NIL && c.left != [] ==> Size(c.left[i - 1]) <= DEGREE
  {
    HolePages(heap, c, t, Min(t), free);
    HoleNil(heap, c, t, free, Min(t));
    SiblingSide(heap, c, t, Min(t), true);
    SiblingSide(heap, c, t, Min(t), false);
  }

  /** Either way of merging joins the entries in order. */
  lemma MergedIs(a: Tree, b: Tree, right: bool)
    requires a.Leaf? <==> b.Leaf?
    ensures Merged(a, b, right) == Join(if right then b.addr else a.addr, a, b)
  {
    var n := if right then Size(a) else Size(b);
    if right {
      assert Drop(a, b.addr, 0) == if a.Leaf? then Leaf(b.addr, a.keys) else Node(b.addr, a.kids);
    } else {
      assert Take(b, Size(b)) == b;
    }
  }
}
