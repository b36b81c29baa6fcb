/** A node in its place in the tree, and what insertion makes of it and its parent. */
module BTreeInsertion {
  import opened Rids
  import opened BTreeShape
  import opened BTreeContext
  import opened BTreeSteps
  import opened BTreeOutcome
  import opened BTreeOrder

  function Around3(l: seq<RID>, s: seq<RID>, r: seq<RID>): seq<RID> {
    l + s + r
  }

  /** Keys of a whole tree seen from a node, in order. */
  ghost predicate InOrder(rank: RID -> int, c: Ctx, t: Tree) {
    && Sorted(rank, Around3(LeftKeys(c), Keys(t), RightKeys(c)))
    && Real(Around3(LeftKeys(c), Keys(t), RightKeys(c)))
  }

  /** Node t of height h sits in the hole of context c of a well-formed tree. */
  ghost predicate Placed(rank: RID -> int, heap: map<int, BNode>, root: int, free: int, c: Ctx, t: Tree, h: nat) {
    && StoredC(heap, c, t.addr, Min(t)) && Stored(heap, t) && root == TopAddr(c, t.addr)
    && Unique(Addrs(t) + AddrsC(c)) && Bounded(Addrs(t) + AddrsC(c), free)
    && ShapeC(c, h) && Shape(t, h) && Size(t) <= LIMIT
    && (c.Hole? ==> DEGREE <= Size(t)) && (c.Top? && t.Node? ==> 2 <= Size(t))
    && InOrder(rank, c, t)
  }

  lemma AroundDown(c: Ctx, t: Tree, j: int)
    requires t.Node? && 0 <= j < |t.kids|
    ensures Around(Down(c, t, j), t.kids[j]) == t
  {
    assert t.kids == t.kids[..j] + [t.kids[j]] + t.kids[j + 1..];
  }

  lemma Regroup(p: multiset<int>, l: multiset<int>, m: multiset<int>, r: multiset<int>, u: multiset<int>)
    ensures (p + (l + m + r)) + u == m + (p + l + r + u)
  {
  }

  lemma RegroupKeys(ul: seq<RID>, l: seq<RID>, m: seq<RID>, r: seq<RID>, ur: seq<RID>)
    ensures Around3(ul, l + m + r, ur) == Around3(ul + l, m, r + ur)
  {
  }

  /** The same keys and pages, seen from child j. */
  lemma {:induction false} DownSums(c: Ctx, t: Tree, j: int)
    requires t.Node? && 0 <= j < |t.kids|
    ensures var c' := Down(c, t, j);
            && Addrs(t) + AddrsC(c) == Addrs(t.kids[j]) + AddrsC(c')
            && Around3(LeftKeys(c), Keys(t), RightKeys(c)) == Around3(LeftKeys(c'), Keys(t.kids[j]), RightKeys(c'))
  {
    var a, b := t.kids[..j], t.kids[j + 1..];
    FlatSplit(t.kids, j);
    Regroup(multiset{t.addr}, AddrsF(a), Addrs(t.kids[j]), AddrsF(b), AddrsC(c));
    RegroupKeys(LeftKeys(c), Flat(a), Keys(t.kids[j]), Flat(b), RightKeys(c));
  }

  lemma {:induction false} DownMin(c: Ctx, t: Tree, j: int, h: nat)
    requires t.Node? && Shape(t, h) && 0 <= j < |t.kids|
    ensures UpMin(Down(c, t, j), Min(t.kids[j])) == Min(t)
  {
    HasKeys(t.kids[0], h - 1);
    HeadFlat(t.kids);
  }

  lemma {:induction false} DownStored(heap: map<int, BNode>, c: Ctx, t: Tree, j: int, h: nat)
    requires t.Node? && Shape(t, h) && 0 <= j < |t.kids| && Stored(heap, t) && StoredC(heap, c, t.addr, Min(t))
    ensures StoredC(heap, Down(c, t, j), t.kids[j].addr, Min(t.kids[j])) && Stored(heap, t.kids[j])
  {
    AroundDown(c, t, j);
    Close(heap, Down(c, t, j), t.kids[j]);
    DownMin(c, t, j, h);
  }

  /** A child of a node in its place is in its own place. */
  lemma {:induction false} DownPlaced(rank: RID -> int, heap: map<int, BNode>, root: int, free: int, c: Ctx, t: Tree,
                                      h: nat, j: int, d: Ctx, g: int)
    requires Placed(rank, heap, root, free, c, t, h) && t.Node? && 0 <= j < |t.kids| && d == Down(c, t, j) && g == h - 1
    ensures g >= 0 && Placed(rank, heap, root, free, d, t.kids[j], g)
  {
    DownStored(heap, c, t, j, h);
    DownSums(c, t, j);
    DownShape(c, t, j, h, d, g);
  }

  lemma {:induction false} DownShape(c: Ctx, t: Tree, j: int, h: nat, d: Ctx, g: int)
    requires t.Node? && 0 <= j < |t.kids| && d == Down(c, t, j) && g == h - 1
    requires ShapeC(c, h) && Shape(t, h) && 2 <= Size(t) <= LIMIT && (c.Hole? ==> DEGREE <= Size(t))
    ensures g >= 0 && ShapeC(d, g) && Kid(t.kids[j], g)
  {
  }

  lemma {:induction false} PlacedSorted(rank: RID -> int, heap: map<int, BNode>, root: int, free: int, c: Ctx, t: Tree,
                                        h: nat)
    requires Placed(rank, heap, root, free, c, t, h)
    ensures Sorted(rank, Keys(t))
    ensures t.addr in heap && heap[t.addr] == Image(t) && 0 <= t.addr < free
    ensures c.Hole? ==> c.addr in heap && 0 <= c.addr < free && c.addr != t.addr
    ensures h == 0 <==> heap[t.addr].child[0] == NIL
    ensures t.Node? ==> |t.kids| == heap[t.addr].n
    ensures t.Node? ==> forall q | 0 <= q < |t.kids| ::
              heap[t.addr].child[q] == t.kids[q].addr && heap[t.addr].row[q] == Min(t.kids[q]) && t.kids[q].addr in heap
  {
    MiddleSorted(rank, LeftKeys(c), Keys(t), RightKeys(c));
    AddrOf(t);
    SumMembers(t.addr, if c.Hole? then c.addr else t.addr, Addrs(t), AddrsC(c));
    if t.Node? {
      KidAddr(t);
      SumMembers(t.kids[0].addr, t.addr, Addrs(t), AddrsC(c));
      forall q | 0 <= q < |t.kids|
        ensures heap[t.addr].child[q] == t.kids[q].addr && heap[t.addr].row[q] == Min(t.kids[q])
            && t.kids[q].addr in heap
      {
        assert Stored(heap, t.kids[q]);
      }
    }
  }

  lemma SumMembers(x: int, y: int, a: multiset<int>, b: multiset<int>)
    ensures x in a ==> x in a + b
    ensures y in b ==> y in a + b
    ensures Unique(a + b) && x in a && y in b ==> x != y
  {
    assert (a + b)[x] == a[x] + b[x];
  }

  // ----- insertion -----

  /**
   The key is in: t has become t1, possibly with one entry too many, under the separator z; nothing above has
   changed.
   */
  ghost predicate Grown(rank: RID -> int, heap: map<int, BNode>, root: int, free: int, c: Ctx, t: Tree, t1: Tree,
                        h: nat, key: RID, z: RID) {
    && Stored(heap, t1) && Shape(t1, h) && t1.addr == t.addr && Size(t) <= Size(t1) <= Size(t) + 1
    && Keys(t1) == Ins(rank, Keys(t), key)
    && Unique(Addrs(t1) + AddrsC(c)) && Bounded(Addrs(t1) + AddrsC(c), free)
    && (c.Hole? ==> FrameOk(heap, c, t.addr, z) && StoredC(heap, c.up, c.addr, UpMin(c, Min(t))))
    && (h == 0 ==> z == Min(t1))
  }

  /** The parent of t after the whole step: legal children, exact separators, the key among its keys. */
  ghost predicate Inserted(rank: RID -> int, heap: map<int, BNode>, free: int, c: Ctx, t: Tree, out: Tree, h: nat,
                           key: RID)
    requires c.Hole?
  {
    && out.Node? && out.addr == c.addr && Stored(heap, out) && StoredC(heap, c.up, c.addr, UpMin(c, Min(t)))
    && KidsOk(out.kids, h) && |c.left| + 1 + |c.right| <= |out.kids| <= |c.left| + 2 + |c.right|
    && out.kids[|c.left|].addr == t.addr
    && Keys(out) == Ins(rank, Around3(Flat(c.left), Keys(t), Flat(c.right)), key)
    && Unique(Addrs(out) + AddrsC(c.up)) && Bounded(Addrs(out) + AddrsC(c.up), free)
  }

  /** The whole tree after an insertion at the root. */
  ghost predicate InsertedTop(rank: RID -> int, heap: map<int, BNode>, free: int, t: Tree, out: Tree, h: nat, h': nat,
                              key: RID) {
    && Stored(heap, out) && RootOk(out, h') && (h' == h || h' == h + 1)
    && Keys(out) == Ins(rank, Keys(t), key)
    && Unique(Addrs(out)) && Bounded(Addrs(out), free)
  }

  /** A child's parent, after the step below, is a grown node. */
  lemma {:induction false} GrownFromBelow(rank: RID -> int, heap: map<int, BNode>, root: int, free: int, c: Ctx,
                                          t: Tree, h: nat, j: int, out: Tree, key: RID)
    requires t.Node? && 0 <= j < |t.kids| && Shape(t, h) && h > 0
    requires Inserted(rank, heap, free, Down(c, t, j), t.kids[j], out, h - 1, key)
    ensures Grown(rank, heap, root, free, c, t, out, h, key, Min(t))
  {
    DownMin(c, t, j, h);
    FlatSplit(t.kids, j);
  }

  /** Keys of the parent's subtree once the key is in. */
  lemma GrownKeys(rank: RID -> int, c: Ctx, t: Tree, t1: Tree, key: RID)
    requires c.Hole? && Routed(rank, c, t, rank(key)) && Keys(t1) == Ins(rank, Keys(t), key)
    ensures Around3(Flat(c.left), Keys(t1), Flat(c.right)) == Ins(rank, Around3(Flat(c.left), Keys(t), Flat(c.right)),
                                                                  key)
  {
    InsBetween(rank, Flat(c.left), Keys(t), Flat(c.right), key);
  }

  /** Pages of the parent and its context, with its children regrouped. */
  lemma HoleAddrs(c: Ctx, t1: Tree, l: seq<Tree>, mid: seq<Tree>, r: seq<Tree>)
    requires c.Hole? && c.left + [t1] + c.right == l + mid + r
    ensures Addrs(Node(c.addr, l + mid + r)) + AddrsC(c.up) == Addrs(t1) + AddrsC(c)
    ensures Flat(l + mid + r) == Around3(Flat(c.left), Keys(t1), Flat(c.right))
  {
    FlatAround(c.left, t1, c.right);
    Regroup(multiset{c.addr}, AddrsF(c.left), Addrs(t1), AddrsF(c.right), AddrsC(c.up));
  }

  // ----- order around a node -----

  lemma GrownOrder(rank: RID -> int, c: Ctx, t: Tree, t1: Tree, key: RID)
    requires InOrder(rank, c, t) && Keys(t1) == Ins(rank, Keys(t), key) && Routed(rank, c, t, rank(key))
    requires NewKey(rank, t, key)
    ensures InOrder(rank, c, t1)
  {
    var l, r := LeftKeys(c), RightKeys(c);
    InsBetween(rank, l, Keys(t), r, key);
    InsSorted(rank, Around3(l, Keys(t), r), key);
  }

  /** Order across the pieces. */
  lemma OrderParts(rank: RID -> int, l: seq<RID>, k: seq<RID>, r: seq<RID>)
    requires Sorted(rank, Around3(l, k, r)) && Real(Around3(l, k, r))
    ensures Sorted(rank, k) && Real(k)
    ensures forall x, y | x in l && y in k :: rank(x) < rank(y)
    ensures forall x, y | x in k && y in r :: rank(x) < rank(y)
  {
    SortedParts(rank, l + k, r);
    SortedParts(rank, l, k);
    assert forall x | x in k :: x in l + k && x in l + k + r;
  }

  /** The same order, one level up. */
  lemma OrderUp(rank: RID -> int, c: Ctx, t: Tree)
    requires c.Hole? && InOrder(rank, c, t)
    ensures InOrder(rank, c.up, Around(c, t))
    ensures Sorted(rank, Flat(c.left + [t] + c.right)) && Real(Flat(c.left + [t] + c.right))
  {
    FlatAround(c.left, t, c.right);
    RegroupKeys(LeftKeys(c.up), Flat(c.left), Keys(t), Flat(c.right), RightKeys(c.up));
    OrderParts(rank, LeftKeys(c.up), Keys(Around(c, t)), RightKeys(c.up));
  }

  /** A search above the parent for a key of t reaches the parent. */
  lemma {:induction false} RouteKey(rank: RID -> int, c: Ctx, t: Tree, h: nat, m: RID, k: RID)
    requires c.Hole? && InOrder(rank, c, t) && ShapeC(c, h) && k in Keys(t)
    requires c.left == [] ==> rank(m) <= rank(k) || LeftKeys(c.up) == []
    ensures Routes(rank, c.up, UpMin(c, m), rank(k))
    ensures c.left != [] ==> rank(UpMin(c, m)) < rank(k)
  {
    OrderParts(rank, LeftKeys(c), Keys(t), RightKeys(c));
    if c.left != [] {
      HasKeys(c.left[0], h);
      MinInFlat(c.left, 0);
    }
    RoutesBetween(rank, c.up, UpMin(c, m), rank(k), h + 1);
  }

  /** The least key after insertion is the old one or the new key, and then nothing lies left of t. */
  lemma {:induction false} GrownMin(rank: RID -> int, c: Ctx, t: Tree, t1: Tree, h: nat, key: RID)
    requires InOrder(rank, c, t1) && Keys(t1) == Ins(rank, Keys(t), key) && Routed(rank, c, t, rank(key))
    requires Shape(t, h) && Size(t) >= 1
    ensures Min(t1) in Keys(t1) && Min(t) in Keys(t1)
    ensures rank(Min(t)) <= rank(Min(t1)) || LeftKeys(c) == []
    ensures rank(Min(t)) == rank(Min(t1)) ==> Min(t) == Min(t1)
  {
    HasKeys(t, h);
    var s := Keys(t);
    assert Ins(rank, s, key) == if rank(key) < rank(s[0]) then [key] + s else [s[0]] + Ins(rank, s[1..], key);
    assert Keys(t1)[0] == Min(t1) && (Keys(t1)[0] == s[0] || Keys(t1)[1] == s[0]);
    OrderParts(rank, LeftKeys(c), Keys(t1), RightKeys(c));
  }

  // ----- the three ways a grown node settles -----

  /** What every outcome below a parent starts from. */
  ghost predicate GrownHole(rank: RID -> int, heap: map<int, BNode>, root: int, free: int, c: Ctx, t: Tree, t1: Tree,
                            h: nat, key: RID, z: RID) {
    && c.Hole? && Grown(rank, heap, root, free, c, t, t1, h, key, z)
    && ShapeC(c, h) && Shape(t, h) && DEGREE <= Size(t) <= LIMIT && root == TopAddr(c, t.addr)
    && InOrder(rank, c, t1) && Routed(rank, c, t, rank(key))
  }

  /** Writes at a node of the parent's subtree leave the context above as it is. */
  lemma AboveKept(heap: map<int, BNode>, heap': map<int, BNode>, c: Ctx, t1: Tree, m: RID, free: int, x: int, y: int)
    requires c.Hole? && StoredC(heap, c.up, c.addr, m) && Unique(Addrs(t1) + AddrsC(c))
        && Bounded(Addrs(t1) + AddrsC(c), free)
    requires x in Addrs(t1) || x in AddrsF(c.left) || x in AddrsF(c.right)
    requires y in Addrs(t1) || y in AddrsF(c.left) || y in AddrsF(c.right) || y >= free
    requires forall w | w in heap && w != c.addr && w != x && w != y :: w in heap' && heap'[w] == heap[w]
    ensures StoredC(heap', c.up, c.addr, m)
  {
    forall w | w in AddrsC(c.up) ensures w != c.addr && w != x && w != y {
      HoleApart(c.addr, AddrsF(c.left), Addrs(t1), AddrsF(c.right), AddrsC(c.up), w);
      assert Addrs(t1) + AddrsC(c) == Addrs(t1) + (multiset{c.addr} + AddrsF(c.left) + AddrsF(c.right) + AddrsC(c.up));
    }
    StoredFrameC(heap, heap', c.up, c.addr, m);
  }

  lemma HoleApart(p: int, l: multiset<int>, t: multiset<int>, r: multiset<int>, u: multiset<int>, w: int)
    requires Unique(t + (multiset{p} + l + r + u)) && w in u
    ensures w != p && w !in l && w !in t && w !in r
    ensures w in t + (multiset{p} + l + r + u)
  {
    assert (t + (multiset{p} + l + r + u))[w] == t[w] + (if w == p then 1 else 0) + l[w] + r[w] + u[w];
  }

  lemma HoleUnique(c: Ctx, t: Tree)
    requires c.Hole? && Unique(Addrs(t) + AddrsC(c))
    ensures Unique(Addrs(Around(c, t))) && Unique(FrameAddrs(c)) && Unique(AddrsC(c.up)) && Unique(Addrs(t))
    ensures Addrs(Around(c, t)) + AddrsC(c.up) == Addrs(t) + AddrsC(c)
    ensures c.addr !in Addrs(t) && forall x | x in Addrs(t) :: x !in FrameAddrs(c)
  {
    HoleAddrs(c, t, c.left, [t], c.right);
    UniqueParts(Addrs(Around(c, t)), AddrsC(c.up));
    UniqueParts(Addrs(t), AddrsC(c));
    UniqueParts(FrameAddrs(c), AddrsC(c.up));
    assert AddrsC(c) == FrameAddrs(c) + AddrsC(c.up);
    assert c.addr in AddrsC(c);
    assert forall x | x in FrameAddrs(c) :: x in AddrsC(c);
  }

  /** No overflow: only the separator is refreshed. */
  lemma {:induction false} KeepOut(rank: RID -> int, heap: map<int, BNode>, root: int, free: int, c: Ctx, t: Tree,
                                   t1: Tree, h: nat, key: RID, z: RID)
      returns (heap': map<int, BNode>)
    requires GrownHole(rank, heap, root, free, c, t, t1, h, key, z) && Size(t1) <= LIMIT
    ensures c.addr in heap && |c.left| < |heap[c.addr].row| && c.addr != NIL
    ensures heap' == SetRow(heap, c.addr, |c.left|, Min(t1))
    ensures Inserted(rank, heap', free, c, t, Around(c, t1), h, key)
  {
    heap' := KeepStored(heap, c, t1, t.addr, z, free);
    AddrOf(t1);
    AboveKept(heap, heap', c, t1, UpMin(c, Min(t)), free, t1.addr, t1.addr);
    GrownKeys(rank, c, t, t1, key);
    KeepKids(c, t1, h);
  }

  lemma KeepStored(heap: map<int, BNode>, c: Ctx, t1: Tree, a: int, z: RID, free: int) returns (heap': map<int, BNode>)
    requires c.Hole? && FrameOk(heap, c, a, z) && Stored(heap, t1) && a == t1.addr
    requires Unique(Addrs(t1) + AddrsC(c)) && Bounded(Addrs(t1) + AddrsC(c), free)
    ensures c.addr in heap && |c.left| < |heap[c.addr].row| && c.addr != NIL
    ensures heap' == SetRow(heap, c.addr, |c.left|, Min(t1))
    ensures Stored(heap', Around(c, t1))
    ensures Unique(Addrs(Around(c, t1)) + AddrsC(c.up)) && Bounded(Addrs(Around(c, t1)) + AddrsC(c.up), free)
  {
    HoleUnique(c, t1);
    assert c.addr in AddrsC(c) && c.addr in Addrs(t1) + AddrsC(c);
    heap' := FrameSet(heap, c, a, z, Min(t1));
    StoredFrame(heap, heap', t1);
    Close(heap', c, t1);
  }

  lemma {:induction false} KeepKids(c: Ctx, t1: Tree, h: nat)
    requires c.Hole? && KidsOk(c.left, h) && KidsOk(c.right, h) && Kid(t1, h)
    ensures KidsOk(c.left + [t1] + c.right, h) && (c.left + [t1] + c.right)[|c.left|] == t1
    ensures Flat(c.left + [t1] + c.right) == Around3(Flat(c.left), Keys(t1), Flat(c.right))
  {
    FlatAround(c.left, t1, c.right);
    AllKids(c.left, [t1], h);
    AllKids(c.left + [t1], c.right, h);
  }

  lemma {:induction false} AllKids(a: seq<Tree>, b: seq<Tree>, h: nat)
    requires KidsOk(a, h) && KidsOk(b, h)
    ensures KidsOk(a + b, h)
  {
  }

  /** A shift to a neighbour, seen as a regrouping of the parent's children. */
  lemma {:induction false} ShiftOut(rank: RID -> int, heap: map<int, BNode>, root: int, free: int, c: Ctx, t: Tree,
                                    t1: Tree, h: nat, key: RID, z: RID, l: seq<Tree>, a: Tree, b: Tree, r: seq<Tree>,
                                    right: bool, heap': map<int, BNode>)
    requires GrownHole(rank, heap, root, free, c, t, t1, h, key, z) && Size(t1) == SLOTS
    requires c.left + [t1] + c.right == l + [a, b] + r && Kid(if right then b else a, h)
        && Size(if right then b else a) < LIMIT
    requires if right then a == t1 && l == c.left else b == t1 && |l| + 1 == |c.left|
    requires Shape(a, h) && Shape(b, h)
    requires var a', b' := LeftPart(a, b, 1, right), RightPart(a, b, 1, right);
             && Stored(heap', Node(c.addr, l + [a', b'] + r))
             && forall w | w in heap && w != c.addr && w != a.addr && w != b.addr :: w in heap' && heap'[w] == heap[w]
    ensures Inserted(rank, heap', free, c, t,
                     Node(c.addr, l + [LeftPart(a, b, 1, right), RightPart(a, b, 1, right)] + r), h, key)
  {
    var a', b' := LeftPart(a, b, 1, right), RightPart(a, b, 1, right);
    var out := Node(c.addr, l + [a', b'] + r);
    PartsFacts(a, b, 1, right);
    PartsAddrs(a, b, 1, right);
    PartsShape(a, b, 1, right, h);
    HoleAddrs(c, t1, l, [a, b], r);
    RegroupPair(c.addr, l, a, b, r, a', b');
    PairInHole(c, t1, l, a, b, r, right);
    PairKids(c, t1, l, a, b, r, a', b', h, right);
    GrownOut(rank, heap, root, free, c, t, t1, h, key, z, heap', out, a.addr, b.addr);
  }

  /** What a regrouping of the parent's children, with the same keys and pages, amounts to. */
  lemma {:induction false} GrownOut(rank: RID -> int, heap: map<int, BNode>, root: int, free: int, c: Ctx, t: Tree,
                                    t1: Tree, h: nat, key: RID, z: RID, heap': map<int, BNode>, out: Tree, x: int,
                                    y: int)
    requires GrownHole(rank, heap, root, free, c, t, t1, h, key, z)
    requires out.Node? && out.addr == c.addr && Stored(heap', out) && KidsOk(out.kids, h)
    requires |out.kids| == |c.left| + 1 + |c.right| && out.kids[|c.left|].addr == t.addr
    requires Keys(out) == Around3(Flat(c.left), Keys(t1), Flat(c.right))
    requires Addrs(out) + AddrsC(c.up) == Addrs(t1) + AddrsC(c)
    requires x in Addrs(t1) || x in AddrsF(c.left) || x in AddrsF(c.right)
    requires y in Addrs(t1) || y in AddrsF(c.left) || y in AddrsF(c.right)
    requires forall w | w in heap && w != c.addr && w != x && w != y :: w in heap' && heap'[w] == heap[w]
    ensures Inserted(rank, heap', free, c, t, out, h, key)
  {
    GrownKeys(rank, c, t, t1, key);
    AboveKept(heap, heap', c, t1, UpMin(c, Min(t)), free, x, y);
  }

  /** Two neighbours replaced by two that hold the same keys and pages. */
  lemma RegroupPair(p: int, l: seq<Tree>, a: Tree, b: Tree, r: seq<Tree>, a': Tree, b': Tree)
    requires Keys(a') + Keys(b') == Keys(a) + Keys(b) && Addrs(a') + Addrs(b') == Addrs(a) + Addrs(b)
    ensures Flat(l + [a', b'] + r) == Flat(l + [a, b] + r)
    ensures Addrs(Node(p, l + [a', b'] + r)) == Addrs(Node(p, l + [a, b] + r))
  {
    FlatAround2(l, a, b, r);
    FlatAround2(l, a', b', r);
  }

  lemma {:induction false} PairInHole(c: Ctx, t1: Tree, l: seq<Tree>, a: Tree, b: Tree, r: seq<Tree>, right: bool)
    requires c.Hole? && c.left + [t1] + c.right == l + [a, b] + r
    requires if right then a == t1 && l == c.left else b == t1 && |l| + 1 == |c.left|
    ensures if right then c.right == [b] + r else c.left == l + [a] && c.right == r
    ensures a.addr in Addrs(t1) || a.addr in AddrsF(c.left) || a.addr in AddrsF(c.right)
    ensures b.addr in Addrs(t1) || b.addr in AddrsF(c.left) || b.addr in AddrsF(c.right)
  {
    var ks := c.left + [t1] + c.right;
    AddrOf(a);
    AddrOf(b);
    if right {
      assert c.right == ks[|l| + 1..] == [b] + r;
      CountOne(c.right, 0, b.addr);
    } else {
      assert c.left == ks[..|l| + 1] == l + [a];
      assert c.right == ks[|l| + 2..] == r;
      CountOne(c.left, |l|, a.addr);
    }
  }

  lemma PairKids(c: Ctx, t1: Tree, l: seq<Tree>, a: Tree, b: Tree, r: seq<Tree>, a': Tree, b': Tree, h: nat,
                 right: bool)
    requires c.Hole? && c.left + [t1] + c.right == l + [a, b] + r && KidsOk(c.left, h) && KidsOk(c.right, h)
    requires if right then a == t1 && l == c.left else b == t1 && |l| + 1 == |c.left|
    requires Kid(a', h) && Kid(b', h)
    ensures KidsOk(l + [a', b'] + r, h)
  {
    PairInHole(c, t1, l, a, b, r, right);
    assert KidsOk(l, h) && KidsOk(r, h) by {
      if right {
        assert forall q | 0 <= q < |r| :: r[q] == c.right[q + 1];
      } else {
        assert forall q | 0 <= q < |l| :: l[q] == c.left[q];
      }
    }
  }

  /** A split, seen as a regrouping of the parent's children. */
  lemma SplitOut(rank: RID -> int, heap: map<int, BNode>, root: int, free: int, c: Ctx, t: Tree, t1: Tree, h: nat,
                 key: RID, z: RID, heap': map<int, BNode>)
    requires GrownHole(rank, heap, root, free, c, t, t1, h, key, z) && Size(t1) == SLOTS
    requires var x, y := Take(t1, DEGREE), Drop(t1, free, DEGREE);
             && Stored(heap', Node(c.addr, c.left + [x, y] + c.right))
             && forall w | w in heap && w != c.addr && w != t1.addr && w != free :: w in heap' && heap'[w] == heap[w]
    ensures Inserted(rank, heap', free + 128, c, t,
                     Node(c.addr, c.left + [Take(t1, DEGREE), Drop(t1, free, DEGREE)] + c.right), h, key)
  {
    var x, y := Take(t1, DEGREE), Drop(t1, free, DEGREE);
    CutFacts(t1, free, DEGREE);
    GrownKeys(rank, c, t, t1, key);
    HoleAddrs(c, t1, c.left, [t1], c.right);
    AddrOf(t1);
    AboveKept(heap, heap', c, t1, UpMin(c, Min(t)), free, t1.addr, free);
    SplitSums(c.addr, c.left, t1, c.right, x, y, AddrsC(c.up), free);
    SplitKids(c, t1, free, h);
  }

  lemma SplitKids(c: Ctx, t: Tree, y: int, h: nat)
    requires c.Hole? && KidsOk(c.left, h) && KidsOk(c.right, h) && Shape(t, h) && Size(t) == SLOTS
    ensures var ks := c.left + [Take(t, DEGREE), Drop(t, y, DEGREE)] + c.right;
            KidsOk(ks, h) && ks[|c.left|].addr == t.addr
  {
    Halves(t, y, h);
  }

  lemma Halves(t: Tree, y: int, h: nat)
    requires Shape(t, h) && Size(t) == SLOTS
    ensures Kid(Take(t, DEGREE), h) && Kid(Drop(t, y, DEGREE), h)
  {
    assert t.Node? ==> forall q | 0 <= q < DEGREE :: t.kids[DEGREE..][q] == t.kids[DEGREE + q];
  }

  lemma SplitSums(p: int, l: seq<Tree>, t: Tree, r: seq<Tree>, x: Tree, y: Tree, u: multiset<int>, free: int)
    requires Keys(x) + Keys(y) == Keys(t) && Below(x) + Below(y) == Below(t) && x.addr == t.addr && y.addr == free
    requires Unique(Addrs(Node(p, l + [t] + r)) + u) && Bounded(Addrs(Node(p, l + [t] + r)) + u, free)
    ensures Flat(l + [x, y] + r) == Flat(l + [t] + r)
    ensures Unique(Addrs(Node(p, l + [x, y] + r)) + u) && Bounded(Addrs(Node(p, l + [x, y] + r)) + u, free + 128)
  {
    FlatAround(l, t, r);
    FlatAround2(l, x, y, r);
    SplitSum(p, AddrsF(l), AddrsF(r), t.addr, free, Below(x), Below(y), Below(t), u);
    assert p in Addrs(Node(p, l + [t] + r)) + u;
    OneMorePage(Addrs(Node(p, l + [t] + r)) + u, Addrs(Node(p, l + [x, y] + r)) + u, free, free + 128);
  }

  lemma OneMorePage(m: multiset<int>, m': multiset<int>, free: int, free': int)
    requires Unique(m) && Bounded(m, free) && m' == m + multiset{free} && free' == free + 128 && 0 <= free
    ensures Unique(m') && Bounded(m', free')
  {
    assert free !in m;
    assert forall x | x in m' :: x in m || x == free;
    assert forall x :: m'[x] == m[x] + multiset{free}[x];
  }

  lemma SplitSum(p: int, l: multiset<int>, r: multiset<int>, x: int, y: int, bx: multiset<int>, by': multiset<int>,
                 bt: multiset<int>, u: multiset<int>)
    requires bx + by' == bt
    ensures (multiset{p} + (l + ((multiset{x} + bx) + (multiset{y} + by')) + r)) + u
         == ((multiset{p} + (l + (multiset{x} + bt) + r)) + u) + multiset{y}
  {
    assert (multiset{x} + bx) + (multiset{y} + by') == (multiset{x} + (bx + by')) + multiset{y};
  }

  // ----- getting there: the site of a shift, the heap of a split -----

  lemma FramePairRight(heap: map<int, BNode>, c: Ctx, t1: Tree, z: RID, b: Tree, r: seq<Tree>)
    requires c.Hole? && FrameOk(heap, c, t1.addr, z) && c.right == [b] + r
    ensures StoredF(heap, r) && Stored(heap, b) && PairPage(heap, c.addr, c.left, t1, b, r, z, Min(b))
  {
    ListsAppend([b], r);
    assert AddrList([b]) == [b.addr] && MinList([b]) == [Min(b)];
    assert AddrList(c.left) + [t1.addr] + ([b.addr] + AddrList(r)) == AddrList(c.left) + [t1.addr,
        b.addr] + AddrList(r);
    assert MinList(c.left) + [z] + ([Min(b)] + MinList(r)) == MinList(c.left) + [z, Min(b)] + MinList(r);
    assert c.right[0] == b && c.right[1..] == r;
  }

  lemma FramePairLeft(heap: map<int, BNode>, c: Ctx, t1: Tree, z: RID, l: seq<Tree>, a: Tree)
    requires c.Hole? && FrameOk(heap, c, t1.addr, z) && c.left == l + [a]
    ensures StoredF(heap, l) && Stored(heap, a) && PairPage(heap, c.addr, l, a, t1, c.right, Min(a), z)
  {
    ListsAppend(l, [a]);
    assert AddrList([a]) == [a.addr] && MinList([a]) == [Min(a)];
    assert (AddrList(l) + [a.addr]) + [t1.addr] + AddrList(c.right) == AddrList(l) + [a.addr,
        t1.addr] + AddrList(c.right);
    assert (MinList(l) + [Min(a)]) + [z] + MinList(c.right) == MinList(l) + [Min(a), z] + MinList(c.right);
    assert c.left[|l|] == a && c.left[..|l|] == l;
  }

  lemma FramePair(heap: map<int, BNode>, c: Ctx, t1: Tree, z: RID, l: seq<Tree>, a: Tree, b: Tree, r: seq<Tree>,
                  right: bool)
    requires c.Hole? && FrameOk(heap, c, t1.addr, z) && Stored(heap, t1)
    requires c.left + [t1] + c.right == l + [a, b] + r
    requires if right then a == t1 && l == c.left else b == t1 && |l| + 1 == |c.left|
    ensures StoredF(heap, l) && StoredF(heap, r) && Stored(heap, a) && Stored(heap, b)
    ensures PairPage(heap, c.addr, l, a, b, r, if right then z else Min(a), if right then Min(b) else z)
  {
    PairInHole(c, t1, l, a, b, r, right);
    if right {
      FramePairRight(heap, c, t1, z, b, r);
    } else {
      FramePairLeft(heap, c, t1, z, l, a);
    }
  }

  /** The separators of the regrouped children are in order. */
  lemma PairOrder(rank: RID -> int, c: Ctx, t1: Tree, l: seq<Tree>, a: Tree, b: Tree, r: seq<Tree>, h: nat)
    requires c.Hole? && InOrder(rank, c, t1) && c.left + [t1] + c.right == l + [a, b] + r
    requires Shape(a, h) && Shape(b, h) && Size(a) >= 1 && Size(b) >= 1
    ensures rank(Min(a)) < rank(Min(b))
    ensures Sorted(rank, Flat(l + [a, b] + r)) && Real(Flat(l + [a, b] + r))
  {
    OrderUp(rank, c, t1);
    var ks := l + [a, b] + r;
    HasKeys(a, h);
    HasKeys(b, h);
    assert ks[|l|] == a && ks[|l| + 1] == b;
    MinsApart(rank, ks, |l|, |l| + 1);
  }

  lemma AllLeaves(c: Ctx, t1: Tree, l: seq<Tree>, a: Tree, b: Tree, r: seq<Tree>)
    requires c.Hole? && KidsOk(c.left, 0) && KidsOk(c.right, 0) && Shape(t1, 0) && Size(t1) >= 1
    requires c.left + [t1] + c.right == l + [a, b] + r
    ensures var ks := l + [a, b] + r;
            forall q | 0 <= q < |ks| :: ks[q].Leaf? && ks[q].keys != [] && (q != |c.left| ==> Size(ks[q]) <= LIMIT)
  {
    var ks := c.left + [t1] + c.right;
    assert forall q | 0 <= q < |ks| ::
        ks[q] == if q < |c.left| then c.left[q] else if q == |c.left| then t1 else c.right[q - |c.left| - 1];
  }

  /** The row of leaves in which a leaf has overflowed. */
  lemma InsertLeafRow(rank: RID -> int, heap: map<int, BNode>, root: int, free: int, c: Ctx, t: Tree, t1: Tree,
                      key: RID, z: RID, l: seq<Tree>, a: Tree, b: Tree, r: seq<Tree>)
    requires GrownHole(rank, heap, root, free, c, t, t1, 0, key, z) && Size(t1) == SLOTS
    requires c.left + [t1] + c.right == l + [a, b] + r && Shape(a, 0) && Shape(b, 0) && Size(a) >= 1 && Size(b) >= 1
    ensures LeafRow(rank, heap, root, c.addr, l + [a, b] + r, |c.left|, c.up, UpMin(c, Min(t)))
  {
    Close(heap, c, t1);
    PairOrder(rank, c, t1, l, a, b, r, 0);
    AllLeaves(c, t1, l, a, b, r);
    HoleUnique(c, t1);
  }

  /** The routes ReAdj may take above an overflowed leaf. */
  lemma InsertRoutes(rank: RID -> int, c: Ctx, t: Tree, t1: Tree, h: nat, key: RID)
    requires c.Hole? && InOrder(rank, c, t1) && Keys(t1) == Ins(rank, Keys(t), key) && Routed(rank, c, t, rank(key))
    requires Shape(t, h) && Size(t) >= 1 && ShapeC(c, h)
    ensures var m := UpMin(c, Min(t)); var k := Min(t1);
            Routes(rank, c.up, m, rank(k)) && (rank(m) == rank(k) ==> m == k)
    ensures c.left != [] ==> forall k | k in Keys(t1) ::
        Routes(rank, c.up, UpMin(c, Min(t)), rank(k)) && rank(UpMin(c, Min(t))) != rank(k)
  {
    GrownMin(rank, c, t, t1, h, key);
    RouteKey(rank, c, t1, h, Min(t), Min(t1));
    if c.left != [] {
      forall k | k in Keys(t1) ensures Routes(rank, c.up, UpMin(c, Min(t)), rank(k))
        && rank(UpMin(c, Min(t))) != rank(k) {
        RouteKey(rank, c, t1, h, Min(t), k);
      }
    }
  }

  /** An overflowed node and a neighbour with room are a site for Move. */
  lemma {:induction false} InsertSite(rank: RID -> int, heap: map<int, BNode>, root: int, free: int, c: Ctx, t: Tree,
                                      t1: Tree, h: nat, key: RID, z: RID, l: seq<Tree>, a: Tree, b: Tree, r: seq<Tree>,
                                      right: bool)
    requires GrownHole(rank, heap, root, free, c, t, t1, h, key, z) && Size(t1) == SLOTS
    requires c.left + [t1] + c.right == l + [a, b] + r && Kid(if right then b else a, h)
        && Size(if right then b else a) < LIMIT
    requires if right then a == t1 && l == c.left else b == t1 && |l| + 1 == |c.left|
    ensures PairSite(rank, heap, root, c.addr, l, a, b, r, 1, right, c.up, UpMin(c, Min(t)), h)
  {
    FramePair(heap, c, t1, z, l, a, b, r, right);
    PairOrder(rank, c, t1, l, a, b, r, h);
    HoleUnique(c, t1);
    assert Node(c.addr, l + [a, b] + r) == Around(c, t1);
    assert forall x | x in Addrs(Around(c, t1)) :: x in Addrs(Around(c, t1)) + AddrsC(c.up);
    if h == 0 {
      InsertLeafRow(rank, heap, root, free, c, t, t1, key, z, l, a, b, r);
      InsertRoutes(rank, c, t, t1, h, key);
    }
  }

  /** The parent's subtree after SplitNode and the refresh of separator |c.left|. */
  lemma {:induction false} SplitStored(heap: map<int, BNode>, c: Ctx, t1: Tree, z: RID, free: int, h1: map<int, BNode>,
                                       heap': map<int, BNode>)
    requires c.Hole? && FrameOk(heap, c, t1.addr, z) && Stored(heap, t1) && Size(t1) == SLOTS
        && |c.left| + 1 + |c.right| <= LIMIT
    requires Unique(Addrs(t1) + AddrsC(c)) && Bounded(Addrs(t1) + AddrsC(c), free)
    requires var cs, rs := AddrList(c.left) + [t1.addr] + AddrList(c.right), MinList(c.left) + [z] + MinList(c.right);
             var x, y := Take(t1, DEGREE), Drop(t1, free, DEGREE);
             h1 == heap[t1.addr := Image(x)][free := Image(y)]
                       [c.addr := Page(InsAt(cs, |c.left| + 1, free), InsAt(rs, |c.left| + 1, Min(y)))]
    requires c.addr != NIL && heap' == SetRow(h1, c.addr, |c.left|, Min(Take(t1, DEGREE)))
    ensures Stored(heap', Node(c.addr, c.left + [Take(t1, DEGREE), Drop(t1, free, DEGREE)] + c.right))
    ensures forall w | w in heap && w != c.addr && w != t1.addr && w != free :: w in heap' && heap'[w] == heap[w]
  {
    var x, y := Take(t1, DEGREE), Drop(t1, free, DEGREE);
    SplitPage(c, t1.addr, free, z, Min(x), Min(y));
    HoleUnique(c, t1);
    AddrOf(t1);
    assert c.addr in AddrsC(c);
    assert t1.addr in Addrs(t1) + AddrsC(c) && c.addr in Addrs(t1) + AddrsC(c);
    SplitAgree(heap, heap', c, t1, free);
    StoredFrameF(heap, heap', c.left);
    StoredFrameF(heap, heap', c.right);
    HalvesStored(heap, heap', t1, free, DEGREE);
    assert AddrList([x, y]) == [t1.addr, free] && MinList([x, y]) == [Min(x), Min(y)];
    SpliceStored(heap', c.addr, c.left, [x, y], c.right);
  }

  lemma HalfImages(t: Tree, y: int, h: nat, cs: seq<int>, rs: seq<RID>, px: BNode, py: BNode, n: int)
    requires Shape(t, h) && Size(t) == |rs| == SLOTS && n == DEGREE && |cs| <= SLOTS
    requires if t.Leaf? then cs == [] && rs == t.keys else cs == AddrList(t.kids) && rs == MinList(t.kids)
    requires px == Page(if cs == [] then [] else cs[..n], rs[..n])
        && py == Page(if cs == [] then [] else cs[n..], rs[n..])
    ensures px == Image(Take(t, n)) && py == Image(Drop(t, y, n))
    ensures px.row[0] == Min(Take(t, n)) && py.row[0] == Min(Drop(t, y, n))
  {
    var X, Y := Take(t, n), Drop(t, y, n);
    assert t.Node? ==> AddrList(X.kids) == cs[..n] && MinList(X.kids) == rs[..n];
    assert t.Node? ==> AddrList(Y.kids) == cs[n..] && MinList(Y.kids) == rs[n..];
    Halves(t, y, h);
    ImageHead(X, h);
    ImageHead(Y, h);
  }

  lemma HalvesStored(heap: map<int, BNode>, heap': map<int, BNode>, t: Tree, y: int, n: int)
    requires Stored(heap, t) && Size(t) <= SLOTS && 0 <= n <= Size(t)
    requires t.addr in heap' && heap'[t.addr] == Image(Take(t, n)) && y in heap' && heap'[y] == Image(Drop(t, y, n))
    requires t.Node? ==> Agree(heap, heap', AddrsF(t.kids))
    ensures Stored(heap', Take(t, n)) && Stored(heap', Drop(t, y, n))
  {
    if t.Node? {
      StoredFrameF(heap, heap', t.kids);
    }
  }

  lemma SplitPage(c: Ctx, a: int, y: int, z: RID, mx: RID, my: RID)
    requires c.Hole? && |c.left| + 1 + |c.right| <= LIMIT
    ensures var cs, rs := AddrList(c.left) + [a] + AddrList(c.right), MinList(c.left) + [z] + MinList(c.right);
            var i := |c.left|;
            && InsAt(cs, i + 1, y) == AddrList(c.left) + [a, y] + AddrList(c.right)
            && Pad(InsAt(rs, i + 1, my), NULL_RID)[i := mx] == Pad(MinList(c.left) + [mx, my] + MinList(c.right),
                                                                   NULL_RID)
  {
    var cs, rs, i := AddrList(c.left) + [a] + AddrList(c.right), MinList(c.left) + [z] + MinList(c.right), |c.left|;
    assert InsAt(cs, i + 1, y) == AddrList(c.left) + [a, y] + AddrList(c.right);
    PadSet(InsAt(rs, i + 1, my), NULL_RID, i, mx);
    assert InsAt(rs, i + 1, my)[i := mx] == MinList(c.left) + [mx, my] + MinList(c.right);
  }

  lemma SplitAgree(heap: map<int, BNode>, heap': map<int, BNode>, c: Ctx, t1: Tree, free: int)
    requires c.Hole? && Unique(Addrs(t1) + AddrsC(c)) && Bounded(Addrs(t1) + AddrsC(c), free)
    requires forall w | w in heap && w != c.addr && w != t1.addr && w != free :: w in heap' && heap'[w] == heap[w]
    ensures Agree(heap, heap', AddrsF(c.left)) && Agree(heap, heap', AddrsF(c.right))
    ensures t1.Node? ==> Agree(heap, heap', AddrsF(t1.kids))
  {
    HoleUnique(c, t1);
    var m := Addrs(t1) + AddrsC(c);
    assert Addrs(t1) == multiset{t1.addr} + Below(t1);
    assert AddrsC(c) == multiset{c.addr} + AddrsF(c.left) + AddrsF(c.right) + AddrsC(c.up);
    forall w | w in AddrsF(c.left) || w in AddrsF(c.right) || w in Below(t1)
      ensures w != c.addr && w != t1.addr && w != free
    {
      CountHole(t1.addr, Below(t1), c.addr, AddrsF(c.left), AddrsF(c.right), AddrsC(c.up), w);
      assert w in m;
    }
  }

  lemma CountHole(x: int, bt: multiset<int>, p: int, l: multiset<int>, r: multiset<int>, u: multiset<int>, w: int)
    ensures ((multiset{x} + bt) + (multiset{p} + l + r + u))[w]
         == (if w == x then 1 else 0) + bt[w] + (if w == p then 1 else 0) + l[w] + r[w] + u[w]
  {
  }

  /** An overflow shifted to a neighbour: Move may run, and what it leaves settles the parent. */
  lemma {:induction false} ShiftSettled(rank: RID -> int, heap: map<int, BNode>, root: int, free: int, c: Ctx, t: Tree,
                                        t1: Tree, h: nat, key: RID, z: RID, l: seq<Tree>, a: Tree, b: Tree,
                                        r: seq<Tree>, right: bool)
    requires ShiftCase(rank, heap, root, free, c, t, t1, h, key, z, l, a, b, r, right)
    ensures PairSite(rank, heap, root, c.addr, l, a, b, r, 1, right, c.up, UpMin(c, Min(t)), h) && a.addr != b.addr
    ensures var a', b' := LeftPart(a, b, 1, right), RightPart(a, b, 1, right); var m := Moved(heap, c.addr, |l|, a',
        b');
            && c.addr in m && |c.left| < |m[c.addr].row| && t1.addr in m && |m[t1.addr].row| == SLOTS && c.addr != NIL
            && Inserted(rank, SetRow(m, c.addr, |c.left|, m[t1.addr].row[0]), free, c, t,
                        Node(c.addr, l + [a', b'] + r), h, key)
  {
    InsertSite(rank, heap, root, free, c, t, t1, h, key, z, l, a, b, r, right);
    PairPages(rank, heap, root, c.addr, l, a, b, r, 1, right, c.up, UpMin(c, Min(t)), h);
    FramePair(heap, c, t1, z, l, a, b, r, right);
    ShiftAt(heap, c.addr, l, a, b, r, if right then z else Min(a), if right then Min(b) else z, right, h);
    var a', b' := LeftPart(a, b, 1, right), RightPart(a, b, 1, right);
    ShiftOut(rank, heap, root, free, c, t, t1, h, key, z, l, a, b, r, right,
             SetRow(Moved(heap, c.addr, |l|, a', b'), c.addr, |l|, Min(a')));
  }

  lemma {:induction false} ShiftAt(heap: map<int, BNode>, p: int, l: seq<Tree>, a: Tree, b: Tree, r: seq<Tree>,
                                   za: RID, zb: RID, right: bool, h: nat)
    requires PairPage(heap, p, l, a, b, r, za, zb) && p != NIL && p != a.addr && p != b.addr && a.addr != b.addr
    requires StoredF(heap, l) && StoredF(heap, r) && Stored(heap, a) && Stored(heap, b)
        && Unique(Addrs(Node(p, l + [a, b] + r)))
    requires Shape(a, h) && Shape(b, h) && 1 <= Size(a) && 1 <= Size(b) && (if right then Size(b) else Size(a)) < SLOTS
    requires !right ==> za == Min(a)
    ensures |l| + 1 < |heap[p].row|
    ensures Size(LeftPart(a, b, 1, right)) <= SLOTS && Size(RightPart(a, b, 1, right)) <= SLOTS
    ensures var a', b' := LeftPart(a, b, 1, right), RightPart(a, b, 1, right);
            var m := Moved(heap, p, |l|, a', b'); var x := if right then a.addr else b.addr;
            && p in m && |l| + 1 < |m[p].row| && x in m && |m[x].row| == SLOTS
            && var h' := SetRow(m, p, |l|, Min(a'));
            && SetRow(m, p, if right then |l| else |l| + 1, m[x].row[0]) == h'
            && Stored(h', Node(p, l + [a', b'] + r))
            && forall w | w in heap && w != p && w != a.addr && w != b.addr :: w in h' && h'[w] == heap[w]
  {
    var a', b' := LeftPart(a, b, 1, right), RightPart(a, b, 1, right);
    PartsFacts(a, b, 1, right);
    PartsShape(a, b, 1, right, h);
    if !right {
      LeftMin(a, b, 1, right, h);
    }
    MovedPage(heap, p, l, a, b, r, za, zb, a', b');
    ShiftStored(heap, p, l, a, b, r, 1, right, za, zb, SetRow(Moved(heap, p, |l|, a', b'), p, |l|, Min(a')));
    ShiftRefresh(heap, p, l, a, b, r, za, zb, a', b', right, h);
  }

  /** An overflow split in two: what SplitNode leaves settles the parent. */
  lemma SplitSettled(rank: RID -> int, heap: map<int, BNode>, root: int, free: int, c: Ctx, t: Tree, t1: Tree, h: nat,
                     key: RID, z: RID, h1: map<int, BNode>)
    requires GrownHole(rank, heap, root, free, c, t, t1, h, key, z) && Size(t1) == SLOTS
    requires var cs, rs := AddrList(c.left) + [t1.addr] + AddrList(c.right), MinList(c.left) + [z] + MinList(c.right);
             var x, y := Take(t1, DEGREE), Drop(t1, free, DEGREE);
             h1 == heap[t1.addr := Image(x)][free := Image(y)]
                       [c.addr := Page(InsAt(cs, |c.left| + 1, free), InsAt(rs, |c.left| + 1, Min(y)))]
    ensures c.addr in h1 && |c.left| < |h1[c.addr].row| && t1.addr in h1 && |h1[t1.addr].row| == SLOTS && c.addr != NIL
    ensures Inserted(rank, SetRow(h1, c.addr, |c.left|, h1[t1.addr].row[0]), free + 128, c, t,
                     Node(c.addr, c.left + [Take(t1, DEGREE), Drop(t1, free, DEGREE)] + c.right), h, key)
  {
    SplitCell(heap, c, t1, free, h1, h);
    var h' := SetRow(h1, c.addr, |c.left|, h1[t1.addr].row[0]);
    SplitStored(heap, c, t1, z, free, h1, h');
    SplitOut(rank, heap, root, free, c, t, t1, h, key, z, h');
  }

  lemma SplitCell(heap: map<int, BNode>, c: Ctx, t1: Tree, free: int, h1: map<int, BNode>, h: nat)
    requires c.Hole? && Shape(t1, h) && Size(t1) == SLOTS && Unique(Addrs(t1) + AddrsC(c))
        && Bounded(Addrs(t1) + AddrsC(c), free)
    requires t1.addr in h1 && c.addr in h1
    requires h1[t1.addr]
        == heap[t1.addr := Image(Take(t1, DEGREE))][free := Image(Drop(t1, free,
                                                                       DEGREE))][c.addr := h1[c.addr]][t1.addr]
    ensures c.addr != NIL && |h1[t1.addr].row| == SLOTS && h1[t1.addr].row[0] == Min(Take(t1, DEGREE))
  {
    AddrOf(t1);
    assert c.addr in AddrsC(c);
    SumMembers(t1.addr, c.addr, Addrs(t1), AddrsC(c));
    TakeMin(t1, DEGREE, h);
    ImageFirst(Take(t1, DEGREE), h);
  }

  /** The root splits: two halves under a new root. */
  lemma {:induction false} RootSplit(rank: RID -> int, heap: map<int, BNode>, root: int, free: int, t: Tree, t1: Tree,
                                     h: nat, key: RID, z: RID, heap': map<int, BNode>)
    requires Grown(rank, heap, root, free, Top, t, t1, h, key, z) && Size(t1) == SLOTS
    requires var x, y := Take(t1, DEGREE), Drop(t1, free, DEGREE);
             heap' == heap[t1.addr := Image(x)][free := Image(y)][free + 128 := Page([t1.addr, free], [Min(x), Min(y)])]
    ensures InsertedTop(rank, heap', free + 256, t, Node(free + 128, [Take(t1, DEGREE), Drop(t1, free, DEGREE)]), h,
                        h + 1, key)
  {
    var x, y := Take(t1, DEGREE), Drop(t1, free, DEGREE);
    CutFacts(t1, free, DEGREE);
    FlatTwo(x, y);
    AddrOf(t1);
    assert Addrs(t1) + AddrsC(Top) == Addrs(t1);
    RootSums(t1.addr, free, Below(x), Below(y), Below(t1));
    RootStored(heap, t1, free, heap', h);
    Halves(t1, free, h);
    assert [x, y][0] == x && [x, y][1] == y;
  }

  lemma RootSums(x: int, free: int, bx: multiset<int>, by': multiset<int>, bt: multiset<int>)
    requires bx + by' == bt && Unique(multiset{x} + bt) && Bounded(multiset{x} + bt, free)
    ensures var m := multiset{free + 128} + ((multiset{x} + bx) + (multiset{free} + by'));
            Unique(m) && Bounded(m, free + 256)
  {
    var m := multiset{free + 128} + ((multiset{x} + bx) + (multiset{free} + by'));
    assert m == (multiset{x} + bt) + multiset{free, free + 128};
    assert free !in multiset{x} + bt && free + 128 !in multiset{x} + bt;
    assert forall w :: m[w] == (multiset{x} + bt)[w] + multiset{free, free + 128}[w];
    assert x in multiset{x} + bt;
  }

  lemma {:induction false} RootStored(heap: map<int, BNode>, t1: Tree, free: int, heap': map<int, BNode>, h: nat)
    requires Stored(heap, t1) && Shape(t1, h) && Size(t1) == SLOTS && Unique(Addrs(t1)) && Bounded(Addrs(t1), free)
    requires var x, y := Take(t1, DEGREE), Drop(t1, free, DEGREE);
             heap' == heap[t1.addr := Image(x)][free := Image(y)][free + 128 := Page([t1.addr, free], [Min(x), Min(y)])]
    ensures Stored(heap', Node(free + 128, [Take(t1, DEGREE), Drop(t1, free, DEGREE)]))
  {
    var x, y := Take(t1, DEGREE), Drop(t1, free, DEGREE);
    AddrOf(t1);
    if t1.Node? {
      UniqueParts(multiset{t1.addr}, AddrsF(t1.kids));
      assert forall w | w in AddrsF(t1.kids) :: w in Addrs(t1);
    }
    HalvesStored(heap, heap', t1, free, DEGREE);
    assert AddrList([x, y]) == [t1.addr, free] && MinList([x, y]) == [Min(x), Min(y)];
  }

  /** A leaf that has just taken the key. */
  lemma {:induction false} LeafGrown(rank: RID -> int, heap: map<int, BNode>, root: int, free: int, c: Ctx, t: Tree,
                                     key: RID, j: int)
      returns (heap': map<int, BNode>)
    requires Placed(rank, heap, root, free, c, t, 0) && 0 <= j <= |t.keys|
    requires forall x | x in t.keys[..j] :: rank(x) <= rank(key)
    requires j < |t.keys| ==> rank(key) < rank(t.keys[j])
    requires c.Hole? ==> c.addr in heap && |c.left| < |heap[c.addr].row|
    ensures |t.keys| < SLOTS
    ensures var keys := InsAt(t.keys, j, key);
            && heap' == SetRow(heap[t.addr := Page([], keys)], if c.Top? then NIL else c.addr, if c.Top? then 0
                               else |c.left|, keys[0])
            && Grown(rank, heap', root, free, c, t, Leaf(t.addr, keys), 0, key, keys[0])
  {
    var keys := InsAt(t.keys, j, key);
    InsHere(rank, t.keys, j, key);
    PlacedSorted(rank, heap, root, free, c, t, 0);
    heap' := SetRow(heap[t.addr := Page([], keys)], if c.Top? then NIL else c.addr, if c.Top? then 0 else |c.left|,
                    keys[0]);
    if c.Hole? {
      LeafAbove(heap, free, c, t, keys);
    }
  }

  lemma {:induction false} LeafAbove(heap: map<int, BNode>, free: int, c: Ctx, t: Tree, keys: seq<RID>)
    requires c.Hole? && t.Leaf? && FrameOk(heap, c, t.addr, Min(t)) && StoredC(heap, c.up, c.addr, UpMin(c, Min(t)))
    requires Unique(Addrs(t) + AddrsC(c)) && Bounded(Addrs(t) + AddrsC(c), free) && c.addr != NIL && t.addr in heap
        && c.addr != t.addr
    requires 1 <= |keys| <= SLOTS && |c.left| < |heap[c.addr].row|
    ensures var heap' := SetRow(heap[t.addr := Page([], keys)], c.addr, |c.left|, keys[0]);
            FrameOk(heap', c, t.addr, keys[0]) && StoredC(heap', c.up, c.addr, UpMin(c, Min(t)))
  {
    var heap' := SetRow(heap[t.addr := Page([], keys)], c.addr, |c.left|, keys[0]);
    HoleUnique(c, t);
    AddrOf(t);
    var h1 := FrameSet(heap, c, t.addr, Min(t), keys[0]);
    FrameKeeps(h1, heap', c, t.addr, keys[0]);
    AboveKept(heap, heap', c, t, UpMin(c, Min(t)), free, t.addr, t.addr);
  }

  // ----- reading pages around a hole -----

  lemma HolePages(heap: map<int, BNode>, c: Ctx, t: Tree, z: RID, free: int)
    requires c.Hole? && FrameOk(heap, c, t.addr, z) && Stored(heap, t)
    requires Unique(Addrs(t) + AddrsC(c)) && Bounded(Addrs(t) + AddrsC(c), free)
    ensures c.addr in heap && t.addr in heap && c.addr != NIL && 0 <= c.addr < free && c.addr != t.addr
    ensures Bounded(Addrs(t), free)
    ensures var b := heap[c.addr];
            && |b.child| == |b.row| == SLOTS && b.n == |c.left| + 1 + |c.right| && b.child[|c.left|] == t.addr
            && (forall q | 0 <= q < |c.left| :: b.child[q] == c.left[q].addr && Stored(heap, c.left[q]))
            && (forall q | |c.left| < q < b.n ::
                  b.child[q] == c.right[q - |c.left| - 1].addr && Stored(heap, c.right[q - |c.left| - 1]))
            && forall q | 0 <= q < b.n :: b.child[q] in heap
    ensures heap[t.addr].n == Size(t)
  {
    AddrOf(t);
    assert c.addr in AddrsC(c);
    SumMembers(t.addr, c.addr, Addrs(t), AddrsC(c));
    PartBounded(Addrs(t), AddrsC(c), free);
    HoleLists(heap, c, t, z);
  }

  lemma PartBounded(a: multiset<int>, b: multiset<int>, free: int)
    requires Bounded(a + b, free)
    ensures Bounded(a, free) && Bounded(b, free)
  {
    assert forall x | x in a :: x in a + b;
    assert forall x | x in b :: x in a + b;
  }

  lemma HoleLists(heap: map<int, BNode>, c: Ctx, t: Tree, z: RID)
    requires c.Hole? && FrameOk(heap, c, t.addr, z) && t.addr in heap
    ensures c.addr in heap
    ensures var b := heap[c.addr];
            && |b.child| == |b.row| == SLOTS && b.n == |c.left| + 1 + |c.right| <= SLOTS && b.child[|c.left|] == t.addr
            && (forall q | 0 <= q < |c.left| :: b.child[q] == c.left[q].addr && Stored(heap, c.left[q]))
            && (forall q | |c.left| < q < b.n ::
                  b.child[q] == c.right[q - |c.left| - 1].addr && Stored(heap, c.right[q - |c.left| - 1]))
            && forall q | 0 <= q < b.n :: b.child[q] in heap
  {
    var kids := AddrList(c.left) + [t.addr] + AddrList(c.right);
    assert forall q | 0 <= q < |kids| :: heap[c.addr].child[q] == kids[q];
  }

  /** Children of a parent sit at proper addresses. */
  lemma {:induction false} HoleNil(heap: map<int, BNode>, c: Ctx, t: Tree, free: int, z: RID)
    requires c.Hole? && FrameOk(heap, c, t.addr, z) && Unique(Addrs(t) + AddrsC(c))
        && Bounded(Addrs(t) + AddrsC(c), free)
    ensures c.addr in heap && heap[c.addr].n <= |heap[c.addr].child|
    ensures forall q | 0 <= q < heap[c.addr].n :: heap[c.addr].child[q] != NIL
  {
    var kids := AddrList(c.left) + [t.addr] + AddrList(c.right);
    forall q | 0 <= q < |kids| ensures heap[c.addr].child[q] == kids[q] && kids[q] != NIL {
      assert heap[c.addr].child[q] == kids[q];
      ChildIn(c, t, q, kids[q]);
      assert kids[q] in Addrs(t) + AddrsC(c);
    }
  }

  lemma ChildIn(c: Ctx, t: Tree, q: int, x: int)
    requires c.Hole? && 0 <= q < |c.left| + 1 + |c.right|
    requires x == (AddrList(c.left) + [t.addr] + AddrList(c.right))[q]
    ensures x in Addrs(t) + AddrsC(c)
  {
    if q < |c.left| {
      MemberAddr(c.left, q, x);
    } else if q == |c.left| {
      AddrOf(t);
    } else {
      MemberAddr(c.right, q - |c.left| - 1, x);
    }
    InSum(x, Addrs(t), multiset{c.addr}, AddrsF(c.left), AddrsF(c.right), AddrsC(c.up));
  }

  lemma MemberAddr(ts: seq<Tree>, q: int, x: int)
    requires 0 <= q < |ts| && x == AddrList(ts)[q]
    ensures x in AddrsF(ts)
  {
    AddrOf(ts[q]);
    CountOne(ts, q, x);
  }

  lemma InSum(x: int, t: multiset<int>, p: multiset<int>, l: multiset<int>, r: multiset<int>, u: multiset<int>)
    requires x in t || x in l || x in r
    ensures x in t + (p + l + r + u)
  {
  }

  lemma SiblingSide(heap: map<int, BNode>, c: Ctx, t: Tree, z: RID, right: bool)
    requires c.Hole? && FrameOk(heap, c, t.addr, z)
    ensures right && c.right != [] ==>
              && c.addr in heap && |c.left| + 1 < |heap[c.addr].child|
                && heap[c.addr].child[|c.left| + 1] == c.right[0].addr
              && c.right[0].addr in heap && heap[c.right[0].addr].n == Size(c.right[0])
              && c.left + [t] + c.right == c.left + [t, c.right[0]] + c.right[1..]
    ensures !right && c.left != [] ==>
              var i := |c.left| - 1;
              && c.addr in heap && |c.left| <= |heap[c.addr].child| && heap[c.addr].child[i] == c.left[i].addr
              && c.left[i].addr in heap && heap[c.left[i].addr].n == Size(c.left[i])
              && c.left + [t] + c.right == c.left[..i] + [c.left[i], t] + c.right
  {
    if right && c.right != [] {
      NextKid(heap, c, t, z);
    }
    if !right && c.left != [] {
      PrevKid(heap, c, t, z);
    }
  }

  /** The right neighbour, as the parent's page shows it. */
  lemma NextKid(heap: map<int, BNode>, c: Ctx, t: Tree, z: RID)
    requires c.Hole? && FrameOk(heap, c, t.addr, z) && c.right != []
    ensures c.addr in heap && |c.left| + 1 < |heap[c.addr].child|
    ensures heap[c.addr].child[|c.left| + 1] == c.right[0].addr
    ensures c.right[0].addr in heap && heap[c.right[0].addr].n == Size(c.right[0])
    ensures c.left + [t] + c.right == c.left + [t, c.right[0]] + c.right[1..]
  {
    var kids := AddrList(c.left) + [t.addr] + AddrList(c.right);
    assert heap[c.addr].child[|c.left| + 1] == kids[|c.left| + 1];
    assert Stored(heap, c.right[0]);
  }

  lemma PrevKid(heap: map<int, BNode>, c: Ctx, t: Tree, z: RID)
    requires c.Hole? && FrameOk(heap, c, t.addr, z) && c.left != []
    ensures c.addr in heap && |c.left| <= |heap[c.addr].child|
    ensures var i := |c.left| - 1;
            && heap[c.addr].child[i] == c.left[i].addr
            && c.left[i].addr in heap && heap[c.left[i].addr].n == Size(c.left[i])
            && c.left + [t] + c.right == c.left[..i] + [c.left[i], t] + c.right
  {
    var kids, i := AddrList(c.left) + [t.addr] + AddrList(c.right), |c.left| - 1;
    assert heap[c.addr].child[i] == kids[i];
    assert Stored(heap, c.left[i]);
  }

  /** Where RecursiveInsert's scan stops in a leaf. */
  lemma LeafScan(rank: RID -> int, t: Tree, b: BNode, j: int, key: RID)
    requires t.Leaf? && Size(t) <= LIMIT && b == Image(t) && 0 <= j <= b.n
    requires forall l | 0 <= l < j :: rank(b.row[l]) <= rank(key)
    requires j < b.n ==> rank(key) < rank(b.row[j])
    ensures forall x | x in t.keys[..j] :: rank(x) <= rank(key)
    ensures j < |t.keys| ==> b.row[j] == t.keys[j]
    ensures j == |t.keys| ==> b.row[j] == NULL_RID
  {
    assert forall l | 0 <= l < |t.keys| :: b.row[l] == t.keys[l];
  }

  /** The child's address is where it was. */
  lemma GrownChild(heap: map<int, BNode>, t1: Tree, j: int, s: int)
    requires t1.Node? && Stored(heap, t1) && 0 <= j < |t1.kids| && t1.kids[j].addr == s
    ensures t1.addr in heap && j < |heap[t1.addr].child| && heap[t1.addr].child[j] == s
  {
    assert AddrList(t1.kids)[j] == s;
  }

  /** The child a scan for rank k picks: placed, and the one the search belongs in. */
  lemma {:induction false} DescendFor(rank: RID -> int, heap: map<int, BNode>, root: int, free: int, c: Ctx, t: Tree,
                                      h: nat, j: int, k: int, d: Ctx, g: int)
    requires Placed(rank, heap, root, free, c, t, h) && t.Node? && Routed(rank, c, t, k) && Picks(rank, t.kids, j, k)
    requires d == Down(c, t, j) && g == h - 1
    ensures 0 <= g < h && Placed(rank, heap, root, free, d, t.kids[j], g) && Routed(rank, d, t.kids[j], k)
    ensures t.addr in heap && j < |heap[t.addr].child| && heap[t.addr].child[j] == t.kids[j].addr && t.addr != NIL
  {
    PlacedSorted(rank, heap, root, free, c, t, h);
    RouteDown(rank, c, t, j, k, h);
    DownPlaced(rank, heap, root, free, c, t, h, j, d, g);
  }

  lemma InsertedBelow(rank: RID -> int, heap: map<int, BNode>, root: int, free: int, c: Ctx, t: Tree, h: nat, j: int,
                      out: Tree, key: RID, s: int, d: Ctx, g: nat)
    requires t.Node? && 0 <= j < |t.kids| && Shape(t, h) && h == g + 1 && s == t.kids[j].addr && d == Down(c, t, j)
    requires Inserted(rank, heap, free, d, t.kids[j], out, g, key)
    ensures Grown(rank, heap, root, free, c, t, out, h, key, Min(t))
    ensures t.addr in heap && j < |heap[t.addr].child| && heap[t.addr].child[j] == s
  {
    GrownFromBelow(rank, heap, root, free, c, t, h, j, out, key);
    GrownChild(heap, out, j, s);
  }

  /** What RecursiveInsert and RecursiveRemove still know of the node they started from when they finish. */
  ghost predicate SiteOk(rank: RID -> int, root: int, c: Ctx, t: Tree, h: nat) {
    && ShapeC(c, h) && Shape(t, h) && Size(t) <= LIMIT && (c.Hole? ==> DEGREE <= Size(t))
      && (c.Top? && t.Node? ==> 2 <= Size(t))
    && root == TopAddr(c, t.addr) && (c.Hole? ==> c.addr != NIL) && InOrder(rank, c, t)
  }

  lemma PlacedSite(rank: RID -> int, heap: map<int, BNode>, root: int, free: int, c: Ctx, t: Tree, h: nat)
    requires Placed(rank, heap, root, free, c, t, h)
    ensures SiteOk(rank, root, c, t, h)
  {
    PlacedPage(rank, heap, root, free, c, t, h);
  }

  /** The insertion scan of leaf a has stopped at j. */
  ghost predicate LeafStop(heap: map<int, BNode>, a: int, rank: RID -> int, key: RID, j: int) {
    && a in heap && 0 <= j <= heap[a].n <= LIMIT && |heap[a].row| == SLOTS
    && (forall l | 0 <= l < j :: rank(heap[a].row[l]) <= rank(key))
    && (j < heap[a].n ==> rank(key) < rank(heap[a].row[j]))
  }

  lemma PlacedPage(rank: RID -> int, heap: map<int, BNode>, root: int, free: int, c: Ctx, t: Tree, h: nat)
    requires Placed(rank, heap, root, free, c, t, h)
    ensures t.addr in heap && heap[t.addr] == Image(t) && heap[t.addr].n == Size(t) <= LIMIT
    ensures |heap[t.addr].row| == |heap[t.addr].child| == SLOTS
    ensures h == 0 <==> heap[t.addr].child[0] == NIL
    ensures h == 0 <==> t.Leaf?
    ensures c.Hole? ==> c.addr != NIL
    ensures Sorted(rank, Keys(t))
  {
    PlacedSorted(rank, heap, root, free, c, t, h);
  }

  /** Where RecursiveInsert's scan stops in an internal node: the child it picks is the one before, or the first. */
  lemma {:induction false} InsertScan(rank: RID -> int, t: Tree, b: BNode, j: int, k: int, h: nat)
    requires t.Node? && Shape(t, h) && Size(t) <= LIMIT && b == Image(t) && 0 <= j <= b.n && Sorted(rank, Keys(t))
    requires forall l | 0 <= l < j :: rank(b.row[l]) <= k
    requires j < b.n ==> k < rank(b.row[j])
    ensures Picks(rank, t.kids, if j == 0 then 0 else j - 1, k)
  {
    assert forall l | 0 <= l < |t.kids| :: b.row[l] == MinList(t.kids)[l] == Min(t.kids[l]);
    assert j > 0 ==> rank(b.row[j - 1]) <= k;
    if j == 0 && 1 < |t.kids| {
      HasKeys(t.kids[0], h - 1);
      HasKeys(t.kids[1], h - 1);
      MinsApart(rank, t.kids, 0, 1);
    }
  }

  /** Where the insertion scan of page a settles: the cell of a leaf, or the child of an internal node. */
  ghost predicate Settles(heap: map<int, BNode>, rank: RID -> int, t: Tree, key: RID, j: int) {
    if t.Leaf? then LeafStop(heap, t.addr, rank, key, j) else Picks(rank, t.kids, j, rank(key))
  }

  /** A key that may go below t. */
  ghost predicate NewKey(rank: RID -> int, t: Tree, key: RID) {
    key.addr != -1 && forall x | x in Keys(t) :: rank(x) != rank(key)
  }

  /** At a leaf the key is dropped exactly if it compares equal to the row the scan stopped at. */
  lemma DroppedHere(rank: RID -> int, t: Tree, b: BNode, j: int, key: RID)
    requires t.Leaf? && Size(t) <= LIMIT && b == Image(t) && 0 <= j <= b.n && NewKey(rank, t, key)
    requires forall l | 0 <= l < j :: rank(b.row[l]) <= rank(key)
    requires j < b.n ==> rank(key) < rank(b.row[j])
    ensures rank(b.row[j]) == rank(key) <==> Dropped(rank, t, key)
  {
    LeafScan(rank, t, b, j, key);
    assert t.keys == t.keys[..j] + t.keys[j..];
    assert j < |t.keys| ==> t.keys[j] in t.keys;
  }

  /** What is left of t's parent, or of the whole tree, when nothing has changed. */
  ghost function Same(c: Ctx, t: Tree): Tree {
    if c.Top? then t else Around(c, t)
  }

  /** Node t after the step below it: unchanged if the key was dropped, grown otherwise. */
  ghost predicate GrownOrSame(rank: RID -> int, h0: map<int, BNode>, free0: int, heap: map<int, BNode>, root: int,
                              free: int, c: Ctx, t: Tree, t1: Tree, h: nat, key: RID, z: RID)
  {
    if Dropped(rank, t, key) then
      heap == h0 && free == free0 && t1 == t && z == Min(t) && Placed(rank, heap, root, free, c, t, h)
    else
      Grown(rank, heap, root, free, c, t, t1, h, key, z)
  }

  /** What RecursiveInsert leaves behind: nothing has changed if the key was dropped, and otherwise it is in. */
  ghost predicate InsertDone(rank: RID -> int, h0: map<int, BNode>, free0: int, heap: map<int, BNode>, free: int,
                             c: Ctx, t: Tree, out: Tree, h: nat, h': nat, key: RID, r: int)
  {
    if Dropped(rank, t, key) then
      heap == h0 && free == free0 && out == Same(c, t) && h' == h && r == t.addr
    else if c.Top? then
      InsertedTop(rank, heap, free, t, out, h, h', key) && r == out.addr
    else
      Inserted(rank, heap, free, c, t, out, h, key) && r == t.addr
  }

  /** The child that takes the key: placed, routed to, and without the key. */
  lemma {:induction false} DescendNew(rank: RID -> int, heap: map<int, BNode>, root: int, free: int, c: Ctx, t: Tree,
                                      h: nat, j: int, key: RID, d: Ctx, g: int)
    requires Placed(rank, heap, root, free, c, t, h) && t.Node? && Routed(rank, c, t, rank(key))
        && Picks(rank, t.kids, j, rank(key))
    requires d == Down(c, t, j) && g == h - 1 && NewKey(rank, t, key)
    ensures 0 <= g < h && Placed(rank, heap, root, free, d, t.kids[j], g) && Routed(rank, d, t.kids[j], rank(key))
    ensures NewKey(rank, t.kids[j], key)
    ensures t.addr in heap && j < |heap[t.addr].child| && heap[t.addr].child[j] == t.kids[j].addr && t.addr != NIL
  {
    DescendFor(rank, heap, root, free, c, t, h, j, rank(key), d, g);
    PlacedSorted(rank, heap, root, free, c, t, h);
    KidSorted(rank, t.kids, j);
  }

  /** The step below, seen from the parent. */
  lemma {:induction false} DoneBelow(rank: RID -> int, h0: map<int, BNode>, free0: int, heap: map<int, BNode>,
                                     root: int, free: int, c: Ctx, t: Tree, h: nat, j: int, out: Tree, key: RID,
                                     s: int, d: Ctx, g: nat, g': nat)
    requires Placed(rank, h0, root, free0, c, t, h) && t.Node? && Picks(rank, t.kids, j, rank(key)) && h == g + 1
        && d == Down(c, t, j)
    requires InsertDone(rank, h0, free0, heap, free, d, t.kids[j], out, g, g', key, s)
    ensures GrownOrSame(rank, h0, free0, heap, root, free, c, t, out, h, key, Min(t))
    ensures t.addr in heap && 0 <= j < |heap[t.addr].child| && heap[t.addr].child[j] == s
  {
    PlacedPage(rank, h0, root, free0, c, t, h);
    DroppedBelow(rank, t, j, key, h);
    if Dropped(rank, t, key) {
      AroundDown(c, t, j);
      assert AddrList(t.kids)[j] == s;
    } else {
      InsertedBelow(rank, heap, root, free, c, t, h, j, out, key, s, d, g);
    }
  }

  /** The separator of an unchanged node is already its least key. */
  lemma SeparatorSame(rank: RID -> int, heap: map<int, BNode>, root: int, free: int, c: Ctx, t: Tree, h: nat)
    requires Placed(rank, heap, root, free, c, t, h) && c.Hole?
    ensures t.addr in heap && |heap[t.addr].row| == SLOTS && c.addr in heap && |c.left| < |heap[c.addr].row|
    ensures SetRow(heap, c.addr, |c.left|, heap[t.addr].row[0]) == heap
  {
    ImageHead(t, h);
    var rows := MinList(c.left) + [Min(t)] + MinList(c.right);
    assert heap[c.addr].row[|c.left|] == rows[|c.left|];
    assert heap[c.addr].row[|c.left| := Min(t)] == heap[c.addr].row;
  }

  /**
   The parent's children once the overfull t has been repaired: t has given its last entry to the next child, or its
   first to the previous one, or its upper half to a fresh page, the first of these that finds room.
   */
  ghost predicate SpreadOut(c: Ctx, t: Tree, free: int, kids: seq<Tree>, free': int)
    requires c.Hole? && Size(t) == SLOTS
  {
    if c.right != [] && Size(c.right[0]) < 2 * DEGREE - 1 then
      var b := c.right[0];
      free' == free && (t.Leaf? <==> b.Leaf?)
        && kids == c.left + [Take(t, 2 * DEGREE - 1), Join(b.addr, Drop(t, b.addr, 2 * DEGREE - 1), b)] + c.right[1..]
    else if c.left != [] && Size(c.left[|c.left| - 1]) < 2 * DEGREE - 1 then
      var i := |c.left| - 1;
      var a := c.left[i];
      free' == free && (t.Leaf? <==> a.Leaf?)
        && kids == c.left[..i] + [Join(a.addr, a, Take(t, 1)), Drop(t, t.addr, 1)] + c.right
    else
      free' == free + 128 && kids == c.left + [Take(t, DEGREE), Drop(t, free, DEGREE)] + c.right
  }

  /** An overflowed node t1 and a neighbour with room, the next child if right holds. */
  ghost predicate ShiftCase(rank: RID -> int, heap: map<int, BNode>, root: int, free: int, c: Ctx, t: Tree, t1: Tree,
                            h: nat, key: RID, z: RID, l: seq<Tree>, a: Tree, b: Tree, r: seq<Tree>, right: bool) {
    && GrownHole(rank, heap, root, free, c, t, t1, h, key, z) && Size(t1) == SLOTS
    && c.left + [t1] + c.right == l + [a, b] + r
    && Kid(if right then b else a, h) && Size(if right then b else a) < LIMIT
    && (if right then a == t1 && l == c.left else b == t1 && |l| + 1 == |c.left|)
  }

  /** The rule of FindSibling for child i of page p: the next child if it has room, else the previous. */
  ghost predicate Sibling(heap: map<int, BNode>, p: BNode, i: int, r: int) {
    && |p.child| == SLOTS && 2 <= p.n <= LIMIT && 0 <= i < p.n && (forall q | 0 <= q < p.n :: p.child[q] in heap)
    && r == if i + 1 < p.n && heap[p.child[i + 1]].n < LIMIT then p.child[i + 1]
            else if i > 0 && heap[p.child[i - 1]].n < LIMIT then p.child[i - 1]
            else NIL
  }

  /** The same rule on the trees. */
  lemma SiblingSides(heap: map<int, BNode>, c: Ctx, t: Tree, z: RID, free: int, s: int, i: int)
    requires c.Hole? && FrameOk(heap, c, t.addr, z) && Stored(heap, t) && i == |c.left|
    requires Unique(Addrs(t) + AddrsC(c)) && Bounded(Addrs(t) + AddrsC(c), free)
    requires Sibling(heap, heap[c.addr], i, s) && forall q | 0 <= q < heap[c.addr].n :: heap[c.addr].child[q] != NIL
    ensures if c.right != [] && Size(c.right[0]) < LIMIT then s == c.right[0].addr && s != NIL
            else if c.left != [] && Size(c.left[i - 1]) < LIMIT then s == c.left[i - 1].addr && s != NIL
            else s == NIL
  {
    HolePages(heap, c, t, z, free);
    SiblingSide(heap, c, t, z, true);
    SiblingSide(heap, c, t, z, false);
  }

  /** The neighbour FindSibling has found, and what the shift makes of the parent's children. */
  lemma ShiftParts(rank: RID -> int, heap: map<int, BNode>, root: int, free: int, c: Ctx, t: Tree, t1: Tree, h: nat,
                   key: RID, z: RID, s: int, i: int)
      returns (l: seq<Tree>, a: Tree, b: Tree, r: seq<Tree>, right: bool)
    requires GrownHole(rank, heap, root, free, c, t, t1, h, key, z) && Size(t1) == SLOTS && i == |c.left| && s != NIL
    requires c.addr in heap && Sibling(heap, heap[c.addr], i, s)
    requires forall q | 0 <= q < heap[c.addr].n :: heap[c.addr].child[q] != NIL
    ensures ShiftCase(rank, heap, root, free, c, t, t1, h, key, z, l, a, b, r, right)
    ensures s == (if right then b else a).addr
    ensures SpreadOut(c, t1, free, l + [LeftPart(a, b, 1, right), RightPart(a, b, 1, right)] + r, free)
  {
    SiblingSides(heap, c, t1, z, free, s, i);
    right := c.right != [] && Size(c.right[0]) < LIMIT;
    if right {
      l, a, b, r := c.left, t1, c.right[0], c.right[1..];
      assert Kid(b, h);
      SiblingParts(c, t1, false);
      ShiftNext(c, t1, free, r);
    } else {
      l, a, b, r := c.left[..i - 1], c.left[i - 1], t1, c.right;
      assert Kid(a, h);
      SiblingParts(c, t1, true);
      ShiftPrevious(c, t1, free, l);
    }
  }

  lemma ShiftNext(c: Ctx, t: Tree, free: int, r: seq<Tree>)
    requires c.Hole? && Size(t) == SLOTS && c.right != [] && Size(c.right[0]) < LIMIT && (t.Leaf? <==> c.right[0].Leaf?)
    requires r == c.right[1..]
    ensures SpreadOut(c, t, free, c.left + [LeftPart(t, c.right[0], 1, true), RightPart(t, c.right[0], 1, true)] + r,
                      free)
  {
  }

  lemma ShiftPrevious(c: Ctx, t: Tree, free: int, l: seq<Tree>)
    requires c.Hole? && Size(t) == SLOTS && c.left != [] && l == c.left[..|c.left| - 1]
    requires Size(c.left[|c.left| - 1]) < LIMIT && (t.Leaf? <==> c.left[|c.left| - 1].Leaf?)
    requires c.right != [] ==> Size(c.right[0]) >= LIMIT
    ensures var a := c.left[|c.left| - 1];
            SpreadOut(c, t, free, l + [LeftPart(a, t, 1, false), RightPart(a, t, 1, false)] + c.right, free)
  {
  }

  lemma SiblingParts(c: Ctx, t: Tree, left: bool)
    requires c.Hole? && if left then c.left != [] else c.right != []
    ensures left ==> c.left + [t] + c.right == c.left[..|c.left| - 1] + [c.left[|c.left| - 1], t] + c.right
    ensures !left ==> c.left + [t] + c.right == c.left + [t, c.right[0]] + c.right[1..]
  {
  }
}
