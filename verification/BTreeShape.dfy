/**
 The values behind the B+ tree of b_tree.c: page images of nodes, the abstract trees they
 store, and the context of a node (its ancestors with their other children).
 */
module BTreeShape {
  import opened Rids

  /** Any DEGREE >= 2 (b_tree.h); the verifier knows nothing else about it. */
  type Degree = d: int | 2 <= d witness 3
  const DEGREE: Degree
  const LIMIT := 2 * DEGREE - 1
  const SLOTS := 2 * DEGREE
  const NIL := -1

  // ----- page images -----

  /** One node page: the entry count and the two arrays of SLOTS cells. */
  datatype BNode = BNode(n: int, child: seq<int>, row: seq<RID>)

  function Pad<T>(s: seq<T>, fill: T): (r: seq<T>)
    requires |s| <= SLOTS
    ensures |r| == SLOTS && s <= r
  {
    s + seq(SLOTS - |s|, _ => fill)
  }

  /** The page of a node with children cs (none for a leaf) and rows rs; unused cells hold -1 and the null RID. */
  function Page(cs: seq<int>, rs: seq<RID>): BNode
    requires |cs| <= SLOTS && |rs| <= SLOTS
  {
    BNode(|rs|, Pad(cs, NIL), Pad(rs, NULL_RID))
  }

  function InsAt<T>(s: seq<T>, j: int, x: T): seq<T>
    requires 0 <= j <= |s|
  {
    s[..j] + [x] + s[j..]
  }

  function DelAt<T>(s: seq<T>, j: int): seq<T>
    requires 0 <= j < |s|
  {
    s[..j] + s[j + 1..]
  }

  /** Shifting the used cells from j up by one and writing cell j is insertion into the padded sequence. */
  lemma PadIns<T>(s: seq<T>, fill: T, j: int, x: T)
    requires 0 <= j <= |s| < SLOTS
    ensures var p, n := Pad(s, fill), |s|;
            (p[..j] + p[j..j + 1] + p[j..n] + p[n + 1..])[j := x] == Pad(InsAt(s, j, x), fill)
  {
  }

  /** Shifting the used cells after j down by one and clearing the last is deletion from the padded sequence. */
  lemma PadDel<T>(s: seq<T>, fill: T, j: int)
    requires 0 <= j < |s| <= SLOTS
    ensures var p, n := Pad(s, fill), |s|;
            (p[..j] + p[j + 1..n] + p[n - 1..])[n - 1 := fill] == Pad(DelAt(s, j), fill)
  {
  }

  lemma PadSet<T>(s: seq<T>, fill: T, j: int, x: T)
    requires 0 <= j < |s| <= SLOTS
    ensures Pad(s, fill)[j := x] == Pad(s[j := x], fill)
  {
  }

  // ----- abstract trees -----

  datatype Tree = Leaf(addr: int, keys: seq<RID>) | Node(addr: int, kids: seq<Tree>)

  function Size(t: Tree): nat {
    if t.Leaf? then |t.keys| else |t.kids|
  }

  function Keys(t: Tree): seq<RID>
    decreases t, 1
  {
    match t
    case Leaf(_, keys) => keys
    case Node(_, kids) => Flat(kids)
  }

  function Flat(ts: seq<Tree>): seq<RID>
    decreases ts, 0
  {
    if ts == [] then [] else Keys(ts[0]) + Flat(ts[1..])
  }

  function Head(s: seq<RID>): RID {
    if s == [] then NULL_RID else s[0]
  }

  /** The least key below t, the null RID when there is none. */
  function Min(t: Tree): RID {
    Head(Keys(t))
  }

  function Addrs(t: Tree): multiset<int>
    decreases t, 1
  {
    match t
    case Leaf(addr, _) => multiset{addr}
    case Node(addr, kids) => multiset{addr} + AddrsF(kids)
  }

  function AddrsF(ts: seq<Tree>): multiset<int>
    decreases ts, 0
  {
    if ts == [] then multiset{} else Addrs(ts[0]) + AddrsF(ts[1..])
  }

  function AddrList(ts: seq<Tree>): (r: seq<int>)
    ensures |r| == |ts|
  {
    seq(|ts|, k requires 0 <= k < |ts| => ts[k].addr)
  }

  function MinList(ts: seq<Tree>): (r: seq<RID>)
    ensures |r| == |ts|
  {
    seq(|ts|, k requires 0 <= k < |ts| => Min(ts[k]))
  }

  /** Uniform depth h, and every node strictly below t holds DEGREE..LIMIT entries. */
  ghost predicate Shape(t: Tree, h: nat)
    decreases t
  {
    match t
    case Leaf(_, _) => h == 0
    case Node(_, kids) =>
      h > 0 && kids != [] &&
      forall k | 0 <= k < |kids| :: Shape(kids[k], h - 1) && DEGREE <= Size(kids[k]) <= LIMIT
  }

  /** A legal non-root node of height h. */
  ghost predicate Kid(t: Tree, h: nat) {
    Shape(t, h) && DEGREE <= Size(t) <= LIMIT
  }

  ghost predicate KidsOk(ts: seq<Tree>, h: nat) {
    forall k | 0 <= k < |ts| :: Kid(ts[k], h)
  }

  /** A legal root: at most LIMIT entries, and two or more children unless it is a leaf. */
  ghost predicate RootOk(t: Tree, h: nat) {
    Shape(t, h) && Size(t) <= LIMIT && (t.Node? ==> 2 <= Size(t))
  }

  /** The node page that t's root must be stored as. */
  function Image(t: Tree): BNode
    requires Size(t) <= SLOTS
  {
    match t
    case Leaf(_, keys) => Page([], keys)
    case Node(_, kids) => Page(AddrList(kids), MinList(kids))
  }

  /** The heap holds t: every node's page lists its children, and separator k is the least key of child k. */
  ghost predicate Stored(heap: map<int, BNode>, t: Tree)
    decreases t
  {
    && t.addr in heap
    && Size(t) <= SLOTS
    && heap[t.addr] == Image(t)
    && (t.Node? ==> forall k | 0 <= k < |t.kids| :: Stored(heap, t.kids[k]))
  }

  ghost predicate StoredF(heap: map<int, BNode>, ts: seq<Tree>) {
    forall k | 0 <= k < |ts| :: Stored(heap, ts[k])
  }

  ghost predicate Unique(m: multiset<int>) {
    forall x :: m[x] <= 1
  }

  ghost predicate Bounded(m: multiset<int>, free: int) {
    forall x | x in m :: 0 <= x < free
  }

  ghost predicate Agree(heap: map<int, BNode>, heap': map<int, BNode>, m: multiset<int>) {
    forall x | x in m && x in heap :: x in heap' && heap'[x] == heap[x]
  }

  lemma UniqueParts(a: multiset<int>, b: multiset<int>)
    requires Unique(a + b)
    ensures Unique(a) && Unique(b) && forall x | x in a :: x !in b
  {
    assert forall x :: (a + b)[x] == a[x] + b[x];
  }

  // ----- contexts -----

  /** What surrounds a subtree: its parent (with the siblings on either side) and the parent's own context. */
  datatype Ctx = Top | Hole(addr: int, left: seq<Tree>, right: seq<Tree>, up: Ctx)

  function AddrsC(c: Ctx): multiset<int> {
    if c.Top? then multiset{} else multiset{c.addr} + AddrsF(c.left) + AddrsF(c.right) + AddrsC(c.up)
  }

  /** The nodes on the path from the root to the hole. */
  function Spine(c: Ctx): set<int> {
    if c.Top? then {} else {c.addr} + Spine(c.up)
  }

  function LeftKeys(c: Ctx): seq<RID> {
    if c.Top? then [] else LeftKeys(c.up) + Flat(c.left)
  }

  function RightKeys(c: Ctx): seq<RID> {
    if c.Top? then [] else Flat(c.right) + RightKeys(c.up)
  }

  /** The least key of the parent's subtree when the hole's least key is m. */
  function UpMin(c: Ctx, m: RID): RID
    requires c.Hole?
  {
    if c.left == [] then m else Min(c.left[0])
  }

  function TopAddr(c: Ctx, a: int): int {
    if c.Top? then a else TopAddr(c.up, c.addr)
  }

  function TopMin(c: Ctx, m: RID): RID {
    if c.Top? then m else TopMin(c.up, UpMin(c, m))
  }

  function Around(c: Ctx, t: Tree): Tree
    requires c.Hole?
  {
    Node(c.addr, c.left + [t] + c.right)
  }

  ghost predicate FrameOk(heap: map<int, BNode>, c: Ctx, a: int, m: RID)
    requires c.Hole?
  {
    && c.addr in heap
    && |c.left| + 1 + |c.right| <= SLOTS
    && heap[c.addr] == Page(AddrList(c.left) + [a] + AddrList(c.right), MinList(c.left) + [m] + MinList(c.right))
    && StoredF(heap, c.left)
    && StoredF(heap, c.right)
  }

  /** The heap holds the context, with a subtree of least key m at address a in the hole. */
  ghost predicate StoredC(heap: map<int, BNode>, c: Ctx, a: int, m: RID) {
    c.Top? || (FrameOk(heap, c, a, m) && StoredC(heap, c.up, c.addr, UpMin(c, m)))
  }

  /** Every sibling in the context of a subtree of height h is legal, and so is every ancestor. */
  ghost predicate ShapeC(c: Ctx, h: nat) {
    c.Top? ||
    (&& KidsOk(c.left, h) && KidsOk(c.right, h)
     && 2 <= |c.left| + 1 + |c.right| <= LIMIT
     && (c.up.Hole? ==> DEGREE <= |c.left| + 1 + |c.right|)
     && ShapeC(c.up, h + 1))
  }

  // ----- keys in order -----

  ghost predicate Sorted(rank: RID -> int, s: seq<RID>) {
    forall i, j | 0 <= i < j < |s| :: rank(s[i]) < rank(s[j])
  }

  ghost predicate AllBelow(rank: RID -> int, s: seq<RID>, k: int) {
    forall x | x in s :: rank(x) < k
  }

  ghost predicate AllAbove(rank: RID -> int, s: seq<RID>, k: int) {
    forall x | x in s :: k < rank(x)
  }

  /** No key has the null block address. */
  ghost predicate Real(s: seq<RID>) {
    forall x | x in s :: x.addr != -1
  }

  /** Sorted insertion. */
  function Ins(rank: RID -> int, s: seq<RID>, key: RID): seq<RID> {
    if s == [] || rank(key) < rank(s[0]) then [key] + s else [s[0]] + Ins(rank, s[1..], key)
  }

  /** Removal of the key of rank k. */
  function Del(rank: RID -> int, s: seq<RID>, k: int): seq<RID> {
    if s == [] then [] else if rank(s[0]) == k then s[1..] else [s[0]] + Del(rank, s[1..], k)
  }

  // ----- lemmas: forests -----

  lemma {:induction false} FlatAppend(a: seq<Tree>, b: seq<Tree>)
    ensures Flat(a + b) == Flat(a) + Flat(b)
  {
    if a == [] {
      assert a + b == b;
    } else {
      assert (a + b)[1..] == a[1..] + b;
      FlatAppend(a[1..], b);
    }
  }

  lemma {:induction false} AddrsAppend(a: seq<Tree>, b: seq<Tree>)
    ensures AddrsF(a + b) == AddrsF(a) + AddrsF(b)
  {
    if a == [] {
      assert a + b == b;
    } else {
      assert (a + b)[1..] == a[1..] + b;
      AddrsAppend(a[1..], b);
    }
  }

  lemma FlatOne(t: Tree)
    ensures Flat([t]) == Keys(t)
    ensures AddrsF([t]) == Addrs(t)
  {
    assert [t][1..] == [];
  }

  /** A forest split around one member. */
  lemma FlatAround(a: seq<Tree>, t: Tree, b: seq<Tree>)
    ensures Flat(a + [t] + b) == Flat(a) + Keys(t) + Flat(b)
    ensures AddrsF(a + [t] + b) == AddrsF(a) + Addrs(t) + AddrsF(b)
  {
    FlatOne(t);
    FlatAppend(a, [t]);
    FlatAppend(a + [t], b);
    AddrsAppend(a, [t]);
    AddrsAppend(a + [t], b);
  }

  lemma FlatTwo(s: Tree, t: Tree)
    ensures Flat([s, t]) == Keys(s) + Keys(t)
    ensures AddrsF([s, t]) == Addrs(s) + Addrs(t)
  {
    FlatOne(t);
    assert [s, t][1..] == [t];
  }

  /** A forest split around two neighbours. */
  lemma FlatAround2(a: seq<Tree>, s: Tree, t: Tree, b: seq<Tree>)
    ensures Flat(a + [s, t] + b) == Flat(a) + (Keys(s) + Keys(t)) + Flat(b)
    ensures AddrsF(a + [s, t] + b) == AddrsF(a) + (Addrs(s) + Addrs(t)) + AddrsF(b)
  {
    FlatTwo(s, t);
    FlatAppend(a, [s, t]);
    FlatAppend(a + [s, t], b);
    AddrsAppend(a, [s, t]);
    AddrsAppend(a + [s, t], b);
  }

  lemma AddrOf(t: Tree)
    ensures t.addr in Addrs(t)
  {
  }

  lemma {:induction false} CountOne(ts: seq<Tree>, q: nat, x: int)
    requires q < |ts|
    ensures AddrsF(ts)[x] >= Addrs(ts[q])[x]
  {
    assert AddrsF(ts)[x] == Addrs(ts[0])[x] + AddrsF(ts[1..])[x];
    if q > 0 {
      assert ts[1..][q - 1] == ts[q];
      CountOne(ts[1..], q - 1, x);
    }
  }

  /** Two trees of a forest with unique addresses share no page. */
  lemma {:induction false} CountTwo(ts: seq<Tree>, q: nat, r: nat, x: int)
    requires q < r < |ts|
    ensures AddrsF(ts)[x] >= Addrs(ts[q])[x] + Addrs(ts[r])[x]
  {
    assert AddrsF(ts)[x] == Addrs(ts[0])[x] + AddrsF(ts[1..])[x];
    if q > 0 {
      assert ts[1..][q - 1] == ts[q] && ts[1..][r - 1] == ts[r];
      CountTwo(ts[1..], q - 1, r - 1, x);
    } else {
      assert ts[1..][r - 1] == ts[r];
      CountOne(ts[1..], r - 1, x);
    }
  }

  /** A legal node stores at least one key, so the least key of a forest is that of its first tree. */
  lemma {:induction false} HasKeys(t: Tree, h: nat)
    requires Shape(t, h) && Size(t) >= 1
    ensures Keys(t) != []
    decreases t
  {
    if t.Node? {
      HasKeys(t.kids[0], h - 1);
    }
  }

  lemma HeadFlat(ts: seq<Tree>)
    requires ts != [] && Keys(ts[0]) != []
    ensures Head(Flat(ts)) == Min(ts[0])
  {
  }

  lemma {:induction false} MinInFlat(ts: seq<Tree>, k: nat)
    requires k < |ts| && Keys(ts[k]) != []
    ensures Min(ts[k]) in Flat(ts)
  {
    if k > 0 {
      assert ts[1..][k - 1] == ts[k];
      MinInFlat(ts[1..], k - 1);
    }
  }

  // ----- lemmas: frames -----

  lemma {:induction false} StoredFrame(heap: map<int, BNode>, heap': map<int, BNode>, t: Tree)
    requires Stored(heap, t) && Agree(heap, heap', Addrs(t))
    ensures Stored(heap', t)
    decreases t, 1
  {
    AddrOf(t);
    if t.Node? {
      StoredFrameF(heap, heap', t.kids);
    }
  }

  lemma {:induction false} StoredFrameF(heap: map<int, BNode>, heap': map<int, BNode>, ts: seq<Tree>)
    requires StoredF(heap, ts) && Agree(heap, heap', AddrsF(ts))
    ensures StoredF(heap', ts)
    decreases ts, 0
  {
    if ts != [] {
      StoredFrame(heap, heap', ts[0]);
      assert forall k | 0 <= k < |ts[1..]| :: ts[1..][k] == ts[k + 1];
      StoredFrameF(heap, heap', ts[1..]);
      assert forall k | 1 <= k < |ts| :: ts[k] == ts[1..][k - 1];
    }
  }

  lemma {:induction false} StoredFrameC(heap: map<int, BNode>, heap': map<int, BNode>, c: Ctx, a: int, m: RID)
    requires StoredC(heap, c, a, m) && Agree(heap, heap', AddrsC(c))
    ensures StoredC(heap', c, a, m)
  {
    if c.Hole? {
      StoredFrameF(heap, heap', c.left);
      StoredFrameF(heap, heap', c.right);
      assert c.addr in AddrsC(c);
      StoredFrameC(heap, heap', c.up, c.addr, UpMin(c, m));
    }
  }

  /** A subtree placed in its parent's frame makes the parent's subtree, and back. */
  lemma Close(heap: map<int, BNode>, c: Ctx, t: Tree)
    requires c.Hole?
    ensures (FrameOk(heap, c, t.addr, Min(t)) && Stored(heap, t)) <==> Stored(heap, Around(c, t))
  {
    ListsAround(c.left, t, c.right);
    StoredAround(heap, c.left, t, c.right);
  }

  lemma ListsAround(a: seq<Tree>, t: Tree, b: seq<Tree>)
    ensures AddrList(a + [t] + b) == AddrList(a) + [t.addr] + AddrList(b)
    ensures MinList(a + [t] + b) == MinList(a) + [Min(t)] + MinList(b)
  {
  }

  lemma StoredAround(heap: map<int, BNode>, a: seq<Tree>, t: Tree, b: seq<Tree>)
    ensures StoredF(heap, a + [t] + b) <==> StoredF(heap, a) && Stored(heap, t) && StoredF(heap, b)
  {
    var ts := a + [t] + b;
    if StoredF(heap, ts) {
      assert ts[|a|] == t;
      assert forall k | 0 <= k < |a| :: a[k] == ts[k];
      assert forall k | 0 <= k < |b| :: b[k] == ts[|a| + 1 + k];
    }
  }

  // ----- lemmas: one node after another -----

  /** Cell 0 of a legal node's page is its least key. */
  lemma ImageHead(t: Tree, h: nat)
    requires Shape(t, h) && 1 <= Size(t) <= SLOTS
    ensures Image(t).row[0] == Min(t)
  {
    if t.Node? {
      HasKeys(t.kids[0], h - 1);
      HeadFlat(t.kids);
      assert MinList(t.kids)[0] == Min(t.kids[0]);
    }
  }

  lemma AllStored(heap: map<int, BNode>, a: seq<Tree>, b: seq<Tree>)
    requires StoredF(heap, a) && StoredF(heap, b)
    ensures StoredF(heap, a + b)
  {
  }

  lemma ListsAppend(a: seq<Tree>, b: seq<Tree>)
    ensures AddrList(a + b) == AddrList(a) + AddrList(b)
    ensures MinList(a + b) == MinList(a) + MinList(b)
  {
  }

  /** The first k entries of t, kept at t's own page. */
  function Take(t: Tree, k: int): (r: Tree)
    requires 0 <= k <= Size(t)
    ensures Size(r) == k && r.addr == t.addr && (r.Leaf? <==> t.Leaf?)
  {
    if t.Leaf? then Leaf(t.addr, t.keys[..k]) else Node(t.addr, t.kids[..k])
  }

  /** The entries of t from the k-th on, at page a. */
  function Drop(t: Tree, a: int, k: int): (r: Tree)
    requires 0 <= k <= Size(t)
    ensures Size(r) == Size(t) - k && r.addr == a && (r.Leaf? <==> t.Leaf?)
  {
    if t.Leaf? then Leaf(a, t.keys[k..]) else Node(a, t.kids[k..])
  }

  /** The entries of s followed by those of t, at page a. */
  function Join(a: int, s: Tree, t: Tree): (r: Tree)
    requires s.Leaf? <==> t.Leaf?
    ensures Size(r) == Size(s) + Size(t) && r.addr == a && (r.Leaf? <==> s.Leaf?)
  {
    if s.Leaf? then Leaf(a, s.keys + t.keys) else Node(a, s.kids + t.kids)
  }

  /** The pages of t below its own. */
  function Below(t: Tree): multiset<int>
    ensures Addrs(t) == multiset{t.addr} + Below(t)
  {
    if t.Leaf? then multiset{} else AddrsF(t.kids)
  }

  lemma JoinFacts(a: int, s: Tree, t: Tree)
    requires s.Leaf? <==> t.Leaf?
    ensures Keys(Join(a, s, t)) == Keys(s) + Keys(t)
    ensures Below(Join(a, s, t)) == Below(s) + Below(t)
  {
    if s.Node? {
      FlatAppend(s.kids, t.kids);
      AddrsAppend(s.kids, t.kids);
    }
  }

  lemma {:induction false} CutFacts(t: Tree, a: int, k: int)
    requires 0 <= k <= Size(t)
    ensures Keys(t) == Keys(Take(t, k)) + Keys(Drop(t, a, k))
    ensures Below(t) == Below(Take(t, k)) + Below(Drop(t, a, k))
  {
    if t.Node? {
      assert t.kids == t.kids[..k] + t.kids[k..];
      FlatAppend(t.kids[..k], t.kids[k..]);
      AddrsAppend(t.kids[..k], t.kids[k..]);
    }
  }

  // ----- lemmas: a parent with two neighbours singled out -----

  lemma ListsPair(l: seq<Tree>, a: Tree, b: Tree, r: seq<Tree>)
    ensures AddrList(l + [a, b] + r) == AddrList(l) + [a.addr, b.addr] + AddrList(r)
    ensures MinList(l + [a, b] + r) == MinList(l) + [Min(a), Min(b)] + MinList(r)
  {
  }

  /** Pages p, a and b belong to none of the other subtrees. */
  lemma PairApart(p: int, l: seq<Tree>, a: Tree, b: Tree, r: seq<Tree>, y: int)
    requires Unique(Addrs(Node(p, l + [a, b] + r)))
    ensures (if y == p then 1 else 0) + AddrsF(l)[y] + Addrs(a)[y] + Addrs(b)[y] + AddrsF(r)[y] <= 1
  {
    FlatAround2(l, a, b, r);
    CountFour(p, AddrsF(l), Addrs(a), Addrs(b), AddrsF(r), y);
  }

  lemma CountFour(p: int, l: multiset<int>, a: multiset<int>, b: multiset<int>, r: multiset<int>, y: int)
    ensures (multiset{p} + (l + (a + b) + r))[y] == (if y == p then 1 else 0) + l[y] + a[y] + b[y] + r[y]
  {
  }

  lemma PairStored(h: map<int, BNode>, h': map<int, BNode>, p: int, l: seq<Tree>, a: Tree, b: Tree, r: seq<Tree>,
                   a': Tree, b': Tree)
    requires StoredF(h, l) && StoredF(h, r) && Unique(Addrs(Node(p, l + [a, b] + r)))
    requires a'.addr == a.addr && b'.addr == b.addr && Stored(h', a') && Stored(h', b')
    requires forall y | y in h && y != p && y != a.addr && y != b.addr :: y in h' && h'[y] == h[y]
    requires |l| + 2 + |r| <= SLOTS && p in h'
    requires h'[p] == Page(AddrList(l) + [a.addr, b.addr] + AddrList(r), MinList(l) + [Min(a'), Min(b')] + MinList(r))
    ensures Stored(h', Node(p, l + [a', b'] + r))
  {
    PairAgree(h, h', p, l, a, b, r);
    StoredFrameF(h, h', l);
    StoredFrameF(h, h', r);
    assert AddrList([a', b']) == [a.addr, b.addr] && MinList([a', b']) == [Min(a'), Min(b')];
    SpliceStored(h', p, l, [a', b'], r);
  }

  lemma PairAgree(h: map<int, BNode>, h': map<int, BNode>, p: int, l: seq<Tree>, a: Tree, b: Tree, r: seq<Tree>)
    requires Unique(Addrs(Node(p, l + [a, b] + r)))
    requires forall y | y in h && y != p && y != a.addr && y != b.addr :: y in h' && h'[y] == h[y]
    ensures Agree(h, h', AddrsF(l)) && Agree(h, h', AddrsF(r))
  {
    PairApart(p, l, a, b, r, p);
    PairApart(p, l, a, b, r, a.addr);
    PairApart(p, l, a, b, r, b.addr);
    AddrOf(a);
    AddrOf(b);
    AgreeApart(h, h', AddrsF(l), p, a.addr, b.addr);
    AgreeApart(h, h', AddrsF(r), p, a.addr, b.addr);
  }

  lemma AgreeApart(h: map<int, BNode>, h': map<int, BNode>, m: multiset<int>, p: int, q: int, r: int)
    requires p !in m && q !in m && r !in m
    requires forall y | y in h && y != p && y != q && y != r :: y in h' && h'[y] == h[y]
    ensures Agree(h, h', m)
  {
  }

  /** A parent page listing three stored forests in a row. */
  lemma SpliceStored(h: map<int, BNode>, p: int, l: seq<Tree>, mid: seq<Tree>, r: seq<Tree>)
    requires StoredF(h, l) && StoredF(h, mid) && StoredF(h, r) && |l| + |mid| + |r| <= SLOTS && p in h
    requires h[p] == Page(AddrList(l) + AddrList(mid) + AddrList(r), MinList(l) + MinList(mid) + MinList(r))
    ensures Stored(h, Node(p, l + mid + r))
  {
    ListsAppend(l, mid);
    ListsAppend(l + mid, r);
    AllStored(h, l, mid);
    AllStored(h, l + mid, r);
  }

  lemma PairParts(h: map<int, BNode>, p: int, l: seq<Tree>, a: Tree, b: Tree, r: seq<Tree>)
    requires Stored(h, Node(p, l + [a, b] + r))
    ensures StoredF(h, l) && Stored(h, a) && Stored(h, b) && StoredF(h, r)
    ensures |l| + 2 + |r| <= SLOTS && p in h
    ensures h[p] == Page(AddrList(l) + [a.addr, b.addr] + AddrList(r), MinList(l) + [Min(a), Min(b)] + MinList(r))
  {
    var ks := l + [a, b] + r;
    ListsPair(l, a, b, r);
    assert ks[|l|] == a && ks[|l| + 1] == b;
    assert forall q | 0 <= q < |l| :: ks[q] == l[q];
    assert forall q | 0 <= q < |r| :: ks[|l| + 2 + q] == r[q];
  }

  // ----- lemmas: keys in order -----

  lemma SortedParts(rank: RID -> int, a: seq<RID>, b: seq<RID>)
    requires Sorted(rank, a + b)
    ensures Sorted(rank, a) && Sorted(rank, b)
    ensures forall x, y | x in a && y in b :: rank(x) < rank(y)
  {
    assert forall i | 0 <= i < |a| :: a[i] == (a + b)[i];
    assert forall j | 0 <= j < |b| :: b[j] == (a + b)[|a| + j];
  }

  /** The least keys of a sorted forest are apart. */
  lemma {:induction false} MinsApart(rank: RID -> int, ks: seq<Tree>, q: int, r: int)
    requires 0 <= q < r < |ks| && Sorted(rank, Flat(ks)) && Keys(ks[q]) != [] && Keys(ks[r]) != []
    ensures rank(Min(ks[q])) < rank(Min(ks[r]))
  {
    assert ks == ks[..r] + ks[r..];
    FlatAppend(ks[..r], ks[r..]);
    SortedParts(rank, Flat(ks[..r]), Flat(ks[r..]));
    MinInFlat(ks[..r], q);
    assert Flat(ks[r..])[0] == Min(ks[r]);
  }

  lemma MiddleSorted(rank: RID -> int, a: seq<RID>, k: seq<RID>, b: seq<RID>)
    requires Sorted(rank, a + k + b)
    ensures Sorted(rank, k)
    ensures forall x | x in k :: x in a + k + b
  {
    SortedParts(rank, a + k, b);
    SortedParts(rank, a, k);
  }

  lemma {:induction false} FlatSplit(ks: seq<Tree>, q: int)
    requires 0 <= q < |ks|
    ensures Flat(ks) == Flat(ks[..q]) + Keys(ks[q]) + Flat(ks[q + 1..])
    ensures AddrsF(ks) == AddrsF(ks[..q]) + Addrs(ks[q]) + AddrsF(ks[q + 1..])
  {
    assert ks == ks[..q] + [ks[q]] + ks[q + 1..];
    FlatIs(ks, ks[..q], ks[q], ks[q + 1..]);
  }

  lemma {:induction false} FlatIs(ks: seq<Tree>, a: seq<Tree>, t: Tree, b: seq<Tree>)
    requires ks == a + [t] + b
    ensures Flat(ks) == Flat(a) + Keys(t) + Flat(b)
    ensures AddrsF(ks) == AddrsF(a) + Addrs(t) + AddrsF(b)
  {
    FlatAround(a, t, b);
  }

  /** The keys of one tree of a sorted forest. */
  lemma KidSorted(rank: RID -> int, ks: seq<Tree>, q: int)
    requires 0 <= q < |ks| && Sorted(rank, Flat(ks))
    ensures Sorted(rank, Keys(ks[q]))
    ensures forall x | x in Keys(ks[q]) :: x in Flat(ks)
  {
    FlatSplit(ks, q);
    MiddleSorted(rank, Flat(ks[..q]), Keys(ks[q]), Flat(ks[q + 1..]));
  }
}
