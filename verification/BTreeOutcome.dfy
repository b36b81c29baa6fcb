/** The trees that splits, shifts and merges leave behind. */
module BTreeOutcome {
  import opened Rids
  import opened BTreeShape
  import opened BTreeSteps

  // ----- what a shift between neighbours keeps -----

  lemma Assoc(x: seq<RID>, y: seq<RID>, z: seq<RID>, p: multiset<int>, q: multiset<int>, r: multiset<int>)
    ensures (x + y) + z == x + (y + z) && (p + q) + r == p + (q + r)
  {
  }

  lemma {:induction false} CutJoin(a: Tree, b: Tree, n: int, k: int)
    requires (a.Leaf? <==> b.Leaf?) && 0 <= n <= Size(a) && k == Size(a) - n
    ensures var a', b' := LeftPart(a, b, n, true), RightPart(a, b, n, true);
            Keys(a') + Keys(b') == Keys(a) + Keys(b) && Below(a') + Below(b') == Below(a) + Below(b)
  {
    var t, d := Take(a, k), Drop(a, b.addr, k);
    CutFacts(a, b.addr, k);
    JoinFacts(b.addr, d, b);
    Assoc(Keys(t), Keys(d), Keys(b), Below(t), Below(d), Below(b));
  }

  lemma {:induction false} JoinCut(a: Tree, b: Tree, k: int)
    requires (a.Leaf? <==> b.Leaf?) && 0 <= k <= Size(b)
    ensures var a', b' := LeftPart(a, b, k, false), RightPart(a, b, k, false);
            Keys(a') + Keys(b') == Keys(a) + Keys(b) && Below(a') + Below(b') == Below(a) + Below(b)
  {
    var t, d := Take(b, k), Drop(b, b.addr, k);
    CutFacts(b, b.addr, k);
    JoinFacts(a.addr, a, t);
    Assoc(Keys(a), Keys(t), Keys(d), Below(a), Below(t), Below(d));
  }

  /** No key and no page is lost or gained, and the keys stay in order. */
  lemma {:induction false} PartsFacts(a: Tree, b: Tree, n: int, right: bool)
    requires (a.Leaf? <==> b.Leaf?) && 0 <= n <= (if right then Size(a) else Size(b))
    ensures var a', b' := LeftPart(a, b, n, right), RightPart(a, b, n, right);
            && Keys(a') + Keys(b') == Keys(a) + Keys(b)
            && Below(a') + Below(b') == Below(a) + Below(b)
            && a'.addr == a.addr && b'.addr == b.addr && (a'.Leaf? <==> a.Leaf?) && (b'.Leaf? <==> a.Leaf?)
            && Size(a') == (if right then Size(a) - n else Size(a) + n)
            && Size(b') == (if right then Size(b) + n else Size(b) - n)
  {
    if right {
      CutJoin(a, b, n, Size(a) - n);
    } else {
      JoinCut(a, b, n);
    }
  }

  lemma PartsAddrs(a: Tree, b: Tree, n: int, right: bool)
    requires (a.Leaf? <==> b.Leaf?) && 0 <= n <= (if right then Size(a) else Size(b))
    ensures Addrs(LeftPart(a, b, n, right)) + Addrs(RightPart(a, b, n, right)) == Addrs(a) + Addrs(b)
  {
    PartsFacts(a, b, n, right);
    SumPairs(a.addr, b.addr, Below(LeftPart(a, b, n, right)), Below(RightPart(a, b, n, right)), Below(a), Below(b));
  }

  lemma SumPairs(x: int, y: int, p: multiset<int>, q: multiset<int>, a: multiset<int>, b: multiset<int>)
    requires p + q == a + b
    ensures (multiset{x} + p) + (multiset{y} + q) == (multiset{x} + a) + (multiset{y} + b)
  {
    assert (multiset{x} + p) + (multiset{y} + q) == (multiset{x} + multiset{y}) + (p + q);
  }

  lemma HeadPrefix(s: seq<RID>, t: seq<RID>)
    requires s != []
    ensures Head(s + t) == Head(s)
  {
  }

  /** A part that keeps the first entries keeps the least key. */
  lemma LeftMin(a: Tree, b: Tree, n: int, right: bool, h: nat)
    requires Shape(a, h) && Shape(b, h) && 1 <= Size(a) && 0 <= n <= (if right then Size(a) - 1 else Size(b))
    ensures Min(LeftPart(a, b, n, right)) == Min(a)
  {
    if right {
      TakeMin(a, Size(a) - n, h);
    } else {
      JoinMin(a, Take(b, n), h);
    }
  }

  lemma JoinMin(a: Tree, t: Tree, h: nat)
    requires Shape(a, h) && 1 <= Size(a) && (a.Leaf? <==> t.Leaf?)
    ensures Min(Join(a.addr, a, t)) == Min(a)
  {
    HasKeys(a, h);
    JoinFacts(a.addr, a, t);
    HeadPrefix(Keys(a), Keys(t));
  }

  lemma TakeMin(t: Tree, k: int, h: nat)
    requires Shape(t, h) && 1 <= k <= Size(t)
    ensures Min(Take(t, k)) == Min(t) && Shape(Take(t, k), h)
  {
    CutFacts(t, t.addr, k);
    HasKeys(Take(t, k), h);
    HeadPrefix(Keys(Take(t, k)), Keys(Drop(t, t.addr, k)));
  }

  /** The pages under a neighbour are untouched by writes to p, a and b. */
  lemma {:induction false} KidsKept(h0: map<int, BNode>, h1: map<int, BNode>, p: int, l: seq<Tree>, a: Tree, b: Tree,
                                    r: seq<Tree>)
    requires Stored(h0, a) && Stored(h0, b) && Unique(Addrs(Node(p, l + [a, b] + r)))
    requires forall w | w in h0 && w != p && w != a.addr && w != b.addr :: w in h1 && h1[w] == h0[w]
    ensures a.Node? ==> StoredF(h1, a.kids)
    ensures b.Node? ==> StoredF(h1, b.kids)
  {
    AddrOf(a);
    AddrOf(b);
    PairApart(p, l, a, b, r, p);
    PairApart(p, l, a, b, r, a.addr);
    PairApart(p, l, a, b, r, b.addr);
    KidsUnder(h0, h1, a, p, b.addr);
    KidsUnder(h0, h1, b, p, a.addr);
  }

  lemma {:induction false} KidsUnder(h0: map<int, BNode>, h1: map<int, BNode>, t: Tree, p: int, q: int)
    requires Stored(h0, t) && Addrs(t)[t.addr] <= 1 && p !in Addrs(t) && q !in Addrs(t)
    requires forall w | w in h0 && w != p && w != t.addr && w != q :: w in h1 && h1[w] == h0[w]
    ensures t.Node? ==> StoredF(h1, t.kids)
  {
    if t.Node? {
      assert AddrsF(t.kids)[t.addr] == 0;
      StoredFrameF(h0, h1, t.kids);
    }
  }

  /** Both parts are stored once their pages are written. */
  lemma PartsStored(h1: map<int, BNode>, a: Tree, b: Tree, n: int, right: bool)
    requires (a.Leaf? <==> b.Leaf?) && 0 <= n <= (if right then Size(a) else Size(b))
    requires a.Node? ==> StoredF(h1, a.kids) && StoredF(h1, b.kids)
    requires var a', b' := LeftPart(a, b, n, right), RightPart(a, b, n, right);
             && Size(a') <= SLOTS && Size(b') <= SLOTS
             && a.addr in h1 && h1[a.addr] == Image(a') && b.addr in h1 && h1[b.addr] == Image(b')
    ensures Stored(h1, LeftPart(a, b, n, right)) && Stored(h1, RightPart(a, b, n, right))
  {
  }

  /** The page of p with separators za and zb above the neighbours. */
  ghost predicate PairPage(heap: map<int, BNode>, p: int, l: seq<Tree>, a: Tree, b: Tree, r: seq<Tree>, za: RID,
                           zb: RID) {
    && p in heap && |l| + 2 + |r| <= SLOTS
    && heap[p] == Page(AddrList(l) + [a.addr, b.addr] + AddrList(r), MinList(l) + [za, zb] + MinList(r))
  }

  lemma PairPageSet(heap: map<int, BNode>, p: int, l: seq<Tree>, a: Tree, b: Tree, r: seq<Tree>, za: RID, zb: RID,
                    x: RID)
    requires PairPage(heap, p, l, a, b, r, za, zb) && p != NIL
    ensures |l| + 1 < |heap[p].row|
    ensures PairPage(SetRow(heap, p, |l|, x), p, l, a, b, r, x, zb)
    ensures PairPage(SetRow(heap, p, |l| + 1, x), p, l, a, b, r, za, x)
  {
    var rows := MinList(l) + [za, zb] + MinList(r);
    PadSet(rows, NULL_RID, |l|, x);
    PadSet(rows, NULL_RID, |l| + 1, x);
    assert rows[|l| := x] == MinList(l) + [x, zb] + MinList(r);
    assert rows[|l| + 1 := x] == MinList(l) + [za, x] + MinList(r);
  }

  /** The parent's page after Move. */
  lemma MovedPage(h: map<int, BNode>, p: int, l: seq<Tree>, a: Tree, b: Tree, r: seq<Tree>, za: RID, zb: RID, a': Tree,
                  b': Tree)
    requires PairPage(h, p, l, a, b, r, za, zb) && p != NIL && p != a.addr && p != b.addr && a.addr != b.addr
    requires a'.addr == a.addr && b'.addr == b.addr && Size(a') <= SLOTS && Size(b') <= SLOTS
    ensures |l| + 1 < |h[p].row|
    ensures var h' := Moved(h, p, |l|, a', b');
            && PairPage(h', p, l, a, b, r, if a'.Leaf? then Min(a') else za, Min(b'))
            && a.addr in h' && h'[a.addr] == Image(a') && b.addr in h' && h'[b.addr] == Image(b')
            && forall w | w in h && w != p && w != a.addr && w != b.addr :: w in h' && h'[w] == h[w]
  {
    PairPageSet(h, p, l, a, b, r, za, zb, Min(a'));
    var h1 := if a'.Leaf? then SetRow(h, p, |l|, Min(a')) else h;
    var z := if a'.Leaf? then Min(a') else za;
    PairPageSet(h1, p, l, a, b, r, z, zb, Min(b'));
    assert Moved(h, p, |l|, a', b')[p] == SetRow(h1, p, |l| + 1, Min(b'))[p];
  }

  /** The forest under p, with exact separators, after a shift and a refresh of the left part's separator. */
  lemma ShiftStored(h: map<int, BNode>, p: int, l: seq<Tree>, a: Tree, b: Tree, r: seq<Tree>, n: int, right: bool,
                    za: RID, zb: RID, h': map<int, BNode>)
    requires PairPage(h, p, l, a, b, r, za, zb) && p != NIL && p != a.addr && p != b.addr && a.addr != b.addr
    requires StoredF(h, l) && StoredF(h, r) && Stored(h, a) && Stored(h, b) && Unique(Addrs(Node(p, l + [a, b] + r)))
    requires (a.Leaf? <==> b.Leaf?) && 0 <= n <= (if right then Size(a) else Size(b))
    requires Size(LeftPart(a, b, n, right)) <= SLOTS && Size(RightPart(a, b, n, right)) <= SLOTS && |l| + 1 < |h[p].row|
    requires LeftPart(a, b, n, right).addr == a.addr && RightPart(a, b, n, right).addr == b.addr
    requires h' == SetRow(Moved(h, p, |l|, LeftPart(a, b, n, right), RightPart(a, b, n, right)), p, |l|,
                          Min(LeftPart(a, b, n, right)))
    ensures Stored(h', Node(p, l + [LeftPart(a, b, n, right), RightPart(a, b, n, right)] + r))
  {
    var a', b' := LeftPart(a, b, n, right), RightPart(a, b, n, right);
    ShiftPage(h, p, l, a, b, r, za, zb, a', b', h');
    KidsKept(h, h', p, l, a, b, r);
    PartsStored(h', a, b, n, right);
    PairStored(h, h', p, l, a, b, r, a', b');
  }

  lemma ShiftPage(h: map<int, BNode>, p: int, l: seq<Tree>, a: Tree, b: Tree, r: seq<Tree>, za: RID, zb: RID, a': Tree,
                  b': Tree, h': map<int, BNode>)
    requires PairPage(h, p, l, a, b, r, za, zb) && p != NIL && p != a.addr && p != b.addr && a.addr != b.addr
    requires a'.addr == a.addr && b'.addr == b.addr && Size(a') <= SLOTS && Size(b') <= SLOTS && |l| + 1 < |h[p].row|
    requires h' == SetRow(Moved(h, p, |l|, a', b'), p, |l|, Min(a'))
    ensures PairPage(h', p, l, a, b, r, Min(a'), Min(b'))
    ensures a.addr in h' && h'[a.addr] == Image(a') && b.addr in h' && h'[b.addr] == Image(b')
    ensures forall w | w in h && w != p && w != a.addr && w != b.addr :: w in h' && h'[w] == h[w]
  {
    MovedPage(h, p, l, a, b, r, za, zb, a', b');
    PairPageSet(Moved(h, p, |l|, a', b'), p, l, a, b, r, if a'.Leaf? then Min(a') else za, Min(b'), Min(a'));
  }

  /** The refresh is not needed when the left neighbour keeps its least key and its separator was exact. */
  lemma ShiftExact(h: map<int, BNode>, p: int, l: seq<Tree>, a: Tree, b: Tree, r: seq<Tree>, zb: RID, a': Tree,
                   b': Tree)
    requires PairPage(h, p, l, a, b, r, Min(a'), zb) && p != NIL && p != a.addr && p != b.addr && a.addr != b.addr
    requires a'.addr == a.addr && b'.addr == b.addr && Size(a') <= SLOTS && Size(b') <= SLOTS
    ensures |l| + 1 < |h[p].row|
    ensures SetRow(Moved(h, p, |l|, a', b'), p, |l|, Min(a')) == Moved(h, p, |l|, a', b')
  {
    MovedPage(h, p, l, a, b, r, Min(a'), zb, a', b');
    var row := Moved(h, p, |l|, a', b')[p].row;
    assert row[|l|] == (MinList(l) + [Min(a'), Min(b')] + MinList(r))[|l|];
    assert row[|l| := Min(a')] == row;
  }

  /** Refreshing the source's separator after Move makes both separators exact. */
  lemma ShiftRefresh(h: map<int, BNode>, p: int, l: seq<Tree>, a: Tree, b: Tree, r: seq<Tree>, za: RID, zb: RID,
                     a': Tree, b': Tree, right: bool, ht: nat)
    requires PairPage(h, p, l, a, b, r, za, zb) && p != NIL && p != a.addr && p != b.addr && a.addr != b.addr
    requires a'.addr == a.addr && b'.addr == b.addr && Size(a') <= SLOTS && Size(b') <= SLOTS
    requires (Shape(a', ht) || Size(a') == 0) && (Shape(b', ht) || Size(b') == 0)
    requires !right ==> za == Min(a')
    ensures |l| + 1 < |h[p].row|
    ensures var m := Moved(h, p, |l|, a', b'); var x := if right then a'.addr else b'.addr;
            && x in m && |m[x].row| == SLOTS && p in m
            && SetRow(m, p, if right then |l| else |l| + 1, m[x].row[0]) == SetRow(m, p, |l|, Min(a'))
  {
    MovedPage(h, p, l, a, b, r, za, zb, a', b');
    ImageFirst(a', ht);
    ImageFirst(b', ht);
    var m := Moved(h, p, |l|, a', b');
    var z := if a'.Leaf? then Min(a') else za;
    if !right {
      var rows := MinList(l) + [z, Min(b')] + MinList(r);
      assert m[p].row[|l|] == rows[|l|] && m[p].row[|l| + 1] == rows[|l| + 1];
      assert m[p].row[|l| + 1 := Min(b')] == m[p].row == m[p].row[|l| := Min(a')];
    }
  }
}
