/** The B+ tree of b_tree.c over a heap of node pages. */
module BTrees {
  import opened Rids
  import opened BTreeShape
  import opened BTreeContext
  import opened BTreeSteps
  import opened BTreeOrder
  import opened BTreeInsertion
  import opened BTreeDeletion
  import opened BTreeMap

  /** Moves s[j..n] one cell up; cell j keeps its old content. */
  method ShiftUp<T>(s: seq<T>, n: int, j: int) returns (r: seq<T>)
    requires 0 <= j <= n < |s|
    ensures r == s[..j] + s[j..j + 1] + s[j..n] + s[n + 1..]
  {
    r := s;
    var k := n - 1;
    while k >= j
      invariant j - 1 <= k < n && |r| == |s|
      invariant forall q | 0 <= q < |s| && (q <= k + 1 || q > n) :: r[q] == s[q]
      invariant forall q | k + 1 < q <= n :: r[q] == s[q - 1]
    {
      r := r[k + 1 := r[k]];
      k := k - 1;
    }
  }

  /** Moves s[j+1..n] one cell down; cell n-1 keeps its old content. */
  method ShiftDown<T>(s: seq<T>, n: int, j: int) returns (r: seq<T>)
    requires 0 <= j < n <= |s|
    ensures r == s[..j] + s[j + 1..n] + s[n - 1..]
  {
    r := s;
    var k := j + 1;
    while k < n
      invariant j + 1 <= k <= n
      invariant |r| == |s| && forall q | j <= q < k - 1 :: r[q] == s[q + 1]
      invariant forall q | 0 <= q < |s| && (q < j || k - 1 <= q) :: r[q] == s[q]
    {
      r := r[k - 1 := r[k]];
      k := k + 1;
    }
  }

  class BTree {
    const rank: RID -> int
    var nodes: map<int, BNode>
    var root: int
    var freeHead: int
    ghost var tree: Tree
    ghost var height: nat

    /** The pages store a well-formed tree with exact separators and distinct keys. */
    ghost predicate Valid()
      reads this
    {
      && Placed(rank, nodes, root, freeHead, Top, tree, height)
    }

    /** The finite map the tree stands for: key rank to stored RID. */
    ghost function Contents(): map<int, RID>
      reads this
    {
      Index(rank, Keys(tree))
    }

    /** A tree whose root is no leaf: the number of stored keys bounds the number of levels below the root, and back. */
    lemma HeightBounds()
      requires Valid() && height >= 1
      ensures 2 * Pow(DEGREE, height) <= |Contents()| <= Pow(2 * DEGREE - 1, height + 1)
    {
      PlacedSorted(rank, nodes, root, freeHead, Top, tree, height);
      IndexSize(rank, Keys(tree));
      HeightBound(tree, height);
    }

    /** b_tree_init on an empty file. */
    constructor (rank: RID -> int)
      ensures this.rank == rank && Valid() && Contents() == map[] && root == 128 && freeHead == 256 && 128 in nodes
      ensures nodes[128].n == 0 && |nodes[128].child| == |nodes[128].row| == 2 * DEGREE
      ensures forall q | 0 <= q < 2 * DEGREE :: nodes[128].child[q] == -1 && nodes[128].row[q] == RID(-1, 0)
    {
      this.rank := rank;
      root, freeHead := 128, 256;
      nodes := map[128 := BNode(0, seq(SLOTS, _ => NIL), seq(SLOTS, _ => NULL_RID))];
      tree, height := Leaf(128, []), 0;
      new;
      assert nodes[128] == Page([], []);
    }

    /** The comparison callback, as -1, 0 or 1. */
    function Cmp(k: int, r: RID): int {
      if k > rank(r) then 1 else if k < rank(r) then -1 else 0
    }

    /** Stores the address a recursive call returned: the child has kept its page. */
    method SetChild(a: int, j: int, s: int)
      requires a in nodes && 0 <= j < |nodes[a].child| && nodes[a].child[j] == s
      modifies this`nodes
      ensures nodes == old(nodes)
    {
      nodes := nodes[a := nodes[a].(child := nodes[a].child[j := s])];
      assert nodes[a].child == old(nodes[a].child);
    }

    /** The scan shared by search, delete and ReAdj: stops at the first row of rank k or above. */
    method Scan(b: BNode, k: int) returns (j: int)
      requires 0 <= b.n <= |b.row|
      ensures 0 <= j <= b.n
      ensures forall l | 0 <= l < j :: rank(b.row[l]) < k
      ensures j < b.n ==> k <= rank(b.row[j])
    {
      j := 0;
      while j < b.n && (Cmp(k, b.row[j]) == 1 || Cmp(k, b.row[j]) == 0)
        invariant 0 <= j <= b.n
        invariant forall l | 0 <= l < j :: rank(b.row[l]) < k
      {
        if Cmp(k, b.row[j]) == 0 {
          break;
        }
        j := j + 1;
      }
    }

    /** ReAdj at one internal node: rewrites the row of rank key, if there is one, and picks the child to visit. */
    method AdjNode(a: int, key: RID, target: RID, ghost g: Ctx, ghost hole: int, ghost m: RID) returns (j: int)
      requires a in nodes && |nodes[a].child| == |nodes[a].row| == SLOTS && 1 <= nodes[a].n <= SLOTS
      requires g.Top? ==> forall q | 0 <= q < nodes[a].n && rank(nodes[a].row[q]) == rank(key) ::
          nodes[a].row[q] == target
      requires g.Hole? ==> g.addr == a && FrameOk(nodes, g, hole, m) && FrameRoutes(rank, g, m, rank(key))
      modifies this`nodes
      ensures 0 <= j < old(nodes[a].n)
      ensures g.Top? ==> nodes == old(nodes)
      ensures g.Hole? ==> j == |g.left| && old(nodes[a]).child[j] == hole
      ensures g.Hole? ==>
          nodes == old(nodes)[a := old(nodes[a]).(row := old(nodes[a].row)[j := Fix(rank, m, rank(key), target)])]
    {
      var b := nodes[a];
      var k := rank(key);
      j := Scan(b, k);
      var jrec := if j < b.n && Cmp(k, b.row[j]) == 0 then j else 0;
      if g.Hole? {
        FrameSlot(rank, nodes, g, hole, m, k, j);
        assert b.row[|g.left| := m] == b.row;
      }
      if (j == b.n || Cmp(k, b.row[j]) < 0) && j > 0 {
        j := j - 1;
      }
      if Cmp(k, b.row[jrec]) == 0 {
        nodes := nodes[a := b.(row := b.row[jrec := target])];
        assert g.Top? ==> b.row[jrec := target] == b.row;
      }
    }

    /**
     Descends from page a and replaces, on the way, the separators of rank key by target.
     d counts the internal levels from a down to p, the parent of the leaves; c is the context of p.
     */
    method ReAdj(a: int, key: RID, target: RID, ghost c: Ctx, ghost p: int, ghost m: RID, ghost d: nat) returns (r: int)
      requires AdjReady(rank, nodes, a, c, p, m, rank(key), target, d)
      modifies this`nodes
      ensures r == a
      ensures AdjDone(old(nodes), nodes, c, p, m, Fix(rank, m, rank(key), target), d)
      decreases d
    {
      var b := nodes[a];
      ghost var h0, h1 := nodes, nodes;
      ghost var g, hole, m0 := Top, p, m;
      if d > 1 {
        h1 := AdjStep(rank, nodes, c, p, m, rank(key), target, d);
        g, hole, m0 := Outer(c), TopAddr(Inner(c), p), TopMin(Inner(c), m);
        FrameRows(nodes, g, hole, m0);
      }
      if b.child[0] == NIL {
        var j := Scan(b, rank(key));
        if Cmp(rank(key), b.row[j]) != 0 || j == b.n {
          return a;
        }
        return a;
      }
      var j := AdjNode(a, key, target, g, hole, m0);
      var s := ReAdj(b.child[j], key, target, if d > 1 then Inner(c) else Top, p, m, d - 1);
      SetChild(a, j, s);
      if d > 1 {
        AdjFinish(rank, h0, h1, nodes, c, p, m, rank(key), target, d);
      }
      r := a;
    }

    // ----- InsertElement and ReMove -----

    /** InsertElement on a leaf: key goes into cell j, and the parent's separator i is refreshed. */
    method InsertKey(parent: int, x: int, key: RID, i: int, j: int, ghost keys: seq<RID>)
      requires x in nodes && |keys| < SLOTS && nodes[x] == Page([], keys) && 0 <= j <= |keys|
      requires parent != NIL ==> parent in nodes && parent != x && 0 <= i < |nodes[parent].row|
      modifies this`nodes
      ensures nodes == SetRow(old(nodes)[x := Page([], InsAt(keys, j, key))], parent, i, InsAt(keys, j, key)[0])
    {
      var row := ShiftUp(nodes[x].row, nodes[x].n, j);
      row := row[j := key];
      PadIns(keys, NULL_RID, j, key);
      assert row[0] == InsAt(keys, j, key)[0];
      nodes := nodes[x := nodes[x].(row := row)];
      if parent != NIL {
        nodes := SetRow(nodes, parent, i, nodes[x].row[0]);
      }
      nodes := nodes[x := nodes[x].(n := nodes[x].n + 1)];
    }

    /** InsertElement on an internal node: x becomes child i of parent, under the separator x.row[0]. */
    method InsertChild(parent: int, x: int, i: int, ghost cs: seq<int>, ghost rs: seq<RID>)
      requires x in nodes && parent in nodes && |nodes[x].row| == SLOTS
      requires |cs| == |rs| < SLOTS && nodes[parent] == Page(cs, rs) && 0 <= i <= |cs|
      modifies this`nodes
      ensures nodes == old(nodes)[parent := Page(InsAt(cs, i, x), InsAt(rs, i, old(nodes[x]).row[0]))]
    {
      var p := nodes[parent];
      var child := ShiftUp(p.child, p.n, i);
      var row := ShiftUp(p.row, p.n, i);
      PadIns(cs, NIL, i, x);
      PadIns(rs, NULL_RID, i, nodes[x].row[0]);
      nodes := nodes[parent := BNode(p.n + 1, child[i := x], row[i := nodes[x].row[0]])];
    }

    /** ReMove on an internal node: drops child i and its separator. */
    method RemoveChild(parent: int, i: int, ghost cs: seq<int>, ghost rs: seq<RID>)
      requires parent in nodes
      requires |cs| == |rs| <= SLOTS && nodes[parent] == Page(cs, rs) && 0 <= i < |cs|
      modifies this`nodes
      ensures nodes == old(nodes)[parent := Page(DelAt(cs, i), DelAt(rs, i))]
    {
      var p := nodes[parent];
      var child := ShiftDown(p.child, p.n, i);
      var row := ShiftDown(p.row, p.n, i);
      PadDel(cs, NIL, i);
      PadDel(rs, NULL_RID, i);
      nodes := nodes[parent := BNode(p.n - 1, child[p.n - 1 := NIL], row[p.n - 1 := NULL_RID])];
    }

    /** The shift of ReMove on a leaf; the entry count is not yet lowered. */
    method ClearCell(x: int, j: int, ghost keys: seq<RID>)
      requires x in nodes && |keys| <= SLOTS && nodes[x] == Page([], keys) && 0 <= j < |keys|
      modifies this`nodes
      ensures nodes == old(nodes)[x := old(nodes[x]).(row := Pad(DelAt(keys, j), NULL_RID))]
    {
      var row := ShiftDown(nodes[x].row, nodes[x].n, j);
      PadDel(keys, NULL_RID, j);
      nodes := nodes[x := nodes[x].(row := row[nodes[x].n - 1 := NULL_RID])];
    }

    /** The parent's separator i becomes the leaf's least key; ReAdj replaces the old one further up. */
    method Reseparate(parent: int, x: int, i: int, ghost h0: map<int, BNode>, ghost keys': seq<RID>,
                      ghost ks: seq<Tree>, ghost up: Ctx, ghost m: RID)
      requires LeafSite(rank, h0, root, parent, ks, i, up, m) && ks[i].addr == x && parent != NIL
      requires |keys'| == |ks[i].keys| - 1 && (keys' != [] ==>
                                                  rank(Min(ks[i])) <= rank(keys'[0]) && keys'[0].addr != -1)
      requires x in h0 && |keys'| < SLOTS && nodes == h0[x := h0[x].(row := Pad(keys', NULL_RID))]
      modifies this`nodes
      ensures parent in h0 && 0 <= i < |h0[parent].row| && parent != x
      ensures AdjDone(SetRow(old(nodes), parent, i, Head(keys')), nodes, up, parent, m,
                      NewSeparator(rank, m, rank(Min(ks[i])), keys'), Levels(up))
    {
      LeafSitePages(rank, h0, root, parent, ks, i, up, m, i);
      var temp := nodes[parent].row[i];
      var first := nodes[x].row[0];
      assert first == Head(keys');
      nodes := SetRow(nodes, parent, i, first);
      if first.addr != -1 {
        ghost var h := LeafReady(rank, h0, root, parent, ks, i, up, m, keys');
        var _ := ReAdj(root, temp, first, up, parent, m, Levels(up));
      } else {
        LeafReadySpine(rank, h0, nodes, root, parent, ks, i, up, m);
      }
    }

    /**
     ReMove on a leaf: drops key j of leaf x and refreshes the parent's separator i; ReAdj then
     replaces the leaf's old least key in the ancestors' separators.
     */
    method RemoveKey(parent: int, x: int, i: int, j: int, ghost keys: seq<RID>, ghost ks: seq<Tree>, ghost up: Ctx,
                     ghost m: RID)
      requires LeafSite(rank, nodes, root, parent, ks, i, up, m) && ks[i] == Leaf(x, keys) && 0 <= j < |keys|
      modifies this`nodes
      ensures x in old(nodes) && parent in old(nodes) && parent != x && 0 <= i < |old(nodes)[parent].row|
          && |keys| <= SLOTS
      ensures var keys' := DelAt(keys, j);
              AdjDone(SetRow(old(nodes)[x := Page([], keys')], parent, i, Head(keys')), nodes, up, parent, m,
                      NewSeparator(rank, m, rank(keys[0]), keys'), Levels(up))
    {
      ghost var h0, keys' := nodes, DelAt(keys, j);
      assert |keys'| == |keys| - 1 && (keys' != [] ==> keys'[0] in keys && rank(keys[0]) <= rank(keys'[0]));
      LeafSitePages(rank, nodes, root, parent, ks, i, up, m, i);
      ghost var b0 := h0[x].(row := Pad(keys', NULL_RID));
      ClearCell(x, j, keys);
      Reseparate(parent, x, i, h0, keys', ks, up, m);
      LeafCommitted(h0, nodes, up, parent, m, NewSeparator(rank, m, rank(keys[0]), keys'), Levels(up), x, i,
                    Head(keys'),
                    b0, Page([], keys'));
      nodes := nodes[x := nodes[x].(n := nodes[x].n - 1)];
    }

    /** ReMove on a leaf that is the root: it has no separator to refresh, and ReAdj finds nothing to do. */
    method RemoveRootKey(x: int, j: int, ghost keys: seq<RID>)
      requires x in nodes && |keys| <= LIMIT && nodes[x] == Page([], keys) && 0 <= j < |keys| && root == x
      modifies this`nodes
      ensures nodes == old(nodes)[x := Page([], DelAt(keys, j))]
    {
      ClearCell(x, j, keys);
      if nodes[x].row[0].addr != -1 {
        var temp: RID := *;
        var _ := ReAdj(root, temp, nodes[x].row[0], Top, NIL, NULL_RID, 0);
      }
      nodes := nodes[x := nodes[x].(n := nodes[x].n - 1)];
    }

    // ----- CreateNewNode, SplitNode, FindSibling -----

    /** Takes the next page off the bump allocator and blanks it. */
    method CreateNewNode() returns (a: int)
      modifies this`nodes, this`freeHead
      ensures a == old(freeHead) && freeHead == a + 128
      ensures nodes == old(nodes)[a := Page([], [])]
      ensures nodes[a].n == 0 && |nodes[a].child| == |nodes[a].row| == 2 * DEGREE
      ensures forall q | 0 <= q < 2 * DEGREE :: nodes[a].child[q] == -1 && nodes[a].row[q] == RID(-1, 0)
    {
      a := freeHead;
      freeHead := freeHead + 128;
      assert |Pad<int>([], NIL)| == |Pad<RID>([], NULL_RID)| == SLOTS;
      var child: seq<int> :| |child| == SLOTS;
      var row: seq<RID> :| |row| == SLOTS;
      var i := 0;
      while i < SLOTS
        invariant 0 <= i <= SLOTS == |child| == |row|
        invariant forall q | 0 <= q < i :: child[q] == NIL && row[q] == NULL_RID
      {
        row := row[i := NULL_RID];
        child := child[i := NIL];
        i := i + 1;
      }
      assert child == Pad([], NIL) && row == Pad([], NULL_RID);
      nodes := nodes[a := BNode(0, child, row)];
    }

    /** The loop of SplitNode: the upper half of a full page moves to a blank one. */
    method SplitPages(full: BNode, blank: BNode, ghost cs: seq<int>, ghost rs: seq<RID>) returns (x: BNode, y: BNode)
      requires |rs| == SLOTS && (cs == [] || (|cs| == SLOTS && cs[0] != NIL))
      requires full == Page(cs, rs) && blank == Page([], [])
      ensures x == Page(if cs == [] then [] else cs[..DEGREE], rs[..DEGREE])
      ensures y == Page(if cs == [] then [] else cs[DEGREE..], rs[DEGREE..])
    {
      x, y := full, blank;
      var j, k, limit := x.n / 2, 0, x.n;
      while j < limit
        invariant DEGREE <= j <= SLOTS && k == j - DEGREE && x.n == SLOTS - k && y.n == k
        invariant |x.row| == |y.row| == |x.child| == |y.child| == SLOTS
        invariant forall q | 0 <= q < SLOTS :: x.row[q] == if DEGREE <= q < j then NULL_RID else rs[q]
        invariant forall q | 0 <= q < SLOTS :: y.row[q] == if q < k then rs[DEGREE + q] else NULL_RID
        invariant cs == [] ==> x.child == full.child && y.child == blank.child
        invariant cs != [] ==> forall q | 0 <= q < SLOTS :: x.child[q] == if DEGREE <= q < j then NIL else cs[q]
        invariant cs != [] ==> forall q | 0 <= q < SLOTS :: y.child[q] == if q < k then cs[DEGREE + q] else NIL
      {
        if x.child[0] != NIL {
          y := y.(child := y.child[k := x.child[j]]);
          x := x.(child := x.child[j := NIL]);
        }
        y := y.(row := y.row[k := x.row[j]], n := y.n + 1);
        x := x.(row := x.row[j := NULL_RID], n := x.n - 1);
        j, k := j + 1, k + 1;
      }
      assert x.row == Pad(rs[..DEGREE], NULL_RID) && y.row == Pad(rs[DEGREE..], NULL_RID);
      assert cs != [] ==> x.child == Pad(cs[..DEGREE], NIL) && y.child == Pad(cs[DEGREE..], NIL);
    }

    /** The upper half of the full node x moves to the blank node y. */
    method Halve(x: int, y: int, ghost t: Tree, ghost h: nat)
      requires Shape(t, h) && Size(t) == SLOTS && t.addr == x && Stored(nodes, t)
      requires y in nodes && y != x && nodes[y] == Page([], []) && forall q | q in Addrs(t) :: 0 <= q
      modifies this`nodes
      ensures nodes == old(nodes)[x := Image(Take(t, DEGREE))][y := Image(Drop(t, y, DEGREE))]
      ensures Image(Take(t, DEGREE)).row[0] == Min(Take(t, DEGREE))
          && Image(Drop(t, y, DEGREE)).row[0] == Min(Drop(t, y, DEGREE))
    {
      ghost var cs := if t.Leaf? then [] else AddrList(t.kids);
      ghost var rs := if t.Leaf? then t.keys else MinList(t.kids);
      if t.Node? {
        AddrOf(t.kids[0]);
        assert t.kids[0].addr in Addrs(t);
      }
      var px, py := SplitPages(nodes[x], nodes[y], cs, rs);
      nodes := nodes[x := px][y := py];
      HalfImages(t, y, h, cs, rs, px, py, DEGREE);
    }

    /**
     SplitNode: the right half of x becomes the parent's child i + 1; without a parent, both halves go under a new
     root.
     */
    method SplitNode(parent: int, x: int, i: int, ghost t: Tree, ghost h: nat, ghost cs: seq<int>, ghost rs: seq<RID>)
        returns (r: int)
      requires Shape(t, h) && Size(t) == SLOTS && t.addr == x && Stored(nodes, t)
      requires Bounded(Addrs(t), freeHead)
      requires parent != NIL ==> |cs| == |rs| <= LIMIT && 0 <= i < |cs|
      requires parent != NIL ==>
          parent in nodes && 0 <= parent < freeHead && parent != x && nodes[parent] == Page(cs, rs)
      modifies this`nodes, this`freeHead
      ensures var y := old(freeHead); var X, Y := Take(t, DEGREE), Drop(t, y, DEGREE);
              if parent != NIL then
                && r == x && freeHead == y + 128
                && nodes == old(nodes)[x := Image(X)][y := Image(Y)][parent := Page(InsAt(cs, i + 1, y),
                    InsAt(rs, i + 1, Min(Y)))]
              else
                && r == y + 128 && freeHead == y + 256
                && nodes == old(nodes)[x := Image(X)][y := Image(Y)][r := Page([x, y], [Min(X), Min(Y)])]
    {
      var y := CreateNewNode();
      ghost var X, Y := Take(t, DEGREE), Drop(t, y, DEGREE);
      AddrOf(t);
      StoredFrame(old(nodes), nodes, t);
      Halve(x, y, t, h);
      if parent != NIL {
        InsertChild(parent, y, i + 1, cs, rs);
        r := x;
      } else {
        r := CreateNewNode();
        InsertChild(r, x, 0, [], []);
        InsertChild(r, y, 1, [x], [Min(X)]);
        assert InsAt([x], 1, y) == [x, y] && InsAt([Min(X)], 1, Min(Y)) == [Min(X), Min(Y)];
      }
    }

    /** FindSibling: a neighbour of child i with room for one more entry, the right one if it has. */
    method FindSibling(parent: int, i: int) returns (r: int)
      requires parent in nodes && |nodes[parent].child| == SLOTS && 2 <= nodes[parent].n <= LIMIT
          && 0 <= i < nodes[parent].n
      requires forall q | 0 <= q < nodes[parent].n :: nodes[parent].child[q] in nodes
      ensures Sibling(nodes, nodes[parent], i, r)
      ensures var p := nodes[parent];
              r == if i + 1 < p.n && nodes[p.child[i + 1]].n < 2 * DEGREE - 1 then p.child[i + 1]
                   else if i > 0 && nodes[p.child[i - 1]].n < 2 * DEGREE - 1 then p.child[i - 1]
                   else -1
    {
      var p := nodes[parent];
      r := NIL;
      if i == 0 {
        if nodes[p.child[1]].n < LIMIT {
          r := p.child[1];
        }
      } else {
        if nodes[p.child[i - 1]].n < LIMIT {
          r := p.child[i - 1];
        }
        var c := p.child[i + 1];
        if i + 1 < p.n && nodes[c].n < LIMIT {
          r := c;
        }
      }
    }

    /** FindSiblingn_M_2: a neighbour of child i with an entry to spare, and its position. */
    method FindDonor(parent: int, i: int) returns (r: int, j: int)
      requires parent in nodes && |nodes[parent].child| == SLOTS && 2 <= nodes[parent].n <= LIMIT
          && 0 <= i < nodes[parent].n
      requires forall q | 0 <= q < nodes[parent].n :: nodes[parent].child[q] in nodes && nodes[parent].child[q] != NIL
      ensures Donor(nodes, nodes[parent], i, r, j)
      ensures var p := nodes[parent];
              if i + 1 < p.n && nodes[p.child[i + 1]].n > DEGREE then
                r == p.child[i + 1] && j == i + 1
              else if i > 0 && nodes[p.child[i - 1]].n > DEGREE then
                r == p.child[i - 1] && j == i - 1
              else
                r == -1
    {
      var p := nodes[parent];
      r, j := NIL, 0;
      if i == 0 {
        if nodes[p.child[1]].n > DEGREE {
          r, j := p.child[1], 1;
        }
      } else {
        if nodes[p.child[i - 1]].n > DEGREE {
          r, j := p.child[i - 1], i - 1;
        }
        var c := p.child[i + 1];
        if i + 1 < p.n && nodes[c].n > DEGREE {
          r, j := c, i + 1;
        }
      }
    }

    // ----- Move -----

    /** ReMove as Move uses it: the key that goes is no separator above the parent, or its successor is the same key. */
    method DropKey(p: int, x: int, i: int, j: int, ghost keys: seq<RID>, ghost ks: seq<Tree>, ghost up: Ctx,
                   ghost m: RID, ghost keys': seq<RID>)
      requires LeafSite(rank, nodes, root, p, ks, i, up, m) && ks[i] == Leaf(x, keys) && 0 <= j < |keys| && p != NIL
      requires keys' == DelAt(keys, j) && (keys' == [] || Fix(rank, m, rank(keys[0]), keys'[0]) == m)
      modifies this`nodes
      ensures x in old(nodes) && p in old(nodes) && p != x && 0 <= i < |old(nodes)[p].row| && |keys| <= SLOTS
      ensures nodes == SetRow(old(nodes)[x := Page([], keys')], p, i, Head(keys'))
    {
      RemoveKey(p, x, i, j, keys, ks, up, m);
    }

    /** One round of Move between leaves, source on the left: the last key of a becomes the first of b. */
    method MoveKeyRight(p: int, a: int, b: int, i: int, ghost l: seq<Tree>, ghost ak: seq<RID>, ghost bk: seq<RID>,
                        ghost r: seq<Tree>, ghost up: Ctx, ghost m: RID, ghost ak': seq<RID>, ghost bk': seq<RID>)
      requires LeafRow(rank, nodes, root, p, l + [Leaf(a, ak), Leaf(b, bk)] + r, i, up, m) && i == |l|
      requires ak != [] && Routes(rank, up, m, rank(ak[0])) && (rank(m) == rank(ak[0]) ==> m == ak[0])
      requires ak' == ak[..|ak| - 1] && bk' == [ak[|ak| - 1]] + bk
      modifies this`nodes
      ensures p in old(nodes) && i + 1 < |old(nodes)[p].row| && |ak| <= SLOTS && |bk| < SLOTS
      ensures nodes == Relaid(old(nodes), p, a, b, i, ak', bk')
    {
      ghost var ks := l + [Leaf(a, ak), Leaf(b, bk)] + r;
      RowPair(rank, nodes, root, p, l, Leaf(a, ak), Leaf(b, bk), r, i, up, m);
      assert ks[i] == Leaf(a, ak);
      RowSite(rank, nodes, root, p, ks, i, up, m);
      var n := nodes[a].n;
      var tmp := nodes[a].row[n - 1];
      assert n == |ak| && tmp == ak[n - 1] && DelAt(ak, n - 1) == ak';
      DropKey(p, a, i, n - 1, ak, ks, up, m, ak');
      assert InsAt(bk, 0, tmp) == bk';
      InsertKey(p, b, tmp, i + 1, 0, bk);
      RelaidRight(old(nodes), p, a, b, i, ak', bk', i + 1);
    }

    /** One round of Move between leaves, source on the right: the first key of b becomes the last of a. */
    method MoveKeyLeft(p: int, a: int, b: int, i: int, ghost l: seq<Tree>, ghost ak: seq<RID>, ghost bk: seq<RID>,
                       ghost r: seq<Tree>, ghost up: Ctx, ghost m: RID, ghost ak': seq<RID>, ghost bk': seq<RID>)
      requires LeafRow(rank, nodes, root, p, l + [Leaf(a, ak), Leaf(b, bk)] + r, i, up, m) && i == |l| + 1
      requires bk != [] && Routes(rank, up, m, rank(bk[0])) && rank(m) != rank(bk[0])
      requires ak' == ak + [bk[0]] && bk' == bk[1..]
      modifies this`nodes
      ensures p in old(nodes) && 0 < i < |old(nodes)[p].row| && |ak| < SLOTS && |bk| <= SLOTS
      ensures nodes == Relaid(old(nodes), p, a, b, |l|, ak', bk')
    {
      ghost var ks := l + [Leaf(a, ak), Leaf(b, bk)] + r;
      RowPair(rank, nodes, root, p, l, Leaf(a, ak), Leaf(b, bk), r, i, up, m);
      assert ks[i] == Leaf(b, bk);
      RowSite(rank, nodes, root, p, ks, i, up, m);
      var tmp := nodes[b].row[0];
      assert tmp == bk[0] && DelAt(bk, 0) == bk';
      DropKey(p, b, i, 0, bk, ks, up, m, bk');
      assert InsAt(ak, |ak|, tmp) == ak';
      InsertKey(p, a, tmp, i - 1, nodes[a].n, ak);
      RelaidLeft(old(nodes), p, a, b, |l|, ak', bk', i);
    }

    /** The same round, counted from the heap h0 that the loop started with. */
    method KeyRightRound(p: int, a: int, b: int, i: int, ghost h0: map<int, BNode>, ghost l: seq<Tree>, ghost A: Tree,
                         ghost B: Tree, ghost r: seq<Tree>, ghost up: Ctx, ghost m: RID, ghost a1: seq<RID>,
                         ghost b1: seq<RID>, ghost a2: seq<RID>, ghost b2: seq<RID>)
      requires LeafRow(rank, h0, root, p, l + [A, B] + r, i, up, m) && i == |l| && A.Leaf? && B.Leaf? && A.addr == a
          && B.addr == b
      requires PassesRight(rank, A.keys, B.keys, up, m, a1, b1, a2, b2)
      requires p in h0 && i + 1 < |h0[p].row| && nodes == Relaid(h0, p, a, b, i, a1, b1)
      modifies this`nodes
      ensures nodes == Relaid(h0, p, a, b, i, a2, b2)
    {
      RelaidRow(rank, h0, root, p, l, A, B, r, i, i, up, m, a1, b1);
      MoveKeyRight(p, a, b, i, l, a1, b1, r, up, m, a2, b2);
      RelaidTwice(h0, p, a, b, i, a1, b1, a2, b2);
    }

    method KeyLeftRound(p: int, a: int, b: int, i: int, ghost h0: map<int, BNode>, ghost l: seq<Tree>, ghost A: Tree,
                        ghost B: Tree, ghost r: seq<Tree>, ghost up: Ctx, ghost m: RID, ghost a1: seq<RID>,
                        ghost b1: seq<RID>, ghost a2: seq<RID>, ghost b2: seq<RID>)
      requires LeafRow(rank, h0, root, p, l + [A, B] + r, i, up, m) && i == |l| + 1 && A.Leaf? && B.Leaf?
          && A.addr == a && B.addr == b
      requires a1 + b1 == A.keys + B.keys && a1 != [] && b1 != [] && |b1| <= SLOTS && |a1| <= LIMIT
      requires Routes(rank, up, m, rank(b1[0])) && rank(m) != rank(b1[0])
      requires p in h0 && i < |h0[p].row| && nodes == Relaid(h0, p, a, b, |l|, a1, b1)
      requires a2 == a1 + [b1[0]] && b2 == b1[1..]
      modifies this`nodes
      ensures nodes == Relaid(h0, p, a, b, |l|, a2, b2)
    {
      RelaidRow(rank, h0, root, p, l, A, B, r, i, i, up, m, a1, b1);
      MoveKeyLeft(p, a, b, i, l, a1, b1, r, up, m, a2, b2);
      RelaidTwice(h0, p, a, b, |l|, a1, b1, a2, b2);
    }

    method MoveKeysRight(p: int, a: int, b: int, i: int, n: int, ghost l: seq<Tree>, ghost ak: seq<RID>,
                         ghost bk: seq<RID>, ghost r: seq<Tree>, ghost up: Ctx, ghost m: RID)
      requires LeafRow(rank, nodes, root, p, l + [Leaf(a, ak), Leaf(b, bk)] + r, i, up, m) && i == |l|
      requires 0 <= n <= |ak| && |bk| + n <= SLOTS
      requires ak != [] && Routes(rank, up, m, rank(ak[0])) && (rank(m) == rank(ak[0]) ==> m == ak[0])
      modifies this`nodes
      ensures p in old(nodes) && i + 1 < |old(nodes)[p].row| && |ak| <= SLOTS
      ensures nodes == Relaid(old(nodes), p, a, b, i, ak[..|ak| - n], ak[|ak| - n..] + bk)
    {
      ghost var h0, A, B := nodes, Leaf(a, ak), Leaf(b, bk);
      var j := 0;
      RowPair(rank, h0, root, p, l, A, B, r, i, up, m);
      ghost var a1, b1 := ak, bk;
      while j < n
        invariant 0 <= j <= n
        invariant PassedRight(ak, bk, a1, b1, j)
        invariant nodes == Relaid(h0, p, a, b, i, a1, b1)
      {
        ghost var a2, b2 := PassRight(rank, ak, bk, up, m, a1, b1, j, j + 1);
        KeyRightRound(p, a, b, i, h0, l, A, B, r, up, m, a1, b1, a2, b2);
        a1, b1 := a2, b2;
        j := j + 1;
      }
    }

    method MoveKeysLeft(p: int, a: int, b: int, i: int, n: int, ghost l: seq<Tree>, ghost ak: seq<RID>,
                        ghost bk: seq<RID>, ghost r: seq<Tree>, ghost up: Ctx, ghost m: RID)
      requires LeafRow(rank, nodes, root, p, l + [Leaf(a, ak), Leaf(b, bk)] + r, i, up, m) && i == |l| + 1
      requires 0 <= n <= |bk| && |ak| + n <= SLOTS
      requires forall k | k in bk :: Routes(rank, up, m, rank(k)) && rank(m) != rank(k)
      modifies this`nodes
      ensures p in old(nodes) && 0 < i < |old(nodes)[p].row| && |bk| <= SLOTS
      ensures nodes == Relaid(old(nodes), p, a, b, |l|, ak + bk[..n], bk[n..])
    {
      ghost var h0, A, B := nodes, Leaf(a, ak), Leaf(b, bk);
      var j := 0;
      RowPair(rank, h0, root, p, l, A, B, r, i, up, m);
      ghost var a1, b1 := ak, bk;
      while j < n
        invariant 0 <= j <= n
        invariant PassedLeft(ak, bk, a1, b1, j)
        invariant nodes == Relaid(h0, p, a, b, |l|, a1, b1)
      {
        ghost var a2, b2 := PassLeft(ak, bk, a1, b1, j);
        KeyLeftRound(p, a, b, i, h0, l, A, B, r, up, m, a1, b1, a2, b2);
        a1, b1 := a2, b2;
        j := j + 1;
      }
    }

    /** One round of Move between internal nodes, source on the left: a's last child becomes b's first. */
    method MoveChildRight(a: int, b: int, ghost ak: seq<Tree>, ghost bk: seq<Tree>)
      requires a in nodes && b in nodes && a != b && 1 <= |ak| <= SLOTS && |bk| < SLOTS && KidPages(nodes, ak, a, b)
      requires nodes == Rekid(nodes, a, b, ak, bk)
      modifies this`nodes
      ensures nodes == Rekid(old(nodes), a, b, ak[..|ak| - 1], [ak[|ak| - 1]] + bk)
    {
      var n := nodes[a].n;
      ghost var last := ak[|ak| - 1];
      assert nodes[a] == Page(AddrList(ak), MinList(ak)) && nodes[b] == Page(AddrList(bk), MinList(bk));
      var child := nodes[a].child[n - 1];
      assert child == AddrList(ak)[n - 1] == last.addr;
      RemoveChild(a, n - 1, AddrList(ak), MinList(ak));
      assert DelAt(AddrList(ak), n - 1) == AddrList(ak[..n - 1]) && DelAt(MinList(ak), n - 1) == MinList(ak[..n - 1]);
      InsertChild(b, child, 0, AddrList(bk), MinList(bk));
      assert InsAt(AddrList(bk), 0, child) == AddrList([last] + bk)
          && InsAt(MinList(bk), 0, Min(last)) == MinList([last] + bk);
    }

    /** One round of Move between internal nodes, source on the right: b's first child becomes a's last. */
    method MoveChildLeft(a: int, b: int, ghost ak: seq<Tree>, ghost bk: seq<Tree>)
      requires a in nodes && b in nodes && a != b && |ak| < SLOTS && 1 <= |bk| <= SLOTS && KidPages(nodes, bk, a, b)
      requires nodes == Rekid(nodes, a, b, ak, bk)
      modifies this`nodes
      ensures nodes == Rekid(old(nodes), a, b, ak + [bk[0]], bk[1..])
    {
      ghost var first := bk[0];
      assert nodes[a] == Page(AddrList(ak), MinList(ak)) && nodes[b] == Page(AddrList(bk), MinList(bk));
      var child := nodes[b].child[0];
      assert child == AddrList(bk)[0] == first.addr;
      RemoveChild(b, 0, AddrList(bk), MinList(bk));
      assert DelAt(AddrList(bk), 0) == AddrList(bk[1..]) && DelAt(MinList(bk), 0) == MinList(bk[1..]);
      InsertChild(a, child, nodes[a].n, AddrList(ak), MinList(ak));
      assert InsAt(AddrList(ak), |ak|, child) == AddrList(ak + [first])
          && InsAt(MinList(ak), |ak|, Min(first)) == MinList(ak + [first]);
    }

    method MoveChildrenRight(a: int, b: int, n: int, ghost ak: seq<Tree>, ghost bk: seq<Tree>)
      requires a in nodes && b in nodes && a != b && 0 <= n <= |ak| <= SLOTS && |bk| + n <= SLOTS
          && KidPages(nodes, ak, a, b)
      requires nodes == Rekid(nodes, a, b, ak, bk)
      modifies this`nodes
      ensures nodes == Rekid(old(nodes), a, b, ak[..|ak| - n], ak[|ak| - n..] + bk)
    {
      ghost var h0 := nodes;
      var j := 0;
      assert ak[..|ak| - 0] == ak && ak[|ak| - 0..] + bk == bk;
      while j < n
        invariant 0 <= j <= n
        invariant nodes == Rekid(h0, a, b, ak[..|ak| - j], ak[|ak| - j..] + bk)
      {
        ghost var a1, b1 := ak[..|ak| - j], ak[|ak| - j..] + bk;
        assert a1[..|a1| - 1] == ak[..|ak| - (j + 1)] && [a1[|a1| - 1]] + b1 == ak[|ak| - (j + 1)..] + bk;
        MoveChildRight(a, b, a1, b1);
        j := j + 1;
      }
    }

    method MoveChildrenLeft(a: int, b: int, n: int, ghost ak: seq<Tree>, ghost bk: seq<Tree>)
      requires a in nodes && b in nodes && a != b && 0 <= n <= |bk| <= SLOTS && |ak| + n <= SLOTS
          && KidPages(nodes, bk, a, b)
      requires nodes == Rekid(nodes, a, b, ak, bk)
      modifies this`nodes
      ensures nodes == Rekid(old(nodes), a, b, ak + bk[..n], bk[n..])
    {
      ghost var h0 := nodes;
      var j := 0;
      assert ak + bk[..0] == ak && bk[0..] == bk;
      while j < n
        invariant 0 <= j <= n
        invariant nodes == Rekid(h0, a, b, ak + bk[..j], bk[j..])
      {
        ghost var a1, b1 := ak + bk[..j], bk[j..];
        assert b1[1..] == bk[j + 1..] && a1 + [b1[0]] == ak + bk[..j + 1];
        MoveChildLeft(a, b, a1, b1);
        j := j + 1;
      }
    }

    /** The loops of Move, by the direction of the shift and the kind of the nodes. */
    method MoveEntries(src: int, dst: int, parent: int, i: int, n: int, srcInFront: bool, ghost l: seq<Tree>,
                       ghost a: Tree, ghost b: Tree, ghost r: seq<Tree>, ghost up: Ctx, ghost m: RID, ghost h: nat)
      requires PairSite(rank, nodes, root, parent, l, a, b, r, n, srcInFront, up, m, h)
      requires if srcInFront then src == a.addr && dst == b.addr && i == |l|
               else src == b.addr && dst == a.addr && i == |l| + 1
      modifies this`nodes
      ensures nodes == Shifted(old(nodes), parent, |l|, LeftPart(a, b, n, srcInFront), RightPart(a, b, n, srcInFront))
    {
      PairPages(rank, nodes, root, parent, l, a, b, r, n, srcInFront, up, m, h);
      RekidSame(nodes, a, b);
      var internal := nodes[src].child[0] != NIL;
      if srcInFront {
        if internal {
          MoveChildrenRight(src, dst, n, a.kids, b.kids);
        } else {
          MoveKeysRight(parent, src, dst, i, n, l, a.keys, b.keys, r, up, m);
        }
      } else {
        if internal {
          MoveChildrenLeft(dst, src, n, a.kids, b.kids);
        } else {
          MoveKeysLeft(parent, dst, src, i, n, l, a.keys, b.keys, r, up, m);
        }
      }
    }

    /** Shifts n entries from src, child i of parent, to its neighbour dst, the next child if right holds. */
    method Move(src: int, dst: int, parent: int, i: int, n: int, ghost l: seq<Tree>, ghost a: Tree, ghost b: Tree,
                ghost r: seq<Tree>, ghost up: Ctx, ghost m: RID, ghost h: nat, ghost right: bool)
      requires PairSite(rank, nodes, root, parent, l, a, b, r, n, right, up, m, h)
      requires if right then src == a.addr && dst == b.addr && i == |l|
               else src == b.addr && dst == a.addr && i == |l| + 1
      modifies this`nodes
      ensures nodes == Moved(old(nodes), parent, |l|, LeftPart(a, b, n, right), RightPart(a, b, n, right))
    {
      PairPages(rank, nodes, root, parent, l, a, b, r, n, right, up, m, h);
      var srcInFront := Cmp(rank(nodes[src].row[0]), nodes[dst].row[0]) == -1;
      MoveEntries(src, dst, parent, i, n, srcInFront, l, a, b, r, up, m, h);
      PartsFirst(a, b, n, right, h);
      MovedSeparator(old(nodes), parent, |l|, LeftPart(a, b, n, right), RightPart(a, b, n, right), nodes,
                     if srcInFront then dst else src, if srcInFront then i + 1 else i);
      if srcInFront {
        nodes := SetRow(nodes, parent, i + 1, nodes[dst].row[0]);
      } else {
        nodes := SetRow(nodes, parent, i, nodes[src].row[0]);
      }
    }

    // ----- insertion -----

    /** The overflowed node x shifts one entry to its neighbour s. */
    method ShiftOverflow(x: int, s: int, parent: int, i: int, ghost c: Ctx, ghost t: Tree, ghost t1: Tree,
                         ghost h: nat, ghost key: RID, ghost z: RID, ghost l: seq<Tree>, ghost a: Tree, ghost b: Tree,
                         ghost r: seq<Tree>, ghost right: bool)
        returns (ghost out: Tree)
      requires ShiftCase(rank, nodes, root, freeHead, c, t, t1, h, key, z, l, a, b, r, right)
      requires parent == c.addr && i == |c.left|
      requires x == t1.addr && s == (if right then b else a).addr
      modifies this`nodes
      ensures parent in nodes && i < |nodes[parent].row| && x in nodes && |nodes[x].row| == SLOTS && parent != NIL
      ensures Inserted(rank, SetRow(nodes, parent, i, nodes[x].row[0]), freeHead, c, t, out, h, key)
      ensures out.kids == l + [LeftPart(a, b, 1, right), RightPart(a, b, 1, right)] + r
    {
      ShiftSettled(rank, nodes, root, freeHead, c, t, t1, h, key, z, l, a, b, r, right);
      Move(x, s, parent, i, 1, l, a, b, r, c.up, UpMin(c, Min(t)), h, right);
      out := Node(parent, l + [LeftPart(a, b, 1, right), RightPart(a, b, 1, right)] + r);
    }

    /** The overflowed node x splits below its parent. */
    method SplitOverflow(x: int, parent: int, i: int, ghost c: Ctx, ghost t: Tree, ghost t1: Tree, ghost h: nat,
                         ghost key: RID, ghost z: RID)
        returns (ghost out: Tree)
      requires GrownHole(rank, nodes, root, freeHead, c, t, t1, h, key, z) && Size(t1) == SLOTS
      requires parent == c.addr && i == |c.left| && x == t1.addr
      modifies this`nodes, this`freeHead
      ensures parent in nodes && i < |nodes[parent].row| && x in nodes && |nodes[x].row| == SLOTS && parent != NIL
      ensures Inserted(rank, SetRow(nodes, parent, i, nodes[x].row[0]), freeHead, c, t, out, h, key)
      ensures freeHead == old(freeHead) + 128
      ensures out.kids == c.left + [Take(t1, DEGREE), Drop(t1, old(freeHead), DEGREE)] + c.right
    {
      ghost var h0, free := nodes, freeHead;
      HolePages(nodes, c, t1, z, freeHead);
      var _ := SplitNode(parent, x, i, t1, h, AddrList(c.left) + [t1.addr] + AddrList(c.right),
                         MinList(c.left) + [z] + MinList(c.right));
      SplitSettled(rank, h0, root, free, c, t, t1, h, key, z, nodes);
      out := Node(c.addr, c.left + [Take(t1, DEGREE), Drop(t1, free, DEGREE)] + c.right);
    }

    /**
     An overflowed node below a parent: one entry goes to the next child if that has room, else to the previous one
     if that has; a page is taken, and the node splits, exactly when neither has.
     */
    method Overflow(a: int, i: int, parent: int, ghost c: Ctx, ghost t: Tree, ghost t1: Tree, ghost h: nat,
                    ghost key: RID, ghost z: RID)
        returns (ghost out: Tree)
      requires GrownHole(rank, nodes, root, freeHead, c, t, t1, h, key, z) && Size(t1) == SLOTS
      requires parent == c.addr && i == |c.left| && a == t1.addr
      modifies this`nodes, this`freeHead
      ensures parent in nodes && i < |nodes[parent].row| && a in nodes && |nodes[a].row| == SLOTS && parent != NIL
      ensures Inserted(rank, SetRow(nodes, parent, i, nodes[a].row[0]), freeHead, c, t, out, h, key)
      ensures SpreadOut(c, t1, old(freeHead), out.kids, freeHead)
    {
      HolePages(nodes, c, t1, z, freeHead);
      HoleNil(nodes, c, t1, freeHead, z);
      var s := FindSibling(parent, i);
      if s != NIL {
        ghost var l, a0, b0, r0, right := ShiftParts(rank, nodes, root, freeHead, c, t, t1, h, key, z, s, i);
        out := ShiftOverflow(a, s, parent, i, c, t, t1, h, key, z, l, a0, b0, r0, right);
      } else {
        SiblingSides(nodes, c, t1, z, freeHead, s, i);
        out := SplitOverflow(a, parent, i, c, t, t1, h, key, z);
      }
    }

    /** The end of RecursiveInsert below a parent: an overflow is shifted or split, and the separator refreshed. */
    method SettleBelow(a: int, i: int, parent: int, ghost c: Ctx, ghost t: Tree, ghost t1: Tree, ghost h: nat,
                       ghost key: RID, ghost z: RID, ghost drop: bool)
        returns (ghost out: Tree)
      requires if drop then Placed(rank, nodes, root, freeHead, c, t, h) && t1 == t && z == Min(t) && c.Hole?
               else GrownHole(rank, nodes, root, freeHead, c, t, t1, h, key, z)
      requires parent == c.addr && i == |c.left| && a == t1.addr
      modifies this`nodes, this`freeHead
      ensures if drop then nodes == old(nodes) && freeHead == old(freeHead) && out == Around(c, t)
              else Inserted(rank, nodes, freeHead, c, t, out, h, key)
      ensures if Size(t1) == SLOTS then SpreadOut(c, t1, old(freeHead), out.kids, freeHead)
              else out == Around(c, t1) && freeHead == old(freeHead)
    {
      HolePages(nodes, c, t1, z, freeHead);
      if nodes[a].n > LIMIT {
        out := Overflow(a, i, parent, c, t, t1, h, key, z);
      } else {
        if drop {
          SeparatorSame(rank, nodes, root, freeHead, c, t, h);
        } else {
          ghost var _ := KeepOut(rank, nodes, root, freeHead, c, t, t1, h, key, z);
          ImageFirst(t1, h);
        }
        out := Around(c, t1);
      }
      nodes := SetRow(nodes, parent, i, nodes[a].row[0]);
    }

    /** The end of RecursiveInsert at the root: an overflow grows the tree by a level. */
    method SettleRoot(a: int, ghost t: Tree, ghost t1: Tree, ghost h: nat, ghost key: RID, ghost z: RID,
                      ghost drop: bool)
        returns (r: int, ghost out: Tree, ghost h': nat)
      requires a == t1.addr && a in nodes && nodes[a].n == Size(t1)
      requires if drop then t1 == t else Grown(rank, nodes, root, freeHead, Top, t, t1, h, key, z)
      requires Shape(t, h) && Size(t) <= LIMIT && (t.Node? ==> 2 <= Size(t))
      modifies this`nodes, this`freeHead
      ensures if drop then nodes == old(nodes) && freeHead == old(freeHead) && out == t && h' == h && r == a
              else InsertedTop(rank, nodes, freeHead, t, out, h, h', key) && r == out.addr
      ensures if Size(t1) == SLOTS then
                && freeHead == old(freeHead) + 256 && h' == h + 1
                && out == Node(old(freeHead) + 128, [Take(t1, DEGREE), Drop(t1, old(freeHead), DEGREE)])
              else
                out == t1 && h' == h && freeHead == old(freeHead)
    {
      r, out, h' := a, t1, h;
      AddrOf(t1);
      if nodes[a].n > LIMIT {
        r, out := GrowRoot(a, t, t1, h, key, z);
        h' := h + 1;
      } else {
        assert Addrs(t1) + AddrsC(Top) == Addrs(t1);
      }
    }

    /** The root splits below a new root. */
    method GrowRoot(a: int, ghost t: Tree, ghost t1: Tree, ghost h: nat, ghost key: RID, ghost z: RID)
        returns (r: int, ghost out: Tree)
      requires Grown(rank, nodes, root, freeHead, Top, t, t1, h, key, z) && Size(t1) == SLOTS && a == t1.addr
      modifies this`nodes, this`freeHead
      ensures InsertedTop(rank, nodes, freeHead, t, out, h, h + 1, key) && r == out.addr
      ensures freeHead == old(freeHead) + 256
      ensures out == Node(old(freeHead) + 128, [Take(t1, DEGREE), Drop(t1, old(freeHead), DEGREE)])
    {
      assert Addrs(t1) + AddrsC(Top) == Addrs(t1);
      AddrOf(t1);
      ghost var h0, free := nodes, freeHead;
      r := SplitNode(NIL, a, 0, t1, h, [], []);
      RootSplit(rank, h0, root, free, t, t1, h, key, z, nodes);
      out := Node(free + 128, [Take(t1, DEGREE), Drop(t1, free, DEGREE)]);
    }

    /** RecursiveInsert's scan: past every row that is not above k. */
    method ScanPast(b: BNode, k: int) returns (j: int)
      requires 0 <= b.n <= |b.row|
      ensures 0 <= j <= b.n
      ensures forall l | 0 <= l < j :: rank(b.row[l]) <= k
      ensures j < b.n ==> k < rank(b.row[j])
    {
      j := 0;
      while j < b.n && (Cmp(k, b.row[j]) == 1 || Cmp(k, b.row[j]) == 0)
        invariant 0 <= j <= b.n
        invariant forall l | 0 <= l < j :: rank(b.row[l]) <= k
      {
        j := j + 1;
      }
    }

    /** The scan of RecursiveInsert at page a, and the entry it settles on. */
    method InsertionPoint(a: int, key: RID, ghost c: Ctx, ghost t: Tree, ghost h: nat) returns (j: int)
      requires Placed(rank, nodes, root, freeHead, c, t, h) && a == t.addr
      ensures a in nodes && 0 <= j < |nodes[a].row| && |nodes[a].child| == SLOTS
      ensures t.Leaf? <==> nodes[a].child[0] == NIL
      ensures Settles(nodes, rank, t, key, j)
    {
      PlacedPage(rank, nodes, root, freeHead, c, t, h);
      var b := nodes[a];
      j := ScanPast(b, rank(key));
      if t.Node? {
        InsertScan(rank, t, b, j, rank(key), h);
      }
      if j != 0 && b.child[0] != NIL {
        j := j - 1;
      }
    }

    /** The end of RecursiveInsert. */
    method Settle(a: int, i: int, parent: int, ghost c: Ctx, ghost t: Tree, ghost t1: Tree, ghost h: nat,
                  ghost key: RID, ghost z: RID, ghost h0: map<int, BNode>, ghost free0: int)
        returns (r: int, ghost out: Tree, ghost h': nat)
      requires GrownOrSame(rank, h0, free0, nodes, root, freeHead, c, t, t1, h, key, z) && a == t1.addr
      requires SiteOk(rank, root, c, t, h) && Routed(rank, c, t, rank(key))
      requires parent == (if c.Top? then NIL else c.addr) && i == (if c.Top? then 0 else |c.left|)
      requires NewKey(rank, t, key)
      modifies this`nodes, this`freeHead
      ensures InsertDone(rank, h0, free0, nodes, freeHead, c, t, out, h, h', key, r)
    {
      ghost var drop := Dropped(rank, t, key);
      if parent == NIL {
        r, out, h' := SettleRoot(a, t, t1, h, key, z, drop);
      } else {
        if !drop {
          GrownOrder(rank, c, t, t1, key);
        }
        out := SettleBelow(a, i, parent, c, t, t1, h, key, z, drop);
        r, h' := a, h;
      }
    }

    /** RecursiveInsert at a leaf: the scan has stopped at j, and the row there does not compare equal to the key. */
    method InsertIntoLeaf(a: int, key: RID, i: int, parent: int, j: int, ghost c: Ctx, ghost t: Tree)
        returns (ghost t1: Tree)
      requires Placed(rank, nodes, root, freeHead, c, t, 0) && a == t.addr && a in nodes
      requires parent == (if c.Top? then NIL else c.addr) && i == (if c.Top? then 0 else |c.left|)
      requires LeafStop(nodes, a, rank, key, j)
      modifies this`nodes
      ensures Grown(rank, nodes, root, freeHead, c, t, t1, 0, key, Min(t1))
    {
      LeafScan(rank, t, nodes[a], j, key);
      PlacedSorted(rank, nodes, root, freeHead, c, t, 0);
      if c.Hole? {
        HolePages(nodes, c, t, Min(t), freeHead);
      }
      ghost var h1 := LeafGrown(rank, nodes, root, freeHead, c, t, key, j);
      InsertKey(parent, a, key, i, j, t.keys);
      t1 := Leaf(a, InsAt(t.keys, j, key));
    }

    /** RecursiveInsert at an internal node: descends into child j. */
    method InsertIntoChild(a: int, key: RID, j: int, ghost c: Ctx, ghost t: Tree, ghost h: nat) returns (ghost t1: Tree)
      requires Placed(rank, nodes, root, freeHead, c, t, h) && Routed(rank, c, t, rank(key)) && a == t.addr
      requires t.Node? && Picks(rank, t.kids, j, rank(key))
      requires NewKey(rank, t, key)
      modifies this`nodes, this`freeHead
      ensures GrownOrSame(rank, old(nodes), old(freeHead), nodes, root, freeHead, c, t, t1, h, key, Min(t))
      decreases h, 0
    {
      ghost var d, g := Down(c, t, j), h - 1;
      DescendNew(rank, nodes, root, freeHead, c, t, h, j, key, d, g);
      ghost var h0, free0 := nodes, freeHead;
      var s, o, g' := RecursiveInsert(nodes[a].child[j], key, j, a, d, t.kids[j], g);
      StoreGrown(a, j, s, h0, free0, c, t, h, o, key, d, g, g');
      t1 := o;
    }

    /** The child's page number is stored back, and the step below is seen from here. */
    method StoreGrown(a: int, j: int, s: int, ghost h0: map<int, BNode>, ghost free0: int, ghost c: Ctx, ghost t: Tree,
                      ghost h: nat, ghost out: Tree, ghost key: RID, ghost d: Ctx, ghost g: nat, ghost g': nat)
      requires Placed(rank, h0, root, free0, c, t, h) && t.Node? && Picks(rank, t.kids, j, rank(key))
      requires h == g + 1 && d == Down(c, t, j) && a == t.addr
      requires InsertDone(rank, h0, free0, nodes, freeHead, d, t.kids[j], out, g, g', key, s)
      modifies this`nodes
      ensures GrownOrSame(rank, h0, free0, nodes, root, freeHead, c, t, out, h, key, Min(t))
    {
      DoneBelow(rank, h0, free0, nodes, root, freeHead, c, t, h, j, out, key, s, d, g, g');
      SetChild(a, j, s);
    }

    /** RecursiveInsert once the scan has settled on entry j: into the leaf, or down into the child. */
    method InsertBelow(a: int, key: RID, i: int, parent: int, j: int, ghost c: Ctx, ghost t: Tree, ghost h: nat)
        returns (ghost t1: Tree, ghost z: RID)
      requires Placed(rank, nodes, root, freeHead, c, t, h) && Routed(rank, c, t, rank(key)) && a == t.addr
      requires parent == (if c.Top? then NIL else c.addr) && i == (if c.Top? then 0 else |c.left|)
      requires NewKey(rank, t, key)
      requires Settles(nodes, rank, t, key, j) && (t.Leaf? ==> !Dropped(rank, t, key))
      modifies this`nodes, this`freeHead
      ensures GrownOrSame(rank, old(nodes), old(freeHead), nodes, root, freeHead, c, t, t1, h, key, z)
      decreases h, 1
    {
      PlacedPage(rank, nodes, root, freeHead, c, t, h);
      if nodes[a].child[0] == NIL {
        t1 := InsertIntoLeaf(a, key, i, parent, j, c, t);
        z := Min(t1);
      } else {
        t1 := InsertIntoChild(a, key, j, c, t, h);
        z := Min(t);
      }
    }

    /**
     Inserts key below page a, child i of parent (or the root). out is the parent's new subtree,
     or the whole new tree of height h'.
     */
    method RecursiveInsert(a: int, key: RID, i: int, parent: int, ghost c: Ctx, ghost t: Tree, ghost h: nat)
        returns (r: int, ghost out: Tree, ghost h': nat)
      requires Placed(rank, nodes, root, freeHead, c, t, h) && Routed(rank, c, t, rank(key)) && a == t.addr
      requires parent == (if c.Top? then NIL else c.addr) && i == (if c.Top? then 0 else |c.left|)
      requires NewKey(rank, t, key)
      modifies this`nodes, this`freeHead
      ensures InsertDone(rank, old(nodes), old(freeHead), nodes, freeHead, c, t, out, h, h', key, r)
      decreases h, 2
    {
      var j := InsertionPoint(a, key, c, t, h);
      PlacedPage(rank, nodes, root, freeHead, c, t, h);
      if nodes[a].child[0] == NIL {
        DroppedHere(rank, t, nodes[a], j, key);
        if Cmp(rank(key), nodes[a].row[j]) == 0 {
          return a, Same(c, t), h;
        }
      }
      PlacedSite(rank, nodes, root, freeHead, c, t, h);
      ghost var t1, z := InsertBelow(a, key, i, parent, j, c, t, h);
      r, out, h' := Settle(a, i, parent, c, t, t1, h, key, z, old(nodes), old(freeHead));
    }

    // ----- deletion -----

    /** The short node x takes one entry from its neighbour s, child j of parent. */
    method Borrow(x: int, s: int, parent: int, j: int, ghost c: Ctx, ghost t: Tree, ghost t1: Tree, ghost h: nat,
                  ghost k: int, ghost l: seq<Tree>, ghost a: Tree, ghost b: Tree, ghost r: seq<Tree>,
                  ghost right: bool)
        returns (ghost out: Tree)
      requires BorrowCase(rank, nodes, root, freeHead, c, t, t1, h, k, l, a, b, r, right)
      requires parent == c.addr && j == if right then |l| else |l| + 1
      requires x == t1.addr && s == (if right then a else b).addr
      modifies this`nodes
      ensures Removed(rank, nodes, root, freeHead, c, t, out, h, k)
      ensures out.kids == l + [LeftPart(a, b, 1, right), RightPart(a, b, 1, right)] + r
      ensures |c.left| < |out.kids| && out.kids[|c.left|].addr == x
    {
      BorrowSettled(rank, nodes, root, freeHead, c, t, t1, h, k, l, a, b, r, right);
      Move(s, x, parent, j, 1, l, a, b, r, c.up, UpMin(c, Min(t1)), h, right);
      out := Node(parent, l + [LeftPart(a, b, 1, right), RightPart(a, b, 1, right)] + r);
    }

    /** MergeNode: all entries of the short node x move to its neighbour s, and x leaves the parent. */
    method MergeNode(parent: int, x: int, s: int, i: int, ghost c: Ctx, ghost t: Tree, ghost t1: Tree, ghost h: nat,
                     ghost k: int, ghost l: seq<Tree>, ghost a: Tree, ghost b: Tree, ghost r: seq<Tree>,
                     ghost right: bool)
        returns (ghost out: Tree)
      requires MergeCase(rank, nodes, root, freeHead, c, t, t1, h, k, l, a, b, r, right)
      requires parent == c.addr && i == |c.left|
      requires x == t1.addr && s == (if right then b else a).addr
      modifies this`nodes
      ensures Removed(rank, nodes, root, freeHead, c, t, out, h, k)
      ensures out.kids == l + [Merged(a, b, right)] + r
    {
      ghost var n, h0 := DEGREE - 1, nodes;
      ghost var cs, rs := MergeMid(rank, nodes, root, freeHead, c, t, t1, h, k, l, a, b, r, right, n, parent, x, s, i);
      if nodes[s].n > DEGREE {
        assert false;
      }
      ghost var h1 := Moved(nodes, parent, |l|, LeftPart(a, b, n, right), RightPart(a, b, n, right));
      Absorb(parent, x, s, i, nodes[x].n, l, a, b, r, c.up, UpMin(c, Min(t1)), h, right, cs, rs);
      MergeSettled(rank, h0, root, freeHead, c, t, t1, h, k, l, a, b, r, right, n, parent, h1, nodes, cs, rs, i);
      out := Node(parent, l + [Merged(a, b, right)] + r);
    }

    /** All n entries of x move to its neighbour s; then the parent drops child i. */
    method Absorb(parent: int, x: int, s: int, i: int, n: int, ghost l: seq<Tree>, ghost a: Tree, ghost b: Tree,
                  ghost r: seq<Tree>, ghost up: Ctx, ghost m: RID, ghost h: nat, ghost right: bool, ghost cs: seq<int>,
                  ghost rs: seq<RID>)
      requires PairSite(rank, nodes, root, parent, l, a, b, r, n, right, up, m, h)
      requires if right then x == a.addr && s == b.addr && i == |l| else x == b.addr && s == a.addr && i == |l| + 1
      requires |cs| == |rs| <= SLOTS && 0 <= i < |cs|
      requires Moved(nodes, parent, |l|, LeftPart(a, b, n, right), RightPart(a, b, n, right))[parent] == Page(cs, rs)
      modifies this`nodes
      ensures nodes == Moved(old(nodes), parent, |l|, LeftPart(a, b, n, right), RightPart(a, b, n, right))
                       [parent := Page(DelAt(cs, i), DelAt(rs, i))]
    {
      Move(x, s, parent, i, n, l, a, b, r, up, m, h, right);
      RemoveChild(parent, i, cs, rs);
    }

    /** RecursiveRemove's repair of a short node: borrow from a neighbour if one can spare an entry, else merge. */
    method Rebalance(a: int, i: int, parent: int, ghost c: Ctx, ghost t: Tree, ghost t1: Tree, ghost h: nat,
                     ghost k: int)
        returns (r: int, ghost out: Tree)
      requires ShrunkHole(rank, nodes, root, freeHead, c, t, t1, h, k) && Size(t1) == DEGREE - 1
      requires parent == c.addr && i == |c.left| && a == t1.addr
      modifies this`nodes
      ensures Removed(rank, nodes, root, freeHead, c, t, out, h, k)
      ensures r == if i < |out.kids| then out.kids[i].addr else NIL
      ensures RefilledOut(c, t1, out.kids)
    {
      HolePages(nodes, c, t1, Min(t1), freeHead);
      HoleNil(nodes, c, t1, freeHead, Min(t1));
      var s, j := FindDonor(parent, i);
      ghost var l, a0, b0, r0, right;
      if s != NIL {
        l, a0, b0, r0, right := BorrowParts(rank, nodes, root, freeHead, c, t, t1, h, k, s, j, i);
        out := Borrow(a, s, parent, j, c, t, t1, h, k, l, a0, b0, r0, right);
        r := a;
      } else {
        if i == 0 {
          s := nodes[parent].child[1];
        } else {
          s := nodes[parent].child[i - 1];
        }
        l, a0, b0, r0, right := MergeParts(rank, nodes, root, freeHead, c, t, t1, h, k, s, j, i);
        out := MergeNode(parent, a, s, i, c, t, t1, h, k, l, a0, b0, r0, right);
        OutPage(nodes, out);
        r := nodes[parent].child[i];
      }
    }

    /** RecursiveRemove at a leaf: the scan has stopped at j, on the key. */
    method RemoveFromLeaf(a: int, i: int, parent: int, j: int, ghost c: Ctx, ghost t: Tree) returns (ghost t1: Tree)
      requires Placed(rank, nodes, root, freeHead, c, t, 0) && a == t.addr && 0 <= j < |t.keys|
      requires parent == (if c.Top? then NIL else c.addr) && i == (if c.Top? then 0 else |c.left|)
      modifies this`nodes
      ensures Shrunk(rank, nodes, root, freeHead, c, t, t1, 0, rank(t.keys[j]))
    {
      PlacedPage(rank, nodes, root, freeHead, c, t, 0);
      t1 := Leaf(a, DelAt(t.keys, j));
      if parent == NIL {
        DelHere(rank, t.keys, j, rank(t.keys[j]));
        RemoveRootKey(a, j, t.keys);
      } else {
        ghost var h0 := nodes;
        PlacedLeafSite(rank, nodes, root, freeHead, c, t);
        HolePages(nodes, c, t, Min(t), freeHead);
        RemoveKey(parent, a, i, j, t.keys, c.left + [t] + c.right, c.up, UpMin(c, Min(t)));
        LeafShrunk(rank, h0, root, freeHead, c, t, j, nodes);
      }
    }

    /** RecursiveRemove at an internal node: descends into child j. */
    method RemoveFromChild(a: int, k: int, j: int, ghost c: Ctx, ghost t: Tree, ghost h: nat) returns (ghost t1: Tree)
      requires Placed(rank, nodes, root, freeHead, c, t, h) && Routed(rank, c, t, k) && a == t.addr
      requires t.Node? && Picks(rank, t.kids, j, k)
      modifies this`nodes
      ensures ShrunkStep(rank, old(nodes), nodes, root, freeHead, c, t, t1, h, k)
      decreases h, 0
    {
      ghost var d, g := Down(c, t, j), h - 1;
      DescendFor(rank, nodes, root, freeHead, c, t, h, j, k, d, g);
      ghost var h0 := nodes;
      var s, o, g' := RecursiveRemove(nodes[a].child[j], k, j, a, d, t.kids[j], g);
      StoreShrunk(a, j, s, h0, c, t, h, o, k, d, g, g');
      t1 := o;
    }

    /** The child's page number is stored back, and the step below is seen from here. */
    method StoreShrunk(a: int, j: int, s: int, ghost h0: map<int, BNode>, ghost c: Ctx, ghost t: Tree, ghost h: nat,
                       ghost out: Tree, ghost k: int, ghost d: Ctx, ghost g: nat, ghost g': nat)
      requires Placed(rank, h0, root, freeHead, c, t, h) && t.Node? && Picks(rank, t.kids, j, k)
      requires h == g + 1 && d == Down(c, t, j) && a == t.addr
      requires RemoveDone(rank, h0, nodes, root, freeHead, d, t.kids[j], out, g, g', k, s)
      modifies this`nodes
      ensures ShrunkStep(rank, h0, nodes, root, freeHead, c, t, out, h, k)
    {
      RemoveDoneBelow(rank, h0, nodes, root, freeHead, c, t, h, j, out, k, s, d, g, g');
      SetChild(a, j, s);
    }

    /** RecursiveRemove once the scan has settled on entry j: out of the leaf, or down into the child. */
    method RemoveBelow(a: int, k: int, i: int, parent: int, j: int, ghost c: Ctx, ghost t: Tree, ghost h: nat)
        returns (ghost t1: Tree)
      requires Placed(rank, nodes, root, freeHead, c, t, h) && Routed(rank, c, t, k) && a == t.addr
      requires parent == (if c.Top? then NIL else c.addr) && i == (if c.Top? then 0 else |c.left|)
      requires Sits(nodes, rank, t, k, j)
      modifies this`nodes
      ensures ShrunkStep(rank, old(nodes), nodes, root, freeHead, c, t, t1, h, k)
      decreases h, 1
    {
      PlacedPage(rank, nodes, root, freeHead, c, t, h);
      if nodes[a].child[0] == NIL {
        assert t.keys[j] in Keys(t);
        t1 := RemoveFromLeaf(a, i, parent, j, c, t);
      } else {
        t1 := RemoveFromChild(a, k, j, c, t, h);
      }
    }

    /** Whether node a holds too few entries: a root one child, any other node fewer than DEGREE. */
    method NeedAdjust(a: int, parent: int) returns (needAdjust: bool)
      requires a in nodes && 0 < |nodes[a].child|
      ensures needAdjust == if parent == NIL then nodes[a].child[0] != NIL && nodes[a].n < 2 else nodes[a].n < DEGREE
    {
      var b := nodes[a];
      needAdjust := false;
      if parent == NIL && b.child[0] != NIL && b.n < 2 {
        needAdjust := true;
      } else if parent != NIL && b.child[0] != NIL && b.n < DEGREE {
        needAdjust := true;
      } else if parent != NIL && b.child[0] == NIL && b.n < DEGREE {
        needAdjust := true;
      }
    }

    /** The end of RecursiveRemove: a short node is repaired, a root with a single child gives way to it. */
    method FinishRemove(a: int, i: int, parent: int, ghost c: Ctx, ghost t: Tree, ghost t1: Tree, ghost h: nat,
                        ghost k: int, ghost h0: map<int, BNode>)
        returns (r: int, ghost out: Tree, ghost h': nat)
      requires ShrunkFrom(rank, h0, nodes, root, freeHead, c, t, t1, h, k) && a == t1.addr
      requires parent == (if c.Top? then NIL else c.addr) && i == (if c.Top? then 0 else |c.left|)
      modifies this`nodes
      ensures RemoveDone(rank, h0, nodes, root, freeHead, c, t, out, h, h', k, r)
      ensures if c.Hole? then
                if Size(t1) < DEGREE then RefilledOut(c, t1, out.kids) else out == Around(c, t1)
              else
                if t1.Node? && Size(t1) < 2 then t1.kids != [] && out == t1.kids[0] else out == t1
    {
      ShrunkPage(rank, nodes, root, freeHead, c, t, t1, h, k);
      var needAdjust := NeedAdjust(a, parent);
      if needAdjust {
        if parent == NIL {
          r := nodes[a].child[0];
          out, h' := RootCollapsed(rank, h0, nodes, root, freeHead, t, t1, h, k, r);
        } else {
          r, out := Rebalance(a, i, parent, c, t, t1, h, k);
          h' := h;
        }
      } else {
        r, h' := a, h;
        out := RemoveKept(rank, h0, nodes, root, freeHead, c, t, t1, h, k);
      }
    }

    /**
     Removes the key of rank k below page a, child i of parent (or the root). out is the parent's
     new subtree, or the whole new tree of height h'; without such a key nothing changes.
     */
    method RecursiveRemove(a: int, k: int, i: int, parent: int, ghost c: Ctx, ghost t: Tree, ghost h: nat)
        returns (r: int, ghost out: Tree, ghost h': nat)
      requires Placed(rank, nodes, root, freeHead, c, t, h) && Routed(rank, c, t, k) && a == t.addr
      requires parent == (if c.Top? then NIL else c.addr) && i == (if c.Top? then 0 else |c.left|)
      modifies this`nodes
      ensures RemoveDone(rank, old(nodes), nodes, root, freeHead, c, t, out, h, h', k, r)
      decreases h, 2
    {
      var j, missed := SearchPoint(a, k, c, t, h);
      if missed {
        out := AbsentOut(rank, nodes, root, freeHead, c, t, h, k);
        return a, out, h;
      }
      PlacedSite(rank, nodes, root, freeHead, c, t, h);
      ghost var t1 := RemoveBelow(a, k, i, parent, j, c, t, h);
      ShrunkOrder(rank, c, t, t1, k);
      r, out, h' := FinishRemove(a, i, parent, c, t, t1, h, k, old(nodes));
    }

    // ----- search -----

    /**
     The scan of search and delete at page a, and the entry it settles on: the key of a leaf, or the child
     to descend into. missed says that the leaf does not hold the key.
     */
    method SearchPoint(a: int, k: int, ghost c: Ctx, ghost t: Tree, ghost h: nat) returns (j: int, missed: bool)
      requires Placed(rank, nodes, root, freeHead, c, t, h) && a == t.addr
      ensures if missed then Absent(rank, Keys(t), k) else Sits(nodes, rank, t, k, j)
    {
      PlacedPage(rank, nodes, root, freeHead, c, t, h);
      var b := nodes[a];
      missed := false;
      j := Scan(b, k);
      if b.child[0] == NIL {
        LeafFind(rank, t, b, j, k);
        if Cmp(k, b.row[j]) != 0 || j == b.n {
          missed := true;
        }
      } else {
        ghost var stop := j;
        if (j == b.n || Cmp(k, b.row[j]) < 0) && j > 0 {
          j := j - 1;
        }
        NodeFind(rank, t, b, stop, k, h, j);
      }
    }

    /** RecursiveSearch at an internal node: descends into child j. */
    method SearchChild(a: int, k: int, j: int, ghost c: Ctx, ghost t: Tree, ghost h: nat) returns (r: RID)
      requires Placed(rank, nodes, root, freeHead, c, t, h) && Routed(rank, c, t, k) && a == t.addr
      requires t.Node? && Picks(rank, t.kids, j, k)
      ensures Found(rank, Keys(t), k, r)
      decreases h, 0
    {
      ghost var d, g := Down(c, t, j), h - 1;
      DescendFor(rank, nodes, root, freeHead, c, t, h, j, k, d, g);
      r := RecursiveSearch(nodes[a].child[j], k, d, t.kids[j], g);
      FoundBelow(rank, c, t, j, k, d, r);
    }

    /** RecursiveSearch: the stored key of rank k below page a, or the null RID. */
    method RecursiveSearch(a: int, k: int, ghost c: Ctx, ghost t: Tree, ghost h: nat) returns (r: RID)
      requires Placed(rank, nodes, root, freeHead, c, t, h) && Routed(rank, c, t, k) && a == t.addr
      ensures Found(rank, Keys(t), k, r)
      decreases h, 1
    {
      var j, missed := SearchPoint(a, k, c, t, h);
      if missed {
        return NULL_RID;
      }
      PlacedPage(rank, nodes, root, freeHead, c, t, h);
      if nodes[a].child[0] == NIL {
        r := nodes[a].row[j];
      } else {
        r := SearchChild(a, k, j, c, t, h);
      }
    }

    // ----- the public operations -----

    /**
     b_tree_insert of a key that is not in the tree. A key that compares equal to the null RID and
     belongs at the end of its leaf is dropped; any other is stored.
     */
    method Insert(key: RID)
      requires Valid() && key.addr != -1 && rank(key) !in Contents()
      modifies this
      ensures Valid()
      ensures Contents() == if Dropped(rank, old(tree), key) then old(Contents()) else old(Contents())[rank(key) := key]
      ensures Dropped(rank, old(tree), key) ==> nodes == old(nodes) && root == old(root) && freeHead == old(freeHead)
      ensures rank(key) != rank(RID(-1, 0)) ==> Contents() == old(Contents())[rank(key) := key]
    {
      PlacedSorted(rank, nodes, root, freeHead, Top, tree, height);
      IndexMember(rank, Keys(tree));
      IndexIns(rank, Keys(tree), key);
      InsSorted(rank, Keys(tree), key);
      ghost var drop := Dropped(rank, tree, key);
      var r, out, h' := RecursiveInsert(root, key, 0, NIL, Top, tree, height);
      root := r;
      tree, height := out, h';
      if !drop {
        TopPlaced(rank, nodes, root, freeHead, tree, height);
      }
    }

    /** b_tree_delete of the stored key that compares equal to key; without one nothing changes. */
    method Delete(key: RID)
      requires Valid()
      modifies this
      ensures Valid() && Contents() == old(Contents()) - {rank(key)} && freeHead == old(freeHead)
      ensures rank(key) !in old(Contents()) ==> nodes == old(nodes) && root == old(root)
    {
      ghost var k := rank(key);
      PlacedSorted(rank, nodes, root, freeHead, Top, tree, height);
      IndexMember(rank, Keys(tree));
      IndexDel(rank, Keys(tree), k);
      DelSorted(rank, Keys(tree), k);
      var r, out, h' := RecursiveRemove(root, rank(key), 0, NIL, Top, tree, height);
      root := r;
      tree, height := out, h';
      TopPlaced(rank, nodes, root, freeHead, tree, height);
    }

    /** b_tree_search, with a probe comparison that agrees with the row comparison. */
    method Search(k: int) returns (r: RID)
      requires Valid()
      ensures k in Contents() ==> r == Contents()[k]
      ensures k !in Contents() ==> r.addr == -1 && r.idx == 0
    {
      PlacedSorted(rank, nodes, root, freeHead, Top, tree, height);
      r := RecursiveSearch(root, k, Top, tree, height);
      IndexFound(rank, Keys(tree), k, r);
    }

    /** One operation of a run. */
    method Step(op: Op) returns (answer: RID)
      requires Valid()
      requires op.Insert? ==> op.key.addr != -1 && rank(op.key) != rank(NULL_RID) && rank(op.key) !in Contents()
      modifies this
      ensures Valid() && Contents() == After(rank, old(Contents()), op)
      ensures op.Search? ==> Answers(old(Contents()), op.probe, answer)
    {
      answer := NULL_RID;
      match op {
        case Insert(key) => Insert(key);
        case Delete(key) => Delete(key);
        case Search(k) => answer := Search(k);
      }
    }

    /** Every run of inserts, deletes and searches answers as the finite map does. */
    method Run(ops: seq<Op>) returns (answers: seq<RID>)
      requires Valid() && Legal(rank, Contents(), ops)
      modifies this
      ensures Valid() && Contents() == AfterAll(rank, old(Contents()), ops)
      ensures |answers| == |ops|
      ensures forall i | 0 <= i < |ops| && ops[i].Search? ::
                var m, k := AfterAll(rank, old(Contents()), ops[..i]), ops[i].probe;
                if k in m then answers[i] == m[k] else answers[i].addr == -1 && answers[i].idx == 0
    {
      answers := [];
      ghost var m := Contents();
      for i := 0 to |ops|
        invariant Valid() && Contents() == AfterAll(rank, m, ops[..i])
        invariant Answered(rank, m, ops, answers, i)
      {
        ghost var was := answers;
        var answer := Step(ops[i]);
        answers := answers + [answer];
        AnsweredMore(rank, m, ops, was, i, answer, i + 1);
      }
      assert ops[..|ops|] == ops;
    }
  }
}
