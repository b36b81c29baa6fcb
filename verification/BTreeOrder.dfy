/** Sorted insertion and removal, and the way a search narrows to one child. */
module BTreeOrder {
  import opened Rids
  import opened BTreeShape

  lemma {:induction false} InsAfter(rank: RID -> int, a: seq<RID>, s: seq<RID>, key: RID)
    requires forall x | x in a :: rank(x) <= rank(key)
    ensures Ins(rank, a + s, key) == a + Ins(rank, s, key)
  {
    if a == [] {
      assert a + s == s;
    } else {
      assert (a + s)[0] == a[0] && (a + s)[1..] == a[1..] + s;
      InsAfter(rank, a[1..], s, key);
      assert a[0] in a;
    }
  }

  lemma {:induction false} InsBefore(rank: RID -> int, s: seq<RID>, c: seq<RID>, key: RID)
    requires AllAbove(rank, c, rank(key))
    ensures Ins(rank, s + c, key) == Ins(rank, s, key) + c
  {
    if s == [] {
      assert s + c == c;
      assert c != [] ==> c[0] in c;
    } else if rank(key) >= rank(s[0]) {
      assert (s + c)[1..] == s[1..] + c;
      InsBefore(rank, s[1..], c, key);
    }
  }

  /** Insertion into the middle of a sequence whose ends lie on either side of the key. */
  lemma InsBetween(rank: RID -> int, a: seq<RID>, s: seq<RID>, c: seq<RID>, key: RID)
    requires AllBelow(rank, a, rank(key)) && AllAbove(rank, c, rank(key))
    ensures Ins(rank, a + s + c, key) == a + Ins(rank, s, key) + c
  {
    InsBefore(rank, a + s, c, key);
    InsAfter(rank, a, s, key);
  }

  lemma InsHere(rank: RID -> int, s: seq<RID>, j: int, key: RID)
    requires 0 <= j <= |s|
    requires forall x | x in s[..j] :: rank(x) <= rank(key)
    requires j < |s| ==> rank(key) < rank(s[j])
    ensures InsAt(s, j, key) == Ins(rank, s, key)
  {
    InsAfter(rank, s[..j], s[j..], key);
    assert s == s[..j] + s[j..];
  }

  lemma {:induction false} InsSorted(rank: RID -> int, s: seq<RID>, key: RID)
    requires Sorted(rank, s) && forall x | x in s :: rank(x) != rank(key)
    ensures Sorted(rank, Ins(rank, s, key))
    ensures forall x :: x in Ins(rank, s, key) <==> x == key || x in s
  {
    if s != [] {
      assert s == [s[0]] + s[1..];
      SortedCons(rank, s[0], s[1..]);
      if rank(key) > rank(s[0]) {
        InsSorted(rank, s[1..], key);
        SortedCons(rank, s[0], Ins(rank, s[1..], key));
      } else {
        assert s[0] in s;
        SortedCons(rank, key, s);
      }
    }
  }

  /** A sequence is sorted if its head is below the sorted rest. */
  lemma {:induction false} SortedCons(rank: RID -> int, x: RID, s: seq<RID>)
    ensures Sorted(rank, [x] + s) <==> Sorted(rank, s) && AllAbove(rank, s, rank(x))
  {
    var t := [x] + s;
    assert forall i | 0 <= i < |s| :: s[i] == t[i + 1];
    if Sorted(rank, t) {
      forall y | y in s ensures rank(x) < rank(y) {
        var i :| 0 <= i < |s| && s[i] == y;
        assert t[0] == x && t[i + 1] == y;
      }
    }
    if Sorted(rank, s) && AllAbove(rank, s, rank(x)) {
      forall i, j | 0 <= i < j < |t| ensures rank(t[i]) < rank(t[j]) {
        assert t[j] == s[j - 1] && t[j] in s;
        assert i > 0 ==> t[i] == s[i - 1];
      }
    }
  }

  lemma {:induction false} DelAfter(rank: RID -> int, a: seq<RID>, s: seq<RID>, k: int)
    requires forall x | x in a :: rank(x) != k
    ensures Del(rank, a + s, k) == a + Del(rank, s, k)
  {
    if a == [] {
      assert a + s == s;
    } else {
      assert (a + s)[0] == a[0] && (a + s)[1..] == a[1..] + s;
      assert a[0] in a;
      DelAfter(rank, a[1..], s, k);
    }
  }

  lemma {:induction false} DelBefore(rank: RID -> int, s: seq<RID>, c: seq<RID>, k: int)
    requires forall x | x in c :: rank(x) != k
    ensures Del(rank, s + c, k) == Del(rank, s, k) + c
  {
    if s == [] {
      DelAfter(rank, c, [], k);
      assert s + c == c + [];
    } else if rank(s[0]) == k {
      assert (s + c)[1..] == s[1..] + c;
    } else {
      assert (s + c)[1..] == s[1..] + c;
      DelBefore(rank, s[1..], c, k);
    }
  }

  lemma DelBetween(rank: RID -> int, a: seq<RID>, s: seq<RID>, c: seq<RID>, k: int)
    requires AllBelow(rank, a, k) && AllAbove(rank, c, k)
    ensures Del(rank, a + s + c, k) == a + Del(rank, s, k) + c
  {
    DelBefore(rank, a + s, c, k);
    DelAfter(rank, a, s, k);
  }

  lemma DelHere(rank: RID -> int, s: seq<RID>, j: int, k: int)
    requires 0 <= j < |s| && rank(s[j]) == k
    requires forall x | x in s[..j] :: rank(x) != k
    ensures DelAt(s, j) == Del(rank, s, k)
  {
    DelAfter(rank, s[..j], s[j..], k);
    assert s == s[..j] + s[j..];
  }

  lemma DelAbsent(rank: RID -> int, s: seq<RID>, k: int)
    requires forall x | x in s :: rank(x) != k
    ensures Del(rank, s, k) == s
  {
    DelAfter(rank, s, [], k);
    assert s + [] == s;
  }

  lemma {:induction false} DelSorted(rank: RID -> int, s: seq<RID>, k: int)
    requires Sorted(rank, s)
    ensures Sorted(rank, Del(rank, s, k))
    ensures forall x :: x in Del(rank, s, k) <==> x in s && rank(x) != k
  {
    if s != [] {
      assert s == [s[0]] + s[1..];
      SortedCons(rank, s[0], s[1..]);
      if rank(s[0]) != k {
        DelSorted(rank, s[1..], k);
        SortedCons(rank, s[0], Del(rank, s[1..], k));
      }
    }
  }

  // ----- descent -----

  /** A search for rank k belongs in the hole of c, where t sits. */
  ghost predicate Routed(rank: RID -> int, c: Ctx, t: Tree, k: int) {
    && AllBelow(rank, LeftKeys(c), k) && AllAbove(rank, RightKeys(c), k)
    && (LeftKeys(c) == [] || rank(Min(t)) <= k)
  }

  /** The context of child j of t. */
  function Down(c: Ctx, t: Tree, j: int): Ctx
    requires t.Node? && 0 <= j < |t.kids|
  {
    Hole(t.addr, t.kids[..j], t.kids[j + 1..], c)
  }

  lemma {:induction false} FlatBelow(rank: RID -> int, a: seq<Tree>, b: seq<Tree>, k: int)
    requires Sorted(rank, Flat(a + b)) && b != [] && Keys(b[0]) != [] && rank(Min(b[0])) <= k
    ensures AllBelow(rank, Flat(a), k)
  {
    FlatAppend(a, b);
    SortedParts(rank, Flat(a), Flat(b));
    assert Flat(b)[0] == Min(b[0]);
  }

  lemma {:induction false} FlatAbove(rank: RID -> int, b: seq<Tree>, k: int)
    requires Sorted(rank, Flat(b)) && b != [] && Keys(b[0]) != [] && k < rank(Min(b[0]))
    ensures AllAbove(rank, Flat(b), k)
  {
    assert Flat(b)[0] == Min(b[0]);
  }

  /** A search for rank k takes child j: the last one whose least key is not above k, or the first. */
  ghost predicate Picks(rank: RID -> int, ts: seq<Tree>, j: int, k: int) {
    && 0 <= j < |ts|
    && (j > 0 ==> rank(Min(ts[j])) <= k)
    && (j + 1 < |ts| ==> k < rank(Min(ts[j + 1])))
  }

  lemma {:induction false} PicksOne(rank: RID -> int, t: Tree, i: int, j: int, k: int, h: nat)
    requires t.Node? && Shape(t, h) && Sorted(rank, Keys(t)) && Picks(rank, t.kids, i, k) && Picks(rank, t.kids, j, k)
    ensures i == j
  {
    if i < j {
      PicksLast(rank, t, i, j, k, h);
    } else if j < i {
      PicksLast(rank, t, j, i, k, h);
    }
  }

  lemma {:induction false} PicksLast(rank: RID -> int, t: Tree, i: int, j: int, k: int, h: nat)
    requires t.Node? && Shape(t, h) && Sorted(rank, Keys(t)) && Picks(rank, t.kids, i, k) && Picks(rank, t.kids, j, k)
    ensures i >= j
  {
    if i + 1 < j {
      HasKeys(t.kids[i + 1], h - 1);
      HasKeys(t.kids[j], h - 1);
      MinsApart(rank, t.kids, i + 1, j);
    }
  }

  /** A key of rank k would go behind all keys of the leaf it belongs in. */
  ghost predicate AtEnd(rank: RID -> int, t: Tree, k: int)
    decreases t
  {
    match t
    case Leaf(_, keys) => forall x | x in keys :: rank(x) <= k
    case Node(_, kids) => exists j | 0 <= j < |kids| :: Picks(rank, kids, j, k) && AtEnd(rank, kids[j], k)
  }

  /**
   RecursiveInsert compares such a key with the null RID behind the leaf's last row, and drops one that compares
   equal.
   */
  ghost predicate Dropped(rank: RID -> int, t: Tree, key: RID) {
    rank(key) == rank(NULL_RID) && AtEnd(rank, t, rank(key))
  }

  lemma {:induction false} DroppedBelow(rank: RID -> int, t: Tree, j: int, key: RID, h: nat)
    requires t.Node? && Shape(t, h) && Sorted(rank, Keys(t)) && Picks(rank, t.kids, j, rank(key))
    ensures Dropped(rank, t, key) <==> Dropped(rank, t.kids[j], key)
  {
    forall i | 0 <= i < |t.kids| && Picks(rank, t.kids, i, rank(key)) ensures i == j {
      PicksOne(rank, t, i, j, rank(key), h);
    }
  }

  /** The child picked by a node's scan is the one the search belongs in. */
  lemma {:induction false} RouteDown(rank: RID -> int, c: Ctx, t: Tree, j: int, k: int, h: nat)
    requires Routed(rank, c, t, k) && t.Node? && Shape(t, h) && Sorted(rank, Keys(t)) && Picks(rank, t.kids, j, k)
    ensures Routed(rank, Down(c, t, j), t.kids[j], k)
  {
    var a, b, d := t.kids[..j], t.kids[j + 1..], Down(c, t, j);
    HasKeys(t.kids[j], h - 1);
    if j > 0 {
      assert t.kids == a + t.kids[j..];
      FlatBelow(rank, a, t.kids[j..], k);
    } else {
      HeadFlat(t.kids);
    }
    if b != [] {
      assert b[0] == t.kids[j + 1];
      HasKeys(b[0], h - 1);
      assert t.kids == t.kids[..j + 1] + b;
      FlatAppend(t.kids[..j + 1], b);
      SortedParts(rank, Flat(t.kids[..j + 1]), Flat(b));
      FlatAbove(rank, b, k);
    }
    assert j == 0 ==> Flat(a) == [];
    RoutedBy(rank, d, t.kids[j], k, LeftKeys(c), Flat(a), Flat(b), RightKeys(c));
  }

  lemma RoutedBy(rank: RID -> int, d: Ctx, u: Tree, k: int, x: seq<RID>, y: seq<RID>, z: seq<RID>, w: seq<RID>)
    requires LeftKeys(d) == x + y && RightKeys(d) == z + w
    requires AllBelow(rank, x, k) && AllBelow(rank, y, k) && AllAbove(rank, z, k) && AllAbove(rank, w, k)
    requires x + y == [] || rank(Min(u)) <= k
    ensures Routed(rank, d, u, k)
  {
  }
}
