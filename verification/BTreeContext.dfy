/** How a search from the root runs down a context, and what a repaired separator does to it. */
module BTreeContext {
  import opened Rids
  import opened BTreeShape

  /** The root's own frame. */
  function Outer(c: Ctx): Ctx
    requires c.Hole?
    ensures Outer(c).Hole?
  {
    if c.up.Top? then c else Outer(c.up)
  }

  /** The context without the root's frame. */
  function Inner(c: Ctx): Ctx
    requires c.Hole?
    ensures Inner(c) == Top || Depth(Inner(c)) < Depth(c)
    ensures Depth(Inner(c)) + 1 == Depth(c)
  {
    if c.up.Top? then Top else c.(up := Inner(c.up))
  }

  function Depth(c: Ctx): nat {
    if c.Top? then 0 else 1 + Depth(c.up)
  }

  /** The number of pages from the root down to the parent in the hole. */
  function Levels(c: Ctx): nat {
    1 + Depth(c)
  }

  /** At this node a search for a key of rank k takes the hole, whose separator is m. */
  ghost predicate FrameRoutes(rank: RID -> int, c: Ctx, m: RID, k: int)
    requires c.Hole?
  {
    && |c.left| + 1 + |c.right| <= LIMIT
    && (forall q | 0 <= q < |c.left| :: rank(Min(c.left[q])) < k)
    && (forall q | 0 <= q < |c.right| :: k < rank(Min(c.right[q])))
    && (c.left == [] || rank(m) <= k)
  }

  ghost predicate Routes(rank: RID -> int, c: Ctx, m: RID, k: int) {
    c.Top? || (FrameRoutes(rank, c, m, k) && Routes(rank, c.up, UpMin(c, m), k))
  }

  /** The separator m once every separator of rank k has become target. */
  function Fix(rank: RID -> int, m: RID, k: int, target: RID): RID {
    if rank(m) == k then target else m
  }

  /** A stored context is the root's frame around a stored smaller context. */
  lemma {:induction false} Peel(heap: map<int, BNode>, c: Ctx, a: int, m: RID)
    requires c.Hole?
    ensures StoredC(heap, c, a, m) <==>
            StoredC(heap, Inner(c), a, m) && FrameOk(heap, Outer(c), TopAddr(Inner(c), a), TopMin(Inner(c), m))
  {
    if c.up.Hole? {
      Peel(heap, c.up, c.addr, UpMin(c, m));
    }
  }

  lemma Regrouped(x: int, l: multiset<int>, r: multiset<int>, u: multiset<int>, i: multiset<int>, f: multiset<int>)
    requires u == i + f
    ensures multiset{x} + l + r + u == (multiset{x} + l + r + i) + f
  {
  }

  lemma {:induction false} PeelAddrs(c: Ctx, a: int)
    requires c.Hole?
    ensures AddrsC(c) == AddrsC(Inner(c)) + (multiset{Outer(c).addr} + AddrsF(Outer(c).left) + AddrsF(Outer(c).right))
    ensures Spine(c) == Spine(Inner(c)) + {Outer(c).addr}
    ensures TopAddr(c, a) == Outer(c).addr
  {
    if c.up.Hole? {
      PeelAddrs(c.up, c.addr);
      var o := Outer(c.up);
      Regrouped(c.addr, AddrsF(c.left), AddrsF(c.right), AddrsC(c.up), AddrsC(Inner(c.up)),
                multiset{o.addr} + AddrsF(o.left) + AddrsF(o.right));
    }
  }

  lemma {:induction false} PeelRoutes(rank: RID -> int, c: Ctx, m: RID, k: int)
    requires c.Hole? && Routes(rank, c, m, k)
    ensures Routes(rank, Inner(c), m, k)
    ensures FrameRoutes(rank, Outer(c), TopMin(Inner(c), m), k)
  {
    if c.up.Hole? {
      PeelRoutes(rank, c.up, UpMin(c, m), k);
    }
  }

  lemma {:induction false} FixTop(rank: RID -> int, c: Ctx, m: RID, k: int, target: RID)
    requires Routes(rank, c, m, k)
    ensures TopMin(c, Fix(rank, m, k, target)) == Fix(rank, TopMin(c, m), k, target)
  {
    if c.Hole? {
      assert c.left != [] ==> rank(Min(c.left[0])) < k;
      FixTop(rank, c.up, UpMin(c, m), k, target);
    }
  }

  lemma {:induction false} SpineIsStored(c: Ctx, x: int)
    requires x in Spine(c)
    ensures x in AddrsC(c)
  {
    if x != c.addr {
      SpineIsStored(c.up, x);
    }
  }

  /** A key that falls between everything left and everything right of a hole is routed to the hole. */
  lemma {:induction false} RoutesBetween(rank: RID -> int, c: Ctx, m: RID, k: int, h: nat)
    requires ShapeC(c, h)
    requires AllBelow(rank, LeftKeys(c), k) && AllAbove(rank, RightKeys(c), k)
    requires LeftKeys(c) == [] || rank(m) <= k
    ensures Routes(rank, c, m, k)
  {
    if c.Hole? {
      forall q | 0 <= q < |c.left| ensures Min(c.left[q]) in Flat(c.left) {
        HasKeys(c.left[q], h);
        MinInFlat(c.left, q);
      }
      forall q | 0 <= q < |c.right| ensures Min(c.right[q]) in Flat(c.right) {
        HasKeys(c.right[q], h);
        MinInFlat(c.right, q);
      }
      assert c.left != [] ==> LeftKeys(c) != [] by {
        assert c.left != [] ==> Min(c.left[0]) in LeftKeys(c);
      }
      RoutesBetween(rank, c.up, UpMin(c, m), k, h + 1);
    }
  }
}
