/** The finite map a sorted key sequence stands for, and runs of operations on it. */
module BTreeMap {
  import opened Rids
  import opened BTreeShape
  import opened BTreeOrder
  import opened BTreeDeletion

  /** Each rank is bound to the stored RID of that rank. */
  ghost function Index(rank: RID -> int, s: seq<RID>): map<int, RID> {
    if s == [] then map[] else Index(rank, s[1..])[rank(s[0]) := s[0]]
  }

  lemma {:induction false} IndexMember(rank: RID -> int, s: seq<RID>)
    requires Sorted(rank, s)
    ensures forall x | x in s :: rank(x) in Index(rank, s) && Index(rank, s)[rank(x)] == x
    ensures forall k | k in Index(rank, s) :: Index(rank, s)[k] in s && rank(Index(rank, s)[k]) == k
  {
    if s != [] {
      assert s == [s[0]] + s[1..];
      assert forall i | 0 <= i < |s[1..]| :: s[1..][i] == s[i + 1];
      IndexMember(rank, s[1..]);
      assert forall x | x in s[1..] :: rank(s[0]) < rank(x);
    }
  }

  /** Distinct keys have distinct ranks, so none is lost in the map. */
  lemma {:induction false} IndexSize(rank: RID -> int, s: seq<RID>)
    requires Sorted(rank, s)
    ensures |Index(rank, s)| == |s|
  {
    if s != [] {
      assert s == [s[0]] + s[1..];
      SortedCons(rank, s[0], s[1..]);
      IndexSize(rank, s[1..]);
      IndexMember(rank, s[1..]);
    }
  }

  /** Inserting an absent key binds its rank and nothing else. */
  lemma IndexIns(rank: RID -> int, s: seq<RID>, key: RID)
    requires Sorted(rank, s) && forall x | x in s :: rank(x) != rank(key)
    ensures Index(rank, Ins(rank, s, key)) == Index(rank, s)[rank(key) := key]
  {
    var t := Ins(rank, s, key);
    InsSorted(rank, s, key);
    IndexMember(rank, s);
    IndexMember(rank, t);
    var m, m' := Index(rank, s)[rank(key) := key], Index(rank, t);
    forall k ensures k in m <==> k in m' {
      if k in m {
        assert m[k] in t && rank(m[k]) == k;
      }
      if k in m' {
        assert m'[k] in t && rank(m'[k]) == k;
      }
    }
    forall k | k in m' ensures m'[k] == m[k] {
      assert m[k] in t && rank(m[k]) == k;
    }
  }

  /** Removing rank k unbinds it and nothing else. */
  lemma IndexDel(rank: RID -> int, s: seq<RID>, k: int)
    requires Sorted(rank, s)
    ensures Index(rank, Del(rank, s, k)) == Index(rank, s) - {k}
  {
    var t := Del(rank, s, k);
    DelSorted(rank, s, k);
    IndexMember(rank, s);
    IndexMember(rank, t);
    var m, m' := Index(rank, s) - {k}, Index(rank, t);
    forall q ensures q in m <==> q in m' {
      if q in m {
        assert m[q] in t && rank(m[q]) == q;
      }
      if q in m' {
        assert m'[q] in s && rank(m'[q]) == q;
      }
    }
    forall q | q in m' ensures m'[q] == m[q] {
      assert m[q] in t && rank(m[q]) == q;
    }
  }

  /** What b_tree_search answers for rank k: the stored RID, or the null RID. */
  ghost predicate Answers(m: map<int, RID>, k: int, r: RID) {
    if k in m then r == m[k] else r.addr == -1 && r.idx == 0
  }

  lemma IndexFound(rank: RID -> int, s: seq<RID>, k: int, r: RID)
    requires Sorted(rank, s) && Found(rank, s, k, r)
    ensures Answers(Index(rank, s), k, r)
  {
    IndexMember(rank, s);
  }

  // ----- the order on keys -----

  /** A comparison that is a total preorder on the RIDs of S, answering -1, 0 or 1. */
  ghost predicate TotalPreorder(cmp: (RID, RID) -> int, S: set<RID>) {
    && (forall a, b | a in S && b in S :: cmp(a, b) in {-1, 0, 1} && (cmp(a, b) == 1 <==> cmp(b, a) == -1))
    && (forall a | a in S :: cmp(a, a) == 0)
    && (forall a, b, c | a in S && b in S && c in S && cmp(a, b) != 1 && cmp(b, c) != 1 :: cmp(a, c) != 1)
  }

  /** How many RIDs of S come before r. */
  ghost function RankIn(cmp: (RID, RID) -> int, S: set<RID>, r: RID): int {
    |set a | a in S && cmp(a, r) == -1|
  }

  /** Every such comparison is the comparison of integer ranks, so nothing is lost by keeping ranks instead. */
  lemma RankOfComparison(cmp: (RID, RID) -> int, S: set<RID>, a: RID, b: RID)
    requires TotalPreorder(cmp, S) && a in S && b in S
    ensures cmp(a, b) == if RankIn(cmp, S, a) < RankIn(cmp, S, b) then -1 else if RankIn(cmp, S, a) > RankIn(cmp, S,
        b) then 1 else 0
  {
    if cmp(a, b) == -1 {
      RankBelow(cmp, S, a, b);
    } else if cmp(a, b) == 1 {
      RankBelow(cmp, S, b, a);
    } else {
      assert (set x | x in S && cmp(x, a) == -1) == (set x | x in S && cmp(x, b) == -1) by {
        forall x | x in S ensures cmp(x, a) == -1 <==> cmp(x, b) == -1 {
          assert cmp(b, a) != -1 && cmp(b, a) != 1;
          assert cmp(a, x) != 1 ==> cmp(b, x) != 1;
          assert cmp(b, x) != 1 ==> cmp(a, x) != 1;
        }
      }
    }
  }

  lemma RankBelow(cmp: (RID, RID) -> int, S: set<RID>, a: RID, b: RID)
    requires TotalPreorder(cmp, S) && a in S && b in S && cmp(a, b) == -1
    ensures RankIn(cmp, S, a) < RankIn(cmp, S, b)
  {
    var A, B := set x | x in S && cmp(x, a) == -1, set x | x in S && cmp(x, b) == -1;
    forall x | x in A ensures x in B {
      assert cmp(b, x) != 1 ==> cmp(b, a) != 1;
    }
    assert a in B && a !in A;
    SmallerSet(A, B, a);
  }

  lemma SmallerSet(A: set<RID>, B: set<RID>, a: RID)
    requires A <= B && a in B && a !in A
    ensures |A| < |B|
  {
    assert A <= B - {a};
    SubsetSize(A, B - {a});
  }

  lemma {:induction false} SubsetSize(A: set<RID>, B: set<RID>)
    requires A <= B
    ensures |A| <= |B|
    decreases A
  {
    if A != {} {
      var x :| x in A;
      SubsetSize(A - {x}, B - {x});
    }
  }

  // ----- the height bound -----

  function Pow(b: nat, e: nat): nat {
    if e == 0 then 1 else b * Pow(b, e - 1)
  }

  lemma {:induction false} KeysOfKids(ts: seq<Tree>, lo: nat, hi: nat)
    requires forall q | 0 <= q < |ts| :: lo <= |Keys(ts[q])| <= hi
    ensures |ts| * lo <= |Flat(ts)| <= |ts| * hi
  {
    if ts != [] {
      assert forall q | 0 <= q < |ts[1..]| :: ts[1..][q] == ts[q + 1];
      KeysOfKids(ts[1..], lo, hi);
      OneMore(|ts[1..]|, lo);
      OneMore(|ts[1..]|, hi);
    }
  }

  lemma OneMore(n: nat, x: nat)
    ensures (n + 1) * x == n * x + x
  {
  }

  lemma {:induction false} KeysOfKid(t: Tree, h: nat)
    requires Kid(t, h)
    ensures DEGREE * Pow(DEGREE, h) <= |Keys(t)| <= LIMIT * Pow(LIMIT, h)
    decreases h
  {
    if t.Node? {
      KeysOfNode(t, h, DEGREE, LIMIT);
    }
  }

  lemma {:induction false} KeysOfNode(t: Tree, h: nat, lo: nat, hi: nat)
    requires t.Node? && Shape(t, h) && lo <= |t.kids| <= hi
    ensures lo * Pow(DEGREE, h) <= |Keys(t)| <= hi * Pow(LIMIT, h)
    decreases h, 0
  {
    forall q | 0 <= q < |t.kids| ensures Pow(DEGREE, h) <= |Keys(t.kids[q])| <= Pow(LIMIT, h) {
      KeysOfKid(t.kids[q], h - 1);
    }
    KeysOfKids(t.kids, Pow(DEGREE, h), Pow(LIMIT, h));
    Scale(lo, |t.kids|, Pow(DEGREE, h));
    Scale(|t.kids|, hi, Pow(LIMIT, h));
  }

  lemma Scale(x: nat, y: nat, z: nat)
    requires x <= y
    ensures x * z <= y * z
  {
  }

  /** A tree with h >= 1 internal levels holds between 2 * DEGREE^h and (2 * DEGREE - 1)^(h + 1) keys. */
  lemma HeightBound(t: Tree, h: nat)
    requires RootOk(t, h) && h >= 1
    ensures 2 * Pow(DEGREE, h) <= |Keys(t)| <= Pow(LIMIT, h + 1)
  {
    KeysOfNode(t, h, 2, LIMIT);
  }

  // ----- runs -----

  datatype Op = Insert(key: RID) | Delete(key: RID) | Search(probe: int)

  ghost function After(rank: RID -> int, m: map<int, RID>, op: Op): map<int, RID> {
    match op
    case Insert(key) => m[rank(key) := key]
    case Delete(key) => m - {rank(key)}
    case Search(_) => m
  }

  /** The map after a run. */
  ghost function AfterAll(rank: RID -> int, m: map<int, RID>, ops: seq<Op>): map<int, RID> {
    if ops == [] then m else After(rank, AfterAll(rank, m, ops[..|ops| - 1]), ops[|ops| - 1])
  }

  /** Only absent keys are inserted, and never one the null RID could be taken for. */
  ghost predicate Legal(rank: RID -> int, m: map<int, RID>, ops: seq<Op>) {
    forall i | 0 <= i < |ops| && ops[i].Insert? ::
      && ops[i].key.addr != -1 && rank(ops[i].key) != rank(NULL_RID)
      && rank(ops[i].key) !in AfterAll(rank, m, ops[..i])
  }

  /** The first n answers of a run. */
  ghost predicate Answered(rank: RID -> int, m: map<int, RID>, ops: seq<Op>, answers: seq<RID>, n: int) {
    && |answers| == n <= |ops|
    && forall i | 0 <= i < n && ops[i].Search? :: Answers(AfterAll(rank, m, ops[..i]), ops[i].probe, answers[i])
  }

  /** One more operation. */
  lemma AnsweredMore(rank: RID -> int, m: map<int, RID>, ops: seq<Op>, answers: seq<RID>, n: int, answer: RID, n': int)
    requires Answered(rank, m, ops, answers, n) && n' == n + 1 <= |ops|
    requires ops[n].Search? ==> Answers(AfterAll(rank, m, ops[..n]), ops[n].probe, answer)
    ensures Answered(rank, m, ops, answers + [answer], n')
    ensures AfterAll(rank, m, ops[..n']) == After(rank, AfterAll(rank, m, ops[..n]), ops[n])
  {
    assert ops[..n'][..n] == ops[..n];
  }
}
