/** Chains of chunks, as far as the records of the table go: what text they hold, and what changes leave them alone. */
module StrChains {
  import opened Rids
  import opened Chunks
  import L = BlockLayout
  import T = Tables

  type Text = seq<L.byte>

  function Flat(pieces: seq<Text>): Text {
    if pieces == [] then [] else pieces[0] + Flat(pieces[1..])
  }

  /** Chunk i of the chain is stored, and names the next one; the last one names an identifier with address -1. */
  ghost predicate Linked(m: T.Records, rids: seq<RID>, pieces: seq<Text>, i: int)
    requires 0 <= i < |rids| == |pieces|
  {
    && rids[i] in m && |pieces[i]| <= MAX_LEN && (|pieces| > 1 ==> pieces[i] != [])
    && var c := m[rids[i]];
       |c| >= CHARS_AT && IsChunk(c, RidOf(c), pieces[i])
         && (if i + 1 < |rids| then RidOf(c) == rids[i + 1] else RidOf(c).addr == -1)
  }

  /** The chunks rids hold these pieces of text, each of 1 to 20 characters, or one piece of none. */
  ghost predicate Chain(m: T.Records, rids: seq<RID>, pieces: seq<Text>) {
    rids != [] && |rids| == |pieces| && forall i {:trigger Linked(m, rids, pieces, i)} | 0 <= i < |rids| ::
      Linked(m, rids, pieces, i)
  }

  ghost predicate Distinct(rids: seq<RID>) {
    forall i, j | 0 <= i < j < |rids| :: rids[i] != rids[j]
  }

  /** Records are kept in pages, whose addresses are not negative. */
  ghost predicate Addressed(m: T.Records) {
    forall r | r in m :: r.addr >= 0
  }

  lemma ChainKept(m: T.Records, m': T.Records, rids: seq<RID>, pieces: seq<Text>)
    requires Chain(m, rids, pieces) && forall r | r in rids && r in m :: r in m' && m'[r] == m[r]
    ensures Chain(m', rids, pieces)
  {
    forall i | 0 <= i < |rids| ensures Linked(m', rids, pieces, i) {
      assert Linked(m, rids, pieces, i);
      assert rids[i] in rids;
    }
  }

  lemma ChainTail(m: T.Records, rids: seq<RID>, pieces: seq<Text>)
    requires Chain(m, rids, pieces) && |rids| > 1
    ensures Chain(m, rids[1..], pieces[1..]) && rids[1] in m && pieces[1] != []
  {
    assert Linked(m, rids, pieces, 1);
    forall i | 0 <= i < |rids[1..]| ensures Linked(m, rids[1..], pieces[1..], i) {
      assert Linked(m, rids, pieces, i + 1);
    }
  }

  /** A chunk with one more piece is put in front. */
  lemma ChainCons(m: T.Records, rids: seq<RID>, pieces: seq<Text>, r: RID, next: RID, p: Text)
    requires r in m && IsChunk(m[r], next, p) && 1 <= |p| <= MAX_LEN
    requires if rids == [] then pieces == [] && next.addr == -1
             else Chain(m, rids, pieces) && next == rids[0] && forall q | q in pieces :: q != []
    ensures Chain(m, [r] + rids, [p] + pieces)
  {
    var rids', pieces' := [r] + rids, [p] + pieces;
    forall i | 0 <= i < |rids'| ensures Linked(m, rids', pieces', i) {
      if i > 0 {
        assert Linked(m, rids, pieces, i - 1);
        assert pieces[i - 1] in pieces;
      }
    }
  }

  // ----- records: a place in a string -----

  /** A buffer holding chunk 0 of the chain, read up to idx. */
  ghost predicate At(m: T.Records, rids: seq<RID>, pieces: seq<Text>, chunk: Text, idx: int) {
    && Chain(m, rids, pieces) && |chunk| == MAX_SIZE && 0 <= idx <= |pieces[0]| <= MAX_LEN
    && rids[0] in m && chunk[..CHARS_AT + |pieces[0]|] == m[rids[0]]
  }

  /** The characters still to come. */
  ghost function Remaining(pieces: seq<Text>, idx: int): Text
    requires pieces != [] && 0 <= idx <= |pieces[0]|
  {
    pieces[0][idx..] + Flat(pieces[1..])
  }

  /** The fields of a buffer are those of the chunk at its front. */
  lemma Prefix(chunk: Text, c: Text)
    requires CHARS_AT <= |c| <= |chunk| && chunk[..|c|] == c
    ensures RidOf(chunk) == RidOf(c) && SizeOf(chunk) == SizeOf(c)
    ensures forall i | CHARS_AT <= i < |c| :: chunk[i] == c[i]
  {
    assert chunk[..8] == c[..8] && chunk[8..SIZE_AT] == c[8..SIZE_AT]
        && chunk[SIZE_AT..CHARS_AT] == c[SIZE_AT..CHARS_AT];
    assert forall i | CHARS_AT <= i < |c| :: chunk[i] == chunk[..|c|][i] == c[i];
  }

  /** What the fields of the buffer say. */
  lemma AtFields(m: T.Records, rids: seq<RID>, pieces: seq<Text>, chunk: Text, idx: int)
    requires At(m, rids, pieces, chunk, idx)
    ensures SizeOf(chunk) == |pieces[0]|
    ensures forall i | 0 <= i < |pieces[0]| :: chunk[CHARS_AT + i] == pieces[0][i]
    ensures if |rids| > 1 then RidOf(chunk) == rids[1] && rids[1] in m && pieces[1] != [] else RidOf(chunk).addr == -1
  {
    assert Linked(m, rids, pieces, 0);
    var c := m[rids[0]];
    Prefix(chunk, c);
    forall i | 0 <= i < |pieces[0]| ensures chunk[CHARS_AT + i] == pieces[0][i] {
      assert pieces[0][i] == c[CHARS_AT..][i];
    }
    if |rids| > 1 {
      ChainTail(m, rids, pieces);
    }
  }

  /** There is a next character exactly if the chunk is not used up or another one follows. */
  lemma AtEnd(m: T.Records, rids: seq<RID>, pieces: seq<Text>, chunk: Text, idx: int)
    requires At(m, rids, pieces, chunk, idx) && Addressed(m)
    ensures Remaining(pieces, idx) != [] <==> idx < SizeOf(chunk) || RidOf(chunk).addr >= 0
    ensures idx < |pieces[0]| || |rids| == 1 || Remaining(pieces, idx) == Remaining(pieces[1..], 0)
  {
    AtFields(m, rids, pieces, chunk, idx);
    if |rids| > 1 {
      assert pieces[1..][0] == pieces[1];
      assert Flat(pieces[1..]) == pieces[1] + Flat(pieces[1..][1..]);
    }
  }

  /** Moving on by one character within the chunk. */
  lemma AtStep(pieces: seq<Text>, idx: int)
    requires pieces != [] && 0 <= idx < |pieces[0]|
    ensures Remaining(pieces, idx) == [pieces[0][idx]] + Remaining(pieces, idx + 1)
  {
  }

  // ----- a store of strings -----

  /** A stored string: its chunks, head first, and the piece of text in each. */
  datatype Str = Str(rids: seq<RID>, pieces: seq<Text>)

  /** The number of chunks of a string of n characters. */
  function Count(n: nat): nat {
    if n == 0 then 1 else (n + MAX_LEN - 1) / MAX_LEN
  }

  ghost predicate StrOk(m: T.Records, head: RID, s: Str) {
    Chain(m, s.rids, s.pieces) && s.rids[0] == head && Distinct(s.rids) && |s.rids| == Count(|Flat(s.pieces)|)
  }

  ghost predicate Apart(a: Str, b: Str) {
    forall r | r in a.rids :: r !in b.rids
  }

  /** Every string is found under its head, and no chunk belongs to two strings. */
  ghost predicate Stored(m: T.Records, strs: map<RID, Str>) {
    && (forall h | h in strs :: StrOk(m, h, strs[h]))
    && (forall h, g {:trigger Apart(strs[h], strs[g])} | h in strs && g in strs && h != g :: Apart(strs[h], strs[g]))
  }

  ghost function TextsOf(strs: map<RID, Str>): map<RID, Text> {
    map h | h in strs :: Flat(strs[h].pieces)
  }

  lemma ChainIn(m: T.Records, rids: seq<RID>, pieces: seq<Text>)
    requires Chain(m, rids, pieces)
    ensures forall r | r in rids :: r in m
  {
    forall r | r in rids ensures r in m {
      var i :| 0 <= i < |rids| && rids[i] == r;
      assert Linked(m, rids, pieces, i);
    }
  }

  /** The new records m' are the old ones and the chunks rids, none of which is old. */
  ghost predicate Grown(m: T.Records, m': T.Records, rids: seq<RID>) {
    && (forall r :: r in m' <==> r in m || r in rids)
    && (forall r | r in m :: r !in rids && m'[r] == m[r])
  }

  lemma StoredMore(m: T.Records, strs: map<RID, Str>, m': T.Records, h: RID, s: Str, strs': map<RID, Str>)
    requires Stored(m, strs) && Grown(m, m', s.rids) && StrOk(m', h, s) && strs' == strs[h := s]
    ensures h !in strs && Stored(m', strs') && TextsOf(strs') == TextsOf(strs)[h := Flat(s.pieces)]
  {
    forall g | g in strs ensures g != h && StrOk(m', g, strs[g]) && Apart(strs[g], s) && Apart(s, strs[g]) {
      StoredStill(m, g, strs[g], m', h, s);
    }
    forall g, k | g in strs' && k in strs' && g != k ensures Apart(strs'[g], strs'[k]) {
      if g != h && k != h {
        assert Apart(strs[g], strs[k]);
      }
    }
  }

  /** An earlier string keeps its chunks, and shares none with the new one. */
  lemma StoredStill(m: T.Records, g: RID, t: Str, m': T.Records, h: RID, s: Str)
    requires StrOk(m, g, t) && Grown(m, m', s.rids) && StrOk(m', h, s)
    ensures g != h && StrOk(m', g, t) && Apart(t, s) && Apart(s, t)
  {
    assert s.rids[0] in s.rids && t.rids[0] in t.rids;
    ChainIn(m, t.rids, t.pieces);
    ChainKept(m, m', t.rids, t.pieces);
  }

  /** The chunks of one string are gone. */
  lemma StoredLess(m: T.Records, strs: map<RID, Str>, m': T.Records, h: RID, strs': map<RID, Str>)
    requires Stored(m, strs) && h in strs && m' == m - (set r | r in strs[h].rids) && strs' == strs - {h}
    ensures Stored(m', strs') && TextsOf(strs') == TextsOf(strs) - {h}
  {
    forall g | g in strs' ensures StrOk(m', g, strs'[g]) {
      assert StrOk(m, g, strs[g]);
      assert Apart(strs[g], strs[h]);
      ChainKept(m, m', strs[g].rids, strs[g].pieces);
    }
    forall g, k | g in strs' && k in strs' && g != k ensures Apart(strs'[g], strs'[k]) {
      assert Apart(strs[g], strs[k]);
    }
  }

  // ----- writing: chunks are made from the end of the text -----

  /** Piece q is the q-th run of 20 characters from position size on, the last one what is left. */
  ghost predicate Cut(pieces: seq<Text>, data: Text, size: int, q: int)
    requires 0 <= q < |pieces|
  {
    var lo := size + 20 * q;
    0 <= lo <= |data| && pieces[q] == data[lo..if lo + 20 < |data| then lo + 20 else |data|]
  }

  /** The last chunk of a written text names the identifier of address -1 and index -1. */
  ghost predicate Ended(m: T.Records, r: RID) {
    r in m && |m[r]| >= CHARS_AT && RidOf(m[r]) == RID(-1, -1)
  }

  /**
   How write_string lays out a text: runs of 20 characters and a last shorter one; the last chunk names the identifier
   with index -1, and that of the empty text the one with index 0, both of address -1.
   */
  ghost predicate Laid(m: T.Records, s: Str, data: Text) {
    && s.rids != [] && |s.rids| == |s.pieces| && s.rids[|s.rids| - 1] in m
    && (forall q {:trigger s.pieces[q]} | 0 <= q < |s.pieces| :: 20 * q <= |data|
         && s.pieces[q] == data[20 * q..if 20 * q + 20 < |data| then 20 * q + 20 else |data|])
    && var c := m[s.rids[|s.rids| - 1]];
       |c| >= CHARS_AT && RidOf(c).addr == -1 && RidOf(c).idx == if data == [] then 0 else -1
  }

  lemma CutStep(pieces: seq<Text>, data: Text, size: int, n: int, size': int, p: Text, pieces': seq<Text>)
    requires 0 <= size' <= size <= |data| && size' + n == size && p == data[size'..size] && pieces' == [p] + pieces
    requires n == 20 || (pieces == [] && n < 20)
    requires pieces == [] ==> size == |data|
    requires forall q {:trigger Cut(pieces, data, size, q)} | 0 <= q < |pieces| :: Cut(pieces, data, size, q)
    ensures forall q {:trigger Cut(pieces', data, size', q)} | 0 <= q < |pieces'| :: Cut(pieces', data, size', q)
  {
    forall q | 0 <= q < |pieces'| ensures Cut(pieces', data, size', q) {
      if q > 0 {
        assert Cut(pieces, data, size, q - 1);
      }
    }
  }

  /** The text from position size on has been written, as the chain rids; the records m are m0 and these. */
  ghost predicate Built(m0: T.Records, m: T.Records, rids: seq<RID>, pieces: seq<Text>, data: Text, size: int) {
    && Grown(m0, m, rids) && Distinct(rids) && |rids| == |pieces| && 0 <= size <= |data| && Flat(pieces) == data[size..]
    && (forall q | q in pieces :: q != [])
    && (forall q {:trigger Cut(pieces, data, size, q)} | 0 <= q < |pieces| :: Cut(pieces, data, size, q))
    && (rids != [] ==> Ended(m, rids[|rids| - 1]))
    && if rids == [] then
         size == |data|
       else
         Chain(m, rids, pieces) && size % MAX_LEN == 0 && MAX_LEN * (|rids| - 1) < |data| - size <= MAX_LEN * |rids|
  }

  lemma BuiltStep(m0: T.Records, m: T.Records, rids: seq<RID>, pieces: seq<Text>, data: Text, size: int, n: int,
                  size': int, r: RID, next: RID, p: Text, m': T.Records, rids': seq<RID>, pieces': seq<Text>)
    requires Built(m0, m, rids, pieces, data, size) && size > 0
    requires n == (if size % MAX_LEN != 0 then size % MAX_LEN else MAX_LEN) && size' == size - n
        && p == data[size'..size]
    requires r !in m && r in m' && m' == m[r := m'[r]] && IsChunk(m'[r], next, p)
    requires if rids == [] then next == RID(-1, -1) else next == rids[0]
    requires rids' == [r] + rids && pieces' == [p] + pieces
    ensures Built(m0, m', rids', pieces', data, size')
  {
    assert r !in rids;
    if rids != [] {
      ChainKept(m, m', rids, pieces);
    }
    ChainCons(m', rids, pieces, r, next, p);
    CutStep(pieces, data, size, n, size', p, pieces');
    assert Ended(m', rids'[|rids'| - 1]) by {
      assert rids != [] ==> rids'[|rids'| - 1] == rids[|rids| - 1] && rids[|rids| - 1] in rids;
    }
    assert pieces'[0] == p && pieces'[1..] == pieces;
    assert data[size'..] == p + data[size..];
    assert Grown(m0, m', rids') by {
      forall q ensures q in m' <==> q in m0 || q in rids' {
        assert q in rids' <==> q == r || q in rids;
      }
    }
    assert Distinct(rids');
    assert size' % MAX_LEN == 0;
  }

  /** There is room for one more chunk in the count. */
  lemma BuiltMore(m0: T.Records, m: T.Records, rids: seq<RID>, pieces: seq<Text>, data: Text, size: int)
    requires Built(m0, m, rids, pieces, data, size) && size > 0
    ensures |rids| < Count(|data|)
  {
  }

  lemma BuiltDone(m0: T.Records, m: T.Records, rids: seq<RID>, pieces: seq<Text>, data: Text)
    requires Built(m0, m, rids, pieces, data, 0) && data != []
    ensures rids != [] && StrOk(m, rids[0], Str(rids, pieces)) && Flat(pieces) == data
    ensures Laid(m, Str(rids, pieces), data)
  {
    assert data[0..] == data;
    forall q | 0 <= q < |pieces|
      ensures 20 * q <= |data| && pieces[q] == data[20 * q..if 20 * q + 20 < |data| then 20 * q + 20 else |data|]
    {
      assert Cut(pieces, data, 0, q);
    }
  }

  /** The one chunk of the empty string. */
  lemma BuiltEmpty(m0: T.Records, m: T.Records, r: RID, next: RID)
    requires r !in m0 && r in m && m == m0[r := m[r]] && IsChunk(m[r], next, []) && next.addr == -1
    ensures Grown(m0, m, [r]) && StrOk(m, r, Str([r], [[]])) && Flat([[]]) == []
    ensures next == RID(-1, 0) ==> Laid(m, Str([r], [[]]), [])
  {
    assert Linked(m, [r], [[]], 0);
    assert Flat([[]]) == [] + Flat([[]][1..]);
  }

  // ----- deleting -----

  /** The first k chunks of the chain are gone. */
  ghost predicate Cleared(m0: T.Records, m: T.Records, rids: seq<RID>, k: int)
    requires 0 <= k <= |rids|
  {
    m == m0 - (set i | 0 <= i < k :: rids[i])
  }

  lemma ClearedNext(m0: T.Records, m: T.Records, rids: seq<RID>, pieces: seq<Text>, k: int)
    requires Chain(m0, rids, pieces) && Distinct(rids) && 0 <= k < |rids| && Cleared(m0, m, rids, k)
    ensures rids[k] in m && m[rids[k]] == m0[rids[k]] && CHARS_AT <= |m[rids[k]]| <= MAX_SIZE
    ensures var next := RidOf(m[rids[k]]); if k + 1 < |rids| then next == rids[k + 1] else next.addr == -1
  {
    assert Linked(m0, rids, pieces, k);
  }

  lemma ClearedStep(m0: T.Records, m: T.Records, rids: seq<RID>, k: int, m': T.Records)
    requires 0 <= k < |rids| && Cleared(m0, m, rids, k) && m' == m - {rids[k]}
    ensures Cleared(m0, m', rids, k + 1)
  {
    assert (set i | 0 <= i < k + 1 :: rids[i]) == (set i | 0 <= i < k :: rids[i]) + {rids[k]};
  }

  lemma ClearedAll(m0: T.Records, m: T.Records, rids: seq<RID>)
    requires Cleared(m0, m, rids, |rids|)
    ensures m == m0 - (set r | r in rids)
  {
    assert (set i | 0 <= i < |rids| :: rids[i]) == (set r | r in rids);
  }
}
