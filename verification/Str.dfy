/** str.c: strings as chains of chunks in a table. */
module Strs {
  import opened Rids
  import opened Storage
  import opened Chunks
  import opened StrChains
  import L = BlockLayout
  import F = FreeSpaceMaps
  import T = Tables

  // ----- lexicographic order; char is signed -----

  function CharValue(c: L.byte): int {
    if c >= 128 then c - 256 else c
  }

  /** -1, 0 or 1 as s comes before, equals or comes after t. */
  function Lex(s: Text, t: Text): int {
    if s == [] then (if t == [] then 0 else -1)
    else if t == [] then 1
    else if CharValue(s[0]) < CharValue(t[0]) then -1
    else if CharValue(s[0]) > CharValue(t[0]) then 1
    else Lex(s[1..], t[1..])
  }

  lemma {:induction false} LexEqual(s: Text, t: Text)
    ensures Lex(s, t) == 0 <==> s == t
  {
    if s != [] && t != [] {
      LexEqual(s[1..], t[1..]);
      assert s == [s[0]] + s[1..] && t == [t[0]] + t[1..];
    }
  }

  lemma {:induction false} LexAntisymmetric(s: Text, t: Text)
    ensures Lex(t, s) == -Lex(s, t)
  {
    if s != [] && t != [] {
      LexAntisymmetric(s[1..], t[1..]);
    }
  }

  lemma {:induction false} LexTransitive(s: Text, t: Text, u: Text)
    requires Lex(s, t) <= 0 && Lex(t, u) <= 0
    ensures Lex(s, u) <= 0
  {
    if s != [] && t != [] && u != [] && CharValue(s[0]) == CharValue(t[0]) == CharValue(u[0]) {
      LexTransitive(s[1..], t[1..], u[1..]);
    }
  }

  /** s and t agree up to i, where s ends and t goes on, or where the character of s is the smaller one. */
  ghost predicate ComesBefore(s: Text, t: Text, i: int) {
    0 <= i <= |s| && i < |t| && s[..i] == t[..i] && (i < |s| ==> CharValue(s[i]) < CharValue(t[i]))
  }

  lemma BeforeStep(s: Text, t: Text, i: int)
    requires s != [] && t != [] && i >= 0
    ensures ComesBefore(s, t, i + 1) <==> s[0] == t[0] && ComesBefore(s[1..], t[1..], i)
  {
    if i + 1 <= |s| && i + 1 < |t| {
      assert s[..i + 1] == [s[0]] + s[1..][..i] && t[..i + 1] == [t[0]] + t[1..][..i];
    }
  }

  lemma {:induction false} LexComesBefore(s: Text, t: Text)
    ensures Lex(s, t) == -1 <==> exists i :: ComesBefore(s, t, i)
  {
    if s == [] || t == [] || s[0] != t[0] {
      assert ComesBefore(s, t, 0) <==> Lex(s, t) == -1;
    } else {
      LexComesBefore(s[1..], t[1..]);
      if Lex(s, t) == -1 {
        var i :| ComesBefore(s[1..], t[1..], i);
        BeforeStep(s, t, i);
      }
      forall i | ComesBefore(s, t, i) ensures ComesBefore(s[1..], t[1..], i - 1) {
        BeforeStep(s, t, i - 1);
      }
    }
  }

  /** The order, spelled out for both answers. */
  lemma LexOrder(s: Text, t: Text)
    ensures Lex(s, t) == -1 <==>
              exists i {:trigger s[..i]} :: (0 <= i <= |s| && i < |t| && s[..i] == t[..i]
                && (i < |s| ==>
                     (if s[i] < 128 then s[i] as int else s[i] as int - 256)
                     < (if t[i] < 128 then t[i] as int else t[i] as int - 256)))
    ensures Lex(s, t) == 1 <==>
              exists i {:trigger t[..i]} :: (0 <= i <= |t| && i < |s| && t[..i] == s[..i]
                && (i < |t| ==>
                     (if t[i] < 128 then t[i] as int else t[i] as int - 256)
                     < (if s[i] < 128 then s[i] as int else s[i] as int - 256)))
    ensures -1 <= Lex(s, t) <= 1
  {
    LexComesBefore(s, t);
    LexComesBefore(t, s);
    LexAntisymmetric(s, t);
    LexRange(s, t);
    BeforeWritten(s, t);
    BeforeWritten(t, s);
  }

  lemma BeforeWritten(s: Text, t: Text)
    ensures (exists i :: ComesBefore(s, t, i)) <==>
              exists i {:trigger s[..i]} :: (0 <= i <= |s| && i < |t| && s[..i] == t[..i]
                && (i < |s| ==>
                     (if s[i] < 128 then s[i] as int else s[i] as int - 256)
                     < (if t[i] < 128 then t[i] as int else t[i] as int - 256)))
  {
    forall i | 0 <= i <= |s| && i < |t| && s[..i] == t[..i]
                && (i < |s| ==>
                     (if s[i] < 128 then s[i] as int else s[i] as int - 256)
                     < (if t[i] < 128 then t[i] as int else t[i] as int - 256))
      ensures ComesBefore(s, t, i)
    {
    }
    forall i | ComesBefore(s, t, i)
      ensures s[..i] == t[..i]
    {
    }
  }

  lemma {:induction false} LexRange(s: Text, t: Text)
    ensures -1 <= Lex(s, t) <= 1
  {
    if s != [] && t != [] {
      LexRange(s[1..], t[1..]);
    }
  }

  function Least(a: nat, b: nat): nat {
    if a < b then a else b
  }

  lemma Consumed(text: Text, i: nat, c: L.byte, rest: Text)
    requires i <= |text| && [c] + rest == text[i..]
    ensures i < |text| && text[i] == c && rest == text[i + 1..]
  {
    assert text[i] == text[i..][0];
    assert rest == text[i..][1..];
  }

  /** A place in a string: a copy of a chunk, and an index into it. */
  class StringRecord {
    var chunk: Text
    var idx: int
    /** The chain from this chunk on. */
    ghost var rids: seq<RID>
    ghost var pieces: seq<Text>

    ghost predicate Valid(m: T.Records)
      reads this
    {
      At(m, rids, pieces, chunk, idx)
    }

    /** The characters still to come. */
    ghost function Rest(): Text
      requires pieces != [] && 0 <= idx <= |pieces[0]|
      reads this
    {
      Remaining(pieces, idx)
    }

    constructor Copy(a: StringRecord)
      ensures chunk == a.chunk && idx == a.idx && rids == a.rids && pieces == a.pieces
    {
      chunk, idx, rids, pieces := a.chunk, a.idx, a.rids, a.pieces;
    }

    /** has_next_char */
    method HasNextChar(ghost m: T.Records) returns (more: bool)
      requires Valid(m) && Addressed(m)
      ensures more <==> Rest() != []
    {
      AtFields(m, rids, pieces, chunk, idx);
      AtEnd(m, rids, pieces, chunk, idx);
      var len := SizeOf(chunk);
      if idx < len {
        return true;
      }
      var rid := RidOf(chunk);
      return rid.addr >= 0;
    }
  }

  /** The table of strings; strings holds the chains of those written and not deleted, by head. */
  class StringTable {
    const table: T.Table
    ghost var strings: map<RID, Str>

    ghost predicate Valid()
      reads this, table, table.fsm
    {
      table.Valid() && Stored(table.records, strings)
    }

    ghost function Texts(): map<RID, Text>
      reads this
    {
      TextsOf(strings)
    }

    lemma AllAddressed()
      requires table.Valid()
      ensures Addressed(table.records)
    {
      forall r | r in table.records ensures r.addr >= 0 {
        table.Live(r);
      }
    }

    constructor ()
      ensures Valid() && Texts() == map[] && fresh(table) && fresh(table.fsm)
    {
      table := new T.Table();
      strings := map[];
    }

    /** A chunk is read into a buffer of 32 bytes; those past its end stay as they were. */
    method ReadChunk(rid: RID, chunk: array<L.byte>)
      requires table.Valid() && rid in table.records && |table.records[rid]| <= MAX_SIZE == chunk.Length
      modifies chunk
      ensures chunk[..|table.records[rid]|] == table.records[rid]
    {
      table.Live(rid);
      table.Read(rid, chunk);
    }

    /** read_string */
    method ReadString(rid: RID, record: StringRecord)
      requires Valid() && rid in strings
      modifies record
      ensures record.Valid(table.records) && record.Rest() == Texts()[rid]
    {
      ghost var s := strings[rid];
      assert Linked(table.records, s.rids, s.pieces, 0);
      var chunk := new L.byte[MAX_SIZE];
      ReadChunk(rid, chunk);
      record.chunk := chunk[..];
      record.idx := 0;
      record.rids, record.pieces := s.rids, s.pieces;
    }

    /** next_char */
    method NextChar(record: StringRecord) returns (c: L.byte)
      requires table.Valid() && record.Valid(table.records) && record.Rest() != []
      modifies record
      ensures record.Valid(table.records) && [c] + record.Rest() == old(record.Rest())
    {
      ghost var m := table.records;
      AllAddressed();
      AtFields(m, record.rids, record.pieces, record.chunk, record.idx);
      AtEnd(m, record.rids, record.pieces, record.chunk, record.idx);
      var chunk := record.chunk;
      var len := SizeOf(chunk);
      if record.idx >= len {
        chunk := NextChunk(record);
      }
      var index := record.idx;
      record.idx := record.idx + 1;
      c := chunk[CHARS_AT + index];
      AtFields(m, record.rids, record.pieces, record.chunk, record.idx);
      AtStep(record.pieces, index);
    }

    /** The part of next_char that goes on to the next chunk. */
    method NextChunk(record: StringRecord) returns (chunk: Text)
      requires table.Valid() && record.Valid(table.records) && record.idx == |record.pieces[0]| && |record.rids| > 1
      modifies record
      ensures record.Valid(table.records) && record.idx == 0 && record.chunk == chunk
      ensures record.pieces == old(record.pieces)[1..] && record.pieces[0] != []
    {
      ghost var m, rids, pieces := table.records, record.rids, record.pieces;
      AtFields(m, rids, pieces, record.chunk, record.idx);
      ChainTail(m, rids, pieces);
      assert Linked(m, rids[1..], pieces[1..], 0);
      var rid := RidOf(record.chunk);
      var buffer := new L.byte[MAX_SIZE];
      ReadChunk(rid, buffer);
      chunk := buffer[..];
      record.chunk := chunk;
      record.idx := 0;
      record.rids, record.pieces := rids[1..], pieces[1..];
    }

    /** load_string: at most max characters, then a terminating 0. */
    method LoadString(record: StringRecord, dest: array<L.byte>, max: nat) returns (i: nat)
      requires table.Valid() && record.Valid(table.records) && Least(|record.Rest()|, max) < dest.Length
      modifies dest
      ensures i == Least(|record.Rest()|, max)
      ensures dest[..i] == record.Rest()[..i] && dest[i] == 0 && dest[i + 1..] == old(dest[i + 1..])
    {
      var re := new StringRecord.Copy(record);
      i := LoadChars(re, dest, max, record.Rest());
      dest[i] := 0;
    }

    /** The loop of load_string. */
    method LoadChars(re: StringRecord, dest: array<L.byte>, max: nat, ghost text: Text) returns (i: nat)
      requires table.Valid() && re.Valid(table.records) && text == re.Rest() && Least(|text|, max) < dest.Length
      modifies re, dest
      ensures i == Least(|text|, max)
      ensures (forall j | 0 <= j < i :: dest[j] == text[j]) && forall j | i <= j < dest.Length ::
          dest[j] == old(dest[j])
    {
      AllAddressed();
      i := 0;
      var more := re.HasNextChar(table.records);
      while more && i < max
        invariant 0 <= i <= max && i <= |text| && re.Valid(table.records) && re.Rest() == text[i..]
        invariant more <==> re.Rest() != []
        invariant forall j | 0 <= j < i :: dest[j] == text[j]
        invariant forall j | i <= j < dest.Length :: dest[j] == old(dest[j])
        decreases max - i
      {
        var c := NextChar(re);
        Consumed(text, i, c, re.Rest());
        dest[i] := c;
        i := i + 1;
        more := re.HasNextChar(table.records);
      }
    }

    /**
     compare_string_record, whatever the chunks: -1 exactly if the texts agree up to some i where the first ends and
     the second goes on, or where the first has the smaller character (a signed one); 1 the other way round.
     */
    method Compare(a: StringRecord, b: StringRecord) returns (r: int)
      requires table.Valid() && a.Valid(table.records) && b.Valid(table.records) && a.Rest() != [] && b.Rest() != []
      ensures r == Lex(a.Rest(), b.Rest()) && -1 <= r <= 1
      ensures var s, t := a.Rest(), b.Rest();
              r == -1 <==> exists i {:trigger s[..i]} ::
                (0 <= i <= |s| && i < |t| && s[..i] == t[..i]
                 && (i < |s| ==>
                       (if s[i] < 128 then s[i] as int else s[i] as int - 256)
                       < (if t[i] < 128 then t[i] as int else t[i] as int - 256)))
      ensures var s, t := a.Rest(), b.Rest();
              r == 1 <==> exists i {:trigger t[..i]} ::
                (0 <= i <= |t| && i < |s| && t[..i] == s[..i]
                 && (i < |t| ==>
                       (if t[i] < 128 then t[i] as int else t[i] as int - 256)
                       < (if s[i] < 128 then s[i] as int else s[i] as int - 256)))
    {
      r := CompareChars(a, b);
      LexOrder(a.Rest(), b.Rest());
    }

    /** The recursion of compare_string_record. */
    method CompareChars(a: StringRecord, b: StringRecord) returns (r: int)
      requires table.Valid() && a.Valid(table.records) && b.Valid(table.records) && a.Rest() != [] && b.Rest() != []
      ensures r == Lex(a.Rest(), b.Rest())
      decreases |a.Rest()|
    {
      AllAddressed();
      var aTemp := new StringRecord.Copy(a);
      var bTemp := new StringRecord.Copy(b);
      var x := NextChar(aTemp);
      var y := NextChar(bTemp);
      assert a.Rest()[1..] == aTemp.Rest() && b.Rest()[1..] == bTemp.Rest();
      if CharValue(x) < CharValue(y) {
        return -1;
      } else if CharValue(x) > CharValue(y) {
        return 1;
      }
      var aNext := aTemp.HasNextChar(table.records);
      var bNext := bTemp.HasNextChar(table.records);
      if aNext && !bNext {
        return 1;
      } else if !aNext && bNext {
        return -1;
      } else if !aNext && !bNext {
        return 0;
      }
      r := CompareChars(aTemp, bTemp);
    }

    /** write_string: the chunks are written from the last one to the first. */
    method WriteString(data: Text) returns (rid: RID)
      requires Valid() && table.fsm.allocs + Count(|data|) <= F.PREPARED
          && table.length + PAGE_SIZE * Count(|data|) <= MAX_OFF
      modifies this, table, table.fsm
      ensures Valid() && rid !in old(strings) && Texts() == old(Texts())[rid := data]
      ensures rid in strings && strings == old(strings)[rid := strings[rid]]
      ensures Grown(old(table.records), table.records, strings[rid].rids) && |strings[rid].rids| == Count(|data|)
      ensures Laid(table.records, strings[rid], data)
    {
      ghost var m0 := table.records;
      rid := RID(-1, 0);
      var chunk := new L.byte[MAX_SIZE];
      var size := |data|;
      if size <= 0 {
        NullFits(rid);
        rid := WriteChunk(chunk, data, 0, 0, rid);
        BuiltEmpty(m0, table.records, rid, RID(-1, 0));
        AddString(m0, rid, Str([rid], [[]]));
        return;
      }
      ghost var rids, pieces;
      rid, rids, pieces := WriteChunks(chunk, data);
      BuiltDone(m0, table.records, rids, pieces, data);
      AddString(m0, rid, Str(rids, pieces));
    }

    /** The loop of write_string. */
    method WriteChunks(chunk: array<L.byte>, data: Text)
        returns (rid: RID, ghost rids: seq<RID>, ghost pieces: seq<Text>)
      requires table.Valid() && data != [] && chunk.Length == MAX_SIZE
      requires table.fsm.allocs + Count(|data|) <= F.PREPARED && table.length + PAGE_SIZE * Count(|data|) <= MAX_OFF
      modifies chunk, table, table.fsm
      ensures table.Valid() && Built(old(table.records), table.records, rids, pieces, data, 0) && rids != []
          && rid == rids[0]
    {
      ghost var m0 := table.records;
      var first, size := false, |data|;
      rid, rids, pieces := RID(-1, 0), [], [];
      while size != 0
        invariant table.Valid() && Built(m0, table.records, rids, pieces, data, size) && first == (rids != [])
        invariant rids != [] ==> rid == rids[0] && RidFits(rid)
        invariant table.fsm.allocs <= old(table.fsm.allocs) + |rids|
            && table.length <= old(table.length) + PAGE_SIZE * |rids|
        decreases size
      {
        BuiltMore(m0, table.records, rids, pieces, data, size);
        ghost var m, size0, rids0, pieces0 := table.records, size, rids, pieces;
        var chunkSize := if size % MAX_LEN != 0 then size % MAX_LEN else MAX_LEN;
        size := size - chunkSize;
        NullFits(RID(-1, -1));
        var next := if !first then RID(-1, -1) else rid;
        first := true;
        rid := WriteChunk(chunk, data, size, chunkSize, next);
        rids, pieces := [rid] + rids, [data[size..size + chunkSize]] + pieces;
        BuiltStep(m0, m, rids0, pieces0, data, size0, chunkSize, size, rid, next, data[size..size + chunkSize],
                  table.records, rids, pieces);
      }
    }

    ghost method AddString(m0: T.Records, rid: RID, s: Str)
      requires table.Valid() && Stored(m0, strings) && Grown(m0, table.records, s.rids) && StrOk(table.records, rid, s)
      modifies this`strings
      ensures Valid() && rid !in old(strings) && strings == old(strings)[rid := s]
          && Texts() == old(Texts())[rid := Flat(s.pieces)]
    {
      StoredMore(m0, strings, table.records, rid, s, strings[rid := s]);
      strings := strings[rid := s];
    }

    lemma NullFits(r: RID)
      requires r.addr == -1 && -1 <= r.idx <= 0
      ensures RidFits(r)
    {
      OffFits(r.addr);
      SmallFits(r.idx);
    }

    /** One chunk is filled in and inserted. */
    method WriteChunk(chunk: array<L.byte>, data: Text, lo: nat, n: nat, next: RID) returns (r: RID)
      requires table.Valid() && table.fsm.allocs < F.PREPARED && table.length + PAGE_SIZE <= MAX_OFF
      requires chunk.Length == MAX_SIZE && lo + n <= |data| && n <= MAX_LEN && RidFits(next)
      modifies chunk, table, table.fsm
      ensures table.Valid() && table.fsm.allocs <= old(table.fsm.allocs) + 1
          && table.length <= old(table.length) + PAGE_SIZE
      ensures r !in old(table.records) && r in table.records
          && table.records == old(table.records)[r := table.records[r]]
      ensures IsChunk(table.records[r], next, data[lo..lo + n]) && RidFits(r)
    {
      FillChunk(chunk, data, lo, n, next);
      r := table.Insert(chunk[..CHARS_AT + n]);
      table.Live(r);
      OffFits(r.addr);
      SmallFits(r.idx);
    }

    /** delete_string: exactly the chunks of this string are deleted. */
    method DeleteString(rid0: RID)
      requires Valid() && rid0 in strings && table.fsm.allocs + |strings[rid0].rids| <= F.PREPARED
      modifies this, table, table.fsm
      ensures Valid() && strings == old(strings) - {rid0} && Texts() == old(Texts()) - {rid0}
      ensures table.records == old(table.records) - (set r | r in old(strings)[rid0].rids)
    {
      ghost var m0, s := table.records, strings[rid0];
      DeleteChunks(rid0, s.rids, s.pieces);
      StoredLess(m0, strings, table.records, rid0, strings - {rid0});
      strings := strings - {rid0};
    }

    /** The loop of delete_string. */
    method DeleteChunks(rid0: RID, ghost rids: seq<RID>, ghost pieces: seq<Text>)
      requires table.Valid() && Chain(table.records, rids, pieces) && Distinct(rids) && rid0 == rids[0]
      requires table.fsm.allocs + |rids| <= F.PREPARED
      modifies table, table.fsm
      ensures table.Valid() && table.records == old(table.records) - (set r | r in rids)
    {
      AllAddressed();
      ghost var m0, k := table.records, 0;
      ChainIn(m0, rids, pieces);
      var rid := rid0;
      var blockAddr := rid.addr;
      var chunk := new L.byte[MAX_SIZE];
      while blockAddr != -1
        invariant table.Valid() && 0 <= k <= |rids| && Cleared(m0, table.records, rids, k)
        invariant if k < |rids| then rid == rids[k] && blockAddr == rid.addr else blockAddr == -1
        invariant table.fsm.allocs <= old(table.fsm.allocs) + k
        decreases |rids| - k
      {
        ghost var m := table.records;
        ClearedNext(m0, m, rids, pieces, k);
        ReadChunk(rid, chunk);
        table.Live(rid);
        table.Delete(rid);
        Prefix(chunk[..], m[rid]);
        ClearedStep(m0, m, rids, k, table.records);
        rid := RidOf(chunk[..]);
        blockAddr := rid.addr;
        k := k + 1;
        assert k < |rids| ==> rids[k] in rids;
      }
      ClearedAll(m0, table.records, rids);
    }
  }
}
