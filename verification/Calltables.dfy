/**
 The call table (src/types/CalltableSerialization.ts): a count, an (index, offset) header per
 field, the payload size, then the field values back to back.
 */
module Calltables {
  import opened Basics
  import opened ByteConverters

  datatype Field = Field(index: nat, offset: nat, value: Bytes)
  datatype Table = Table(fields: seq<Field>, size: nat)

  // ------------------------------------------------------- specification

  function Values(fields: seq<Field>): (vs: seq<Bytes>)
    ensures |vs| == |fields|
    ensures forall i :: 0 <= i < |fields| ==> vs[i] == fields[i].value
  {
    seq(|fields|, i requires 0 <= i < |fields| => fields[i].value)
  }

  /** Where field i starts: after all earlier values. */
  function OffsetOf(vs: seq<Bytes>, i: nat): (n: nat)
    requires i <= |vs|
  {
    |Concat(vs[..i])|
  }

  /** The table with these values in order: field i has index i and starts where the earlier ones end. */
  function TableOf(vs: seq<Bytes>): (t: Table)
    ensures |t.fields| == |vs| && Values(t.fields) == vs
    ensures t.size == |Concat(vs)|
    ensures forall i :: 0 <= i < |vs| ==> t.fields[i] == Field(i, OffsetOf(vs, i), vs[i])
  {
    var fields := seq(|vs|, i requires 0 <= i < |vs| => Field(i, OffsetOf(vs, i), vs[i]));
    assert Values(fields) == vs;
    Table(fields, |Concat(vs)|)
  }

  function Pairs(fields: seq<Field>): (ps: seq<(nat, nat)>)
    ensures |ps| == |fields|
    ensures forall i :: 0 <= i < |fields| ==> ps[i] == (fields[i].index, fields[i].offset)
  {
    seq(|fields|, i requires 0 <= i < |fields| => (fields[i].index, fields[i].offset))
  }

  function HeaderBytes(f: Field): (r: Result<Bytes>)
  {
    var index :- ToBytesU16(f.index);
    var offset :- ToBytesU32(f.offset);
    Ok(index + offset)
  }

  function HeadersBytes(fields: seq<Field>): (r: Result<Bytes>)
  {
    if fields == [] then Ok([])
    else
      var h :- HeaderBytes(fields[0]);
      var hs :- HeadersBytes(fields[1..]);
      Ok(h + hs)
  }

  /** What `toBytes` writes for any content. */
  function TableBytes(t: Table): (r: Result<Bytes>)
  {
    var count :- ToBytesU32(|t.fields|);
    var headers :- HeadersBytes(t.fields);
    var size :- ToBytesU32(t.size);
    Ok(count + headers + size + Concat(Values(t.fields)))
  }

  /** The bytes of a freshly filled call table. */
  function CalltableBytes(vs: seq<Bytes>): (r: Result<Bytes>) {
    TableBytes(TableOf(vs))
  }

  /** The (index, offset) pairs read from position `at`. */
  function ReadHeaders(b: Bytes, at: nat, n: nat): (r: Result<seq<(nat, nat)>>)
    ensures r.Ok? ==> |r.value| == n
    decreases n
  {
    if n == 0 then Ok([])
    else
      var index :- ParseU16(Slice(b, at, at + 2));
      var offset :- ParseU32(Slice(b, at + 2, at + 6));
      var tail :- ReadHeaders(b, at + 6, n - 1);
      Ok([(index, offset)] + tail)
  }

  function FieldEnd(heads: seq<(nat, nat)>, size: nat, i: nat): (n: nat)
    requires i < |heads|
  {
    if i + 1 < |heads| then heads[i + 1].1 else size
  }

  function CutFields(b: Bytes, base: nat, heads: seq<(nat, nat)>, size: nat): (fields: seq<Field>)
    ensures |fields| == |heads|
  {
    seq(|heads|, i requires 0 <= i < |heads| =>
        Field(heads[i].0, heads[i].1, Slice(b, base + heads[i].1, base + FieldEnd(heads, size, i))))
  }

  /** What `fromBytes` reads. */
  function ParseTable(b: Bytes): (r: Result<Table>)
  {
    var count :- ParseU32(Slice(b, 0, 4));
    var heads :- ReadHeaders(b, 4, count);
    var at := 4 + 6 * count;
    var size :- ParseU32(Slice(b, at, at + 4));
    Ok(Table(CutFields(b, at + 4, heads, size), size))
  }

  /** `getField`: the value of the first field with this index. */
  function FindField(fields: seq<Field>, index: nat): (v: Option<Bytes>)
  {
    if fields == [] then None
    else if fields[0].index == index then Some(fields[0].value)
    else FindField(fields[1..], index)
  }

  // ---------------------------------------------------------------- proofs

  lemma {:induction false} ConcatTake(vs: seq<Bytes>, i: nat)
    requires i < |vs|
    ensures Concat(vs[..i + 1]) == Concat(vs[..i]) + vs[i]
  {
    assert vs[..i + 1] == vs[..i] + [vs[i]];
    ConcatAppend(vs[..i], vs[i]);
  }

  lemma {:induction false} ConcatSplit(a: seq<Bytes>, b: seq<Bytes>)
    ensures Concat(a + b) == Concat(a) + Concat(b)
  {
    if a == [] {
      assert a + b == b;
    } else {
      assert (a + b)[1..] == a[1..] + b;
      ConcatSplit(a[1..], b);
    }
  }

  /** Each value is the piece of the payload between its offset and the next. */
  lemma PayloadPiece(vs: seq<Bytes>, i: nat)
    requires i < |vs|
    ensures OffsetOf(vs, i) <= OffsetOf(vs, i + 1) <= |Concat(vs)|
    ensures Concat(vs)[OffsetOf(vs, i)..OffsetOf(vs, i + 1)] == vs[i]
  {
    ConcatTake(vs, i);
    assert vs == vs[..i + 1] + vs[i + 1..];
    ConcatSplit(vs[..i + 1], vs[i + 1..]);
  }

  lemma WriteHeader(f: Field)
    requires HeaderBytes(f).Ok?
    ensures HeaderBytes(f).value == LE(f.index, 2) + LE(f.offset, 4)
    ensures f.index < 0x1_0000 && f.offset < 0x1_0000_0000
  {
  }

  /** A header written at some position is read there. */
  lemma HeaderAt(pre: Bytes, f: Field, tail: Bytes)
    requires f.index < 0x1_0000 && f.offset < 0x1_0000_0000
    ensures var b := pre + (LE(f.index, 2) + LE(f.offset, 4)) + tail;
            && ParseU16(Slice(b, |pre|, |pre| + 2)) == Ok(f.index)
            && ParseU32(Slice(b, |pre| + 2, |pre| + 6)) == Ok(f.offset)
  {
    hide LE, ParseU16, ParseU32;
    var x, y := LE(f.index, 2), LE(f.offset, 4);
    var b := pre + (x + y) + tail;
    assert b[|pre|..] == x + y + tail;
    assert b[|pre|..|pre| + 2] == x;
    assert b[|pre| + 2..|pre| + 6] == y;
    ParseU16OfLE(f.index, x);
    ParseU32OfLE(f.offset, y);
  }

  /** Reading n headers after some prefix gives back the pairs written there. */
  lemma {:induction false} HeadersRoundTrip(pre: Bytes, fields: seq<Field>, post: Bytes)
    requires HeadersBytes(fields).Ok?
    ensures |HeadersBytes(fields).value| == 6 * |fields|
    ensures ReadHeaders(pre + HeadersBytes(fields).value + post, |pre|, |fields|) == Ok(Pairs(fields))
    decreases |fields|
  {
    hide HeaderBytes, ParseU16, ParseU32, Slice, Pairs, LE;
    if fields != [] {
      var f, tail := fields[0], fields[1..];
      WriteHeader(f);
      var h, hs := HeaderBytes(f).value, HeadersBytes(tail).value;
      var b := pre + HeadersBytes(fields).value + post;
      assert b == (pre + h) + hs + post;
      assert b == pre + h + (hs + post);
      HeadersRoundTrip(pre + h, tail, post);
      HeaderAt(pre, f, hs + post);
      assert [(f.index, f.offset)] + Pairs(tail) == Pairs(fields);
    } else {
      assert Pairs(fields) == [];
    }
  }

  lemma WrittenParts(vs: seq<Bytes>)
    requires CalltableBytes(vs).Ok?
    ensures HeadersBytes(TableOf(vs).fields).Ok?
    ensures |vs| < 0x1_0000_0000 && |Concat(vs)| < 0x1_0000_0000
    ensures CalltableBytes(vs).value
            == LE(|vs|, 4) + HeadersBytes(TableOf(vs).fields).value + LE(|Concat(vs)|, 4) + Concat(vs)
  {
    hide TableOf, HeadersBytes, LE, Concat;
  }

  lemma HeaderPart(vs: seq<Bytes>, rest: Bytes)
    requires CalltableBytes(vs).Ok?
    ensures HeadersBytes(TableOf(vs).fields).Ok?
    ensures var hs := HeadersBytes(TableOf(vs).fields).value;
            && |hs| == 6 * |vs|
            && |vs| < 0x1_0000_0000 && |Concat(vs)| < 0x1_0000_0000
            && CalltableBytes(vs).value + rest == LE(|vs|, 4) + hs + (LE(|Concat(vs)|, 4) + (Concat(vs) + rest))
  {
    hide *;
    WrittenParts(vs);
    var fields := TableOf(vs).fields;
    HeadersRoundTrip([], fields, []);
    Regroup(LE(|vs|, 4), HeadersBytes(fields).value, LE(|Concat(vs)|, 4), Concat(vs), rest);
  }

  /** Where the parts of a written table are found. */
  lemma TablePieces(vs: seq<Bytes>, b: Bytes, hs: Bytes, rest: Bytes)
    requires |hs| == 6 * |vs|
    requires b == LE(|vs|, 4) + hs + (LE(|Concat(vs)|, 4) + (Concat(vs) + rest))
    ensures var at := 4 + 6 * |vs|;
            && |b| >= at + 4
            && b[0..4] == LE(|vs|, 4)
            && b[at..at + 4] == LE(|Concat(vs)|, 4)
            && b[at + 4..] == Concat(vs) + rest
  {
    hide LE, Concat;
    var at := 4 + 6 * |vs|;
    var front, size, tail := LE(|vs|, 4) + hs, LE(|Concat(vs)|, 4), Concat(vs) + rest;
    assert b == front + (size + tail);
    assert b[at..] == size + tail;
    assert b[at..at + 4] == size;
    assert b[at + 4..] == tail;
  }

  /** `fromBytes` rebuilds every field, index and offset, and does not look past the payload. */
  lemma CalltableRoundTrip(vs: seq<Bytes>, rest: Bytes)
    requires CalltableBytes(vs).Ok?
    ensures ParseTable(CalltableBytes(vs).value + rest) == Ok(TableOf(vs))
  {
    hide TableOf, CalltableBytes, HeadersBytes, ReadHeaders, LE, Concat, CutFields;
    var t := TableOf(vs);
    HeaderPart(vs, rest);
    var hs := HeadersBytes(t.fields).value;
    var b := CalltableBytes(vs).value + rest;
    TablePieces(vs, b, hs, rest);
    ParseU32OfLE(|vs|, b[0..4]);
    HeadersRoundTrip(LE(|vs|, 4), t.fields, LE(t.size, 4) + (Concat(vs) + rest));
    var at := 4 + 6 * |vs|;
    ParseU32OfLE(t.size, b[at..at + 4]);
    CutRestores(vs, b, at + 4, rest);
  }

  lemma PieceOfTail(b: Bytes, base: nat, payload: Bytes, rest: Bytes, from: nat, to: nat)
    requires base <= |b| && b[base..] == payload + rest && from <= to <= |payload|
    ensures Slice(b, base + from, base + to) == payload[from..to]
  {
    var x, y := b[base + from..base + to], payload[from..to];
    forall k | 0 <= k < to - from ensures x[k] == y[k] {
      assert x[k] == b[base + from + k] == b[base..][from + k];
    }
    assert x == y;
  }

  /** Cutting the payload at the written offsets restores the fields. */
  lemma CutRestores(vs: seq<Bytes>, b: Bytes, base: nat, rest: Bytes)
    requires base <= |b| && b[base..] == Concat(vs) + rest
    ensures CutFields(b, base, Pairs(TableOf(vs).fields), |Concat(vs)|) == TableOf(vs).fields
  {
    hide TableOf, Concat, CutFields;
    var t := TableOf(vs);
    var cut := CutFields(b, base, Pairs(t.fields), t.size);
    forall i | 0 <= i < |vs| ensures cut[i] == t.fields[i] {
      CutAt(vs, b, base, rest, i);
    }
    assert cut == t.fields;
  }

  lemma CutAt(vs: seq<Bytes>, b: Bytes, base: nat, rest: Bytes, i: nat)
    requires base <= |b| && b[base..] == Concat(vs) + rest && i < |vs|
    ensures CutFields(b, base, Pairs(TableOf(vs).fields), |Concat(vs)|)[i] == TableOf(vs).fields[i]
  {
    hide TableOf, Concat, Slice;
    var heads := Pairs(TableOf(vs).fields);
    PayloadPiece(vs, i);
    assert vs[..|vs|] == vs;
    var from, to := OffsetOf(vs, i), OffsetOf(vs, i + 1);
    assert FieldEnd(heads, |Concat(vs)|, i) == to;
    PieceOfTail(b, base, Concat(vs), rest, from, to);
  }

  /** Two lists of values with the same call-table bytes, whatever follows, are the same list. */
  lemma CalltableInjective(vs: seq<Bytes>, ws: seq<Bytes>, q: Bytes, r: Bytes)
    requires CalltableBytes(vs).Ok? && CalltableBytes(ws).Ok?
    requires CalltableBytes(vs).value + q == CalltableBytes(ws).value + r
    ensures vs == ws && q == r
  {
    hide TableOf, CalltableBytes, ParseTable;
    CalltableRoundTrip(vs, q);
    CalltableRoundTrip(ws, r);
    assert vs == Values(TableOf(vs).fields) == Values(TableOf(ws).fields) == ws;
    CancelPrefix(CalltableBytes(vs).value, q, r);
  }

  lemma CalltableSame(vs: seq<Bytes>, ws: seq<Bytes>)
    requires CalltableBytes(vs).Ok? && CalltableBytes(vs) == CalltableBytes(ws)
    ensures vs == ws
  {
    hide CalltableBytes;
    CalltableInjective(vs, ws, [], []);
  }

  /** What stands where in a written table: count, an index and a running offset per field, size, payload. */
  lemma TableLayout(vs: seq<Bytes>, i: nat)
    requires CalltableBytes(vs).Ok? && i < |vs|
    ensures var b := CalltableBytes(vs).value;
            var end := 4 + 6 * |vs|;
            && |b| == end + 4 + |Concat(vs)|
            && b[0..4] == LE(|vs|, 4)
            && b[4 + 6 * i..10 + 6 * i] == LE(i, 2) + LE(|Concat(vs[..i])|, 4)
            && b[end..end + 4] == LE(|Concat(vs)|, 4)
            && b[end + 4..] == Concat(vs)
  {
    hide TableOf, CalltableBytes, HeadersBytes, LE, Concat;
    var b := CalltableBytes(vs).value;
    var fields := TableOf(vs).fields;
    HeaderPart(vs, []);
    var hs := HeadersBytes(fields).value;
    assert b + [] == b && Concat(vs) + [] == Concat(vs);
    TablePieces(vs, b, hs, []);
    HeaderIsThere(fields, i);
    assert b[4..4 + |hs|] == hs;
    assert b[4 + 6 * i..10 + 6 * i] == hs[6 * i..6 * i + 6];
  }

  /** Header i of a table stands at 6 * i. */
  lemma {:induction false} HeaderIsThere(fields: seq<Field>, i: nat)
    requires HeadersBytes(fields).Ok? && i < |fields|
    ensures var hs := HeadersBytes(fields).value;
            && |hs| == 6 * |fields|
            && hs[6 * i..6 * i + 6] == LE(fields[i].index, 2) + LE(fields[i].offset, 4)
    decreases i
  {
    hide HeaderBytes, LE, ReadHeaders, Pairs;
    HeadersRoundTrip([], fields, []);
    HeadersRoundTrip([], fields[1..], []);
    WriteHeader(fields[0]);
    var h, tail := HeaderBytes(fields[0]).value, HeadersBytes(fields[1..]).value;
    if i == 0 {
      assert (h + tail)[0..6] == h;
    } else {
      HeaderIsThere(fields[1..], i - 1);
      assert (h + tail)[6 * i..6 * i + 6] == tail[6 * (i - 1)..6 * (i - 1) + 6];
    }
  }

  /** A table can be written exactly with at most 65536 fields and a payload below 2^32 bytes. */
  lemma CalltableLimits(vs: seq<Bytes>)
    ensures CalltableBytes(vs).Ok? <==> |vs| <= 0x1_0000 && |Concat(vs)| < 0x1_0000_0000
    ensures forall i :: 0 <= i < |vs| ==> |vs[i]| <= |Concat(vs)|
  {
    hide CalltableBytes, TableOf, HeadersBytes, Concat;
    TableIsWritten(vs);
    if CalltableBytes(vs).Ok? && vs != [] {
      HeaderPart(vs, []);
      IndexLimit(TableOf(vs).fields, |vs| - 1);
    }
    forall i | 0 <= i < |vs|
      ensures |vs[i]| <= |Concat(vs)| && OffsetOf(vs, i) <= |Concat(vs)|
    {
      PayloadPiece(vs, i);
    }
    if |vs| <= 0x1_0000 && |Concat(vs)| < 0x1_0000_0000 {
      HeadersFit(TableOf(vs).fields);
    }
  }

  lemma TableIsWritten(vs: seq<Bytes>)
    ensures CalltableBytes(vs).Ok? <==>
            HeadersBytes(TableOf(vs).fields).Ok? && |vs| < 0x1_0000_0000 && |Concat(vs)| < 0x1_0000_0000
  {
    hide TableOf, HeadersBytes, LE, Concat;
  }

  lemma {:induction false} HeadersFit(fields: seq<Field>)
    requires forall i :: 0 <= i < |fields| ==> fields[i].index < 0x1_0000 && fields[i].offset < 0x1_0000_0000
    ensures HeadersBytes(fields).Ok?
  {
    hide LE;
    if fields != [] {
      HeadersFit(fields[1..]);
    }
  }

  lemma {:induction false} IndexLimit(fields: seq<Field>, i: nat)
    requires HeadersBytes(fields).Ok? && i < |fields|
    ensures fields[i].index < 0x1_0000
    decreases i
  {
    WriteHeader(fields[0]);
    if i > 0 {
      IndexLimit(fields[1..], i - 1);
    }
  }

  lemma {:induction false} FindInOrder(fields: seq<Field>, first: nat, index: nat)
    requires forall i :: 0 <= i < |fields| ==> fields[i].index == first + i
    ensures FindField(fields, index) ==
            if first <= index < first + |fields| then Some(fields[index - first].value) else None
    decreases |fields|
  {
    if fields != [] {
      FindInOrder(fields[1..], first + 1, index);
    }
  }

  /** In a freshly filled or faithfully decoded table, `getField(i)` is the i-th value. */
  lemma GetFieldOfTable(vs: seq<Bytes>, index: nat)
    ensures FindField(TableOf(vs).fields, index) == if index < |vs| then Some(vs[index]) else None
  {
    FindInOrder(TableOf(vs).fields, 0, index);
  }

  /** The value of a field of a written table. */
  function FieldAt(b: Bytes, index: nat): (r: Result<Bytes>) {
    var table :- ParseTable(b);
    var v := FindField(table.fields, index);
    if v.None? then Err(MissingField) else Ok(v.value)
  }

  lemma FieldOfWritten(vs: seq<Bytes>, index: nat)
    requires CalltableBytes(vs).Ok?
    ensures FieldAt(CalltableBytes(vs).value, index) == if index < |vs| then Ok(vs[index]) else Err(MissingField)
  {
    hide CalltableBytes, ParseTable, TableOf, FindField;
    CalltableRoundTrip(vs, []);
    var b := CalltableBytes(vs).value;
    assert b + [] == b;
    GetFieldOfTable(vs, index);
  }

  lemma TableOfAppend(vs: seq<Bytes>, v: Bytes)
    ensures TableOf(vs + [v]) == Table(TableOf(vs).fields + [Field(|vs|, |Concat(vs)|, v)], |Concat(vs)| + |v|)
  {
    hide TableOf, Concat;
    ConcatAppend(vs, v);
    var ws := vs + [v];
    var fields := TableOf(vs).fields + [Field(|vs|, |Concat(vs)|, v)];
    forall i | 0 <= i < |ws| ensures TableOf(ws).fields[i] == fields[i] {
      assert ws[..i] == vs[..i];
      assert vs[..|vs|] == vs;
    }
    assert TableOf(ws).fields == fields;
  }

  lemma {:induction false} HeadersAppend(fields: seq<Field>, f: Field)
    ensures HeadersBytes(fields + [f]) ==
            if HeadersBytes(fields).Err? then HeadersBytes(fields)
            else if HeaderBytes(f).Err? then Err(HeaderBytes(f).error)
            else Ok(HeadersBytes(fields).value + HeaderBytes(f).value)
  {
    hide HeaderBytes;
    if fields == [] {
      assert ([] + [f])[1..] == [];
      if HeaderBytes(f).Ok? {
        assert HeaderBytes(f).value + [] == [] + HeaderBytes(f).value;
      }
    } else {
      assert (fields + [f])[1..] == fields[1..] + [f];
      HeadersAppend(fields[1..], f);
      if HeaderBytes(fields[0]).Ok? && HeadersBytes(fields[1..]).Ok? && HeaderBytes(f).Ok? {
        var h, hs, x := HeaderBytes(fields[0]).value, HeadersBytes(fields[1..]).value, HeaderBytes(f).value;
        assert h + (hs + x) == (h + hs) + x;
      }
    }
  }

  // -------------------------------------------------------------- the class

  class CalltableSerialization {
    var fields: seq<Field>
    var currentOffset: nat

    ghost function Contents(): (t: Table)
      reads this
    {
      Table(fields, currentOffset)
    }

    /** Indices count up from 0 and offsets are the running sum of the value lengths. */
    ghost predicate Valid()
      reads this
    {
      Contents() == TableOf(Values(fields))
    }

    constructor ()
      ensures Contents() == Table([], 0)
      ensures Valid() && Values(fields) == []
    {
      fields := [];
      currentOffset := 0;
    }

    /** Fields must come in index order; a refused field changes nothing. */
    method AddField(index: nat, value: Bytes) returns (e: Option<Error>)
      modifies this
      ensures e == if |old(fields)| != index then Some(FieldOrder) else None
      ensures Contents() == if e.Some? then old(Contents())
                            else Table(old(fields) + [Field(index, old(currentOffset), value)],
                                       old(currentOffset) + |value|)
      ensures old(Valid()) ==> Valid()
      ensures |fields| == if e.Some? then old(|fields|) else old(|fields|) + 1
      ensures Values(fields) == if e.Some? then old(Values(fields)) else old(Values(fields)) + [value]
    {
      if |fields| != index {
        return Some(FieldOrder);
      }
      TableOfAppend(Values(fields), value);
      assert Values(fields + [Field(index, currentOffset, value)]) == Values(fields) + [value];
      fields := fields + [Field(index, currentOffset, value)];
      currentOffset := currentOffset + |value|;
      return None;
    }

    /** A valid table is written as its values' call table, whatever order the loop gathers the parts in. */
    method ToBytes() returns (r: Result<Bytes>)
      ensures r == TableBytes(Contents())
      ensures Valid() ==> r == CalltableBytes(Values(fields))
    {
      hide HeaderBytes, TableOf;
      var count := ToBytesU32(|fields|);
      if count.Err? {
        return count;
      }
      var headers: Bytes := [];
      var payload: Bytes := [];
      for i := 0 to |fields|
        invariant HeadersBytes(fields[..i]) == Ok(headers)
        invariant payload == Concat(Values(fields[..i]))
      {
        var h := HeaderBytes(fields[i]);
        assert fields[..i + 1] == fields[..i] + [fields[i]];
        HeadersAppend(fields[..i], fields[i]);
        if h.Err? {
          HeadersError(fields, i + 1);
          return h;
        }
        headers := headers + h.value;
        ConcatAppend(Values(fields[..i]), fields[i].value);
        assert Values(fields[..i + 1]) == Values(fields[..i]) + [fields[i].value];
        payload := payload + fields[i].value;
      }
      assert fields[..|fields|] == fields;
      var size := ToBytesU32(currentOffset);
      if size.Err? {
        return size;
      }
      r := Ok(count.value + headers + size.value + payload);
    }

    method GetField(index: nat) returns (v: Option<Bytes>)
      ensures v == FindField(fields, index)
    {
      for i := 0 to |fields|
        invariant FindField(fields, index) == FindField(fields[i..], index)
      {
        if fields[i].index == index {
          return Some(fields[i].value);
        }
      }
      return None;
    }

    /** Reads the headers, then fills the values in by their offsets. */
    static method FromBytes(bytes: Bytes) returns (r: Result<CalltableSerialization>)
      ensures r.Ok? <==> ParseTable(bytes).Ok?
      ensures r.Err? ==> ParseTable(bytes) == Err(r.error)
      ensures r.Ok? ==> fresh(r.value) && ParseTable(bytes) == Ok(r.value.Contents())
    {
      hide ReadHeaders, CutFields, ParseU32;
      var count := ParseU32(Slice(bytes, 0, 4));
      if count.Err? {
        return Err(count.error);
      }
      var offset := 4;
      var heads := ReadHeaderLoop(bytes, offset, count.value);
      if heads.Err? {
        return Err(heads.error);
      }
      offset := offset + 6 * count.value;
      var size := ParseU32(Slice(bytes, offset, offset + 4));
      if size.Err? {
        return Err(size.error);
      }
      offset := offset + 4;
      var table := new CalltableSerialization();
      table.fields := CutLoop(bytes, offset, heads.value, size.value);
      table.currentOffset := size.value;
      r := Ok(table);
    }

    static method ReadHeaderLoop(bytes: Bytes, start: nat, count: nat) returns (r: Result<seq<(nat, nat)>>)
      ensures r == ReadHeaders(bytes, start, count)
    {
      hide ParseU16, ParseU32, Slice;
      var offset := start;
      var heads: seq<(nat, nat)> := [];
      ghost var all := ReadHeaders(bytes, start, count);
      assert all.Ok? ==> [] + all.value == all.value;
      for i := 0 to count
        invariant offset == start + 6 * i
        invariant var tail := ReadHeaders(bytes, offset, count - i);
                  all == if tail.Ok? then Ok(heads + tail.value) else tail
      {
        var index := ParseU16(Slice(bytes, offset, offset + 2));
        if index.Err? {
          return Err(index.error);
        }
        var fieldOffset := ParseU32(Slice(bytes, offset + 2, offset + 6));
        if fieldOffset.Err? {
          return Err(fieldOffset.error);
        }
        var head := (index.value, fieldOffset.value);
        ghost var next := ReadHeaders(bytes, offset + 6, count - i - 1);
        assert next.Ok? ==> heads + ([head] + next.value) == heads + [head] + next.value;
        heads := heads + [head];
        offset := offset + 6;
      }
      assert heads + [] == heads;
      r := Ok(heads);
    }

    static method CutLoop(bytes: Bytes, offset: nat, heads: seq<(nat, nat)>, size: nat) returns (cut: seq<Field>)
      ensures cut == CutFields(bytes, offset, heads, size)
    {
      hide Slice;
      cut := [];
      for i := 0 to |heads|
        invariant cut == CutFields(bytes, offset, heads, size)[..i]
      {
        var end := if i + 1 < |heads| then heads[i + 1].1 else size;
        cut := cut + [Field(heads[i].0, heads[i].1, Slice(bytes, offset + heads[i].1, offset + end))];
      }
    }
  }

  lemma {:induction false} HeadersError(fields: seq<Field>, n: nat)
    requires n <= |fields| && HeadersBytes(fields[..n]).Err?
    ensures HeadersBytes(fields) == HeadersBytes(fields[..n])
    decreases |fields| - n
  {
    hide HeaderBytes;
    if n < |fields| {
      assert fields[..n + 1] == fields[..n] + [fields[n]];
      HeadersAppend(fields[..n], fields[n]);
      HeadersError(fields, n + 1);
    } else {
      assert fields[..n] == fields;
    }
  }
}
