/**
 The record format of a row: the number of fields, then each field as its length and
 its bytes, every integer in the machine's 32-bit layout.
 */
module Records {
  import opened Options
  import opened Machine
  import opened Pages
  import opened Memory

  type Field = seq<byte>
  type Row = seq<Field>

  /** The lengths that fit the 32-bit integers of the format. */
  predicate Storable(row: Row) {
    |row| < TWO_32 && forall f <- row :: |f| < TWO_32
  }

  /** The length the serializer computes before it allocates. */
  function RecordLength(row: Row): nat {
    4 + FieldsLength(row)
  }

  function FieldsLength(row: Row): nat {
    if row == [] then 0 else FieldsLength(row[..|row| - 1]) + 4 + |row[|row| - 1]|
  }

  function Serialize(row: Row): Record {
    Le32(Cast32(|row|)) + Encode(row)
  }

  /** `count` fields read from `rec` at `pos`, if every length prefix stays inside the record. */
  function FieldsFrom(rec: Record, pos: nat, count: nat): Option<Row>
    requires pos <= |rec|
    decreases count
  {
    if count == 0 then Some([])
    else if |rec| - pos < 4 then None
    else
      var len := FromLe32(rec[pos..pos + 4]);
      if |rec| - (pos + 4) < len then None
      else
        match FieldsFrom(rec, pos + 4 + len, count - 1)
        case None => None
        case Some(rest) => Some([rec[pos + 4..pos + 4 + len]] + rest)
  }

  function Deserialize(rec: Record): Option<Row> {
    if |rec| < 4 then None else FieldsFrom(rec, 4, FromLe32(rec[..4]))
  }

  // ---------- properties of the format ----------

  lemma {:induction false} FieldsLengthIsEncoded(row: Row)
    ensures FieldsLength(row) == |Encode(row)|
  {
    if row != [] {
      var init, last := row[..|row| - 1], row[|row| - 1];
      assert row == init + [last];
      EncodeConcat(init, [last]);
      FieldsLengthIsEncoded(init);
    }
  }

  /** A row occupies 4 bytes, and 4 more than its length for each field. */
  lemma SerializedLength(row: Row)
    ensures |Serialize(row)| == RecordLength(row)
  {
    FieldsLengthIsEncoded(row);
  }

  lemma HeadOfTail(rec: Record, pos: nat, a: seq<byte>, b: seq<byte>, c: seq<byte>)
    requires pos <= |rec| && a + b + c <= rec[pos..]
    ensures pos + |a| + |b| <= |rec|
    ensures rec[pos..pos + |a|] == a && rec[pos + |a|..pos + |a| + |b|] == b
    ensures c <= rec[pos + |a| + |b|..]
  {
    var tail, all := rec[pos..], a + b + c;
    assert all[..|a|] == a && all[|a|..|a| + |b|] == b && all[|a| + |b|..] == c;
    assert rec[pos..pos + |a|] == tail[..|a|];
    assert rec[pos + |a|..pos + |a| + |b|] == tail[|a|..|a| + |b|];
    assert rec[pos + |a| + |b|..] == tail[|a| + |b|..];
  }

  lemma FieldReadsBack(rec: Record, pos: nat, f: Field, rest: Row)
    requires pos <= |rec| && |f| < TWO_32
    requires Encode([f] + rest) <= rec[pos..]
    ensures var next := pos + 4 + |f|;
            && next <= |rec|
            && FromLe32(rec[pos..pos + 4]) == |f| && rec[pos + 4..next] == f
            && Encode(rest) <= rec[next..]
  {
    HeadOfTail(rec, pos, Le32(Cast32(|f|)), f, Encode(rest));
    PrefixReadsBack(f);
  }

  lemma {:induction false} FieldsReadBack(rec: Record, pos: nat, row: Row)
    requires pos <= |rec| && forall f <- row :: |f| < TWO_32
    requires Encode(row) <= rec[pos..]
    ensures FieldsFrom(rec, pos, |row|) == Some(row)
    decreases |row|
  {
    hide Le32, FromLe32, Prefixed, Cast32;
    if row != [] {
      assert row == [row[0]] + row[1..];
      FieldReadsBack(rec, pos, row[0], row[1..]);
      FieldsReadBack(rec, pos + 4 + |row[0]|, row[1..]);
    }
  }

  lemma FieldReadsPrefix(rec: Record, pos: nat, len: nat, rest: Row)
    requires pos + 4 + len <= |rec| && FromLe32(rec[pos..pos + 4]) == len
    requires Encode(rest) <= rec[pos + 4 + len..]
    ensures Encode([rec[pos + 4..pos + 4 + len]] + rest) <= rec[pos..]
  {
    hide FromLe32, Le32;
    var f := rec[pos + 4..pos + 4 + len];
    PrefixWritesBack(rec[pos..pos + 4], len);
  }

  lemma {:induction false} FieldsReadPrefix(rec: Record, pos: nat, count: nat)
    requires pos <= |rec| && FieldsFrom(rec, pos, count).Some?
    ensures var row := FieldsFrom(rec, pos, count).value;
            |row| == count && (forall f <- row :: |f| < TWO_32) && Encode(row) <= rec[pos..]
    decreases count
  {
    if count != 0 {
      var len := FromLe32(rec[pos..pos + 4]);
      var next := pos + 4 + len;
      FieldsReadPrefix(rec, next, count - 1);
      FieldReadsPrefix(rec, pos, len, FieldsFrom(rec, next, count - 1).value);
    }
  }

  /** Decoding undoes encoding, whatever bytes follow the record. */
  lemma DeserializeUndoesSerialize(row: Row, trailing: seq<byte>)
    requires Storable(row)
    ensures Deserialize(Serialize(row) + trailing) == Some(row)
  {
    hide Le32, FromLe32, Encode, Deserialize;
    ThreeParts(Le32(Cast32(|row|)), Encode(row), trailing);
    Le32RoundTrip(|row|);
    CountThenFields(Serialize(row) + trailing, row);
  }

  lemma CountThenFields(rec: Record, row: Row)
    requires |rec| >= 4 && FromLe32(rec[..4]) == |row| && Encode(row) <= rec[4..]
    requires forall f <- row :: |f| < TWO_32
    ensures Deserialize(rec) == Some(row)
  {
    FieldsReadBack(rec, 4, row);
  }

  lemma ThreeParts(a: seq<byte>, b: seq<byte>, c: seq<byte>)
    ensures (a + b + c)[..|a|] == a && b <= (a + b + c)[|a|..]
  {
    assert (a + b + c)[|a|..] == b + c;
  }

  lemma SerializeRoundTrip(row: Row)
    requires Storable(row)
    ensures Deserialize(Serialize(row)) == Some(row)
  {
    DeserializeUndoesSerialize(row, []);
    assert Serialize(row) + [] == Serialize(row);
  }

  lemma AcceptedStartsWithRow(rec: Record)
    requires Deserialize(rec).Some?
    ensures var row := Deserialize(rec).value; Storable(row) && Serialize(row) <= rec
  {
    var row := Deserialize(rec).value;
    FieldsReadPrefix(rec, 4, FromLe32(rec[..4]));
    PrefixWritesBack(rec[..4], |row|);
    assert rec == rec[..4] + rec[4..];
  }

  /** The reader accepts exactly the byte strings that begin with some row's record. */
  lemma DeserializeAcceptsExactly(rec: Record, row: Row)
    ensures Deserialize(rec) == Some(row) <==> Storable(row) && Serialize(row) <= rec
  {
    if Deserialize(rec) == Some(row) {
      AcceptedStartsWithRow(rec);
    }
    if Storable(row) && Serialize(row) <= rec {
      var trailing := rec[|Serialize(row)|..];
      assert rec == Serialize(row) + trailing;
      DeserializeUndoesSerialize(row, trailing);
    }
  }

  // ---------- the loops ----------

  method SerializeRow(values: Row) returns (buffer: array<byte>, length: uint32)
    requires RecordLength(values) < TWO_32
    ensures fresh(buffer) && buffer[..] == Serialize(values)
    ensures length == buffer.Length
  {
    var total := TotalLength(values);
    SerializedLength(values);
    buffer := new byte[total];
    var cursor := 0;
    MemCpy(buffer, cursor, Le32(Cast32(|values|)));
    cursor := cursor + 4;
    for index := 0 to |values|
      invariant Filled(buffer, cursor, values, index)
    {
      cursor := PutField(buffer, cursor, values, index);
    }
    assert values[..|values|] == values;
    length := total;
  }

  method TotalLength(values: Row) returns (total: nat)
    ensures total == RecordLength(values)
  {
    total := 4;
    for index := 0 to |values|
      invariant total == RecordLength(values[..index])
    {
      assert values[..index + 1][..index] == values[..index];
      total := total + 4 + |values[index]|;
    }
    assert values[..|values|] == values;
  }

  /** The field count and the first `index` fields are in place, and the cursor is behind them. */
  ghost predicate Filled(buffer: array<byte>, cursor: nat, values: Row, index: nat)
    reads buffer
  {
    && index <= |values|
    && cursor == 4 + |Encode(values[..index])|
    && cursor <= buffer.Length == 4 + |Encode(values)|
    && buffer[..cursor] == Le32(Cast32(|values|)) + Encode(values[..index])
  }

  method PutField(buffer: array<byte>, cursor: nat, values: Row, index: nat) returns (next: nat)
    requires index < |values| && Filled(buffer, cursor, values, index)
    modifies buffer
    ensures Filled(buffer, next, values, index + 1)
  {
    var field := values[index];
    ghost var head, done := Le32(Cast32(|values|)), Encode(values[..index]);
    EncodeTakeStep(values, index);
    next := cursor;
    MemCpy(buffer, next, Le32(Cast32(|field|)));
    next := next + 4;
    MemCpy(buffer, next, field);
    next := next + |field|;
    Reassociate(head + done, Le32(Cast32(|field|)), field);
    Reassociate(head, done, Prefixed(field));
  }

  lemma SliceOfSlice(s: seq<byte>, start: nat, length: nat, i: nat, j: nat)
    requires start + length <= |s| && i <= j <= length
    ensures s[start..start + length][i..j] == s[start + i..start + j]
  {
    var a, b := s[start..start + length][i..j], s[start + i..start + j];
    assert |a| == |b| && forall k | 0 <= k < |a| :: a[k] == b[k];
  }

  /** The fields read so far, in front of those that are read behind them. */
  function Behind(values: Row, rest: Option<Row>): Option<Row> {
    match rest
    case None => None
    case Some(more) => Some(values + more)
  }

  /** One field, at a position of the record. */
  lemma FieldStep(rec: Record, pos: nat, count: nat, values: Row)
    requires pos <= |rec| && count > 0
    ensures Behind(values, FieldsFrom(rec, pos, count))
         == if |rec| - pos < 4 then None
            else
              var len := FromLe32(rec[pos..pos + 4]);
              if |rec| - (pos + 4) < len then None
              else Behind(values + [rec[pos + 4..pos + 4 + len]], FieldsFrom(rec, pos + 4 + len, count - 1))
  {
    hide FromLe32;
    if |rec| - pos >= 4 && |rec| - (pos + 4) >= FromLe32(rec[pos..pos + 4]) {
      var len := FromLe32(rec[pos..pos + 4]);
      var rest := FieldsFrom(rec, pos + 4 + len, count - 1);
      var field := rec[pos + 4..pos + 4 + len];
      assert rest.Some? ==> values + ([field] + rest.value) == (values + [field]) + rest.value;
    }
  }

  lemma NoFields(rec: Record, pos: nat, count: nat, values: Row)
    requires pos <= |rec|
    ensures Behind([], FieldsFrom(rec, pos, count)) == FieldsFrom(rec, pos, count)
    ensures Behind(values, FieldsFrom(rec, pos, 0)) == Some(values)
  {
    hide FromLe32;
    var fields := FieldsFrom(rec, pos, count);
    assert fields.Some? ==> [] + fields.value == fields.value;
    assert values + [] == values;
  }

  /** The record of `length` bytes at `start`. */
  method DeserializeRow(data: array<byte>, start: nat, length: nat) returns (row: Option<Row>)
    requires start + length <= data.Length
    ensures row == Deserialize(data[start..start + length])
  {
    hide FromLe32, FieldsFrom, Behind;
    ghost var rec := data[start..start + length];
    if length < 4 {
      return None;
    }
    SliceOfSlice(data[..], start, length, 0, 4);
    var fieldCount := FromLe32(data[start..start + 4]);
    var cursor := 4;
    var values: seq<Field> := [];
    NoFields(rec, cursor, fieldCount, []);
    for index := 0 to fieldCount
      invariant |values| == index && 4 <= cursor <= length
      invariant Deserialize(rec) == Behind(values, FieldsFrom(rec, cursor, fieldCount - index))
    {
      FieldStep(rec, cursor, fieldCount - index, values);
      if length - cursor < 4 {
        return None;
      }
      SliceOfSlice(data[..], start, length, cursor, cursor + 4);
      var fieldLength := FromLe32(data[start + cursor..start + cursor + 4]);
      if length - (cursor + 4) < fieldLength {
        return None;
      }
      cursor := cursor + 4;
      SliceOfSlice(data[..], start, length, cursor, cursor + fieldLength);
      values := values + [data[start + cursor..start + cursor + fieldLength]];
      cursor := cursor + fieldLength;
    }
    NoFields(rec, cursor, 0, values);
    return Some(values);
  }
}
