/** Values, columns, schemas, and the byte layout of a row. */
module Rows {
  import opened Bytes
  import opened Pages

  /** A string of single-byte characters. */
  type Text = s: string | forall i | 0 <= i < |s| :: s[i] as int < 0x100 witness ""

  datatype TypeId = INVALID | BOOLEAN | INTEGER

  datatype Value = NoValue | Boolean(b: i8) | Integer(i: i32)

  function TypeOf(v: Value): TypeId {
    match v
    case NoValue => INVALID
    case Boolean(_) => BOOLEAN
    case Integer(_) => INTEGER
  }

  function SizeOf(t: TypeId): nat {
    match t
    case INVALID => 0
    case BOOLEAN => 1
    case INTEGER => 4
  }

  datatype Column = Column(name: Text, typeId: TypeId)

  /** Where column `i` starts: the lengths of the columns before it. */
  function Offset(columns: seq<Column>, i: nat): nat
    requires i <= |columns|
  {
    if i == 0 then 0 else Offset(columns, i - 1) + SizeOf(columns[i - 1].typeId)
  }

  /** A row's length; columns tile it. */
  function RowLength(columns: seq<Column>): nat {
    Offset(columns, |columns|)
  }

  lemma {:induction false} OffsetsAscend(columns: seq<Column>, i: nat, j: nat)
    requires i <= j <= |columns|
    ensures Offset(columns, i) <= Offset(columns, j)
    decreases j
  {
    if i < j { OffsetsAscend(columns, i, j - 1); }
  }

  datatype Schema = Schema(columns: seq<Column>, offsets: seq<nat>, length: nat)

  ghost predicate IsSchema(s: Schema) {
    && |s.offsets| == |s.columns| && s.length == RowLength(s.columns)
    && forall i | 0 <= i < |s.columns| :: s.offsets[i] == Offset(s.columns, i)
  }

  /** The schema constructor: running offsets. */
  method MakeSchema(columns: seq<Column>) returns (s: Schema)
    ensures s.columns == columns && IsSchema(s)
  {
    var offsets: seq<nat> := [];
    var length := 0;
    for i := 0 to |columns|
      invariant |offsets| == i && length == Offset(columns, i)
      invariant forall j | 0 <= j < i :: offsets[j] == Offset(columns, j)
    {
      offsets := offsets + [length];
      length := length + SizeOf(columns[i].typeId);
    }
    s := Schema(columns, offsets, length);
  }

  // ---- values as bytes ----

  function Encode(v: Value): (b: seq<byte>)
    ensures |b| == SizeOf(TypeOf(v))
  {
    match v
    case NoValue => []
    case Boolean(b) => [EncodeI8(b)]
    case Integer(i) => EncodeI32(i)
  }

  function Decode(b: seq<byte>, t: TypeId): (v: Value)
    requires |b| == SizeOf(t)
    ensures TypeOf(v) == t
  {
    match t
    case INVALID => NoValue
    case BOOLEAN => Boolean(DecodeI8(b[0]))
    case INTEGER => Integer(DecodeI32(b))
  }

  lemma ValueRoundTrip(v: Value)
    ensures Decode(Encode(v), TypeOf(v)) == v
  {
    if v.Integer? { I32RoundTrip(v.i); }
  }

  /** `SerializeToChar`: nothing is written for a value of no type. */
  method SerializeToChar(v: Value, data: array<byte>, at: nat)
    requires at + SizeOf(TypeOf(v)) <= data.Length
    modifies data
    ensures data[..] == Splice(old(data[..]), at, Encode(v))
  {
    match v
    case NoValue =>
    case Boolean(b) => CopyInto(data, at, [EncodeI8(b)]);
    case Integer(i) => CopyInto(data, at, EncodeI32(i));
  }

  // ---- rows ----

  /** The values are for the first columns, each of its column's type. */
  ghost predicate Matches(values: seq<Value>, columns: seq<Column>) {
    |values| <= |columns| && forall i | 0 <= i < |values| :: TypeOf(values[i]) == columns[i].typeId
  }

  function Zeros(n: nat): (z: seq<byte>)
    ensures |z| == n && forall i | 0 <= i < n :: z[i] == 0
  {
    seq(n, _ => 0)
  }

  /** The first `n` columns of a row: the values' bytes, then zeros where there is no value. */
  ghost function RowPrefix(values: seq<Value>, columns: seq<Column>, n: nat): (b: seq<byte>)
    requires Matches(values, columns) && n <= |columns|
    ensures |b| == Offset(columns, n)
  {
    if n == 0 then []
    else RowPrefix(values, columns, n - 1) +
         if n - 1 < |values| then Encode(values[n - 1]) else Zeros(SizeOf(columns[n - 1].typeId))
  }

  ghost function RowBytes(values: seq<Value>, columns: seq<Column>): (b: seq<byte>)
    requires Matches(values, columns)
    ensures |b| == RowLength(columns)
  {
    RowPrefix(values, columns, |columns|)
  }

  lemma {:induction false} PrefixesNest(values: seq<Value>, columns: seq<Column>, i: nat, n: nat)
    requires Matches(values, columns) && i <= n <= |columns|
    ensures Offset(columns, i) <= Offset(columns, n)
    ensures RowPrefix(values, columns, n)[..Offset(columns, i)] == RowPrefix(values, columns, i)
    decreases n
  {
    if i < n { PrefixesNest(values, columns, i, n - 1); }
  }

  lemma ZerosJoin(b: seq<byte>, m: nat, n: nat)
    ensures (b + Zeros(m)) + Zeros(n) == b + Zeros(m + n)
  {
  }

  lemma {:induction false} MissingAreZero(values: seq<Value>, columns: seq<Column>, n: nat)
    requires Matches(values, columns) && |values| <= n <= |columns|
    ensures Offset(columns, |values|) <= Offset(columns, n)
    ensures RowPrefix(values, columns, n) ==
      RowPrefix(values, columns, |values|) + Zeros(Offset(columns, n) - Offset(columns, |values|))
    decreases n
  {
    hide Encode, Zeros, Matches;
    if n > |values| {
      MissingAreZero(values, columns, n - 1);
      var before := Offset(columns, n - 1) - Offset(columns, |values|);
      ZerosJoin(RowPrefix(values, columns, |values|), before, SizeOf(columns[n - 1].typeId));
    }
  }

  /** A row: its bytes, filled in when it is built and only read afterwards. */
  class Tuple {
    const data: array<byte>

    /** Serializes the values at their columns' offsets, into a buffer of zeros. */
    constructor (values: seq<Value>, schema: Schema)
      requires IsSchema(schema) && Matches(values, schema.columns)
      ensures fresh(data) && data[..] == RowBytes(values, schema.columns)
    {
      data := new byte[schema.length](_ => 0);
      new;
      ghost var columns := schema.columns;
      NothingFilled(data[..], values, columns);
      hide RowFilled, RowPrefix, Splice, Encode, RowBytes, Matches;
      for i := 0 to |values|
        invariant RowFilled(data[..], values, columns, i)
      {
        RoomForValue(data[..], values, columns, i);
        ghost var before := data[..];
        SerializeToChar(values[i], data, schema.offsets[i]);
        FillOneMore(before, values, columns, i);
      }
      AllFilled(data[..], values, columns);
    }

    constructor FromRaw(raw: seq<byte>)
      ensures fresh(data) && data[..] == raw
    {
      data := new byte[|raw|](i requires 0 <= i < |raw| => raw[i]);
    }

    method GetValue(schema: Schema, i: nat) returns (v: Value)
      requires IsSchema(schema) && i < |schema.columns| && data.Length == schema.length
      ensures v == ValueAt(data[..], schema.columns, i)
    {
      OffsetsAscend(schema.columns, i + 1, |schema.columns|);
      var at := schema.offsets[i];
      var t := schema.columns[i].typeId;
      v := Decode(data[at..at + SizeOf(t)], t);
      assert data[..][at..at + SizeOf(t)] == data[at..at + SizeOf(t)];
    }
  }

  /** The value of column `i` of a row. */
  function ValueAt(row: seq<byte>, columns: seq<Column>, i: nat): (v: Value)
    requires i < |columns| && |row| == RowLength(columns)
    ensures TypeOf(v) == columns[i].typeId
  {
    OffsetsAscend(columns, i + 1, |columns|);
    Decode(row[Offset(columns, i)..Offset(columns, i + 1)], columns[i].typeId)
  }

  /** The first `i` values are in the buffer, and the rest of it is still zero. */
  ghost predicate RowFilled(b: seq<byte>, values: seq<Value>, columns: seq<Column>, i: nat) {
    && Matches(values, columns) && i <= |values| && |b| == RowLength(columns)
    && Offset(columns, i) <= |b|
    && b == RowPrefix(values, columns, i) + Zeros(|b| - Offset(columns, i))
  }

  lemma NothingFilled(b: seq<byte>, values: seq<Value>, columns: seq<Column>)
    requires Matches(values, columns) && |b| == RowLength(columns) && forall k | 0 <= k < |b| :: b[k] == 0
    ensures RowFilled(b, values, columns, 0)
  {
    assert b == Zeros(|b|);
  }

  lemma RoomForValue(b: seq<byte>, values: seq<Value>, columns: seq<Column>, i: nat)
    requires RowFilled(b, values, columns, i) && i < |values|
    ensures i < |columns| && Offset(columns, i) + SizeOf(TypeOf(values[i])) == Offset(columns, i + 1) <= |b|
  {
    OffsetsAscend(columns, i + 1, |columns|);
  }

  lemma AllFilled(b: seq<byte>, values: seq<Value>, columns: seq<Column>)
    requires Matches(values, columns) && RowFilled(b, values, columns, |values|)
    ensures b == RowBytes(values, columns)
  {
    MissingAreZero(values, columns, |columns|);
  }

  lemma FillOneMore(b: seq<byte>, values: seq<Value>, columns: seq<Column>, i: nat)
    requires RowFilled(b, values, columns, i) && i < |values|
    requires Offset(columns, i + 1) <= |b|
    ensures RowFilled(Splice(b, Offset(columns, i), Encode(values[i])), values, columns, i + 1)
  {
    var at := Offset(columns, i);
    assert Splice(b, at, Encode(values[i])) ==
      RowPrefix(values, columns, i) + Encode(values[i]) + Zeros(|b| - Offset(columns, i + 1));
  }

  /** Building a row and reading column `i` back gives value `i`; a column with no value reads as zeros. */
  lemma RowRoundTrip(values: seq<Value>, columns: seq<Column>, i: nat)
    requires Matches(values, columns) && i < |columns|
    ensures ValueAt(RowBytes(values, columns), columns, i) ==
      if i < |values| then values[i] else Decode(Zeros(SizeOf(columns[i].typeId)), columns[i].typeId)
  {
    OffsetsAscend(columns, i + 1, |columns|);
    PrefixesNest(values, columns, i + 1, |columns|);
    var row := RowBytes(values, columns);
    var p := RowPrefix(values, columns, i + 1);
    assert row[Offset(columns, i)..Offset(columns, i + 1)] == p[Offset(columns, i)..];
    if i < |values| { ValueRoundTrip(values[i]); }
  }
}
