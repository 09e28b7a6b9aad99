/** The serialized forms of fields, tuples, record ids and log records. */
module TupleCodec {
  import opened Basics
  import opened ByteCodec

  type Float8 = bs: Bytes | |bs| == 8 witness [0, 0, 0, 0, 0, 0, 0, 0]

  /** Non-null typed fields, and the untyped null field. A double is its eight bytes. */
  datatype Field =
    | IntField(i: int32)
    | StringField(s: Bytes)
    | FloatField(f: Float8)
    | BoolField(b: bool)
    | NullField

  datatype Tuple = Tuple(deleted: bool, fields: seq<Field>)

  datatype Rid = Rid(page: int32, slot: int32, actualPage: int32, actualSlot: int32)

  datatype LogType = BEGIN | INSERT | DELETE | UPDATE | COMMIT | ABORT

  datatype WalRecord = WalRecord(kind: LogType, txn: int32, table: int32, rid: Rid, oldTuple: Tuple, newTuple: Tuple)

  // ---------------------------------------------------------------- sizes

  function PayloadSize(f: Field): nat {
    match f
    case IntField(_) => 4
    case StringField(s) => |s|
    case FloatField(_) => 8
    case BoolField(_) => 1
    case NullField => 0
  }

  /** Type, null flag, size and value. */
  function SerializedSize(f: Field): (n: nat)
    ensures n >= 6
  {
    1 + 1 + 4 + PayloadSize(f)
  }

  function FieldsSize(fs: seq<Field>): nat {
    if fs == [] then 0 else SerializedSize(fs[0]) + FieldsSize(fs[1..])
  }

  /** The deleted flag, the size field and the fields. */
  function TupleSize(t: Tuple): nat {
    1 + 4 + FieldsSize(t.fields)
  }

  predicate Encodable(t: Tuple) {
    TupleSize(t) < 0x8000_0000
  }

  // ---------------------------------------------------------------- fields

  function TypeByte(f: Field): byte {
    match f
    case IntField(_) => 'I' as int
    case StringField(_) => 'S' as int
    case FloatField(_) => 'F' as int
    case BoolField(_) => 'B' as int
    case NullField => 'N' as int
  }

  function Flag(b: bool): byte { if b then 1 else 0 }

  function Payload(f: Field): (bs: Bytes)
    ensures |bs| == PayloadSize(f)
  {
    match f
    case IntField(i) => EncodeInt32(i)
    case StringField(s) => s
    case FloatField(bits) => bits
    case BoolField(b) => [Flag(b)]
    case NullField => []
  }

  function EncodeField(f: Field): (bs: Bytes)
    requires PayloadSize(f) < 0x8000_0000
    ensures |bs| == SerializedSize(f)
  {
    [TypeByte(f)] + EncodeInt32(PayloadSize(f)) + [Flag(f.NullField?)] + Payload(f)
  }

  /** A field, with the size that was read along with it. */
  datatype Sized<T> = Sized(value: T, size: nat)

  /** The field at the start of `bs`; nothing where the program throws or reads outside the bytes. */
  function DecodeField(bs: Bytes): Option<Sized<Field>> {
    if |bs| < 6 then None
    else
      var kind, size, isNull, rest := bs[0], DecodeInt32(bs[1..5]), bs[5], bs[6..];
      if kind == 'N' as int then Some(Sized(NullField, 6))
      else if size < 0 || isNull != 0 then None
      else if kind == 'I' as int && |rest| >= 4 then Some(Sized(IntField(DecodeInt32(rest[..4])), 6 + size))
      else if kind == 'F' as int && |rest| >= 8 then Some(Sized(FloatField(rest[..8]), 6 + size))
      else if kind == 'B' as int && |rest| >= 1 then Some(Sized(BoolField(rest[0] != 0), 6 + size))
      else if kind == 'S' as int && |rest| >= size then Some(Sized(StringField(rest[..size]), 6 + size))
      else None
  }

  /** A field is read back from its bytes, whatever follows them. */
  lemma {:induction false} FieldRoundTrip(f: Field, rest: Bytes)
    requires PayloadSize(f) < 0x8000_0000
    ensures DecodeField(EncodeField(f) + rest) == Some(Sized(f, SerializedSize(f)))
  {
    var bs := EncodeField(f) + rest;
    var n := PayloadSize(f);
    Int32RoundTrip(n);
    assert bs[1..5] == EncodeInt32(n);
    assert bs[6..] == Payload(f) + rest;
    assert bs[6..][..n] == Payload(f);
    match f {
      case IntField(i) => Int32RoundTrip(i);
      case _ =>
    }
  }

  // ---------------------------------------------------------------- tuples

  function EncodeFields(fs: seq<Field>): (bs: Bytes)
    requires FieldsSize(fs) < 0x8000_0000
    ensures |bs| == FieldsSize(fs)
  {
    if fs == [] then [] else EncodeField(fs[0]) + EncodeFields(fs[1..])
  }

  function EncodeTuple(t: Tuple): (bs: Bytes)
    requires Encodable(t)
    ensures |bs| == TupleSize(t)
  {
    [Flag(t.deleted)] + EncodeInt32(FieldsSize(t.fields)) + EncodeFields(t.fields)
  }

  /** The fields from `offset` on: the loop goes on while the offset is below the stored size, although
      that size does not count the five bytes before the fields. */
  function DecodeFields(bs: Bytes, offset: nat, size: int): Option<seq<Field>>
    decreases if offset < size then size - offset else 0
  {
    if offset >= size then Some([])
    else if offset > |bs| then None
    else
      match DecodeField(bs[offset..])
      case None => None
      case Some(one) =>
        match DecodeFields(bs, offset + one.size, size)
        case None => None
        case Some(more) => Some([one.value] + more)
  }

  function DecodeTuple(bs: Bytes): Option<Tuple> {
    if |bs| < 5 then None
    else
      match DecodeFields(bs, 5, DecodeInt32(bs[1..5]))
      case None => None
      case Some(fs) => Some(Tuple(bs[0] != 0, fs))
  }

  /** The loop stops behind the last field and not before it, because a field takes at least six bytes. */
  lemma {:induction false} FieldsRoundTrip(bs: Bytes, fs: seq<Field>, offset: nat, size: nat, rest: Bytes)
    requires FieldsSize(fs) < 0x8000_0000 && offset >= 5 && offset + FieldsSize(fs) == 5 + size
    requires offset <= |bs| && bs[offset..] == EncodeFields(fs) + rest
    ensures DecodeFields(bs, offset, size) == Some(fs)
    decreases |fs|
  {
    hide DecodeField, EncodeField;
    if fs != [] {
      var first, more := EncodeField(fs[0]), EncodeFields(fs[1..]);
      FieldsSizeAtLeast(fs);
      SplitFront(bs[offset..], first, more, rest);
      FieldRoundTrip(fs[0], more + rest);
      assert bs[offset + |first|..] == bs[offset..][|first|..];
      FieldsRoundTrip(bs, fs[1..], offset + |first|, size, rest);
      FieldsStep(bs, offset, size, fs[0], fs[1..]);
      assert fs == [fs[0]] + fs[1..];
    }
  }

  lemma {:induction false} SplitFront(bs: Bytes, a: Bytes, b: Bytes, c: Bytes)
    requires bs == a + b + c
    ensures bs == a + (b + c) && |a| <= |bs| && bs[|a|..] == b + c
  {
  }

  lemma {:induction false} FieldsStep(bs: Bytes, offset: nat, size: nat, f: Field, fs: seq<Field>)
    requires offset < size && offset <= |bs| && DecodeField(bs[offset..]) == Some(Sized(f, SerializedSize(f)))
    requires DecodeFields(bs, offset + SerializedSize(f), size) == Some(fs)
    ensures DecodeFields(bs, offset, size) == Some([f] + fs)
  {
  }

  lemma {:induction false} FieldsSizeAtLeast(fs: seq<Field>)
    requires fs != []
    ensures FieldsSize(fs) >= 6
  {
  }

  /** A tuple is read back from its bytes, whatever follows them. */
  lemma {:induction false} TupleRoundTrip(t: Tuple, rest: Bytes)
    requires Encodable(t)
    ensures DecodeTuple(EncodeTuple(t) + rest) == Some(t)
  {
    var bs := EncodeTuple(t) + rest;
    var n := FieldsSize(t.fields);
    Int32RoundTrip(n);
    assert bs[1..5] == EncodeInt32(n);
    assert bs[5..] == EncodeFields(t.fields) + rest;
    FieldsRoundTrip(bs, t.fields, 5, n, rest);
  }

  // ---------------------------------------------------------------- record ids and log records

  function EncodeRid(r: Rid): (bs: Bytes)
    ensures |bs| == 16
  {
    EncodeInt32(r.page) + EncodeInt32(r.slot) + EncodeInt32(r.actualPage) + EncodeInt32(r.actualSlot)
  }

  function DecodeRid(bs: Bytes): Rid
    requires |bs| >= 16
  {
    Rid(DecodeInt32(bs[..4]), DecodeInt32(bs[4..8]), DecodeInt32(bs[8..12]), DecodeInt32(bs[12..16]))
  }

  lemma {:induction false} RidRoundTrip(r: Rid, rest: Bytes)
    ensures DecodeRid(EncodeRid(r) + rest) == r
  {
    var bs := EncodeRid(r) + rest;
    assert bs[..4] == EncodeInt32(r.page) && bs[4..8] == EncodeInt32(r.slot);
    assert bs[8..12] == EncodeInt32(r.actualPage) && bs[12..16] == EncodeInt32(r.actualSlot);
    Int32RoundTrip(r.page);
    Int32RoundTrip(r.slot);
    Int32RoundTrip(r.actualPage);
    Int32RoundTrip(r.actualSlot);
  }

  function LogCode(k: LogType): int32 {
    match k
    case BEGIN => 0
    case INSERT => 1
    case DELETE => 2
    case UPDATE => 3
    case COMMIT => 4
    case ABORT => 5
  }

  function LogTypeOf(code: int32): Option<LogType> {
    match code
    case 0 => Some(BEGIN)
    case 1 => Some(INSERT)
    case 2 => Some(DELETE)
    case 3 => Some(UPDATE)
    case 4 => Some(COMMIT)
    case 5 => Some(ABORT)
    case _ => None
  }

  predicate RecordEncodable(r: WalRecord) {
    Encodable(r.oldTuple) && Encodable(r.newTuple)
  }

  /** Type, transaction, table, record id and the two tuples. */
  function RecordSize(r: WalRecord): nat {
    4 + 4 + 4 + 16 + TupleSize(r.oldTuple) + TupleSize(r.newTuple)
  }

  function RecordHead(r: WalRecord): (bs: Bytes)
    ensures |bs| == 28
  {
    EncodeInt32(LogCode(r.kind)) + EncodeInt32(r.txn) + EncodeInt32(r.table) + EncodeRid(r.rid)
  }

  function EncodeRecord(r: WalRecord): (bs: Bytes)
    requires RecordEncodable(r)
    ensures |bs| == RecordSize(r)
  {
    RecordHead(r) + EncodeTuple(r.oldTuple) + EncodeTuple(r.newTuple)
  }

  /** The second tuple starts where the first one's computed size says. */
  function DecodeRecord(bs: Bytes): Option<WalRecord> {
    if |bs| < 28 then None
    else
      var kind := LogTypeOf(DecodeInt32(bs[..4]));
      var oldTuple := DecodeTuple(bs[28..]);
      if kind == None || oldTuple == None then None
      else
        var at := 28 + TupleSize(oldTuple.value);
        if at > |bs| then None
        else
          match DecodeTuple(bs[at..])
          case None => None
          case Some(newTuple) =>
            Some(WalRecord(kind.value, DecodeInt32(bs[4..8]), DecodeInt32(bs[8..12]), DecodeRid(bs[12..]),
                           oldTuple.value, newTuple))
  }

  lemma {:induction false} HeadRoundTrip(r: WalRecord, rest: Bytes)
    ensures var bs := RecordHead(r) + rest;
            && LogTypeOf(DecodeInt32(bs[..4])) == Some(r.kind) && DecodeInt32(bs[4..8]) == r.txn
            && DecodeInt32(bs[8..12]) == r.table && DecodeRid(bs[12..]) == r.rid && bs[28..] == rest
  {
    var bs := RecordHead(r) + rest;
    Int32RoundTrip(LogCode(r.kind));
    Int32RoundTrip(r.txn);
    Int32RoundTrip(r.table);
    RidRoundTrip(r.rid, rest);
    assert bs[..4] == EncodeInt32(LogCode(r.kind)) && bs[4..8] == EncodeInt32(r.txn);
    assert bs[8..12] == EncodeInt32(r.table) && bs[12..] == EncodeRid(r.rid) + rest;
  }

  /** A log record is read back from its bytes, whatever follows them. */
  lemma {:induction false} RecordRoundTrip(r: WalRecord, rest: Bytes)
    requires RecordEncodable(r)
    ensures DecodeRecord(EncodeRecord(r) + rest) == Some(r)
  {
    hide DecodeRecord, DecodeTuple, EncodeTuple, RecordHead, DecodeRid, DecodeInt32;
    var one, two := EncodeTuple(r.oldTuple), EncodeTuple(r.newTuple);
    var bs := EncodeRecord(r) + rest;
    assert bs == RecordHead(r) + (one + (two + rest));
    HeadRoundTrip(r, one + (two + rest));
    TupleRoundTrip(r.oldTuple, two + rest);
    SplitFront(bs[28..], one, two, rest);
    assert bs[28 + |one|..] == bs[28..][|one|..];
    TupleRoundTrip(r.newTuple, rest);
    RecordStep(bs, r);
  }

  lemma {:induction false} RecordStep(bs: Bytes, r: WalRecord)
    requires |bs| >= 28 + TupleSize(r.oldTuple)
    requires LogTypeOf(DecodeInt32(bs[..4])) == Some(r.kind) && DecodeInt32(bs[4..8]) == r.txn
    requires DecodeInt32(bs[8..12]) == r.table && DecodeRid(bs[12..]) == r.rid
    requires DecodeTuple(bs[28..]) == Some(r.oldTuple)
    requires DecodeTuple(bs[28 + TupleSize(r.oldTuple)..]) == Some(r.newTuple)
    ensures DecodeRecord(bs) == Some(r)
  {
  }

  // ---------------------------------------------------------------- logs

  function EncodeLog(rs: seq<WalRecord>): Bytes
    requires forall i | 0 <= i < |rs| :: RecordEncodable(rs[i])
  {
    if rs == [] then [] else EncodeRecord(rs[0]) + EncodeLog(rs[1..])
  }

  /** Records one after the other until the bytes are used up. */
  function ParseLog(bs: Bytes): Option<seq<WalRecord>>
    decreases |bs|
  {
    if bs == [] then Some([])
    else
      match DecodeRecord(bs)
      case None => None
      case Some(r) =>
        if RecordSize(r) > |bs| then None
        else
          match ParseLog(bs[RecordSize(r)..])
          case None => None
          case Some(more) => Some([r] + more)
  }

  /** Parsing the concatenated records of any log gives back the log. */
  lemma {:induction false} LogRoundTrip(rs: seq<WalRecord>)
    requires forall i | 0 <= i < |rs| :: RecordEncodable(rs[i])
    ensures ParseLog(EncodeLog(rs)) == Some(rs)
  {
    hide DecodeRecord, EncodeRecord;
    if rs != [] {
      RecordRoundTrip(rs[0], EncodeLog(rs[1..]));
      LogRoundTrip(rs[1..]);
      assert EncodeLog(rs) == EncodeRecord(rs[0]) + EncodeLog(rs[1..]);
      assert rs == [rs[0]] + rs[1..];
      ParseStep(EncodeRecord(rs[0]) + EncodeLog(rs[1..]), rs[0], EncodeLog(rs[1..]), rs[1..]);
    }
  }

  lemma {:induction false} ParseStep(bs: Bytes, r: WalRecord, rest: Bytes, rs: seq<WalRecord>)
    requires DecodeRecord(bs) == Some(r) && RecordSize(r) <= |bs| && bs[RecordSize(r)..] == rest
    requires ParseLog(rest) == Some(rs)
    ensures ParseLog(bs) == Some([r] + rs)
  {
  }

  /** Two logs with the same bytes are the same log. */
  lemma {:induction false} LogInjective(rs: seq<WalRecord>, rs': seq<WalRecord>)
    requires forall i | 0 <= i < |rs| :: RecordEncodable(rs[i])
    requires forall i | 0 <= i < |rs'| :: RecordEncodable(rs'[i])
    requires EncodeLog(rs) == EncodeLog(rs')
    ensures rs == rs'
  {
    LogRoundTrip(rs);
    LogRoundTrip(rs');
  }

  // ---------------------------------------------------------------- the layout, byte by byte

  /** The bytes of the tuple (-2, "ab", null). */
  lemma {:induction false} TupleBytes()
    ensures var t := Tuple(false, [IntField(-2), StringField([97, 98]), NullField]);
            && Encodable(t)
            && EncodeTuple(t) == [0, 24, 0, 0, 0,
                                  'I' as int, 4, 0, 0, 0, 0, 254, 255, 255, 255,
                                  'S' as int, 2, 0, 0, 0, 0, 97, 98,
                                  'N' as int, 0, 0, 0, 0, 1]
  {
    hide EncodeInt32, EncodeFields, FieldsSize;
    var t := Tuple(false, [IntField(-2), StringField([97, 98]), NullField]);
    Int32Bytes(24);
    ThreeFieldsBytes();
    assert EncodeTuple(t) == [0] + EncodeInt32(24) + EncodeFields(t.fields);
  }

  lemma {:induction false} ThreeFieldsBytes()
    ensures var fs := [IntField(-2), StringField([97, 98]), NullField];
            && FieldsSize(fs) == 24
            && EncodeFields(fs) == ['I' as int, 4, 0, 0, 0, 0, 254, 255, 255, 255,
                                    'S' as int, 2, 0, 0, 0, 0, 97, 98,
                                    'N' as int, 0, 0, 0, 0, 1]
  {
    hide EncodeField;
    var a, b, c := IntField(-2), StringField([97, 98]), NullField;
    FieldBytes();
    assert [a, b, c][1..] == [b, c] && [b, c][1..] == [c] && [c][1..] == [];
    assert FieldsSize([c]) == 6 && FieldsSize([b, c]) == 14 && FieldsSize([a, b, c]) == 24;
    assert EncodeFields([c]) == EncodeField(c) + [];
    assert EncodeFields([b, c]) == EncodeField(b) + EncodeField(c);
    assert EncodeFields([a, b, c]) == EncodeField(a) + (EncodeField(b) + EncodeField(c));
  }

  lemma {:induction false} FieldBytes()
    ensures EncodeField(IntField(-2)) == ['I' as int, 4, 0, 0, 0, 0, 254, 255, 255, 255]
    ensures EncodeField(StringField([97, 98])) == ['S' as int, 2, 0, 0, 0, 0, 97, 98]
    ensures EncodeField(NullField) == ['N' as int, 0, 0, 0, 0, 1]
    ensures EncodeField(BoolField(true)) == ['B' as int, 1, 0, 0, 0, 0, 1]
    ensures EncodeField(FloatField([1, 2, 3, 4, 5, 6, 7, 8])) == ['F' as int, 8, 0, 0, 0, 0, 1, 2, 3, 4, 5, 6, 7, 8]
  {
    hide EncodeInt32;
    Int32Bytes(0);
    Int32Bytes(1);
    Int32Bytes(2);
    Int32Bytes(4);
    Int32Bytes(8);
  }

  /** The bytes of an update by transaction 7 of slot 3 of page 2 of table 1, between tuples without fields. */
  lemma {:induction false} RecordBytes()
    ensures var r := WalRecord(UPDATE, 7, 1, Rid(2, 3, 4, 5), Tuple(false, []), Tuple(true, []));
            && RecordEncodable(r)
            && EncodeRecord(r) == [3, 0, 0, 0, 7, 0, 0, 0, 1, 0, 0, 0,
                                   2, 0, 0, 0, 3, 0, 0, 0, 4, 0, 0, 0, 5, 0, 0, 0,
                                   0, 0, 0, 0, 0, 1, 0, 0, 0, 0]
  {
    hide EncodeInt32, EncodeRid;
    Int32Bytes(0);
    Int32Bytes(1);
    Int32Bytes(3);
    Int32Bytes(7);
    RidBytes();
    var none: seq<Field> := [];
    assert EncodeTuple(Tuple(false, none)) == [0, 0, 0, 0, 0];
    assert EncodeTuple(Tuple(true, none)) == [1, 0, 0, 0, 0];
    var r := WalRecord(UPDATE, 7, 1, Rid(2, 3, 4, 5), Tuple(false, none), Tuple(true, none));
    assert RecordHead(r) == [3, 0, 0, 0, 7, 0, 0, 0, 1, 0, 0, 0] + EncodeRid(r.rid);
  }

  /** The four bytes that every record starts with, by its kind. */
  lemma {:induction false} KindBytes(r: WalRecord)
    requires RecordEncodable(r)
    ensures var first := match r.kind case BEGIN => 0 case INSERT => 1 case DELETE => 2 case UPDATE => 3
                                      case COMMIT => 4 case ABORT => 5;
            EncodeRecord(r)[..4] == [first, 0, 0, 0]
  {
    hide EncodeInt32, EncodeTuple, EncodeRid;
    Int32Bytes(LogCode(r.kind));
    assert EncodeRecord(r)[..4] == EncodeInt32(LogCode(r.kind));
  }

  lemma {:induction false} RidBytes()
    ensures EncodeRid(Rid(2, 3, 4, 5)) == [2, 0, 0, 0, 3, 0, 0, 0, 4, 0, 0, 0, 5, 0, 0, 0]
    ensures EncodeRid(Rid(2, 3, 2, 3)) == [2, 0, 0, 0, 3, 0, 0, 0, 2, 0, 0, 0, 3, 0, 0, 0]
  {
    hide EncodeInt32;
    Int32Bytes(2);
    Int32Bytes(3);
    Int32Bytes(4);
    Int32Bytes(5);
  }
}
