/** The loops that write tuples and log records into buffers and read them back. */
module TupleIO {
  import opened Basics
  import opened ByteCodec
  import opened TupleCodec

  /** Writes a field at an offset of the buffer. */
  method SerializeField(buffer: array<byte>, at: nat, f: Field)
    requires PayloadSize(f) < 0x8000_0000 && at + SerializedSize(f) <= buffer.Length
    modifies buffer
    ensures buffer[..] == Splice(old(buffer[..]), at, EncodeField(f))
  {
    var head := [TypeByte(f)] + EncodeInt32(PayloadSize(f)) + [Flag(f.NullField?)];
    Copy(buffer, at, head);
    Copy(buffer, at + 6, Payload(f));
    SpliceTwice(old(buffer[..]), at, head, Payload(f));
  }

  lemma {:induction false} FieldsSizeSplit(fs: seq<Field>, i: nat)
    requires i < |fs|
    ensures FieldsSize(fs[..i + 1]) == FieldsSize(fs[..i]) + SerializedSize(fs[i])
    ensures FieldsSize(fs[..i + 1]) <= FieldsSize(fs)
  {
    if i == 0 {
      assert fs[..1] == [fs[0]] && fs[..0] == [];
      assert FieldsSize([fs[0]]) == SerializedSize(fs[0]) + FieldsSize([fs[0]][1..]);
    } else {
      FieldsSizeSplit(fs[1..], i - 1);
      assert fs[..i + 1][1..] == fs[1..][..i] && fs[..i][1..] == fs[1..][..i - 1];
    }
  }

  lemma {:induction false} EncodeFieldsSplit(fs: seq<Field>, i: nat)
    requires i < |fs| && FieldsSize(fs) < 0x8000_0000
    ensures FieldsSize(fs[..i + 1]) < 0x8000_0000 && FieldsSize(fs[..i]) < 0x8000_0000
              && PayloadSize(fs[i]) < 0x8000_0000
    ensures EncodeFields(fs[..i + 1]) == EncodeFields(fs[..i]) + EncodeField(fs[i])
  {
    hide EncodeField;
    FieldsSizeSplit(fs, i);
    if i == 0 {
      assert fs[..1] == [fs[0]] && fs[..0] == [];
      assert EncodeFields([fs[0]]) == EncodeField(fs[0]) + EncodeFields([fs[0]][1..]);
      assert EncodeField(fs[0]) + [] == [] + EncodeField(fs[0]);
    } else {
      EncodeFieldsSplit(fs[1..], i - 1);
      assert fs[..i + 1][1..] == fs[1..][..i] && fs[..i][1..] == fs[1..][..i - 1];
      assert EncodeFields(fs[..i + 1]) == EncodeField(fs[0]) + (EncodeFields(fs[1..][..i - 1]) + EncodeField(fs[i]));
      assert EncodeFields(fs[..i]) == EncodeField(fs[0]) + EncodeFields(fs[1..][..i - 1]);
    }
  }

  /** Writes a tuple at an offset of the buffer, field by field. */
  method SerializeTuple(buffer: array<byte>, at: nat, t: Tuple)
    requires Encodable(t) && at + TupleSize(t) <= buffer.Length
    modifies buffer
    ensures buffer[..] == Splice(old(buffer[..]), at, EncodeTuple(t))
  {
    var head := [Flag(t.deleted)] + EncodeInt32(FieldsSize(t.fields));
    Copy(buffer, at, head);
    WriteFields(buffer, at + 5, t.fields);
    SpliceTwice(old(buffer[..]), at, head, EncodeFields(t.fields));
  }

  method WriteFields(buffer: array<byte>, at: nat, fs: seq<Field>)
    requires FieldsSize(fs) < 0x8000_0000 && at + FieldsSize(fs) <= buffer.Length
    modifies buffer
    ensures buffer[..] == Splice(old(buffer[..]), at, EncodeFields(fs))
  {
    hide EncodeField, EncodeFields, FieldsSize;
    var offset := at;
    EmptyFields(fs);
    for i := 0 to |fs|
      invariant FieldsSize(fs[..i]) <= FieldsSize(fs) && offset == at + FieldsSize(fs[..i])
      invariant buffer[..] == Splice(old(buffer[..]), at, EncodeFields(fs[..i]))
    {
      FieldsSizeSplit(fs, i);
      EncodeFieldsSplit(fs, i);
      SerializeField(buffer, offset, fs[i]);
      SpliceTwice(old(buffer[..]), at, EncodeFields(fs[..i]), EncodeField(fs[i]));
      offset := offset + SerializedSize(fs[i]);
    }
    assert fs[..|fs|] == fs;
  }

  lemma EmptyFields(fs: seq<Field>)
    ensures FieldsSize(fs[..0]) == 0 && EncodeFields(fs[..0]) == []
  {
  }

  /** Reads fields while the offset is below the stored size. */
  method DeserializeTuple(bs: Bytes) returns (t: Option<Tuple>)
    ensures t == DecodeTuple(bs)
  {
    if |bs| < 5 {
      return None;
    }
    var size := DecodeInt32(bs[1..5]);
    var fs, offset := ReadFields(bs, size);
    t := if fs == None then None else Some(Tuple(bs[0] != 0, fs.value));
  }

  method ReadFields(bs: Bytes, size: int) returns (fs: Option<seq<Field>>, offset: nat)
    ensures fs == DecodeFields(bs, 5, size)
  {
    hide DecodeField;
    var read := [];
    offset := 5;
    PrependNothing(DecodeFields(bs, 5, size));
    while offset < size
      invariant DecodeFields(bs, 5, size) == Prepend(read, DecodeFields(bs, offset, size))
      decreases size - offset
    {
      if offset > |bs| {
        return None, offset;
      }
      var one := DecodeField(bs[offset..]);
      if one == None {
        return None, offset;
      }
      FieldTakesSpace(bs[offset..]);
      PrependOne(read, one.value.value, DecodeFields(bs, offset + one.value.size, size));
      read := read + [one.value.value];
      offset := offset + one.value.size;
    }
    assert read + [] == read;
    fs := Some(read);
  }

  lemma PrependNothing(more: Option<seq<Field>>)
    ensures Prepend([], more) == more
  {
    if more != None { assert [] + more.value == more.value; }
  }

  function Prepend(fs: seq<Field>, more: Option<seq<Field>>): Option<seq<Field>> {
    if more == None then None else Some(fs + more.value)
  }

  lemma PrependOne(fs: seq<Field>, f: Field, more: Option<seq<Field>>)
    ensures Prepend(fs + [f], more) == Prepend(fs, Prepend([f], more))
  {
    if more != None { assert fs + [f] + more.value == fs + ([f] + more.value); }
  }

  lemma FieldTakesSpace(bs: Bytes)
    ensures DecodeField(bs) != None ==> DecodeField(bs).value.size >= 6
  {
  }

  method SerializeRecord(buffer: array<byte>, r: WalRecord)
    requires RecordEncodable(r) && RecordSize(r) == buffer.Length
    modifies buffer
    ensures buffer[..] == EncodeRecord(r)
  {
    hide EncodeTuple, RecordHead;
    var offset := 0;
    Copy(buffer, offset, RecordHead(r));
    offset := offset + 28;
    SerializeTuple(buffer, offset, r.oldTuple);
    SpliceTwice(old(buffer[..]), 0, RecordHead(r), EncodeTuple(r.oldTuple));
    offset := offset + TupleSize(r.oldTuple);
    SerializeTuple(buffer, offset, r.newTuple);
    SpliceTwice(old(buffer[..]), 0, RecordHead(r) + EncodeTuple(r.oldTuple), EncodeTuple(r.newTuple));
  }

  method DeserializeRecord(bs: Bytes) returns (r: Option<WalRecord>)
    ensures r == DecodeRecord(bs)
  {
    hide DecodeTuple;
    if |bs| < 28 {
      return None;
    }
    var kind := LogTypeOf(DecodeInt32(bs[..4]));
    var txn, table, rid := DecodeInt32(bs[4..8]), DecodeInt32(bs[8..12]), DecodeRid(bs[12..]);
    var offset := 28;
    var oldTuple := DeserializeTuple(bs[offset..]);
    if kind == None || oldTuple == None {
      return None;
    }
    offset := offset + TupleSize(oldTuple.value);
    if offset > |bs| {
      return None;
    }
    var newTuple := DeserializeTuple(bs[offset..]);
    r := if newTuple == None then None
         else Some(WalRecord(kind.value, txn, table, rid, oldTuple.value, newTuple.value));
  }

  /** Parses the whole log file. */
  method ReadAllRecords(file: Bytes) returns (records: Option<seq<WalRecord>>)
    ensures records == ParseLog(file)
  {
    hide DecodeRecord;
    var read := [];
    var offset := 0;
    assert file[0..] == file;
    PrependNoRecords(ParseLog(file));
    while offset < |file|
      invariant offset <= |file|
      invariant ParseLog(file) == PrependRecords(read, ParseLog(file[offset..]))
    {
      var r := DeserializeRecord(file[offset..]);
      if r == None || RecordSize(r.value) > |file| - offset {
        return None;
      }
      PrependRecord(read, r.value, ParseLog(file[offset..][RecordSize(r.value)..]));
      assert file[offset..][RecordSize(r.value)..] == file[offset + RecordSize(r.value)..];
      read := read + [r.value];
      offset := offset + RecordSize(r.value);
    }
    assert read + [] == read;
    records := Some(read);
  }

  lemma PrependNoRecords(more: Option<seq<WalRecord>>)
    ensures PrependRecords([], more) == more
  {
    if more != None { assert [] + more.value == more.value; }
  }

  function PrependRecords(rs: seq<WalRecord>, more: Option<seq<WalRecord>>): Option<seq<WalRecord>> {
    if more == None then None else Some(rs + more.value)
  }

  lemma PrependRecord(rs: seq<WalRecord>, r: WalRecord, more: Option<seq<WalRecord>>)
    ensures PrependRecords(rs + [r], more) == PrependRecords(rs, PrependRecords([r], more))
  {
    if more != None { assert rs + [r] + more.value == rs + ([r] + more.value); }
  }

  lemma {:induction false} EncodeLogPush(rs: seq<WalRecord>, r: WalRecord)
    requires (forall i | 0 <= i < |rs| :: RecordEncodable(rs[i])) && RecordEncodable(r)
    ensures EncodeLog(rs + [r]) == EncodeLog(rs) + EncodeRecord(r)
  {
    hide EncodeRecord;
    if rs == [] {
      assert [] + [r] == [r] && [r][1..] == [];
      assert EncodeLog([r]) == EncodeRecord(r) + EncodeLog([]);
    } else {
      EncodeLogPush(rs[1..], r);
      assert (rs + [r])[1..] == rs[1..] + [r];
      assert EncodeLog(rs + [r]) == EncodeRecord(rs[0]) + (EncodeLog(rs[1..]) + EncodeRecord(r));
    }
  }

  /** The log file: whatever was appended is what is read back. */
  class WalFile {
    var file: Bytes
    ghost var log: seq<WalRecord>

    ghost predicate Valid()
      reads this
    {
      (forall i | 0 <= i < |log| :: RecordEncodable(log[i])) && file == EncodeLog(log)
    }

    constructor ()
      ensures Valid() && log == []
    {
      file, log := [], [];
    }

    method AddRecord(r: WalRecord)
      requires Valid() && RecordEncodable(r)
      modifies this
      ensures Valid() && log == old(log) + [r]
    {
      hide EncodeRecord;
      EncodeLogPush(log, r);
      var buffer := new byte[RecordSize(r)];
      SerializeRecord(buffer, r);
      file := file + buffer[..];
      log := log + [r];
    }

    method ReadAll() returns (records: Option<seq<WalRecord>>)
      requires Valid()
      ensures records == Some(log)
    {
      LogRoundTrip(log);
      records := ReadAllRecords(file);
    }

    /** Truncates the file after a recovery. */
    method Clear()
      requires Valid()
      modifies this
      ensures Valid() && log == []
    {
      file, log := [], [];
    }
  }
}
