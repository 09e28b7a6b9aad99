/** The bytes of a B+ tree node on its page, for integer keys. */
module NodeCodec {
  import opened Basics
  import opened ByteCodec
  import TC = TupleCodec
  import BT = BTreeModel
  import opened BPlusTreeStore

  /** The leaf flag, the number of elements and the next page id, behind the header of the page. */
  const FIXED_SIZE: nat := 9

  predicate IsInt32(x: int) {
    -0x8000_0000 <= x < 0x8000_0000
  }

  predicate EntryEncodable(e: BT.Entry) {
    IsInt32(e.key) && IsInt32(e.rid.pageId) && IsInt32(e.rid.slot)
  }

  /** The numbers fit their fields, and an inner node has a child more than keys. */
  ghost predicate Encodable(m: Image) {
    && IsInt32(m.nextPid) && |m.entries| < 0x8000_0000 && |m.keys| < 0x8000_0000
    && (forall i | 0 <= i < |m.entries| :: EntryEncodable(m.entries[i]))
    && (forall i | 0 <= i < |m.keys| :: IsInt32(m.keys[i]))
    && (forall i | 0 <= i < |m.childIds| :: IsInt32(m.childIds[i]))
    && if m.isLeaf then m.keys == [] && m.childIds == [] else m.entries == [] && |m.childIds| == |m.keys| + 1
  }

  /** A key takes 10 bytes and a record id 16. */
  function EncodeEntry(e: BT.Entry): (bs: Bytes)
    requires EntryEncodable(e)
    ensures |bs| == 26
  {
    TC.EncodeField(TC.IntField(e.key)) + TC.EncodeRid(TC.Rid(e.rid.pageId, e.rid.slot, e.rid.pageId, e.rid.slot))
  }

  function EncodeEntries(es: seq<BT.Entry>): (bs: Bytes)
    requires forall i | 0 <= i < |es| :: EntryEncodable(es[i])
    ensures |bs| == 26 * |es|
  {
    if es == [] then [] else EncodeEntry(es[0]) + EncodeEntries(es[1..])
  }

  function EncodeKeys(ks: seq<int>): (bs: Bytes)
    requires forall i | 0 <= i < |ks| :: IsInt32(ks[i])
    ensures |bs| == 10 * |ks|
  {
    if ks == [] then []
    else
      assert IsInt32(ks[0]);
      TC.EncodeField(TC.IntField(ks[0])) + EncodeKeys(ks[1..])
  }

  function EncodeIds(ids: seq<int>): (bs: Bytes)
    requires forall i | 0 <= i < |ids| :: IsInt32(ids[i])
    ensures |bs| == 4 * |ids|
  {
    if ids == [] then []
    else
      assert IsInt32(ids[0]);
      EncodeInt32(ids[0]) + EncodeIds(ids[1..])
  }

  function EncodeNode(m: Image): (bs: Bytes)
    requires Encodable(m)
    ensures |bs| == FIXED_SIZE + 26 * |m.entries| + 10 * |m.keys| + 4 * |m.childIds|
  {
    [TC.Flag(m.isLeaf)] + EncodeInt32(if m.isLeaf then |m.entries| else |m.keys|) + EncodeInt32(m.nextPid)
    + if m.isLeaf then EncodeEntries(m.entries) else EncodeKeys(m.keys) + EncodeIds(m.childIds)
  }

  // ---------------------------------------------------------------- reading

  datatype Parsed<T> = Parsed(value: T, rest: Bytes)

  function DecodeKey(bs: Bytes): Option<Parsed<int>> {
    match TC.DecodeField(bs)
    case None => None
    case Some(f) => if f.value.IntField? && f.size <= |bs| then Some(Parsed(f.value.i, bs[f.size..])) else None
  }

  function DecodeEntries(bs: Bytes, n: nat): Option<Parsed<seq<BT.Entry>>> {
    if n == 0 then Some(Parsed([], bs))
    else
      match DecodeKey(bs)
      case None => None
      case Some(k) =>
        if |k.rest| < 16 then None
        else
          var r := TC.DecodeRid(k.rest);
          match DecodeEntries(k.rest[16..], n - 1)
          case None => None
          case Some(p) => Some(Parsed([BT.Entry(k.value, BT.Rid(r.page, r.slot))] + p.value, p.rest))
  }

  function DecodeKeys(bs: Bytes, n: nat): Option<Parsed<seq<int>>> {
    if n == 0 then Some(Parsed([], bs))
    else
      match DecodeKey(bs)
      case None => None
      case Some(k) =>
        match DecodeKeys(k.rest, n - 1)
        case None => None
        case Some(p) => Some(Parsed([k.value] + p.value, p.rest))
  }

  function DecodeIds(bs: Bytes, n: nat): Option<Parsed<seq<int>>> {
    if n == 0 then Some(Parsed([], bs))
    else if |bs| < 4 then None
    else
      match DecodeIds(bs[4..], n - 1)
      case None => None
      case Some(p) => Some(Parsed([DecodeInt32(bs[..4]) as int] + p.value, p.rest))
  }

  /** Child ids are read only if there are keys. */
  function DecodeNode(bs: Bytes): Option<Image> {
    if |bs| < FIXED_SIZE then None
    else
      var leaf, n, next := bs[0] != 0, DecodeInt32(bs[1..5]) as int, DecodeInt32(bs[5..9]) as int;
      if n < 0 then None
      else if leaf then
        match DecodeEntries(bs[9..], n)
        case None => None
        case Some(p) => Some(Image(true, next, p.value, [], []))
      else
        match DecodeKeys(bs[9..], n)
        case None => None
        case Some(ks) =>
          if n == 0 then Some(Image(false, next, [], [], []))
          else
            match DecodeIds(ks.rest, n + 1)
            case None => None
            case Some(ids) => Some(Image(false, next, [], ks.value, ids.value))
  }

  // ---------------------------------------------------------------- round trips

  lemma {:induction false} KeyRoundTrip(k: int, rest: Bytes)
    requires IsInt32(k)
    ensures DecodeKey(TC.EncodeField(TC.IntField(k)) + rest) == Some(Parsed(k, rest))
  {
    hide TC.EncodeField, TC.DecodeField;
    TC.FieldRoundTrip(TC.IntField(k), rest);
    assert (TC.EncodeField(TC.IntField(k)) + rest)[10..] == rest;
  }

  lemma {:induction false} EntriesRoundTrip(es: seq<BT.Entry>, rest: Bytes)
    requires forall i | 0 <= i < |es| :: EntryEncodable(es[i])
    ensures DecodeEntries(EncodeEntries(es) + rest, |es|) == Some(Parsed(es, rest))
  {
    hide TC.EncodeField, TC.EncodeRid, TC.DecodeRid, DecodeKey;
    if es == [] {
      assert [] + rest == rest;
    } else {
      var e, later := es[0], EncodeEntries(es[1..]);
      var key, rid := TC.EncodeField(TC.IntField(e.key)),
          TC.EncodeRid(TC.Rid(e.rid.pageId, e.rid.slot, e.rid.pageId, e.rid.slot));
      EntriesRoundTrip(es[1..], rest);
      KeyRoundTrip(e.key, rid + (later + rest));
      TC.RidRoundTrip(TC.Rid(e.rid.pageId, e.rid.slot, e.rid.pageId, e.rid.slot), later + rest);
      assert key + rid + later + rest == key + (rid + (later + rest));
      assert (rid + (later + rest))[16..] == later + rest;
      EntriesStep(key + (rid + (later + rest)), |es|, e, rid + (later + rest), es[1..], rest);
      assert es == [e] + es[1..];
    }
  }

  lemma {:induction false} EntriesStep(bs: Bytes, n: nat, e: BT.Entry, after: Bytes, es: seq<BT.Entry>, rest: Bytes)
    requires n > 0 && DecodeKey(bs) == Some(Parsed(e.key, after)) && |after| >= 16 && EntryEncodable(e)
    requires TC.DecodeRid(after) == TC.Rid(e.rid.pageId, e.rid.slot, e.rid.pageId, e.rid.slot)
    requires DecodeEntries(after[16..], n - 1) == Some(Parsed(es, rest))
    ensures DecodeEntries(bs, n) == Some(Parsed([e] + es, rest))
  {
    hide DecodeKey, TC.DecodeRid;
  }

  lemma {:induction false} KeysRoundTrip(ks: seq<int>, rest: Bytes)
    requires forall i | 0 <= i < |ks| :: IsInt32(ks[i])
    ensures DecodeKeys(EncodeKeys(ks) + rest, |ks|) == Some(Parsed(ks, rest))
  {
    hide TC.EncodeField, DecodeKey;
    if ks == [] {
      assert [] + rest == rest;
    } else {
      var later := EncodeKeys(ks[1..]);
      KeysRoundTrip(ks[1..], rest);
      KeyRoundTrip(ks[0], later + rest);
      assert EncodeKeys(ks) + rest == TC.EncodeField(TC.IntField(ks[0])) + (later + rest);
      assert ks == [ks[0]] + ks[1..];
    }
  }

  lemma {:induction false} IdsRoundTrip(ids: seq<int>, rest: Bytes)
    requires forall i | 0 <= i < |ids| :: IsInt32(ids[i])
    ensures DecodeIds(EncodeIds(ids) + rest, |ids|) == Some(Parsed(ids, rest))
  {
    hide EncodeInt32, DecodeInt32;
    if ids == [] {
      assert [] + rest == rest;
    } else {
      var later := EncodeIds(ids[1..]);
      IdsRoundTrip(ids[1..], rest);
      Int32RoundTrip(ids[0]);
      var bs := EncodeIds(ids) + rest;
      assert bs == EncodeInt32(ids[0]) + (later + rest);
      assert bs[..4] == EncodeInt32(ids[0]) && bs[4..] == later + rest;
      assert ids == [ids[0]] + ids[1..];
    }
  }

  /** The flag, the number of elements and the next page id are read back. */
  lemma {:induction false} FixedRoundTrip(leaf: bool, n: int32, next: int32, body: Bytes)
    ensures var bs := [TC.Flag(leaf)] + EncodeInt32(n) + EncodeInt32(next) + body;
            && |bs| >= FIXED_SIZE && (bs[0] != 0 <==> leaf) && DecodeInt32(bs[1..5]) == n
               && DecodeInt32(bs[5..9]) == next
            && bs[9..] == body
  {
    hide DecodeInt32, EncodeInt32;
    Int32RoundTrip(n);
    Int32RoundTrip(next);
    var bs := [TC.Flag(leaf)] + EncodeInt32(n) + EncodeInt32(next) + body;
    assert bs[1..5] == EncodeInt32(n) && bs[5..9] == EncodeInt32(next);
  }

  /** A node is loaded from its bytes as from its image, whatever follows them on the page. */
  lemma {:induction false} NodeRoundTrip(m: Image, rest: Bytes)
    requires Encodable(m)
    ensures var read := DecodeNode(EncodeNode(m) + rest);
            read != None && Deserialize(read.value) == Deserialize(m)
  {
    hide EncodeInt32, DecodeInt32, EncodeEntries, EncodeKeys, EncodeIds, DecodeEntries, DecodeKeys, DecodeIds;
    var bs := EncodeNode(m) + rest;
    if m.isLeaf {
      var body := EncodeEntries(m.entries) + rest;
      assert bs == [TC.Flag(true)] + EncodeInt32(|m.entries|) + EncodeInt32(m.nextPid) + body;
      FixedRoundTrip(true, |m.entries|, m.nextPid, body);
      EntriesRoundTrip(m.entries, rest);
    } else {
      var body := EncodeKeys(m.keys) + (EncodeIds(m.childIds) + rest);
      assert bs == [TC.Flag(false)] + EncodeInt32(|m.keys|) + EncodeInt32(m.nextPid) + body;
      FixedRoundTrip(false, |m.keys|, m.nextPid, body);
      KeysRoundTrip(m.keys, EncodeIds(m.childIds) + rest);
      IdsRoundTrip(m.childIds, rest);
    }
  }

  // ---------------------------------------------------------------- fitting a page

  /** All leaves and inner nodes with up to 2d - 1 elements fit their pages exactly for d up to 78. */
  lemma {:induction false} NodesFitPages(d: nat)
    requires d >= 2
    ensures (forall m: Image | Encodable(m) && |m.entries| <= 2 * d - 1 && |m.keys| <= 2 * d - 1 ::
               HEADER_SIZE + |EncodeNode(m)| <= PAGE_SIZE) <==> d <= 78
  {
    if d > 78 {
      var e := BT.Entry(0, BT.Rid(0, 0));
      var m := Image(true, -1, seq(2 * 79 - 1, _ => e), [], []);
      assert Encodable(m) && HEADER_SIZE + |EncodeNode(m)| > PAGE_SIZE;
    }
  }

  // ---------------------------------------------------------------- the layout, byte by byte

  /** The bytes of a leaf with the key 7 stored at (2, 3), before page 9. */
  lemma {:induction false} LeafBytes()
    ensures var leaf := Image(true, 9, [BT.Entry(7, BT.Rid(2, 3))], [], []);
            && Encodable(leaf)
            && EncodeNode(leaf) == [1, 1, 0, 0, 0, 9, 0, 0, 0,
                                    'I' as int, 4, 0, 0, 0, 0, 7, 0, 0, 0,
                                    2, 0, 0, 0, 3, 0, 0, 0, 2, 0, 0, 0, 3, 0, 0, 0]
  {
    hide EncodeInt32, EncodeEntries, EncodeKeys, EncodeIds;
    var leaf := Image(true, 9, [BT.Entry(7, BT.Rid(2, 3))], [], []);
    Int32Bytes(1);
    Int32Bytes(9);
    EntryBytes();
    assert EncodeNode(leaf) == [1] + EncodeInt32(1) + EncodeInt32(9) + EncodeEntries(leaf.entries);
    var e: Bytes := ['I' as int, 4, 0, 0, 0, 0, 7, 0, 0, 0, 2, 0, 0, 0, 3, 0, 0, 0, 2, 0, 0, 0, 3, 0, 0, 0];
    assert EncodeEntries(leaf.entries) == e;
    assert [1] + [1, 0, 0, 0] + [9, 0, 0, 0] == [1, 1, 0, 0, 0, 9, 0, 0, 0];
    assert EncodeNode(leaf) == [1, 1, 0, 0, 0, 9, 0, 0, 0] + e;
  }

  /** The bytes of an inner node with the separator 7 between pages 4 and 5. */
  lemma {:induction false} InnerBytes()
    ensures var inner := Image(false, -1, [], [7], [4, 5]);
            && Encodable(inner)
            && EncodeNode(inner) == [0, 1, 0, 0, 0, 255, 255, 255, 255,
                                     'I' as int, 4, 0, 0, 0, 0, 7, 0, 0, 0,
                                     4, 0, 0, 0, 5, 0, 0, 0]
  {
    hide EncodeInt32, EncodeEntries, EncodeKeys, EncodeIds;
    var inner := Image(false, -1, [], [7], [4, 5]);
    Int32Bytes(1);
    KeyBytes();
    assert EncodeNode(inner)
        == [0] + EncodeInt32(1) + EncodeInt32(-1) + (EncodeKeys(inner.keys) + EncodeIds(inner.childIds));
  }

  lemma {:induction false} EntryBytes()
    ensures var e := BT.Entry(7, BT.Rid(2, 3));
            EncodeEntries([e]) == ['I' as int, 4, 0, 0, 0, 0, 7, 0, 0, 0,
                                   2, 0, 0, 0, 3, 0, 0, 0, 2, 0, 0, 0, 3, 0, 0, 0]
  {
    hide TC.EncodeField, TC.EncodeRid;
    var e := BT.Entry(7, BT.Rid(2, 3));
    SevenBytes();
    TC.RidBytes();
    assert [e][1..] == [];
    assert EncodeEntries([e]) == EncodeEntry(e) + [];
  }

  lemma {:induction false} KeyBytes()
    ensures EncodeKeys([7]) + EncodeIds([4, 5]) == ['I' as int, 4, 0, 0, 0, 0, 7, 0, 0, 0, 4, 0, 0, 0, 5, 0, 0, 0]
  {
    hide TC.EncodeField, EncodeInt32;
    SevenBytes();
    Int32Bytes(4);
    Int32Bytes(5);
    assert [7][1..] == [] && [4, 5][1..] == [5] && [5][1..] == [];
    assert EncodeKeys([7]) == TC.EncodeField(TC.IntField(7)) + [];
    assert EncodeIds([5]) == [5, 0, 0, 0] + [] && EncodeIds([4, 5]) == [4, 0, 0, 0] + [5, 0, 0, 0];
  }

  lemma SevenBytes()
    ensures TC.EncodeField(TC.IntField(7)) == ['I' as int, 4, 0, 0, 0, 0, 7, 0, 0, 0]
  {
    hide EncodeInt32;
    Int32Bytes(4);
    Int32Bytes(7);
  }
}
