/** Blocks as bytes (common/ledger/blkstorage/block_serialization.go, protobuf_util.go): writing one
    and noting where its transactions are, reading one and noting the same. */
module BlockSerialization {
  import opened Basics
  import opened BlockFile
  import opened BlockStore

  /** common.Block. Metadata that is missing is a nil pointer. */
  datatype Content = Content(number: nat, dataHash: Bytes, previousHash: Bytes, data: seq<Bytes>,
                             metadata: Option<seq<Bytes>>)

  // ----- the written form -----

  function HeaderBytes(b: Content): Bytes
  {
    EncodeVarint(b.number) + Record(b.dataHash) + Record(b.previousHash)
  }

  /** A count, then each item with its length. */
  function ItemBytes(items: seq<Bytes>): Bytes
  {
    EncodeVarint(|items|) + FileOf(items)
  }

  function Serialized(b: Content): Bytes
    requires b.metadata.Some?
  {
    HeaderBytes(b) + ItemBytes(b.data) + ItemBytes(b.metadata.value)
  }

  /** Where the first transaction of a block starts. */
  function FirstTx(b: Content): nat
  {
    |HeaderBytes(b)| + |EncodeVarint(|b.data|)|
  }

  /** Each transaction with its place and the size it takes, length included. */
  function TxsFrom(txId: Bytes -> string, data: seq<Bytes>, base: nat): seq<TxOffset>
  {
    seq(|data|, i requires 0 <= i < |data| => TxOffset(txId(data[i]), base + Offset(data, i), |Record(data[i])|))
  }

  function TxsOf(txId: Bytes -> string, b: Content): seq<TxOffset>
  {
    TxsFrom(txId, b.data, FirstTx(b))
  }

  lemma TxsSnoc(txId: Bytes -> string, data: seq<Bytes>, x: Bytes, base: nat)
    ensures TxsFrom(txId, data + [x], base) ==
            TxsFrom(txId, data, base) + [TxOffset(txId(x), base + |FileOf(data)|, |Record(x)|)]
    ensures FileOf(data + [x]) == FileOf(data) + Record(x)
  {
    hide Record, FileOf;
    FileSnoc(data, x);
    var l, r := TxsFrom(txId, data + [x], base), TxsFrom(txId, data, base);
    assert |l| == |r| + 1;
    forall i | 0 <= i < |l| ensures l[i] == (r + [TxOffset(txId(x), base + |FileOf(data)|, |Record(x)|)])[i] {
      TxAt(txId, data + [x], base, i);
      if i < |data| {
        TxAt(txId, data, base, i);
        assert (data + [x])[..i] == data[..i];
      } else {
        assert (data + [x])[..i] == data;
      }
    }
  }

  lemma TxAt(txId: Bytes -> string, data: seq<Bytes>, base: nat, i: nat)
    requires i < |data|
    ensures TxsFrom(txId, data, base)[i] == TxOffset(txId(data[i]), base + |FileOf(data[..i])|, |Record(data[i])|)
  {
    hide Record, FileOf;
  }

  /** SerializeBlock. None is the nil dereference on missing metadata. */
  method SerializeBlock(txId: Bytes -> string, b: Content) returns (r: Option<(Bytes, seq<TxOffset>)>)
    ensures r == if b.metadata.Some? then Some((Serialized(b), TxsOf(txId, b))) else None
  {
    hide Record, EncodeVarint, FileOf, TxsFrom;
    var buf := EncodeVarint(b.number) + Record(b.dataHash) + Record(b.previousHash);
    buf := buf + EncodeVarint(|b.data|);
    var first := |buf|;
    var txOffsets: seq<TxOffset> := [];
    NoTxs(txId, first);
    var i := 0;
    while i < |b.data|
      invariant 0 <= i <= |b.data|
      invariant buf == HeaderBytes(b) + (EncodeVarint(|b.data|) + FileOf(b.data[..i]))
      invariant txOffsets == TxsFrom(txId, b.data[..i], first)
    {
      TxsSnoc(txId, b.data[..i], b.data[i], first);
      assert b.data[..i + 1] == b.data[..i] + [b.data[i]];
      var offset := |buf|;
      buf := buf + Record(b.data[i]);
      txOffsets := txOffsets + [TxOffset(txId(b.data[i]), offset, |buf| - offset)];
      i := i + 1;
    }
    assert b.data[..i] == b.data;
    if b.metadata.None? {
      return None;
    }
    var metadata := AppendItems(b.metadata.value);
    return Some((buf + metadata, txOffsets));
  }

  lemma NoTxs(txId: Bytes -> string, base: nat)
    ensures TxsFrom(txId, [], base) == [] && FileOf([]) == []
  {
  }

  method AppendItems(items: seq<Bytes>) returns (buf: Bytes)
    ensures buf == ItemBytes(items)
  {
    hide Record, EncodeVarint;
    buf := EncodeVarint(|items|);
    var i := 0;
    while i < |items|
      invariant 0 <= i <= |items|
      invariant buf == EncodeVarint(|items|) + FileOf(items[..i])
    {
      FileSnoc(items[..i], items[i]);
      assert items[..i + 1] == items[..i] + [items[i]];
      buf := buf + Record(items[i]);
      i := i + 1;
    }
    assert items[..i] == items;
  }

  // ----- reading -----

  /** A varint as a 64-bit word, and what follows it. */
  function WordAt(buf: Bytes, i: nat): Option<(nat, nat)>
    requires i <= |buf|
    ensures WordAt(buf, i).Some? ==> i < WordAt(buf, i).value.1 <= |buf|
  {
    match DecodeVarint(Looked(buf[i..]))
    case None => None
    case Some((v, n)) => Some((v % WORD, i + n))
  }

  /** Bytes with their length in front. A length of 2^63 or more is negative as an int, and none that
      large is left. */
  function RawAt(buf: Bytes, i: nat): Option<(Bytes, nat)>
    requires i <= |buf|
    ensures RawAt(buf, i).Some? ==> i < RawAt(buf, i).value.1 <= |buf|
  {
    match WordAt(buf, i)
    case None => None
    case Some((n, j)) => if n > |buf| - j then None else Some((buf[j..j + n], j + n))
  }

  function RawsAt(buf: Bytes, i: nat, count: nat): Option<(seq<Bytes>, nat)>
    requires i <= |buf|
    ensures RawsAt(buf, i, count).Some? ==>
              |RawsAt(buf, i, count).value.0| == count && i <= RawsAt(buf, i, count).value.1 <= |buf|
    decreases count
  {
    if count == 0 then Some(([], i))
    else
      match RawAt(buf, i)
      case None => None
      case Some((x, j)) => Before([x], RawsAt(buf, j, count - 1))
  }

  function Before(items: seq<Bytes>, r: Option<(seq<Bytes>, nat)>): Option<(seq<Bytes>, nat)>
  {
    match r
    case None => None
    case Some((more, j)) => Some((items + more, j))
  }

  function ItemsAt(buf: Bytes, i: nat): Option<(seq<Bytes>, nat)>
    requires i <= |buf|
    ensures ItemsAt(buf, i).Some? ==> i <= ItemsAt(buf, i).value.1 <= |buf|
  {
    match WordAt(buf, i)
    case None => None
    case Some((count, j)) => RawsAt(buf, j, count)
  }

  /** The block that bytes hold, and how many of them were read. */
  function BlockAt(buf: Bytes): Option<(Content, nat)>
  {
    match WordAt(buf, 0)
    case None => None
    case Some((number, i)) => BodyAt(buf, i, number)
  }

  function BodyAt(buf: Bytes, i: nat, number: nat): Option<(Content, nat)>
    requires i <= |buf|
  {
    match RawAt(buf, i)
    case None => None
    case Some((dataHash, j)) =>
      match RawAt(buf, j)
      case None => None
      case Some((previousHash, k)) =>
        match ItemsAt(buf, k)
        case None => None
        case Some((data, l)) =>
          match ItemsAt(buf, l)
          case None => None
          case Some((metadata, end)) =>
            Some((Content(number, dataHash, previousHash, data, Some(metadata)), end))
  }

  /** proto.SizeVarint: the size of the shortest encoding. */
  function SizeVarint(x: nat): nat
  {
    if x < 0x80 then 1 else if x < 0x4000 then 2 else if x < 0x20_0000 then 3 else if x < 0x1000_0000 then 4
    else if x < 0x8_0000_0000 then 5 else if x < 0x400_0000_0000 then 6 else if x < 0x2_0000_0000_0000 then 7
    else if x < 0x100_0000_0000_0000 then 8 else if x < 0x8000_0000_0000_0000 then 9 else 10
  }

  lemma {:induction false} SizeVarintExact(x: nat)
    requires x < WORD
    ensures SizeVarint(x) == |EncodeVarint(x)|
    decreases x
  {
    if x >= 128 {
      SizeVarintExact(x / 128);
    }
  }

  /** The buffer wrapper. Its position is not the index of the buffer beneath: it is advanced by the
      size the value would take when encoded. */
  class Buffer {
    const buf: Bytes
    var index: nat
    var position: nat

    ghost predicate Valid()
      reads this
    {
      index <= |buf|
    }

    constructor (b: Bytes)
      ensures Valid() && buf == b && index == 0 && position == 0
    {
      buf, index, position := b, 0, 0;
    }

    method NextVarint() returns (r: Option<nat>)
      requires Valid()
      modifies this
      ensures Valid()
      ensures match WordAt(buf, old(index))
              case None => r == None
              case Some((x, j)) => r == Some(x) && index == j && position == old(position) + |EncodeVarint(x)|
    {
      hide EncodeVarint, Looked, SizeVarint;
      var x, n := DecodeVarintLoop(buf[index..]);
      if n == 0 {
        return None;
      }
      SizeVarintExact(x);
      index := index + n;
      position := position + SizeVarint(x);
      return Some(x);
    }

    method NextRawBytes() returns (r: Option<Bytes>)
      requires Valid()
      modifies this
      ensures Valid()
      ensures match RawAt(buf, old(index))
              case None => r == None
              case Some((x, j)) => r == Some(x) && index == j && position == old(position) + |Record(x)|
    {
      hide EncodeVarint, WordAt;
      var start := position;
      var n := NextVarint();
      if n.None? || n.value > |buf| - index {
        return None;
      }
      var bytes := buf[index..index + n.value];
      index := index + n.value;
      position := start + |EncodeVarint(|bytes|)| + |bytes|;
      return Some(bytes);
    }
  }

  method ExtractData(txId: Bytes -> string, b: Buffer) returns (r: Option<(seq<Bytes>, seq<TxOffset>)>)
    requires b.Valid()
    modifies b
    ensures b.Valid()
    ensures match ItemsAt(b.buf, old(b.index))
            case None => r == None
            case Some((data, j)) =>
              && r == Some((data, TxsFrom(txId, data, old(b.position) + |EncodeVarint(|data|)|)))
              && b.index == j && b.position == old(b.position) + |ItemBytes(data)|
  {
    hide EncodeVarint, WordAt, Record, FileOf, TxsFrom, RawAt;
    var numItems := b.NextVarint();
    if numItems.None? {
      return None;
    }
    var data: seq<Bytes>, txOffsets: seq<TxOffset> := [], [];
    ghost var start, first := b.index, b.position;
    NoTxs(txId, first);
    BeforeNone(RawsAt(b.buf, start, numItems.value));
    var i := 0;
    while i < numItems.value
      invariant 0 <= i <= numItems.value && |data| == i && b.Valid()
      invariant RawsAt(b.buf, start, numItems.value) == Before(data, RawsAt(b.buf, b.index, numItems.value - i))
      invariant b.position == first + |FileOf(data)| && txOffsets == TxsFrom(txId, data, first)
    {
      var txOffset := b.position;
      RawsStep(b.buf, b.index, numItems.value - i, data);
      var txEnvBytes := b.NextRawBytes();
      if txEnvBytes.None? {
        return None;
      }
      TxsSnoc(txId, data, txEnvBytes.value, first);
      data := data + [txEnvBytes.value];
      txOffsets := txOffsets + [TxOffset(txId(txEnvBytes.value), txOffset, b.position - txOffset)];
      i := i + 1;
    }
    assert data + [] == data;
    return Some((data, txOffsets));
  }

  lemma BeforeNone(r: Option<(seq<Bytes>, nat)>)
    ensures Before([], r) == r
  {
    assert r.Some? ==> [] + r.value.0 == r.value.0;
  }

  /** One more item, after those read. */
  lemma RawsStep(buf: Bytes, i: nat, count: nat, items: seq<Bytes>)
    requires i <= |buf| && count > 0
    ensures match RawAt(buf, i)
            case None => RawsAt(buf, i, count) == None
            case Some((x, j)) => Before(items, RawsAt(buf, i, count)) == Before(items + [x], RawsAt(buf, j, count - 1))
  {
    hide RawAt;
    var r := RawAt(buf, i);
    if r.Some? {
      var more := RawsAt(buf, r.value.1, count - 1);
      assert more.Some? ==> items + ([r.value.0] + more.value.0) == items + [r.value.0] + more.value.0;
    }
  }

  method ExtractMetadata(b: Buffer) returns (r: Option<seq<Bytes>>)
    requires b.Valid()
    modifies b
    ensures b.Valid()
    ensures match ItemsAt(b.buf, old(b.index))
            case None => r == None
            case Some((items, j)) =>
              r == Some(items) && b.index == j && b.position == old(b.position) + |ItemBytes(items)|
  {
    hide EncodeVarint, WordAt, Record, FileOf, RawAt;
    var numItems := b.NextVarint();
    if numItems.None? {
      return None;
    }
    var items: seq<Bytes> := [];
    ghost var start, first := b.index, b.position;
    NoFile();
    BeforeNone(RawsAt(b.buf, start, numItems.value));
    var i := 0;
    while i < numItems.value
      invariant 0 <= i <= numItems.value && |items| == i && b.Valid()
      invariant RawsAt(b.buf, start, numItems.value) == Before(items, RawsAt(b.buf, b.index, numItems.value - i))
      invariant b.position == first + |FileOf(items)|
    {
      RawsStep(b.buf, b.index, numItems.value - i, items);
      var item := b.NextRawBytes();
      if item.None? {
        return None;
      }
      FileSnoc(items, item.value);
      items := items + [item.value];
      i := i + 1;
    }
    assert items + [] == items;
    return Some(items);
  }

  /** DeserializeBlock and extractSerializedBlockInfo, which walk alike. Whatever bytes are read, the
      places noted are those SerializeBlock notes for the block read, and the position the reader ends
      with is the size of that block as written. */
  method ReadBlock(txId: Bytes -> string, bytes: Bytes)
    returns (r: Option<(Content, seq<TxOffset>)>, ghost index: nat, ghost position: nat)
    ensures match BlockAt(bytes)
            case None => r == None
            case Some((b, _)) => r == Some((b, TxsOf(txId, b)))
    ensures match BlockAt(bytes)
            case None => true
            case Some((b, used)) => b.metadata.Some? && index == used && position == |Serialized(b)|
  {
    hide BlockAt, TxsOf, Serialized, WrittenSize;
    var buf := new Buffer(bytes);
    r := ReadFrom(txId, buf);
    index, position := buf.index, buf.position;
    if r.Some? {
      WrittenSizes(r.value.0);
    }
  }

  method ReadFrom(txId: Bytes -> string, buf: Buffer) returns (r: Option<(Content, seq<TxOffset>)>)
    requires buf.index == buf.position == 0
    modifies buf
    ensures match BlockAt(buf.buf)
            case None => r == None
            case Some((b, used)) =>
              && r == Some((b, TxsOf(txId, b))) && buf.index == used
              && b.metadata.Some? && buf.position == WrittenSize(b)
  {
    hide EncodeVarint, WordAt, RawAt, ItemsAt, Record, ItemBytes, TxsFrom;
    var number := buf.NextVarint();
    if number.None? {
      return None;
    }
    var dataHash := buf.NextRawBytes();
    if dataHash.None? {
      return None;
    }
    var previousHash := buf.NextRawBytes();
    if previousHash.None? {
      return None;
    }
    var data := ExtractData(txId, buf);
    if data.None? {
      return None;
    }
    var metadata := ExtractMetadata(buf);
    if metadata.None? {
      return None;
    }
    return Some((Content(number.value, dataHash.value, previousHash.value, data.value.0, metadata), data.value.1));
  }

  /** The sizes of the parts a block is written in. */
  function WrittenSize(b: Content): nat
    requires b.metadata.Some?
  {
    |EncodeVarint(b.number)| + |Record(b.dataHash)| + |Record(b.previousHash)|
    + |ItemBytes(b.data)| + |ItemBytes(b.metadata.value)|
  }

  lemma WrittenSizes(b: Content)
    requires b.metadata.Some?
    ensures |Serialized(b)| == WrittenSize(b)
  {
    hide EncodeVarint, Record, ItemBytes;
  }

  // ----- what is written is read back -----

  /** The integers of the source: a block number of 64 bits, sizes that an int holds. */
  predicate Sized(b: Content)
  {
    && b.number < WORD && |b.dataHash| < WORD && |b.previousHash| < WORD
    && |b.data| < WORD && (forall x :: x in b.data ==> |x| < WORD)
    && (b.metadata.Some? ==> |b.metadata.value| < WORD && forall x :: x in b.metadata.value ==> |x| < WORD)
  }

  lemma WordWritten(pre: Bytes, x: nat, rest: Bytes)
    requires x < WORD
    ensures WordAt(pre + EncodeVarint(x) + rest, |pre|) == Some((x, |pre| + |EncodeVarint(x)|))
  {
    hide EncodeVarint, DecodeVarint;
    var buf := pre + EncodeVarint(x) + rest;
    assert buf[|pre|..] == EncodeVarint(x) + rest;
    SizeVarintExact(x);
    var look := Looked(EncodeVarint(x) + rest);
    assert look == EncodeVarint(x) + look[|EncodeVarint(x)|..];
    VarintRoundTrip(x, look[|EncodeVarint(x)|..]);
  }

  lemma RawWritten(pre: Bytes, x: Bytes, rest: Bytes)
    requires |x| < WORD
    ensures RawAt(pre + Record(x) + rest, |pre|) == Some((x, |pre| + |Record(x)|))
  {
    hide EncodeVarint, WordAt;
    WordWritten(pre, |x|, x + rest);
    assert pre + Record(x) + rest == pre + EncodeVarint(|x|) + (x + rest);
    var j := |pre| + |EncodeVarint(|x|)|;
    assert (pre + Record(x) + rest)[j..j + |x|] == x;
  }

  lemma {:induction false} RawsWritten(pre: Bytes, items: seq<Bytes>, rest: Bytes)
    requires forall x :: x in items ==> |x| < WORD
    ensures RawsAt(pre + FileOf(items) + rest, |pre|, |items|) == Some((items, |pre| + |FileOf(items)|))
    decreases |items|
  {
    hide Record, RawAt, FileOf;
    if items == [] {
      NoFile();
      assert pre + [] == pre;
    } else {
      var x, more := items[0], items[1..];
      FileHead(items);
      RawWritten(pre, x, FileOf(more) + rest);
      RawsWritten(pre + Record(x), more, rest);
      Reassociate(pre, Record(x), FileOf(more), rest);
      assert [x] + more == items;
    }
  }

  lemma Reassociate(a: Bytes, b: Bytes, c: Bytes, d: Bytes)
    ensures a + (b + c) + d == a + b + (c + d) == a + b + c + d
  {
  }

  lemma FileHead(items: seq<Bytes>)
    requires items != []
    ensures FileOf(items) == Record(items[0]) + FileOf(items[1..])
  {
    hide Record;
    FileSplit(items, 1);
    assert items[..1] == [] + [items[0]];
    FileSnoc([], items[0]);
    NoFile();
    assert [] + Record(items[0]) == Record(items[0]);
  }

  lemma NoFile()
    ensures FileOf([]) == []
  {
  }

  lemma ItemsWritten(pre: Bytes, items: seq<Bytes>, rest: Bytes)
    requires |items| < WORD && forall x :: x in items ==> |x| < WORD
    ensures ItemsAt(pre + ItemBytes(items) + rest, |pre|) == Some((items, |pre| + |ItemBytes(items)|))
  {
    hide EncodeVarint, WordAt, RawsAt, FileOf;
    var count := EncodeVarint(|items|);
    WordWritten(pre, |items|, FileOf(items) + rest);
    RawsWritten(pre + count, items, rest);
    assert pre + ItemBytes(items) + rest == pre + count + (FileOf(items) + rest) == pre + count + FileOf(items) + rest;
  }

  /** All after the number. */
  function Body(b: Content): Bytes
    requires b.metadata.Some?
  {
    Record(b.dataHash) + Record(b.previousHash) + ItemBytes(b.data) + ItemBytes(b.metadata.value)
  }

  lemma SerializedParts(b: Content)
    requires b.metadata.Some?
    ensures Serialized(b) == EncodeVarint(b.number) + Body(b)
  {
    hide EncodeVarint, Record, ItemBytes;
  }

  lemma BodyWritten(pre: Bytes, b: Content, rest: Bytes)
    requires Sized(b) && b.metadata.Some?
    ensures BodyAt(pre + Body(b) + rest, |pre|, b.number) == Some((b, |pre| + |Body(b)|))
  {
    hide EncodeVarint, Record, ItemBytes, WordAt, RawAt, ItemsAt;
    var d, p := Record(b.dataHash), Record(b.previousHash);
    var t, m := ItemBytes(b.data), ItemBytes(b.metadata.value);
    var buf := pre + Body(b) + rest;
    RawWritten(pre, b.dataHash, p + t + m + rest);
    assert pre + d + (p + t + m + rest) == buf;
    RawWritten(pre + d, b.previousHash, t + m + rest);
    assert pre + d + p + (t + m + rest) == buf;
    ItemsWritten(pre + d + p, b.data, m + rest);
    assert pre + d + p + t + (m + rest) == buf;
    ItemsWritten(pre + d + p + t, b.metadata.value, rest);
    assert pre + d + p + t + m + rest == buf;
  }

  /** Reading what was written gives the block back and stops at its end, whatever follows. */
  lemma RoundTrip(b: Content, rest: Bytes)
    requires Sized(b) && b.metadata.Some?
    ensures BlockAt(Serialized(b) + rest) == Some((b, |Serialized(b)|))
  {
    hide EncodeVarint, Body, Serialized, BodyAt, WordAt;
    var n := EncodeVarint(b.number);
    SerializedParts(b);
    WordWritten([], b.number, Body(b) + rest);
    assert [] + n + (Body(b) + rest) == Serialized(b) + rest == n + Body(b) + rest;
    BodyWritten(n, b, rest);
  }

  // ----- bytes that follow change nothing, bytes that are missing show -----

  lemma {:induction false} DecodeMore(buf: Bytes, more: Bytes)
    requires DecodeVarint(buf).Some?
    ensures DecodeVarint(buf + more) == DecodeVarint(buf)
  {
    if buf[0] >= 128 {
      DecodeMore(buf[1..], more);
      assert (buf + more)[1..] == buf[1..] + more;
    }
  }

  lemma WordMore(buf: Bytes, more: Bytes, i: nat)
    requires i <= |buf| && WordAt(buf, i).Some?
    ensures WordAt(buf + more, i) == WordAt(buf, i)
  {
    hide DecodeVarint;
    var a, b := Looked(buf[i..]), Looked((buf + more)[i..]);
    assert (buf + more)[i..] == buf[i..] + more;
    assert b == a + b[|a|..];
    DecodeMore(a, b[|a|..]);
  }

  lemma RawMore(buf: Bytes, more: Bytes, i: nat)
    requires i <= |buf| && RawAt(buf, i).Some?
    ensures RawAt(buf + more, i) == RawAt(buf, i)
  {
    hide WordAt;
    WordMore(buf, more, i);
    var (n, j) := WordAt(buf, i).value;
    assert (buf + more)[j..j + n] == buf[j..j + n];
  }

  lemma {:induction false} RawsMore(buf: Bytes, more: Bytes, i: nat, count: nat)
    requires i <= |buf| && RawsAt(buf, i, count).Some?
    ensures RawsAt(buf + more, i, count) == RawsAt(buf, i, count)
    decreases count
  {
    hide RawAt;
    if count > 0 {
      RawMore(buf, more, i);
      RawsMore(buf, more, RawAt(buf, i).value.1, count - 1);
    }
  }

  lemma ItemsMore(buf: Bytes, more: Bytes, i: nat)
    requires i <= |buf| && ItemsAt(buf, i).Some?
    ensures ItemsAt(buf + more, i) == ItemsAt(buf, i)
  {
    hide WordAt, RawsAt;
    WordMore(buf, more, i);
    var (count, j) := WordAt(buf, i).value;
    RawsMore(buf, more, j, count);
  }

  lemma BlockMore(buf: Bytes, more: Bytes)
    requires BlockAt(buf).Some?
    ensures BlockAt(buf + more) == BlockAt(buf)
  {
    hide WordAt, RawAt, ItemsAt;
    WordMore(buf, more, 0);
    var i := WordAt(buf, 0).value.1;
    RawMore(buf, more, i);
    var j := RawAt(buf, i).value.1;
    RawMore(buf, more, j);
    var k := RawAt(buf, j).value.1;
    ItemsMore(buf, more, k);
    ItemsMore(buf, more, ItemsAt(buf, k).value.1);
  }

  /** A block with its end missing is not read as any block. */
  lemma CutFails(b: Content, n: nat)
    requires Sized(b) && b.metadata.Some? && n < |Serialized(b)|
    ensures BlockAt(Serialized(b)[..n]) == None
  {
    hide Serialized, BlockAt;
    var s := Serialized(b);
    RoundTrip(b, []);
    assert s + [] == s && s[..n] + s[n..] == s;
    if BlockAt(s[..n]).Some? {
      BlockMore(s[..n], s[n..]);
      BlockEnds(s[..n]);
    }
  }

  lemma BlockEnds(buf: Bytes)
    requires BlockAt(buf).Some?
    ensures BlockAt(buf).value.1 <= |buf| && BlockAt(buf).value.0.metadata.Some?
  {
  }

  // ----- the reader's position -----

  /** No encoding of a number is shorter than the one written, and none as short is another. */
  lemma {:induction false} Shortest(buf: Bytes)
    requires DecodeVarint(buf).Some?
    ensures var (v, n) := DecodeVarint(buf).value;
            |EncodeVarint(v)| <= n && (|EncodeVarint(v)| == n ==> buf[..n] == EncodeVarint(v))
  {
    if buf[0] < 128 {
      assert buf[..1] == [buf[0]];
    } else {
      Shortest(buf[1..]);
      var (x, n) := DecodeVarint(buf[1..]).value;
      if x > 0 {
        var v := (buf[0] as nat - 128) + 128 * x;
        assert v / 128 == x && v % 128 == buf[0] as nat - 128;
        assert buf[..n + 1] == [buf[0]] + buf[1..][..n];
      }
    }
  }

  /** A number whose tenth byte carries bits beyond the 64th. */
  predicate Wide(buf: Bytes)
  {
    |buf| >= 10 && (forall i :: 0 <= i < 9 ==> buf[i] >= 128) && buf[9] > 1
  }

  lemma {:induction false} TopByte(buf: Bytes)
    requires DecodeVarint(buf).Some?
    ensures var (v, n) := DecodeVarint(buf).value;
            v < Pow128(n - 1) * (buf[n - 1] as nat + 1)
  {
    if buf[0] >= 128 {
      TopByte(buf[1..]);
      var (x, n) := DecodeVarint(buf[1..]).value;
      TimesMore(x, Pow128(n - 1), buf[n] as nat + 1);
    }
  }

  lemma TimesMore(x: nat, p: nat, b: nat)
    requires x < p * b
    ensures 128 * (x + 1) <= 128 * p * b
  {
  }

  lemma {:induction false} LongVarint(buf: Bytes)
    requires DecodeVarint(buf).Some?
    ensures forall i :: 0 <= i < DecodeVarint(buf).value.1 - 1 ==> buf[i] >= 128
  {
    if buf[0] >= 128 {
      LongVarint(buf[1..]);
      forall i | 0 <= i < DecodeVarint(buf).value.1 - 1 ensures buf[i] >= 128 {
        assert i > 0 ==> buf[i] == buf[1..][i - 1];
      }
    }
  }

  lemma TenBytes(buf: Bytes)
    requires DecodeVarint(buf).Some? && DecodeVarint(buf).value.1 <= 10 && !Wide(buf)
    ensures DecodeVarint(buf).value.0 < WORD
  {
    var (v, n) := DecodeVarint(buf).value;
    DecodedBound(buf);
    if n == 10 {
      LongVarint(buf);
      TopByte(buf);
      NineSevens();
    }
  }

  /** The bytes with the bits of the number beyond the 64th dropped. */
  function Trimmed(buf: Bytes): (r: Bytes)
    ensures |r| == |buf|
  {
    if Wide(buf) then buf[9 := buf[9] % 2] else buf
  }

  /** Another last byte of a varint moves the number by its difference. */
  lemma {:induction false} LastByte(buf: Bytes, last: byte)
    requires DecodeVarint(buf).Some? && last < 128
    ensures var (v, n) := DecodeVarint(buf).value;
            DecodeVarint(buf[n - 1 := last]).Some?
            && DecodeVarint(buf[n - 1 := last]).value.1 == n
            && DecodeVarint(buf[n - 1 := last]).value.0 == v + Pow128(n - 1) * (last as int - buf[n - 1] as int)
  {
    if buf[0] >= 128 {
      LastByte(buf[1..], last);
      var (x, n) := DecodeVarint(buf[1..]).value;
      assert buf[n := last][1..] == buf[1..][n - 1 := last];
      TimesOut(Pow128(n - 1), last as int - buf[n] as int);
    }
  }

  lemma TimesOut(p: nat, d: int)
    ensures 128 * (p * d) == 128 * p * d
  {
  }

  lemma TrimmedDecodes(buf: Bytes)
    requires DecodeVarint(buf).Some? && DecodeVarint(buf).value.1 <= 10
    ensures var (v, n) := DecodeVarint(buf).value;
            DecodeVarint(Trimmed(buf)) == Some((v % WORD, n))
  {
    hide DecodeVarint;
    var (v, n) := DecodeVarint(buf).value;
    if Wide(buf) {
      WideIsLong(buf);
      LastByte(buf, buf[9] % 2);
      NineSevens();
      TopByte(buf);
      TopByte(Trimmed(buf));
      HalfWords(v, buf[9] as nat);
    } else {
      TenBytes(buf);
    }
  }

  lemma WideIsLong(buf: Bytes)
    requires DecodeVarint(buf).Some? && DecodeVarint(buf).value.1 <= 10 && Wide(buf)
    ensures DecodeVarint(buf).value.1 == 10 && buf[9] < 128
  {
    LastIsLow(buf);
  }

  lemma {:induction false} LastIsLow(buf: Bytes)
    requires DecodeVarint(buf).Some?
    ensures buf[DecodeVarint(buf).value.1 - 1] < 128
  {
    if buf[0] >= 128 {
      LastIsLow(buf[1..]);
    }
  }

  lemma HalfWords(v: nat, b: nat)
    requires v < HALF * (b + 1) && v + HALF * (b % 2 - b) < HALF * (b % 2 + 1) && v + HALF * (b % 2 - b) >= 0
    ensures v % WORD == v + HALF * (b % 2 - b)
  {
    assert b == 2 * (b / 2) + b % 2;
    var w := v + HALF * (b % 2 - b);
    assert v == w + WORD * (b / 2);
    assert 0 <= w < WORD;
  }

  /** A word read takes at least the bytes it would be written in, and exactly those if and only if it
      was written so, bits beyond the 64th aside. */
  lemma WordShortest(buf: Bytes, i: nat)
    requires i <= |buf| && WordAt(buf, i).Some?
    ensures var (x, j) := WordAt(buf, i).value;
            && |EncodeVarint(x)| <= j - i
            && (|EncodeVarint(x)| == j - i <==> Trimmed(buf[i..])[..j - i] == EncodeVarint(x))
            && (|EncodeVarint(x)| == j - i && x < HALF ==> buf[i..j] == EncodeVarint(x))
  {
    hide EncodeVarint, DecodeVarint, Trimmed;
    var look := Looked(buf[i..]);
    var (v, n) := DecodeVarint(look).value;
    TrimmedDecodes(look);
    Shortest(Trimmed(look));
    TrimmedLook(buf[i..], n);
    if v % WORD < HALF {
      SizeVarintExact(v % WORD);
      NarrowStays(look);
      assert look[..n] == buf[i..i + n];
    }
  }

  lemma TrimmedLook(buf: Bytes, n: nat)
    requires n <= |Looked(buf)|
    ensures Trimmed(Looked(buf))[..n] == Trimmed(buf)[..n]
  {
  }

  lemma NarrowStays(look: Bytes)
    requires DecodeVarint(look).Some?
    ensures DecodeVarint(look).value.1 <= 9 ==> Trimmed(look) == look
  {
    LongVarint(look);
    LastIsLow(look);
  }

  lemma RawShortest(buf: Bytes, i: nat)
    requires i <= |buf| < HALF && RawAt(buf, i).Some?
    ensures var (x, j) := RawAt(buf, i).value;
            |Record(x)| <= j - i && (|Record(x)| == j - i ==> buf[i..j] == Record(x))
  {
    hide EncodeVarint, WordAt;
    WordShortest(buf, i);
    var (n, k) := WordAt(buf, i).value;
    assert buf[i..k + n] == buf[i..k] + buf[k..k + n];
  }

  lemma {:induction false} RawsShortest(buf: Bytes, i: nat, count: nat)
    requires i <= |buf| < HALF && RawsAt(buf, i, count).Some?
    ensures var (items, j) := RawsAt(buf, i, count).value;
            |FileOf(items)| <= j - i && (|FileOf(items)| == j - i ==> buf[i..j] == FileOf(items))
    decreases count
  {
    hide Record, RawAt;
    if count == 0 {
      NoFile();
    } else {
      RawShortest(buf, i);
      var (x, k) := RawAt(buf, i).value;
      RawsShortest(buf, k, count - 1);
      var (items, j) := RawsAt(buf, i, count).value;
      FileHead(items);
      assert items[0] == x && items[1..] == RawsAt(buf, k, count - 1).value.0;
      assert buf[i..j] == buf[i..k] + buf[k..j];
    }
  }

  lemma ItemsShortest(buf: Bytes, i: nat)
    requires i <= |buf| < HALF && ItemsAt(buf, i).Some?
    ensures var (items, j) := ItemsAt(buf, i).value;
            |ItemBytes(items)| <= j - i && (|ItemBytes(items)| == j - i ==> buf[i..j] == ItemBytes(items))
  {
    hide EncodeVarint, WordAt, RawsAt, FileOf;
    WordShortest(buf, i);
    var (count, k) := WordAt(buf, i).value;
    RawsShortest(buf, k, count);
    RawsCount(buf, k, count);
    var (items, j) := ItemsAt(buf, i).value;
    assert buf[i..j] == buf[i..k] + buf[k..j];
  }

  /** Every item takes a byte. */
  lemma {:induction false} RawsCount(buf: Bytes, i: nat, count: nat)
    requires i <= |buf| && RawsAt(buf, i, count).Some?
    ensures count <= |buf| - i
    decreases count
  {
    hide RawAt;
    if count > 0 {
      RawsCount(buf, RawAt(buf, i).value.1, count - 1);
    }
  }

  /** The reader's position is the size of the block read as SerializeBlock writes it. It is never
      ahead of what has been read, and it is there if and only if the bytes are what SerializeBlock
      writes, bits of the number beyond the 64th aside, which are dropped when it is read. */
  lemma PositionExact(buf: Bytes)
    requires |buf| < HALF && BlockAt(buf).Some?
    ensures var (b, used) := BlockAt(buf).value;
            && used <= |buf| && b.metadata.Some? && |Serialized(b)| <= used
            && (|Serialized(b)| == used <==> Trimmed(buf)[..used] == Serialized(b))
  {
    hide WordAt, RawAt, ItemsAt, EncodeVarint, Record, ItemBytes, Serialized, Trimmed;
    WordShortest(buf, 0);
    var (number, i) := WordAt(buf, 0).value;
    RawShortest(buf, i);
    var j := RawAt(buf, i).value.1;
    RawShortest(buf, j);
    var k := RawAt(buf, j).value.1;
    ItemsShortest(buf, k);
    var l := ItemsAt(buf, k).value.1;
    ItemsShortest(buf, l);
    var (b, used) := BlockAt(buf).value;
    SerializedParts(b);
    TrimmedAfter(buf, i, used);
    assert buf[0..] == buf;
    Pieces(buf, i, j, k, l, used);
  }

  /** Only the number is trimmed. */
  lemma TrimmedAfter(buf: Bytes, i: nat, m: nat)
    requires WordAt(buf, 0).Some? && WordAt(buf, 0).value.1 == i <= m <= |buf|
    ensures Trimmed(buf)[..m] == Trimmed(buf)[..i] + buf[i..m]
  {
    hide DecodeVarint;
    assert buf[0..] == buf;
    var look := Looked(buf);
    if Wide(buf) {
      WideIsLong(look);
    }
  }

  lemma Pieces(buf: Bytes, i: nat, j: nat, k: nat, l: nat, m: nat)
    requires i <= j <= k <= l <= m <= |buf|
    ensures buf[i..m] == buf[i..j] + buf[j..k] + buf[k..l] + buf[l..m]
  {
    assert buf[i..k] == buf[i..j] + buf[j..k];
    assert buf[i..l] == buf[i..k] + buf[k..l];
    assert buf[i..m] == buf[i..l] + buf[l..m];
  }

  // ----- the places are right -----

  /** What fetchTransactionEnvelope does with the bytes at a place. */
  function Unwrapped(bytes: Bytes): Bytes
  {
    match DecodeVarint(Looked(bytes))
    case None => bytes
    case Some((_, n)) => bytes[n..]
  }

  lemma UnwrapsRecord(x: Bytes)
    requires |x| < WORD
    ensures Unwrapped(Record(x)) == x
  {
    hide EncodeVarint;
    WordWritten([], |x|, x);
    assert [] + EncodeVarint(|x|) + x == Record(x) && Record(x)[0..] == Record(x);
  }

  /** Each transaction is at its place in the written block. */
  lemma TxsPlaced(txId: Bytes -> string, b: Content, i: nat)
    requires b.metadata.Some? && i < |b.data|
    ensures |TxsOf(txId, b)| == |b.data|
    ensures var tx := TxsOf(txId, b)[i];
            && tx.txId == txId(b.data[i]) && tx.offset + tx.length <= |Serialized(b)|
            && Serialized(b)[tx.offset..tx.offset + tx.length] == Record(b.data[i])
  {
    hide EncodeVarint, Record, FileOf;
    TxAt(txId, b.data, FirstTx(b), i);
    FileSplit(b.data, i);
    FileHead(b.data[i..]);
    assert b.data[i..][0] == b.data[i];
    var before, after := FileOf(b.data[..i]), FileOf(b.data[i..][1..]);
    var pre := HeaderBytes(b) + EncodeVarint(|b.data|) + before;
    assert Serialized(b) == pre + Record(b.data[i]) + (after + ItemBytes(b.metadata.value));
  }

  /** A number written one byte longer than needed: the block is read, but every transaction is noted
      one byte before its place. */
  lemma PaddedReads(txId: Bytes -> string, b: Content, rest: Bytes)
    requires Sized(b) && b.metadata.Some? && b.number < 128
    ensures var buf := Padded(b, rest);
            && BlockAt(buf) == Some((b, |Serialized(b)| + 1))
            && |TxsOf(txId, b)| == |b.data|
            && forall i :: 0 <= i < |b.data| ==>
                 var tx := TxsOf(txId, b)[i];
                 && tx.offset + 1 + tx.length <= |buf|
                 && buf[tx.offset + 1..tx.offset + 1 + tx.length] == Record(b.data[i])
  {
    hide Body, Serialized, BlockAt, TxsOf, Record;
    PaddedBlock(b, rest);
    NotedSize(txId, b);
    forall i | 0 <= i < |b.data|
      ensures var tx := TxsOf(txId, b)[i];
              && tx.offset + 1 + tx.length <= |Padded(b, rest)|
              && Padded(b, rest)[tx.offset + 1..tx.offset + 1 + tx.length] == Record(b.data[i])
    {
      TxsPlaced(txId, b, i);
      var tx := TxsOf(txId, b)[i];
      NotedAfterNumber(txId, b, i);
      SerializedParts(b);
      ShiftedSlice(EncodeVarint(b.number), Body(b), [(128 + b.number) as byte, 0], rest, tx.offset, tx.length);
    }
  }

  /** The block with a number of one byte written in two. */
  function Padded(b: Content, rest: Bytes): Bytes
    requires b.metadata.Some? && b.number < 128
  {
    [(128 + b.number) as byte, 0] + Body(b) + rest
  }

  lemma PaddedBlock(b: Content, rest: Bytes)
    requires Sized(b) && b.metadata.Some? && b.number < 128
    ensures BlockAt(Padded(b, rest)) == Some((b, |Serialized(b)| + 1))
  {
    hide Body, Serialized, BodyAt;
    var pre := [(128 + b.number) as byte, 0];
    var buf := pre + Body(b) + rest;
    SerializedParts(b);
    BodyWritten(pre, b, rest);
    var look := Looked(buf[0..]);
    assert look[0] == pre[0] && look[1] == 0;
    assert look[1..][0] == 0;
    assert DecodeVarint(look[1..]) == Some((0, 1));
  }

  lemma NotedSize(txId: Bytes -> string, b: Content)
    ensures |TxsOf(txId, b)| == |b.data|
  {
  }

  lemma NotedAfterNumber(txId: Bytes -> string, b: Content, i: nat)
    requires i < |b.data| && b.number < 128
    ensures TxsOf(txId, b)[i].offset >= 1 == |EncodeVarint(b.number)|
  {
    hide Record;
  }

  /** A slice behind a prefix is found behind another prefix one byte longer. */
  lemma ShiftedSlice(pre: Bytes, body: Bytes, pre': Bytes, rest: Bytes, at: nat, n: nat)
    requires |pre| <= at && at + n <= |pre + body| && |pre'| == |pre| + 1
    ensures at + 1 + n <= |pre' + body + rest|
    ensures (pre' + body + rest)[at + 1..at + 1 + n] == (pre + body)[at..at + n]
  {
    var l, r := (pre' + body + rest)[at + 1..at + 1 + n], (pre + body)[at..at + n];
    assert forall j :: 0 <= j < n ==> l[j] == body[at + j - |pre|] == r[j];
  }

  /** The codec of the block store: what extractSerializedBlockInfo reads. */
  function CodecOf(txId: Bytes -> string, hash: (nat, Bytes, Bytes) -> Bytes): Codec
  {
    Codec(bytes => ReadOr(bytes).number,
          bytes => ReadOr(bytes).previousHash,
          bytes => var b := ReadOr(bytes); hash(b.number, b.previousHash, b.dataHash),
          bytes => TxsOf(txId, ReadOr(bytes)))
  }

  function ReadOr(bytes: Bytes): Content
  {
    var r := BlockAt(bytes);
    if r.Some? then r.value.0 else Content(0, [], [], [], Some([]))
  }

  ghost predicate Reads(codec: Codec, txId: Bytes -> string, hash: (nat, Bytes, Bytes) -> Bytes)
  {
    && (forall bytes :: codec.number(bytes) == ReadOr(bytes).number)
    && (forall bytes :: codec.previousHash(bytes) == ReadOr(bytes).previousHash)
    && (forall bytes :: codec.headerHash(bytes) ==
                        hash(ReadOr(bytes).number, ReadOr(bytes).previousHash, ReadOr(bytes).dataHash))
    && (forall bytes :: codec.txs(bytes) == TxsOf(txId, ReadOr(bytes)))
  }

  lemma CodecReads(txId: Bytes -> string, hash: (nat, Bytes, Bytes) -> Bytes) returns (codec: Codec)
    ensures Reads(codec, txId, hash)
  {
    hide ReadOr, TxsOf;
    codec := CodecOf(txId, hash);
  }

  /** On what SerializeBlock writes, reading gives what the block itself gives: addBlock and syncIndex
      record the same entries. */
  lemma CodecAgrees(codec: Codec, txId: Bytes -> string, hash: (nat, Bytes, Bytes) -> Bytes, b: Content)
    requires Reads(codec, txId, hash) && Sized(b) && b.metadata.Some?
    ensures var bytes := Serialized(b);
            && codec.number(bytes) == b.number && codec.previousHash(bytes) == b.previousHash
            && codec.headerHash(bytes) == hash(b.number, b.previousHash, b.dataHash)
            && codec.txs(bytes) == TxsOf(txId, b)
  {
    hide BlockAt, Serialized, TxsOf, Sized;
    RoundTrip(b, []);
    assert Serialized(b) + [] == Serialized(b);
    assert ReadOr(Serialized(b)) == b;
  }

  /** From the index entry of a block in the files to the envelope of one of its transactions. */
  lemma FetchTransaction(codec: Codec, txId: Bytes -> string, hash: (nat, Bytes, Bytes) -> Bytes, files: seq<Bytes>,
                         chunks: Chunks, tail: Bytes, n: nat, e: Entry, b: Content, i: nat)
    requires Reads(codec, txId, hash) && Sized(b) && b.metadata.Some? && i < |b.data|
    requires Holds(files, chunks, tail) && n < |Flat(chunks)| && Flat(chunks)[n] == Serialized(b)
    requires e == EntryOf(codec, chunks, n)
    ensures e.fileNum < |files| && i < |e.txs| && e.txs[i].txId == txId(b.data[i])
    ensures var at := e.offset + e.txs[i].offset;
            && at + e.txs[i].length <= |files[e.fileNum]|
            && Unwrapped(files[e.fileNum][at..at + e.txs[i].length]) == b.data[i]
  {
    hide Reads, Sized, Holds, Flat, Serialized, Record, TxsOf, Unwrapped, EncodeVarint, Locate, Shift, EntryOf, Next;
    SizedTx(b, i);
    CodecAgrees(codec, txId, hash, b);
    FetchFinds(codec, files, chunks, tail, n);
    EntryShifts(codec, chunks, n);
    TxsPlaced(txId, b, i);
    ShiftAt(TxsOf(txId, b), |EncodeVarint(|Serialized(b)|)|, i);
    UnwrapsRecord(b.data[i]);
  }

  /** There is such a codec: the one that reads blocks as extractSerializedBlockInfo does. */
  lemma FetchRead(txId: Bytes -> string, hash: (nat, Bytes, Bytes) -> Bytes, files: seq<Bytes>, chunks: Chunks, tail: Bytes,
                  n: nat, b: Content, i: nat) returns (codec: Codec, e: Entry)
    requires Sized(b) && b.metadata.Some? && i < |b.data|
    requires Holds(files, chunks, tail) && n < |Flat(chunks)| && Flat(chunks)[n] == Serialized(b)
    ensures Reads(codec, txId, hash) && e == EntryOf(codec, chunks, n)
    ensures e.fileNum < |files| && i < |e.txs| && e.txs[i].txId == txId(b.data[i])
    ensures var at := e.offset + e.txs[i].offset;
            && at + e.txs[i].length <= |files[e.fileNum]|
            && Unwrapped(files[e.fileNum][at..at + e.txs[i].length]) == b.data[i]
  {
    hide Reads, Sized, Holds, Flat, Serialized, Unwrapped, Locate, EntryOf;
    codec := CodecReads(txId, hash);
    e := EntryOf(codec, chunks, n);
    FetchTransaction(codec, txId, hash, files, chunks, tail, n, e, b, i);
  }

  lemma SizedTx(b: Content, i: nat)
    requires Sized(b) && i < |b.data|
    ensures |b.data[i]| < WORD
  {
    assert b.data[i] in b.data;
  }

  lemma EntryShifts(codec: Codec, chunks: Chunks, n: nat)
    requires n < |Flat(chunks)|
    ensures EntryOf(codec, chunks, n).txs == Shift(codec.txs(Flat(chunks)[n]), |EncodeVarint(|Flat(chunks)[n]|)|)
  {
    hide Flat, Locate, Shift, EncodeVarint;
  }
}
