/** Block files: length-prefixed records, the stream that reads them and the scan for the last
    complete block (common/ledger/blkstorage/block_stream.go, blockfile_mgr.go). */
module BlockFile {
  import opened Basics

  // ----- varints (Protocol Buffers Encoding, "Base 128 Varints") -----

  function EncodeVarint(x: nat): (s: Bytes)
    ensures |s| >= 1
  {
    if x < 128 then [x as byte] else [(128 + x % 128) as byte] + EncodeVarint(x / 128)
  }

  /** The value and the number of bytes it takes, or None when the bytes end inside a varint. */
  function DecodeVarint(buf: Bytes): (r: Option<(nat, nat)>)
    ensures r.Some? ==> 1 <= r.value.1 <= |buf|
  {
    if buf == [] then None
    else if buf[0] < 128 then Some((buf[0] as nat, 1))
    else
      match DecodeVarint(buf[1..])
      case None => None
      case Some((x, n)) => Some(((buf[0] as nat - 128) + 128 * x, n + 1))
  }

  lemma {:induction false} VarintRoundTrip(x: nat, rest: Bytes)
    ensures DecodeVarint(EncodeVarint(x) + rest) == Some((x, |EncodeVarint(x)|))
  {
    var s := EncodeVarint(x) + rest;
    if x >= 128 {
      VarintRoundTrip(x / 128, rest);
      assert s[1..] == EncodeVarint(x / 128) + rest;
    }
  }

  /** A cut varint does not decode. */
  lemma {:induction false} VarintCut(x: nat, k: nat)
    requires k < |EncodeVarint(x)|
    ensures DecodeVarint(EncodeVarint(x)[..k]) == None
  {
    var s := EncodeVarint(x)[..k];
    if k > 0 {
      VarintCut(x / 128, k - 1);
      assert s[1..] == EncodeVarint(x / 128)[..k - 1];
    }
  }

  function Pow128(n: nat): nat
  {
    if n == 0 then 1 else 128 * Pow128(n - 1)
  }

  lemma {:induction false} VarintSize(x: nat, n: nat)
    requires x < Pow128(n) && n > 0
    ensures |EncodeVarint(x)| <= n
  {
    if x >= 128 {
      VarintSize(x / 128, n - 1);
    }
  }

  const WORD := 0x1_0000_0000_0000_0000

  /** The sizes an int cannot hold begin here. */
  const HALF := 0x8000_0000_0000_0000

  /** The bytes proto.DecodeVarint looks at: no shift exceeds 63. */
  function Looked(buf: Bytes): (r: Bytes)
    ensures r <= buf
  {
    if |buf| <= 10 then buf else buf[..10]
  }

  function Term(scale: nat, x: nat): nat
  {
    scale * x
  }

  function AddWord(x: nat, y: nat): nat
  {
    (x + y % WORD) % WORD
  }

  /** proto.DecodeVarint on 64-bit words; a length of zero says that the varint does not end within
      the bytes or within ten of them. The bits added are above those there, so they are summed. */
  method DecodeVarintLoop(buf: Bytes) returns (x: nat, n: nat)
    ensures match DecodeVarint(Looked(buf))
            case None => n == 0
            case Some((v, used)) => x == v % WORD && n == used && (used <= 9 ==> x == v)
  {
    hide Term, AddWord, Looked;
    var look := Looked(buf);
    x, n := 0, 0;
    var scale: nat := 1;
    ghost var sum: nat := 0;
    Terms(1, 0, 0);
    while n < |look|
      invariant n <= |look| && x == sum % WORD
      invariant match DecodeVarint(look[n..])
                case None => DecodeVarint(look) == None
                case Some((v, used)) => DecodeVarint(look) == Some((sum + Term(scale, v), n + used))
    {
      var b := look[n];
      var low: nat := if b < 128 then b as nat else b as nat - 128;
      ghost var v := DecodeVarint(look[n + 1..]);
      assert look[n..][1..] == look[n + 1..];
      if v.Some? {
        Terms(scale, low, v.value.0);
      }
      WordSum(sum, Term(scale, low));
      x := AddWord(x, Term(scale, low));
      sum := sum + Term(scale, low);
      n := n + 1;
      if b < 128 {
        DecodedBound(look);
        return;
      }
      scale := scale * 128;
    }
    return 0, 0;
  }

  lemma Terms(scale: nat, low: nat, v: nat)
    ensures Term(scale, low + 128 * v) == Term(scale, low) + Term(scale * 128, v)
    ensures forall x :: Term(1, x) == x
  {
    assert scale * (low + 128 * v) == scale * low + scale * 128 * v;
  }

  lemma WordSum(a: nat, b: nat)
    ensures AddWord(a % WORD, b) == (a + b) % WORD
  {
  }

  lemma NineSevens()
    ensures Pow128(9) == HALF
  {
    assert Pow128(3) == 0x20_0000;
    assert Pow128(6) == 0x20_0000 * Pow128(3) by { assert Pow128(4) == 128 * Pow128(3); }
    assert Pow128(9) == 0x20_0000 * Pow128(6) by { assert Pow128(7) == 128 * Pow128(6); }
  }

  /** Nine bytes hold 63 bits. */
  lemma DecodedBound(buf: Bytes)
    ensures var r := DecodeVarint(buf);
            r.Some? && r.value.1 <= 9 ==> r.value.0 < WORD && r.value.0 % WORD == r.value.0
  {
    var r := DecodeVarint(buf);
    if r.Some? && r.value.1 <= 9 {
      DecodedSize(buf);
      Pow128Grows(r.value.1, 9);
      NineSevens();
    }
  }

  lemma {:induction false} DecodedSize(buf: Bytes)
    ensures var r := DecodeVarint(buf);
            r.Some? ==> r.value.0 < Pow128(r.value.1)
  {
    if buf != [] && buf[0] >= 128 {
      DecodedSize(buf[1..]);
    }
  }

  lemma {:induction false} Pow128Grows(m: nat, n: nat)
    requires m <= n
    ensures Pow128(m) <= Pow128(n)
  {
    if m < n {
      Pow128Grows(m, n - 1);
    }
  }

  // ----- records -----

  /** The largest serialized block the reader can frame: its length takes at most eight bytes. */
  const MAX_BLOCK := 0x100_0000_0000_0000

  predicate Fits(b: Bytes)
  {
    |b| < MAX_BLOCK
  }

  function Record(b: Bytes): Bytes
  {
    EncodeVarint(|b|) + b
  }

  lemma PrefixIsShort(b: Bytes)
    requires Fits(b)
    ensures |EncodeVarint(|b|)| <= 8
  {
    assert Pow128(8) == MAX_BLOCK by {
      assert Pow128(2) == 128 * 128;
      assert Pow128(4) == 128 * (128 * Pow128(2));
      assert Pow128(6) == 128 * (128 * Pow128(4));
      assert Pow128(8) == 128 * (128 * Pow128(6));
    }
    VarintSize(|b|, 8);
  }

  predicate AllFit(bs: seq<Bytes>)
  {
    forall i :: 0 <= i < |bs| ==> Fits(bs[i])
  }

  /** A file holding these blocks, one record after the other. */
  function FileOf(bs: seq<Bytes>): Bytes
  {
    if bs == [] then [] else FileOf(bs[..|bs| - 1]) + Record(bs[|bs| - 1])
  }

  /** The offset of the record of block j, or of the end of the file for j == |bs|. */
  function Offset(bs: seq<Bytes>, j: nat): nat
    requires j <= |bs|
  {
    |FileOf(bs[..j])|
  }

  /** What a crash can leave of a record. */
  ghost predicate CutRecord(tail: Bytes)
  {
    exists b :: Fits(b) && tail < Record(b)
  }

  lemma {:induction false} FileSplit(bs: seq<Bytes>, j: nat)
    requires j <= |bs|
    ensures FileOf(bs) == FileOf(bs[..j]) + FileOf(bs[j..])
    ensures FileOf(bs[..j]) <= FileOf(bs)
    decreases |bs|
  {
    hide Record;
    if j == |bs| {
      assert bs[..j] == bs && bs[j..] == [];
    } else {
      var n := |bs| - 1;
      FileSplit(bs[..n], j);
      assert bs[..n][..j] == bs[..j] && bs[..n][j..] == bs[j..n];
      assert bs == bs[..n] + [bs[n]] && bs[j..] == bs[j..n] + [bs[n]];
      FileSnoc(bs[..n], bs[n]);
      FileSnoc(bs[j..n], bs[n]);
    }
  }

  lemma FileSnoc(bs: seq<Bytes>, b: Bytes)
    ensures FileOf(bs + [b]) == FileOf(bs) + Record(b)
  {
    assert (bs + [b])[..|bs|] == bs;
  }

  // ----- reading -----

  /** What nextBlockBytesAndPlacementInfo returns: the end, ErrUnexpectedEndOfBlockfile, a failure
      (an impossible offset or the panic on an undecodable length), or the block. */
  datatype Read = End | Partial | Broken | Block(bytes: Bytes, bytesOffset: nat, next: nat)

  function Next(file: Bytes, offset: nat): Read
  {
    if offset == |file| then End
    else if offset > |file| then Broken
    else
      var remaining := |file| - offset;
      var peek := if remaining < 8 then remaining else 8;
      match DecodeVarint(file[offset..offset + peek])
      case None => if remaining < 8 then Partial else Broken
      case Some((length, n)) =>
        if n + length > remaining then Partial
        else Block(file[offset + n..offset + n + length], offset + n, offset + n + length)
  }

  /** A record that is there is read. */
  lemma NextReads(before: Bytes, b: Bytes, after: Bytes)
    requires Fits(b)
    ensures var n := |EncodeVarint(|b|)|;
            Next(before + Record(b) + after, |before|) == Block(b, |before| + n, |before| + n + |b|)
  {
    hide EncodeVarint, DecodeVarint;
    var file := before + Record(b) + after;
    var prefix := EncodeVarint(|b|);
    var remaining := |file| - |before|;
    var peek := if remaining < 8 then remaining else 8;
    PrefixIsShort(b);
    assert file == before + (prefix + (b + after));
    Window(before, prefix, b + after, peek);
    VarintRoundTrip(|b|, (b + after)[..peek - |prefix|]);
    assert file[|before| + |prefix|..|before| + |prefix| + |b|] == b;
  }

  lemma Window(before: Bytes, prefix: Bytes, rest: Bytes, peek: nat)
    requires |prefix| <= peek <= |prefix + rest|
    ensures (before + (prefix + rest))[|before|..|before| + peek] == prefix + rest[..peek - |prefix|]
  {
  }

  /** What is left of a record after a crash is recognised as partial, wherever it was cut. */
  lemma NextCut(before: Bytes, tail: Bytes)
    requires CutRecord(tail) && tail != []
    ensures Next(before + tail, |before|) == Partial
  {
    var b :| Fits(b) && tail < Record(b);
    var file := before + tail;
    var prefix := EncodeVarint(|b|);
    PrefixIsShort(b);
    var peek := if |tail| < 8 then |tail| else 8;
    assert file[|before|..|before| + peek] == tail[..peek];
    if |tail| < |prefix| {
      assert tail == prefix[..|tail|];
      assert tail[..peek] == tail;
      VarintCut(|b|, |tail|);
    } else {
      assert tail[..peek] == prefix + tail[..peek][|prefix|..];
      VarintRoundTrip(|b|, tail[..peek][|prefix|..]);
    }
  }

  /** The scan of a file from an offset: the end of the last complete record reached, how many
      records that took and the bytes of the last one. */
  datatype Scanned = Scanned(last: Option<Bytes>, end: nat, count: nat, ok: bool)

  function ScanFrom(file: Bytes, offset: nat, last: Option<Bytes>, count: nat): Scanned
    decreases |file| - offset
  {
    match Next(file, offset)
    case Block(b, _, next) => ScanFrom(file, next, Some(b), count + 1)
    case Broken => Scanned(last, offset, count, false)
    case _ => Scanned(last, offset, count, true)
  }

  function Scan(file: Bytes, offset: nat): Scanned
  {
    ScanFrom(file, offset, None, 0)
  }

  /** From the start of any record of a file whose tail a crash may have cut, the scan stops at the
      end of the last complete block, having counted every complete block on the way. */
  lemma {:induction false} ScanFinds(bs: seq<Bytes>, tail: Bytes, j: nat, last: Option<Bytes>, count: nat)
    requires AllFit(bs) && j <= |bs| && (tail == [] || CutRecord(tail))
    ensures ScanFrom(FileOf(bs) + tail, Offset(bs, j), last, count) ==
            Scanned(if j < |bs| then Some(bs[|bs| - 1]) else last, |FileOf(bs)|, count + |bs| - j, true)
    decreases |bs| - j
  {
    var file := FileOf(bs) + tail;
    if j == |bs| {
      assert bs[..j] == bs;
      if tail != [] {
        NextCut(FileOf(bs), tail);
      }
    } else {
      NextAt(bs, tail, j);
      ScanFinds(bs, tail, j + 1, Some(bs[j]), count + 1);
    }
  }

  /** Reading at the offset of block j gives block j. */
  lemma NextAt(bs: seq<Bytes>, tail: Bytes, j: nat)
    requires AllFit(bs) && j < |bs|
    ensures Next(FileOf(bs) + tail, Offset(bs, j)) ==
            Block(bs[j], Offset(bs, j) + |EncodeVarint(|bs[j]|)|, Offset(bs, j + 1))
  {
    hide Next, EncodeVarint, FileOf, AllFit;
    assert Fits(bs[j]) by { FitsOne(bs, j); }
    FileSplit(bs, j + 1);
    FileSnoc(bs[..j], bs[j]);
    assert bs[..j] + [bs[j]] == bs[..j + 1];
    NextReads(FileOf(bs[..j]), bs[j], FileOf(bs[j + 1..]) + tail);
    ThreeParts(FileOf(bs[..j + 1]), FileOf(bs[j + 1..]), tail);
  }

  lemma FitsOne(bs: seq<Bytes>, j: nat)
    requires AllFit(bs) && j < |bs|
    ensures Fits(bs[j])
  {
  }

  lemma ThreeParts(a: Bytes, b: Bytes, c: Bytes)
    ensures a + b + c == a + (b + c)
  {
  }

  /** blockfileStream: one open file and how far it has been read. */
  class BlockfileStream {
    const file: Bytes
    var currentOffset: nat

    constructor (file: Bytes, startOffset: nat)
      ensures this.file == file && currentOffset == startOffset
    {
      this.file := file;
      currentOffset := startOffset;
    }

    /** Returns the next complete block and moves past it, or moves nothing. */
    method NextBlock() returns (r: Read)
      modifies this
      ensures r == Next(file, old(currentOffset))
      ensures currentOffset == if r.Block? then r.next else old(currentOffset)
    {
      if currentOffset == |file| {
        return End;
      }
      if currentOffset > |file| {
        return Broken;
      }
      var moreContentAvailable := true;
      var remaining := |file| - currentOffset;
      var peek := 8;
      if remaining < peek {
        peek := remaining;
        moreContentAvailable := false;
      }
      var length, n := DecodeVarintLoop(file[currentOffset..currentOffset + peek]);
      if n == 0 {
        if !moreContentAvailable {
          return Partial;
        }
        return Broken;
      }
      if n + length > remaining {
        return Partial;
      }
      var start := currentOffset + n;
      currentOffset := start + length;
      return Block(file[start..start + length], start, start + length);
    }
  }

  /** scanForLastCompleteBlock: an unexpected end is no error, any other failure is. */
  method ScanForLastCompleteBlock(file: Bytes, startingOffset: nat) returns (s: Scanned)
    ensures s == Scan(file, startingOffset)
  {
    var stream := new BlockfileStream(file, startingOffset);
    var numBlocks, lastBlockBytes := 0, None;
    while true
      invariant stream.file == file
      invariant Scan(file, startingOffset) == ScanFrom(file, stream.currentOffset, lastBlockBytes, numBlocks)
      decreases |file| - stream.currentOffset
    {
      var r := stream.NextBlock();
      if r.Broken? {
        return Scanned(lastBlockBytes, stream.currentOffset, numBlocks, false);
      }
      if !r.Block? {
        return Scanned(lastBlockBytes, stream.currentOffset, numBlocks, true);
      }
      lastBlockBytes := Some(r.bytes);
      numBlocks := numBlocks + 1;
    }
  }
}
