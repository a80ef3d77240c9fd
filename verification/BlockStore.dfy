/** The append-only block store and its recovery (blockfile_mgr.go): records go into rolling files,
    a summary is saved after each block, the tail is scanned and the index completed on restart. */
module BlockStore {
  import opened Basics
  import opened BlockFile

  /** blockfilesInfo: the summary of the block files. */
  datatype Info = Info(latestFileNumber: nat, latestFileSize: nat, noBlockFiles: bool, lastPersistedBlock: nat)

  /** Where a transaction sits, relative to the start of its serialized block or of its record. */
  datatype TxOffset = TxOffset(txId: string, offset: nat, length: nat)

  /** What can be read off a serialized block. */
  datatype Codec = Codec(number: Bytes -> nat, previousHash: Bytes -> Bytes, headerHash: Bytes -> Bytes,
                         txs: Bytes -> seq<TxOffset>)

  /** What the index holds for a block. */
  datatype Entry = Entry(fileNum: nat, offset: nat, txs: seq<TxOffset>)

  datatype Index = Index(entries: map<nat, Entry>, savePoint: Option<nat>)

  /** The disk. The file `open` is durable up to `synced` bytes and the other files are durable.
      `saved` starts with the last summary saved with sync; those saved since without sync follow. */
  datatype Disk = Disk(files: seq<Bytes>, open: nat, synced: nat, saved: seq<Info>, index: Index)

  // ----- which blocks are in which file -----

  type Chunks = seq<seq<Bytes>>

  function Flat(chunks: Chunks): seq<Bytes>
  {
    if chunks == [] then [] else Flat(chunks[..|chunks| - 1]) + chunks[|chunks| - 1]
  }

  function Earlier(chunks: Chunks): Chunks
    requires chunks != []
  {
    chunks[..|chunks| - 1]
  }

  function Current(chunks: Chunks): seq<Bytes>
    requires chunks != []
  {
    chunks[|chunks| - 1]
  }

  function WithBlock(chunks: Chunks, b: Bytes): Chunks
    requires chunks != []
  {
    Earlier(chunks) + [Current(chunks) + [b]]
  }

  /** The first file holds a block before a second one is started. */
  predicate WellFilled(chunks: Chunks)
  {
    && chunks != []
    && (forall i :: 0 <= i < |chunks| ==> AllFit(chunks[i]))
    && (|chunks| > 1 ==> chunks[0] != [])
  }

  lemma {:induction false} FlatNonempty(chunks: Chunks)
    requires chunks != [] && chunks[0] != []
    ensures Flat(chunks) != []
  {
    if |chunks| > 1 {
      FlatNonempty(Earlier(chunks));
    }
  }

  lemma FlatWithBlock(chunks: Chunks, b: Bytes)
    requires chunks != []
    ensures Flat(WithBlock(chunks, b)) == Flat(chunks) + [b]
  {
    assert Earlier(WithBlock(chunks, b)) == Earlier(chunks);
    assert Flat(Earlier(chunks)) + (Current(chunks) + [b]) == Flat(chunks) + [b];
  }

  lemma FlatNewFile(chunks: Chunks)
    ensures Flat(chunks + [[]]) == Flat(chunks)
  {
    assert (chunks + [[]])[..|chunks|] == chunks;
  }

  /** The summary after the first j blocks of the current file. */
  function InfoAt(chunks: Chunks, j: nat): Info
    requires chunks != [] && j <= |Current(chunks)|
  {
    var total := |Flat(Earlier(chunks))| + j;
    Info(|chunks| - 1, Offset(Current(chunks), j), total == 0, if total == 0 then 0 else total - 1)
  }

  function InfoOf(chunks: Chunks): Info
    requires chunks != []
  {
    InfoAt(chunks, |Current(chunks)|)
  }

  // ----- the disk at every moment -----

  /** The files hold these blocks, the current one followed by `tail`; a next file, made but not
      yet used, may be there. */
  ghost predicate Holds(files: seq<Bytes>, chunks: Chunks, tail: Bytes)
  {
    && WellFilled(chunks)
    && |chunks| <= |files| <= |chunks| + 1
    && (forall i :: 0 <= i < |chunks| - 1 ==> files[i] == FileOf(chunks[i]))
    && files[|chunks| - 1] == FileOf(Current(chunks)) + tail
    && (|files| == |chunks| + 1 ==> files[|chunks|] == [])
  }

  /** Some of a record, possibly all of it. */
  ghost predicate PartOfRecord(tail: Bytes)
  {
    tail == [] || exists b :: Fits(b) && tail <= Record(b)
  }

  ghost predicate SavedAt(s: Info, chunks: Chunks)
    requires chunks != []
  {
    exists j :: 0 <= j <= |Current(chunks)| && s == InfoAt(chunks, j)
  }

  ghost predicate SavedAll(d: Disk, chunks: Chunks)
  {
    chunks != [] && forall i :: 0 <= i < |d.saved| ==> SavedAt(d.saved[i], chunks)
  }

  /** What holds of the disk between any two of its writes: `chunks` are the blocks that are
      complete and durable, `tail` what has been written of the next record. */
  ghost predicate Consistent(d: Disk, chunks: Chunks, tail: Bytes)
  {
    && Holds(d.files, chunks, tail)
    && PartOfRecord(tail)
    && d.open == |chunks| - 1
    && d.synced == |FileOf(Current(chunks))|
    && d.saved != []
    && SavedAll(d, chunks)
  }

  // ----- crashes -----

  /** The unsynced end of the open file may be lost from any point on, an empty file may not have
      reached the directory, and any of the summaries saved since the last sync may be the one found.
      While no file is open the files stay as they are. */
  ghost predicate CrashImage(d: Disk, d': Disk)
  {
    && (if d.open < |d.files| then
          && d.synced <= |d.files[d.open]|
          && exists k, n :: d.synced <= k <= |d.files[d.open]| && CutFiles(d, k, n, d'.files)
        else d'.files == d.files)
    && |d'.saved| == 1 && d'.saved[0] in d.saved
    && d'.index == d.index
  }

  ghost predicate CutFiles(d: Disk, k: nat, n: nat, files: seq<Bytes>)
    requires d.open < |d.files| && k <= |d.files[d.open]|
  {
    var cut := d.files[d.open := d.files[d.open][..k]];
    && n <= |cut|
    && (d.open < n || (d.open == n && k == 0))
    && (forall i :: n <= i < |cut| ==> cut[i] == [])
    && files == cut[..n]
  }

  // ----- restart -----

  /** syncBlockfilesInfoFromFS; None stands for its panic. */
  function SyncInfo(files: seq<Bytes>, info: Info): Option<Info>
  {
    if info.latestFileNumber >= |files| || |files[info.latestFileNumber]| == info.latestFileSize then Some(info)
    else
      var s := Scan(files[info.latestFileNumber], info.latestFileSize);
      if !s.ok then None
      else if s.count == 0 then Some(info.(latestFileSize := s.end))
      else
        Some(Info(info.latestFileNumber, s.end, false,
                  if info.noBlockFiles then s.count - 1 else info.lastPersistedBlock + s.count))
  }

  /** The complete blocks of a file, from an offset on. */
  function Parse(file: Bytes, offset: nat): seq<Bytes>
    decreases |file| - offset
  {
    match Next(file, offset)
    case Block(b, _, next) => [b] + Parse(file, next)
    case _ => []
  }

  /** All complete blocks on disk, in order. */
  function AllBlocks(files: seq<Bytes>): seq<Bytes>
  {
    if files == [] then [] else AllBlocks(files[..|files| - 1]) + Parse(files[|files| - 1], 0)
  }

  /** The end of the last complete record of a file that may be missing. */
  function EndOfLast(files: seq<Bytes>, n: nat): nat
  {
    if n < |files| then Scan(files[n], 0).end else 0
  }

  /** The summary found on restart, brought up to date, tells the number and the end offset of the
      last completely written block; all that was committed is there and at most one block more. */
  ghost predicate RestartsRight(d: Disk, committed: seq<Bytes>)
  {
    && d.saved != []
    && var all := AllBlocks(d.files);
    var info := SyncInfo(d.files, d.saved[0]);
    && committed <= all && |all| <= |committed| + 1
    && info.Some?
    && (info.value.noBlockFiles <==> all == [])
    && info.value.lastPersistedBlock == (if all == [] then 0 else |all| - 1)
    && info.value.latestFileSize == EndOfLast(d.files, info.value.latestFileNumber)
    && (forall i :: info.value.latestFileNumber < i < |d.files| ==> d.files[i] == [])
  }

  // ----- proof that a consistent disk is crash safe -----

  lemma {:induction false} ParseFinds(bs: seq<Bytes>, tail: Bytes, j: nat)
    requires AllFit(bs) && j <= |bs| && (tail == [] || CutRecord(tail))
    ensures Parse(FileOf(bs) + tail, Offset(bs, j)) == bs[j..]
    decreases |bs| - j
  {
    hide FileOf, Record;
    if j == |bs| {
      assert bs[..j] == bs;
      if tail != [] {
        NextCut(FileOf(bs), tail);
      }
    } else {
      NextAt(bs, tail, j);
      ParseFinds(bs, tail, j + 1);
    }
  }

  lemma ParseFile(bs: seq<Bytes>, tail: Bytes)
    requires AllFit(bs) && (tail == [] || CutRecord(tail))
    ensures Parse(FileOf(bs) + tail, 0) == bs
  {
    assert bs[..0] == [] && bs[0..] == bs;
    ParseFinds(bs, tail, 0);
  }

  lemma {:induction false} AllBlocksComplete(files: seq<Bytes>, chunks: Chunks)
    requires |files| == |chunks|
    requires forall i :: 0 <= i < |chunks| ==> AllFit(chunks[i]) && files[i] == FileOf(chunks[i])
    ensures AllBlocks(files) == Flat(chunks)
  {
    hide FileOf, AllFit;
    if files != [] {
      AllBlocksComplete(files[..|files| - 1], Earlier(chunks));
      ParseFile(Current(chunks), []);
      assert FileOf(Current(chunks)) + [] == FileOf(Current(chunks));
    }
  }

  /** The files after a crash: the blocks of chunks, a cut record, perhaps an empty file missing
      or left over. */
  ghost predicate Crashed(files: seq<Bytes>, chunks: Chunks, tail: Bytes)
  {
    && (tail == [] || CutRecord(tail))
    && (|| Holds(files, chunks, tail)
        || (WellFilled(chunks) && Current(chunks) == [] && tail == []
            && |files| == |chunks| - 1 && forall i :: 0 <= i < |files| ==> files[i] == FileOf(chunks[i])))
  }

  lemma AllBlocksCrashed(files: seq<Bytes>, chunks: Chunks, tail: Bytes)
    requires Crashed(files, chunks, tail)
    ensures AllBlocks(files) == Flat(chunks)
  {
    hide FileOf, AllFit, CutRecord;
    var c := |chunks| - 1;
    if |files| == c {
      AllBlocksComplete(files, Earlier(chunks));
    } else {
      AllBlocksComplete(files[..c], Earlier(chunks));
      ParseFile(Current(chunks), tail);
      assert files[..c + 1][..c] == files[..c];
      assert AllBlocks(files[..c + 1]) == Flat(chunks);
      if |files| == c + 2 {
        assert files[..c + 2] == files;
        assert Parse([], 0) == [];
      } else {
        assert files[..c + 1] == files;
      }
    }
  }

  /** Whatever summary was found, the scan brings it to the last complete block. */
  lemma SyncInfoExact(files: seq<Bytes>, chunks: Chunks, tail: Bytes, j: nat)
    requires Crashed(files, chunks, tail) && j <= |Current(chunks)|
    ensures SyncInfo(files, InfoAt(chunks, j)) == Some(InfoOf(chunks))
  {
    hide FileOf, AllFit, CutRecord, Flat, Scan;
    var info := InfoAt(chunks, j);
    var c := |chunks| - 1;
    var bs := Current(chunks);
    assert bs[..|bs|] == bs;
    if |files| == c {
      assert j == 0;
    } else if |files[c]| == info.latestFileSize {
      FullOffset(bs, j, tail);
    } else {
      ScannedInfo(files[c], chunks, tail, j);
    }
  }

  /** What the scan counts, added to a summary after j blocks. */
  lemma ScannedInfo(file: Bytes, chunks: Chunks, tail: Bytes, j: nat)
    requires WellFilled(chunks) && (tail == [] || CutRecord(tail)) && j <= |Current(chunks)|
    requires file == FileOf(Current(chunks)) + tail
    ensures var s := Scan(file, InfoAt(chunks, j).latestFileSize);
            && s.ok && s.count == |Current(chunks)| - j && s.end == InfoOf(chunks).latestFileSize
            && (|chunks| > 1 ==> Flat(Earlier(chunks)) != [])
  {
    hide FileOf, AllFit, CutRecord, Flat;
    var bs := Current(chunks);
    assert bs[..|bs|] == bs;
    ScanFinds(bs, tail, j, None, 0);
    if |chunks| > 1 {
      FlatNonempty(Earlier(chunks));
    }
  }

  /** Only the end of a file is at the offset of its end. */
  lemma FullOffset(bs: seq<Bytes>, j: nat, tail: Bytes)
    requires j <= |bs| && |FileOf(bs) + tail| == Offset(bs, j)
    ensures j == |bs| && tail == []
  {
    FileSplit(bs, j);
    assert |FileOf(bs[j..])| == 0;
    NoBlocks(bs[j..]);
  }

  lemma EndOfLastCrashed(files: seq<Bytes>, chunks: Chunks, tail: Bytes)
    requires Crashed(files, chunks, tail)
    ensures EndOfLast(files, |chunks| - 1) == |FileOf(Current(chunks))|
  {
    hide AllFit, CutRecord;
    var bs := Current(chunks);
    if |files| >= |chunks| {
      assert bs[..0] == [];
      ScanFinds(bs, tail, 0, None, 0);
    }
  }

  /** A crash keeps the complete blocks, and the one being written if all of it got there. */
  lemma CrashLeaves(d: Disk, chunks: Chunks, tail: Bytes, d': Disk) returns (chunks': Chunks, tail': Bytes)
    requires Consistent(d, chunks, tail) && CrashImage(d, d')
    ensures Crashed(d'.files, chunks', tail')
    ensures chunks' == chunks || (exists b :: chunks' == WithBlock(chunks, b) && tail == Record(b) && Fits(b))
    ensures |chunks'| == |chunks| && Earlier(chunks') == Earlier(chunks) && Current(chunks) <= Current(chunks')
  {
    hide FileOf, AllFit, Record;
    var k, n :| d.synced <= k <= |d.files[d.open]| && CutFiles(d, k, n, d'.files);
    var c := |chunks| - 1;
    var base := FileOf(Current(chunks));
    var cut := d.files[c := d.files[c][..k]];
    tail' := tail[..k - |base|];
    assert d.files[c][..k] == base + tail';
    chunks' := chunks;
    if tail' != [] {
      var b :| Fits(b) && tail <= Record(b);
      if tail' == Record(b) {
        assert tail == Record(b);
        chunks' := WithBlock(chunks, b);
        tail' := [];
        FileSnoc(Current(chunks), b);
        WellFilledWithBlock(chunks, b);
        assert d.files[c][..k] == FileOf(Current(chunks')) + [];
      } else {
        assert tail' < Record(b);
      }
    }
    assert |d'.files| == n;
    if n == c {
      assert |base| == 0 && tail == tail[..0] + tail;
      NoBlocks(Current(chunks));
    }
  }

  lemma NoBlocks(bs: seq<Bytes>)
    requires |FileOf(bs)| == 0
    ensures bs == []
  {
  }

  lemma WellFilledWithBlock(chunks: Chunks, b: Bytes)
    requires WellFilled(chunks) && Fits(b)
    ensures WellFilled(WithBlock(chunks, b))
  {
  }

  lemma ImageHasSummary(d: Disk, d': Disk)
    requires CrashImage(d, d')
    ensures |d'.saved| == 1 && d'.saved[0] in d.saved && d'.index == d.index
  {
  }

  lemma ConsistentSaved(d: Disk, chunks: Chunks, tail: Bytes)
    requires Consistent(d, chunks, tail)
    ensures SavedAll(d, chunks)
  {
  }

  lemma LaterFilesEmpty(files: seq<Bytes>, chunks: Chunks, tail: Bytes)
    requires Crashed(files, chunks, tail)
    ensures forall i :: |chunks| - 1 < i < |files| ==> files[i] == []
    ensures |chunks| - 1 <= |files|
  {
    hide FileOf, AllFit;
  }

  lemma RestartOfImage(d: Disk, chunks: Chunks, tail: Bytes, d': Disk, chunks': Chunks, tail': Bytes, committed: seq<Bytes>)
    requires SavedAll(d, chunks) && |d'.saved| == 1 && d'.saved[0] in d.saved
    requires Crashed(d'.files, chunks', tail')
    requires chunks' == chunks || (exists b :: chunks' == WithBlock(chunks, b) && tail == Record(b) && Fits(b))
    requires |chunks'| == |chunks| && Earlier(chunks') == Earlier(chunks) && Current(chunks) <= Current(chunks')
    requires committed <= Flat(chunks)
    requires |Flat(chunks)| + (if tail == [] then 0 else 1) <= |committed| + 1
    ensures RestartsRight(d', committed)
  {
    hide FileOf, AllFit, Holds, Crashed, SyncInfo, AllBlocks, EncodeVarint, WithBlock;
    if chunks' != chunks {
      var b :| chunks' == WithBlock(chunks, b) && tail == Record(b) && Fits(b);
      FlatWithBlock(chunks, b);
    }
    var i :| 0 <= i < |d.saved| && d'.saved[0] == d.saved[i];
    assert SavedAt(d.saved[i], chunks);
    var j :| 0 <= j <= |Current(chunks)| && d.saved[i] == InfoAt(chunks, j);
    SameInfo(chunks, chunks', j);
    SyncInfoExact(d'.files, chunks', tail', j);
    AllBlocksCrashed(d'.files, chunks', tail');
    EndOfLastCrashed(d'.files, chunks', tail');
    LaterFilesEmpty(d'.files, chunks', tail');
    var bs := Current(chunks');
    assert bs[..|bs|] == bs;
  }

  /** A summary does not depend on blocks written after it. */
  lemma SameInfo(chunks: Chunks, chunks': Chunks, j: nat)
    requires chunks != [] && chunks' != [] && |chunks'| == |chunks|
    requires Earlier(chunks') == Earlier(chunks) && Current(chunks) <= Current(chunks') && j <= |Current(chunks)|
    ensures InfoAt(chunks', j) == InfoAt(chunks, j)
  {
    assert Current(chunks')[..j] == Current(chunks)[..j];
  }

  // ----- the index -----

  /** The file and the position in it of block n. */
  function Locate(chunks: Chunks, n: nat): (nat, nat)
    requires n < |Flat(chunks)|
    ensures var (f, j) := Locate(chunks, n);
            && f < |chunks| && j < |chunks[f]| && chunks[f][j] == Flat(chunks)[n]
            && n == |Flat(chunks[..f])| + j
  {
    var before := Flat(chunks[..|chunks| - 1]);
    if n < |before| then
      var (f, j) := Locate(chunks[..|chunks| - 1], n);
      assert chunks[..|chunks| - 1][..f] == chunks[..f];
      (f, j)
    else (|chunks| - 1, n - |before|)
  }

  function Shift(txs: seq<TxOffset>, n: nat): seq<TxOffset>
  {
    seq(|txs|, i requires 0 <= i < |txs| => txs[i].(offset := txs[i].offset + n))
  }

  /** The index entry of a block whose record starts at the given place. */
  function EntryFor(codec: Codec, fileNum: nat, offset: nat, b: Bytes): Entry
  {
    Entry(fileNum, offset, Shift(codec.txs(b), |EncodeVarint(|b|)|))
  }

  function EntryOf(codec: Codec, chunks: Chunks, n: nat): Entry
    requires n < |Flat(chunks)|
  {
    var (f, j) := Locate(chunks, n);
    EntryFor(codec, f, Offset(chunks[f], j), chunks[f][j])
  }

  /** The index of the first k blocks. */
  ghost predicate Indexed(codec: Codec, index: Index, chunks: Chunks, k: nat)
  {
    && k <= |Flat(chunks)|
    && index.savePoint == (if k == 0 then None else Some(k - 1))
    && (forall n :: n in index.entries <==> 0 <= n < k)
    && (forall n :: 0 <= n < k ==> index.entries[n] == EntryOf(codec, chunks, n))
  }

  ghost predicate Numbered(codec: Codec, bs: seq<Bytes>)
  {
    forall n :: 0 <= n < |bs| ==> codec.number(bs[n]) == n
  }

  lemma LocateAt(chunks: Chunks, f: nat, j: nat)
    requires f < |chunks| && j < |chunks[f]|
    ensures |Flat(chunks[..f])| + j < |Flat(chunks)|
    ensures Locate(chunks, |Flat(chunks[..f])| + j) == (f, j)
    decreases |chunks|
  {
    hide Flat, Locate;
    var c := |chunks| - 1;
    LocateStep(chunks, |Flat(chunks[..f])| + j);
    if f < c {
      LocateAt(chunks[..c], f, j);
      assert chunks[..c][..f] == chunks[..f];
    }
  }

  lemma LocateStep(chunks: Chunks, n: nat)
    requires chunks != []
    ensures var before := Flat(chunks[..|chunks| - 1]);
            && |Flat(chunks)| == |before| + |chunks[|chunks| - 1]|
            && (n < |Flat(chunks)| ==>
                  Locate(chunks, n) == if n < |before| then Locate(chunks[..|chunks| - 1], n) else (|chunks| - 1, n - |before|))
  {
  }

  /** Where earlier blocks are does not change when a block or a file is added. */
  lemma LocateStable(chunks: Chunks, chunks': Chunks, n: nat)
    requires n < |Flat(chunks)| && chunks != []
    requires (exists b :: chunks' == WithBlock(chunks, b)) || chunks' == chunks + [[]]
    ensures n < |Flat(chunks')| && Locate(chunks', n) == Locate(chunks, n)
    ensures var (f, j) := Locate(chunks, n); chunks'[f][..j + 1] == chunks[f][..j + 1]
  {
    if chunks' == chunks + [[]] {
      FlatNewFile(chunks);
      assert chunks'[..|chunks|] == chunks;
    } else {
      var b :| chunks' == WithBlock(chunks, b);
      FlatWithBlock(chunks, b);
      assert Earlier(chunks') == Earlier(chunks);
    }
  }

  lemma IndexedStable(codec: Codec, index: Index, chunks: Chunks, chunks': Chunks, k: nat)
    requires Indexed(codec, index, chunks, k) && chunks != []
    requires (exists b :: chunks' == WithBlock(chunks, b)) || chunks' == chunks + [[]]
    ensures Indexed(codec, index, chunks', k)
  {
    hide WithBlock, FileOf, Flat, EncodeVarint;
    forall n | 0 <= n < k
      ensures n < |Flat(chunks')| && index.entries[n] == EntryOf(codec, chunks', n)
    {
      LocateStable(chunks, chunks', n);
      var (f, j) := Locate(chunks, n);
      assert chunks'[f][..j + 1][..j] == chunks'[f][..j] && chunks[f][..j + 1][..j] == chunks[f][..j];
      assert chunks'[f][..j + 1][j] == chunks[f][..j + 1][j];
      assert index.entries[n] == EntryOf(codec, chunks, n);
    }
    if k > 0 {
      LocateStable(chunks, chunks', k - 1);
    }
  }

  /** Fetching a block by its index entry gives that block, and its transactions are where the
      entry says. */
  lemma FetchFinds(codec: Codec, files: seq<Bytes>, chunks: Chunks, tail: Bytes, n: nat)
    requires Holds(files, chunks, tail) && n < |Flat(chunks)|
    ensures var e := EntryOf(codec, chunks, n);
            && e.fileNum < |files|
            && Next(files[e.fileNum], e.offset).Block?
            && Next(files[e.fileNum], e.offset).bytes == Flat(chunks)[n]
    ensures var e := EntryOf(codec, chunks, n);
            var txs := codec.txs(Flat(chunks)[n]);
            forall i :: 0 <= i < |txs| && txs[i].offset + txs[i].length <= |Flat(chunks)[n]| ==>
              var at := e.offset + e.txs[i].offset;
              && at + txs[i].length <= |files[e.fileNum]|
              && files[e.fileNum][at..at + txs[i].length] == Flat(chunks)[n][txs[i].offset..txs[i].offset + txs[i].length]
  {
    hide FileOf, EncodeVarint, Flat, Next, Locate, AllFit, Shift, Holds;
    var (f, j) := Locate(chunks, n);
    var rest := if f == |chunks| - 1 then tail else [];
    FileAt(files, chunks, tail, f);
    NextAt(chunks[f], rest, j);
    TxsFound(chunks[f], rest, j, codec.txs(chunks[f][j]));
  }

  lemma FileAt(files: seq<Bytes>, chunks: Chunks, tail: Bytes, f: nat)
    requires Holds(files, chunks, tail) && f < |chunks|
    ensures f < |files| && AllFit(chunks[f])
    ensures files[f] == FileOf(chunks[f]) + if f == |chunks| - 1 then tail else []
  {
    hide FileOf, AllFit;
    assert FileOf(chunks[f]) + [] == FileOf(chunks[f]);
  }

  /** The shifted offsets of the transactions of a block lead to them in the file. */
  lemma TxsFound(bs: seq<Bytes>, tail: Bytes, j: nat, txs: seq<TxOffset>)
    requires AllFit(bs) && j < |bs|
    ensures var shifted := Shift(txs, |EncodeVarint(|bs[j]|)|);
            && |shifted| == |txs|
            && forall i :: 0 <= i < |txs| && txs[i].offset + txs[i].length <= |bs[j]| ==>
                 var at := Offset(bs, j) + shifted[i].offset;
                 && at + txs[i].length <= |FileOf(bs) + tail|
                 && (FileOf(bs) + tail)[at..at + txs[i].length] == bs[j][txs[i].offset..txs[i].offset + txs[i].length]
  {
    hide FileOf, EncodeVarint, AllFit, Shift;
    var n := |EncodeVarint(|bs[j]|)|;
    BlockBytesAt(bs, tail, j);
    ShiftSize(txs, n);
    forall i | 0 <= i < |txs| && txs[i].offset + txs[i].length <= |bs[j]|
      ensures var at := Offset(bs, j) + Shift(txs, n)[i].offset;
              && at + txs[i].length <= |FileOf(bs) + tail|
              && (FileOf(bs) + tail)[at..at + txs[i].length] == bs[j][txs[i].offset..txs[i].offset + txs[i].length]
    {
      ShiftAt(txs, n, i);
      SliceOfSlice(FileOf(bs) + tail, Offset(bs, j) + n, |bs[j]|, txs[i].offset, txs[i].length);
    }
  }

  lemma ShiftSize(txs: seq<TxOffset>, n: nat)
    ensures |Shift(txs, n)| == |txs|
  {
  }

  lemma ShiftAt(txs: seq<TxOffset>, n: nat, i: nat)
    requires i < |txs|
    ensures |Shift(txs, n)| == |txs| && Shift(txs, n)[i] == txs[i].(offset := txs[i].offset + n)
  {
  }

  lemma SliceOfSlice(s: Bytes, start: nat, n: nat, offset: nat, length: nat)
    requires start + n <= |s| && offset + length <= n
    ensures s[start..start + n][offset..offset + length] == s[start + offset..start + offset + length]
  {
    var l, r := s[start..start + n][offset..offset + length], s[start + offset..start + offset + length];
    assert forall i :: 0 <= i < length ==> l[i] == s[start + offset + i] == r[i];
  }

  lemma MiddlePart(a: Bytes, b: Bytes, c: Bytes, d: Bytes, e: Bytes)
    ensures var s := a + (b + c) + d + e;
            |a| + |b| + |c| <= |s| && s[|a| + |b|..|a| + |b| + |c|] == c
  {
  }

  lemma BlockBytesAt(bs: seq<Bytes>, tail: Bytes, j: nat)
    requires AllFit(bs) && j < |bs|
    ensures var start := Offset(bs, j) + |EncodeVarint(|bs[j]|)|;
            && start + |bs[j]| <= |FileOf(bs) + tail|
            && (FileOf(bs) + tail)[start..start + |bs[j]|] == bs[j]
  {
    hide EncodeVarint, FileOf, AllFit;
    FileSplit(bs, j + 1);
    FileSnoc(bs[..j], bs[j]);
    assert bs[..j] + [bs[j]] == bs[..j + 1];
    MiddlePart(FileOf(bs[..j]), EncodeVarint(|bs[j]|), bs[j], FileOf(bs[j + 1..]), tail);
  }

  // ----- crashes are survived -----

  /** A restart can begin on this disk: `chunks` are its complete blocks, the first k are indexed. */
  ghost predicate Startable(codec: Codec, d: Disk, chunks: Chunks, tail: Bytes, k: nat)
  {
    && Crashed(d.files, chunks, tail)
    && |d.saved| == 1 && SavedAt(d.saved[0], chunks)
    && Indexed(codec, d.index, chunks, k)
    && Numbered(codec, Flat(chunks))
  }

  /** Whatever a crash at this moment leaves, the restart can begin and finds the right blocks. */
  ghost predicate CrashSafe(codec: Codec, d: Disk, committed: seq<Bytes>)
  {
    forall d' :: CrashImage(d, d') ==>
      RestartsRight(d', committed) && exists chunks, tail, k :: Startable(codec, d', chunks, tail, k)
  }

  /** A record that is being written carries the next number. */
  ghost predicate NumberedTail(codec: Codec, chunks: Chunks, tail: Bytes)
  {
    forall b :: Fits(b) && tail == Record(b) ==> codec.number(b) == |Flat(chunks)|
  }

  /** A crash between any two writes is repaired by the restart. */
  lemma ConsistentIsCrashSafe(codec: Codec, d: Disk, chunks: Chunks, tail: Bytes, k: nat, committed: seq<Bytes>)
    requires Consistent(d, chunks, tail)
    requires Indexed(codec, d.index, chunks, k) && Numbered(codec, Flat(chunks)) && NumberedTail(codec, chunks, tail)
    requires committed <= Flat(chunks)
    requires |Flat(chunks)| + (if tail == [] then 0 else 1) <= |committed| + 1
    ensures CrashSafe(codec, d, committed)
  {
    hide FileOf, AllFit, Record, Holds, CrashImage, Crashed, SyncInfo, AllBlocks, Consistent, Indexed, Flat, Startable;
    forall d' | CrashImage(d, d')
      ensures RestartsRight(d', committed) && exists chunks, tail, k :: Startable(codec, d', chunks, tail, k)
    {
      ImageHasSummary(d, d');
      ConsistentSaved(d, chunks, tail);
      var chunks', tail' := CrashLeaves(d, chunks, tail, d');
      RestartOfImage(d, chunks, tail, d', chunks', tail', committed);
      StartableImage(codec, d, chunks, tail, k, d', chunks', tail');
      assert Startable(codec, d', chunks', tail', k);
    }
  }

  lemma StartableImage(codec: Codec, d: Disk, chunks: Chunks, tail: Bytes, k: nat, d': Disk, chunks': Chunks, tail': Bytes)
    requires SavedAll(d, chunks)
    requires Indexed(codec, d.index, chunks, k) && Numbered(codec, Flat(chunks)) && NumberedTail(codec, chunks, tail)
    requires |d'.saved| == 1 && d'.saved[0] in d.saved && d'.index == d.index
    requires Crashed(d'.files, chunks', tail')
    requires chunks' == chunks || (exists b :: chunks' == WithBlock(chunks, b) && tail == Record(b) && Fits(b))
    requires |chunks'| == |chunks| && Earlier(chunks') == Earlier(chunks) && Current(chunks) <= Current(chunks')
    ensures Startable(codec, d', chunks', tail', k)
  {
    hide FileOf, AllFit, Holds, Crashed, EncodeVarint, WithBlock, Indexed, Flat, Record, InfoAt, Earlier, Current;
    if chunks' != chunks {
      var b :| chunks' == WithBlock(chunks, b) && tail == Record(b) && Fits(b);
      FlatWithBlock(chunks, b);
      IndexedStable(codec, d.index, chunks, chunks', k);
    }
    SavedLater(d, chunks, chunks', d'.saved[0]);
  }

  /** A summary saved earlier is one of the longer files too. */
  lemma SavedLater(d: Disk, chunks: Chunks, chunks': Chunks, info: Info)
    requires SavedAll(d, chunks) && info in d.saved && chunks' != [] && |chunks'| == |chunks|
    requires Earlier(chunks') == Earlier(chunks) && Current(chunks) <= Current(chunks')
    ensures SavedAt(info, chunks')
  {
    hide InfoAt;
    var i :| 0 <= i < |d.saved| && info == d.saved[i];
    assert SavedAt(d.saved[i], chunks);
    var j :| 0 <= j <= |Current(chunks)| && d.saved[i] == InfoAt(chunks, j);
    SameInfo(chunks, chunks', j);
  }

  /** So is one before the writes of a restart, whether the current file is there or not. */
  lemma FoundIsCrashSafe(codec: Codec, d: Disk, chunks: Chunks, tail: Bytes, k: nat)
    requires Crashed(d.files, chunks, tail) && d.saved == [InfoOf(chunks)]
    requires d.open == |chunks| - 1 && d.synced == InfoOf(chunks).latestFileSize
    requires Indexed(codec, d.index, chunks, k) && Numbered(codec, Flat(chunks))
    ensures CrashSafe(codec, d, Flat(chunks))
  {
    hide FileOf, AllFit, Record, Holds, CrashImage, Crashed, SyncInfo, AllBlocks, Indexed, Flat, Startable, RestartsRight;
    assert SavedAt(InfoOf(chunks), chunks);
    CutIsNumbered(codec, chunks, tail, d.files);
    if d.open < |d.files| {
      FoundConsistent(d, chunks, tail);
      ConsistentIsCrashSafe(codec, d, chunks, tail, k, Flat(chunks));
    } else {
      MissingHasNoTail(d.files, chunks, tail);
      forall d' | CrashImage(d, d')
        ensures RestartsRight(d', Flat(chunks)) && exists chunks, tail, k :: Startable(codec, d', chunks, tail, k)
      {
        MissingStays(d, d');
        RestartOfImage(d, chunks, tail, d', chunks, tail, Flat(chunks));
        StartableImage(codec, d, chunks, tail, k, d', chunks, tail);
        assert Startable(codec, d', chunks, tail, k);
      }
    }
  }

  lemma MissingStays(d: Disk, d': Disk)
    requires CrashImage(d, d') && d.open >= |d.files|
    ensures d'.files == d.files && |d'.saved| == 1 && d'.saved[0] in d.saved && d'.index == d.index
  {
  }

  lemma MissingHasNoTail(files: seq<Bytes>, chunks: Chunks, tail: Bytes)
    requires Crashed(files, chunks, tail) && |files| <= |chunks| - 1
    ensures tail == []
  {
  }

  lemma FoundConsistent(d: Disk, chunks: Chunks, tail: Bytes)
    requires Crashed(d.files, chunks, tail) && d.saved == [InfoOf(chunks)] && |d.files| >= |chunks|
    requires d.open == |chunks| - 1 && d.synced == InfoOf(chunks).latestFileSize
    ensures Consistent(d, chunks, tail)
  {
    hide FileOf, AllFit, Record;
    assert SavedAt(InfoOf(chunks), chunks);
    assert Current(chunks)[..|Current(chunks)|] == Current(chunks);
  }

  lemma CutIsNumbered(codec: Codec, chunks: Chunks, tail: Bytes, files: seq<Bytes>)
    requires Crashed(files, chunks, tail)
    ensures NumberedTail(codec, chunks, tail)
  {
    hide Record, Holds, Flat;
    forall b ensures tail != Record(b) {
      CutIsNoRecord(tail, b);
    }
  }

  lemma CutIsNoRecord(tail: Bytes, b: Bytes)
    requires tail == [] || CutRecord(tail)
    ensures tail != Record(b)
  {
    hide Record;
    NoEmptyRecord(b);
    if CutRecord(tail) {
      var b' :| Fits(b') && tail < Record(b');
      if tail == Record(b) {
        RecordPrefixFree(b', b);
      }
    }
  }

  lemma NoEmptyRecord(b: Bytes)
    ensures Record(b) != []
  {
  }

  /** No record is the beginning of another one. */
  lemma RecordPrefixFree(b: Bytes, b': Bytes)
    requires Record(b') <= Record(b)
    ensures b' == b
  {
    var rest := Record(b)[|EncodeVarint(|b'|)|..];
    assert Record(b) == EncodeVarint(|b'|) + rest;
    VarintRoundTrip(|b'|, rest);
    VarintRoundTrip(|b|, b);
    assert b == Record(b)[|EncodeVarint(|b|)|..] && b' == Record(b')[|EncodeVarint(|b'|)|..];
  }

  lemma NumberedPart(codec: Codec, chunks: Chunks, b: Bytes, written: nat)
    requires codec.number(b) == |Flat(chunks)| && written <= |Record(b)|
    ensures NumberedTail(codec, chunks, Record(b)[..written])
  {
    hide Record, Flat;
    forall b' | Fits(b') && Record(b)[..written] == Record(b')
      ensures codec.number(b') == |Flat(chunks)|
    {
      RecordPrefixFree(b, b');
    }
  }

  lemma NoTail(codec: Codec, chunks: Chunks)
    ensures NumberedTail(codec, chunks, [])
  {
  }
}
