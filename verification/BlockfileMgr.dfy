/** The block file manager: adding a block write by write, and starting again after a crash
    (blockfile_mgr.go: addBlock, moveToNextFile, newBlockfileMgr, syncIndex). */
module BlockfileMgr {
  import opened Basics
  import opened BlockFile
  import opened BlockStore

  /** A write that goes wrong, and how much of the record was written by then. */
  datatype Fault = NoFault | AppendFails(written: nat) | SaveFails

  class Manager {
    const codec: Codec
    const maxBlockfileSize: nat
    var disk: Disk
    var info: Info
    var height: nat
    var currentHash: Bytes
    /** The blocks in each file. */
    ghost var chunks: Chunks
    /** Every state the disk has been in. */
    ghost var trail: seq<Disk>

    ghost function Blocks(): seq<Bytes>
      reads this
    {
      Flat(chunks)
    }

    /** The last state recorded is the disk. */
    ghost predicate Recorded()
      reads this
    {
      trail != [] && trail[|trail| - 1] == disk
    }

    /** The manager between two calls. */
    ghost predicate Valid()
      reads this
    {
      && Recorded()
      && Consistent(disk, chunks, [])
      && Indexed(codec, disk.index, chunks, |Flat(chunks)|)
      && Numbered(codec, Flat(chunks))
      && info == InfoOf(chunks)
      && height == |Flat(chunks)|
      && currentHash == HashOfLast(codec, Flat(chunks))
    }

    /** The record of a block can be appended. */
    ghost predicate Ready(b: Bytes)
      reads this
    {
      Appendable(codec, disk, chunks, b) && info == InfoOf(chunks)
    }

    /** The record of a block has been appended to these blocks. */
    ghost predicate Appended(b: Bytes, start: Chunks)
      reads this
    {
      Uncommitted(codec, disk, start, b) && info == InfoOf(start) && chunks == WithBlock(start, b)
    }

    /** A ledger without blocks: the first start of newBlockfileMgr. */
    constructor Create(codec: Codec, maxBlockfileSize: nat)
      ensures Valid() && Blocks() == [] && this.codec == codec && this.maxBlockfileSize == maxBlockfileSize
      ensures trail == [disk]
    {
      this.codec := codec;
      this.maxBlockfileSize := maxBlockfileSize;
      var start := Info(0, 0, true, 0);
      info := start;
      height, currentHash := 0, [];
      chunks := [[]];
      var blank := Disk([[]], 0, 0, [start], Index(map[], None));
      disk := blank;
      trail := [blank];
      new;
      FreshConsistent(codec, disk);
    }

    /** One change of the disk. */
    method Write(d: Disk)
      modifies this`disk, this`trail
      ensures disk == d && trail == old(trail) + [d] && Recorded()
    {
      disk := d;
      trail := trail + [d];
    }

    /** The next number, and the hash of the last block. */
    predicate Follows(b: Bytes)
      reads this
    {
      codec.number(b) == height && codec.previousHash(b) == currentHash
    }

    /** A first block too large for a file. */
    ghost predicate Oversized(b: Bytes)
      reads this
    {
      Blocks() == [] && |Record(b)| > maxBlockfileSize
    }

    /** addBlock: checks, moves to the next file if the record does not fit, writes the length,
        writes and syncs the bytes, saves the summary and indexes. At every moment in between a
        crash loses no committed block and the restart finds the last complete one, if and only if
        it is not a first block too large for a file. */
    method AddBlock(b: Bytes, fault: Fault) returns (ok: bool)
      requires Valid() && Fits(b)
      modifies this
      ensures Blocks() == if ok then old(Blocks()) + [b] else old(Blocks())
      ensures ok <==> old(Follows(b)) && fault.NoFault?
      ensures Recorded() && old(trail) <= trail
      ensures Valid() <==> !(old(Follows(b)) && old(Oversized(b)))
      ensures AllSafe(codec, old(trail), trail, old(Blocks())) <==> !(old(Follows(b)) && old(Oversized(b)))
    {
      hide Record, EncodeVarint, Consistent, Indexed, Numbered, Flat, CrashSafe, AllSafe, Appendable, Uncommitted, InfoOf;
      AllSafeNone(codec, trail, Flat(chunks));
      if !Follows(b) {
        return false;
      }
      ok := AddFollowing(b, fault);
    }

    /** addBlock after its checks. */
    method AddFollowing(b: Bytes, fault: Fault) returns (ok: bool)
      requires Valid() && Fits(b) && Follows(b)
      modifies this
      ensures ok <==> fault.NoFault?
      ensures Blocks() == if ok then old(Blocks()) + [b] else old(Blocks())
      ensures Recorded() && old(trail) <= trail
      ensures Valid() <==> !old(Oversized(b))
      ensures AllSafe(codec, old(trail), trail, old(Blocks())) <==> !old(Oversized(b))
    {
      hide Record, EncodeVarint, Consistent, Indexed, Numbered, Flat, CrashSafe, AllSafe, Appendable, Uncommitted, InfoOf, WithBlock;
      ghost var sound, committed := !Oversized(b), Flat(chunks);
      var currentOffset := ChooseFile(b);
      ghost var mid := trail;
      ok := AppendAndCommit(b, fault, currentOffset);
      if sound {
        AllSafeThen(codec, old(trail), mid, trail, committed);
      } else {
        UnsafeStays(codec, old(trail), mid, trail, committed);
      }
    }

    /** Moves to the next file if the record does not fit into this one. */
    method ChooseFile(b: Bytes) returns (currentOffset: nat)
      requires Valid() && Fits(b) && Follows(b)
      modifies this
      ensures disk.open < |disk.files| && chunks != [] && Blocks() == old(Blocks()) && Recorded() && old(trail) <= trail
      ensures !old(Oversized(b)) ==>
                && Valid() && Ready(b) && currentOffset == info.latestFileSize
                && AllSafe(codec, old(trail), trail, old(Blocks()))
      ensures old(Oversized(b)) ==> chunks == [[], []] && old(trail) < trail && !CrashSafe(codec, disk, [])
    {
      hide Record, EncodeVarint, Consistent, Indexed, Numbered, Flat, CrashSafe, AllSafe, Appendable, InfoOf;
      ConsistentOpen(disk, chunks, []);
      EmptyInfo(chunks);
      AllSafeNone(codec, trail, Flat(chunks));
      ghost var sound := !Oversized(b);
      currentOffset := info.latestFileSize;
      if currentOffset + |Record(b)| > maxBlockfileSize {
        MoveToNextFile();
        currentOffset := 0;
      }
      if sound {
        AppendableNow(codec, disk, chunks, b);
      }
    }

    /** The part of addBlock after the choice of the file. */
    method AppendAndCommit(b: Bytes, fault: Fault, currentOffset: nat) returns (ok: bool)
      requires disk.open < |disk.files| && chunks != [] && Recorded()
      modifies this
      ensures ok <==> fault.NoFault?
      ensures chunks == if ok then WithBlock(old(chunks), b) else old(chunks)
      ensures Flat(chunks) == if ok then Flat(old(chunks)) + [b] else Flat(old(chunks))
      ensures Recorded() && old(trail) <= trail
      ensures old(Ready(b)) && currentOffset == old(info).latestFileSize ==> AllSafe(codec, old(trail), trail, Flat(old(chunks)))
      ensures old(Valid()) && old(Ready(b)) && currentOffset == old(info).latestFileSize ==> Valid()
      ensures old(chunks) == [[], []] ==> !Valid()
    {
      hide Record, EncodeVarint, Consistent, Indexed, Numbered, Flat, CrashSafe, AllSafe, Appendable, Uncommitted, InfoOf, WithBlock;
      Misfilled(b);
      ghost var start, sound := chunks, Ready(b) && currentOffset == info.latestFileSize;
      FlatWithBlock(start, b);
      if fault.AppendFails? {
        FailToAppend(b, fault.written);
        return false;
      }
      AppendRecord(b);
      ghost var mid := trail;
      if fault.SaveFails? {
        FailToSave(b, start);
        if sound {
          AppendableMeans(codec, disk, start, b);
          AllSafeThen(codec, old(trail), mid, trail, Flat(start));
        }
        return false;
      }
      var newInfo := Info(info.latestFileNumber, info.latestFileSize + |Record(b)|, false, codec.number(b));
      Commit(b, newInfo, currentOffset, start);
      info := newInfo;
      height := height + 1;
      currentHash := codec.headerHash(b);
      if sound {
        AllSafeThen(codec, old(trail), mid, trail, Flat(start));
      }
      return true;
    }

    /** Writes the length, then the bytes, then syncs. */
    method AppendRecord(b: Bytes)
      requires disk.open < |disk.files| && chunks != []
      modifies this`disk, this`trail, this`chunks
      ensures chunks == WithBlock(old(chunks), b) && disk.open < |disk.files|
      ensures Recorded() && old(trail) <= trail
      ensures old(Ready(b)) ==> Appended(b, old(chunks)) && AllSafe(codec, old(trail), trail, Flat(old(chunks)))
    {
      hide Consistent, Indexed, Numbered, Flat, CrashSafe, EncodeVarint, Appendable, Uncommitted, InfoOf;
      ghost var before, start, ready := disk, chunks, Ready(b);
      var encodedLen := EncodeVarint(|b|);
      Write(Extended(disk, encodedLen));
      Write(Extended(disk, b));
      Write(Flushed(disk));
      chunks := WithBlock(chunks, b);
      if ready {
        AppendIsSafe(codec, before, start, b);
      }
    }

    /** A write that fails part way is cut off again. */
    method FailToAppend(b: Bytes, written: nat)
      requires disk.open < |disk.files|
      modifies this`disk, this`trail
      ensures Recorded() && old(trail) <= trail
      ensures old(Ready(b)) ==> disk == old(disk) && AllSafe(codec, old(trail), trail, Flat(chunks))
    {
      hide Consistent, Indexed, Numbered, Flat, CrashSafe, EncodeVarint, Appendable, InfoOf;
      ghost var before, ready := disk, Ready(b);
      var n := if written < |Record(b)| then written else |Record(b)|;
      Write(Extended(disk, Record(b)[..n]));
      Write(Truncated(disk, info.latestFileSize));
      if ready {
        FailedAppendIsSafe(codec, before, chunks, b, n);
      }
    }

    /** A record whose summary cannot be saved is cut off again. */
    method FailToSave(b: Bytes, ghost start: Chunks)
      requires disk.open < |disk.files|
      modifies this`disk, this`trail, this`chunks
      ensures chunks == start && Recorded() && old(trail) <= trail
      ensures old(Appended(b, start)) ==> Ready(b) && AllSafe(codec, old(trail), trail, Flat(start))
    {
      hide Consistent, Indexed, Numbered, Flat, CrashSafe, EncodeVarint, Appendable, Uncommitted, InfoOf;
      if Appended(b, start) {
        FailedSaveIsSafe(codec, disk, start, b);
      }
      Write(Truncated(disk, info.latestFileSize));
      chunks := start;
    }

    /** Saves the summary without sync and indexes the block. */
    method Commit(b: Bytes, newInfo: Info, currentOffset: nat, ghost start: Chunks)
      modifies this`disk, this`trail
      ensures Recorded() && old(trail) <= trail
      ensures old(Appended(b, start)) && currentOffset == old(info).latestFileSize
              && newInfo == Info(info.latestFileNumber, info.latestFileSize + |Record(b)|, false, codec.number(b)) ==>
                && Consistent(disk, chunks, []) && Indexed(codec, disk.index, chunks, |Flat(chunks)|)
                && Numbered(codec, Flat(chunks)) && newInfo == InfoOf(chunks)
                && AllSafe(codec, old(trail), trail, Flat(start))
    {
      hide Consistent, Indexed, Numbered, Flat, CrashSafe, EncodeVarint, Record, Uncommitted, InfoOf;
      if Appended(b, start) && currentOffset == info.latestFileSize
         && newInfo == Info(info.latestFileNumber, info.latestFileSize + |Record(b)|, false, codec.number(b)) {
        CommitIsSafe(codec, disk, start, b);
      }
      Write(disk.(saved := disk.saved + [newInfo]));
      Write(disk.(index := IndexBlock(disk.index, codec.number(b), EntryFor(codec, newInfo.latestFileNumber, currentOffset, b))));
    }

    /** moveToNextFile: makes the next file, then saves with sync a summary that points to it. */
    method MoveToNextFile()
      requires Valid()
      modifies this
      ensures disk == AfterMove(old(disk), old(info)) && disk.open < |disk.files|
      ensures chunks == old(chunks) + [[]] && Blocks() == old(Blocks()) && info.latestFileSize == 0
      ensures Recorded() && old(trail) < trail
      ensures old(Blocks()) != [] ==> Valid() && AllSafe(codec, old(trail), trail, old(Blocks()))
      ensures old(Blocks()) == [] ==> chunks == [[], []] && !CrashSafe(codec, disk, [])
    {
      hide Consistent, Indexed, Numbered, Flat, CrashSafe, InfoOf;
      var next := Info(info.latestFileNumber + 1, 0, false, info.lastPersistedBlock);
      FilesKnown(disk, chunks);
      if Flat(chunks) != [] {
        MadeIsSafe(codec, disk, chunks);
        MoveIsSafe(codec, disk, chunks);
      } else {
        EmptyStore(disk, chunks);
        MovedEmptyFails(codec, AfterMove(disk, info));
      }
      FlatNewFile(chunks);
      if |disk.files| == next.latestFileNumber {
        Write(disk.(files := disk.files + [[]]));
      }
      Write(disk.(saved := [next], open := next.latestFileNumber, synced := 0));
      chunks := chunks + [[]];
      info := next;
    }

    /** newBlockfileMgr on an existing ledger: brings the summary up to date by scanning, saves it
        with sync, opens the current file, truncates it, completes the index. Given any disk a crash
        can leave, the manager comes up with exactly the complete blocks on it, and a crash at any
        moment in between changes nothing of that. */
    constructor Restart(codec: Codec, maxBlockfileSize: nat, d: Disk, ghost chunks: Chunks, ghost tail: Bytes, ghost k: nat)
      requires Startable(codec, d, chunks, tail, k)
      ensures Valid() && this.chunks == chunks && Blocks() == AllBlocks(d.files)
      ensures this.codec == codec && this.maxBlockfileSize == maxBlockfileSize
      ensures AllSafe(codec, [], trail, AllBlocks(d.files))
    {
      hide FileOf, AllFit, CutRecord, Indexed, Flat, AllBlocks, CrashSafe, Locate, Next, EncodeVarint, SavedAt, Consistent, Numbered;
      this.codec := codec;
      this.maxBlockfileSize := maxBlockfileSize;
      SyncInfoFound(d, chunks, tail);
      AllBlocksCrashed(d.files, chunks, tail);
      var synced := SyncInfo(d.files, d.saved[0]).value;
      var found := Disk(d.files, synced.latestFileNumber, synced.latestFileSize, [synced], d.index);
      this.disk := found;
      this.trail := [found];
      this.info := synced;
      this.chunks := chunks;
      height, currentHash := 0, [];
      new;
      Reopen(tail, k);
      ghost var mid := trail;
      SyncIndex(k);
      AllSafeThen(codec, [], mid, trail, Flat(chunks));
      ReadTip();
    }

    /** Opens the current file, making it if it is missing, and truncates it. */
    method Reopen(ghost tail: Bytes, ghost k: nat)
      requires Crashed(disk.files, chunks, tail) && info == InfoOf(chunks) && disk.saved == [info] && trail == [disk]
      requires disk.open == info.latestFileNumber && disk.synced == info.latestFileSize
      requires Indexed(codec, disk.index, chunks, k) && Numbered(codec, Flat(chunks))
      modifies this`disk, this`trail
      ensures Consistent(disk, chunks, []) && disk.index == old(disk).index
      ensures Recorded() && AllSafe(codec, [], trail, Flat(chunks))
    {
      hide Crashed, Indexed, Numbered, Flat, CrashSafe, Consistent;
      InfoCounts(chunks);
      RestartIsSafe(codec, disk, chunks, tail, k);
      Write(Opened(disk));
      Write(Truncated(disk, info.latestFileSize));
    }

    /** Height and hash from the last block. */
    method ReadTip()
      requires Recorded() && Consistent(disk, chunks, []) && Indexed(codec, disk.index, chunks, |Flat(chunks)|)
      requires Numbered(codec, Flat(chunks)) && info == InfoOf(chunks)
      modifies this`height, this`currentHash
      ensures Valid()
    {
      hide Consistent, Indexed, Numbered, Flat, InfoOf;
      ConsistentOpen(disk, chunks, []);
      InfoCounts(chunks);
      height, currentHash := 0, [];
      if !info.noBlockFiles {
        height := info.lastPersistedBlock + 1;
        var bytes := FetchBlock(info.lastPersistedBlock);
        currentHash := codec.headerHash(bytes);
      }
    }

    /** retrieveBlockByNumber: block n is the n-th block that was appended. */
    method FetchBlock(n: nat) returns (bytes: Bytes)
      requires Consistent(disk, chunks, []) && Indexed(codec, disk.index, chunks, |Flat(chunks)|) && n < |Flat(chunks)|
      ensures bytes == Flat(chunks)[n]
    {
      hide FileOf, AllFit;
      FetchFinds(codec, disk.files, chunks, [], n);
      var e := disk.index.entries[n];
      var r := Next(disk.files[e.fileNum], e.offset);
      return r.bytes;
    }

    /** syncIndex: whatever earlier save point the index stopped at, it ends up holding, for every
        block, the place and the transaction offsets that addBlock records. */
    method SyncIndex(ghost k: nat)
      requires Recorded() && Consistent(disk, chunks, []) && Indexed(codec, disk.index, chunks, k)
      requires Numbered(codec, Flat(chunks)) && info == InfoOf(chunks)
      modifies this`disk, this`trail
      ensures Consistent(disk, chunks, []) && Indexed(codec, disk.index, chunks, |Flat(chunks)|)
      ensures disk == old(disk).(index := disk.index)
      ensures Recorded() && AllSafe(codec, old(trail), trail, Flat(chunks))
    {
      hide FileOf, AllFit, Holds, CrashSafe, SavedAt, Next, EncodeVarint, Indexed, Flat, Locate, NextAcross;
      InfoCounts(chunks);
      IndexSavePoint(codec, disk.index, chunks, k);
      ConsistentOpen(disk, chunks, []);
      var nextIndexable := if disk.index.savePoint.Some? then disk.index.savePoint.value + 1 else 0;
      if info.noBlockFiles || nextIndexable == info.lastPersistedBlock + 1 {
        return;
      }
      var startFile, startOffset, skipFirst := 0, 0, false;
      FirstBlockIsZero(codec, disk.files, chunks);
      var first := Next(disk.files[0], 0);
      if nextIndexable > codec.number(first.bytes) {
        var e := disk.index.entries[nextIndexable - 1];
        startFile, startOffset, skipFirst := e.fileNum, e.offset, true;
      }
      if skipFirst {
        ghost var (f, j) := Locate(chunks, k - 1);
        AcrossFinds(disk.files, chunks, f, j);
        var (r, at, _) := NextAcross(disk.files, startFile, startOffset, info.latestFileNumber);
        IndexFrom(at, r.next, f, j + 1);
      } else {
        StartOfAll(chunks);
        IndexFrom(startFile, startOffset, 0, 0);
      }
    }

    /** Indexes what follows block j of file f. */
    method IndexFrom(startFile: nat, startOffset: nat, ghost startF: nat, ghost startJ: nat)
      requires Recorded() && Consistent(disk, chunks, []) && Numbered(codec, Flat(chunks)) && info == InfoOf(chunks)
      requires startF < |chunks| && startJ <= |chunks[startF]|
      requires Indexed(codec, disk.index, chunks, |Flat(chunks[..startF])| + startJ)
      requires startFile == startF && startOffset == Offset(chunks[startF], startJ)
      modifies this`disk, this`trail
      ensures Consistent(disk, chunks, []) && Indexed(codec, disk.index, chunks, |Flat(chunks)|)
      ensures disk == old(disk).(index := disk.index)
      ensures Recorded() && AllSafe(codec, old(trail), trail, Flat(chunks))
    {
      hide FileOf, AllFit, Holds, CrashSafe, SavedAt, Next, EncodeVarint, Indexed, Flat, Locate;
      InfoCounts(chunks);
      var file, offset := startFile, startOffset;
      ghost var f: nat, j: nat := startF, startJ;
      ghost var n: nat := |Flat(chunks[..f])| + j;
      IndexedBound(codec, disk.index, chunks, n);
      while true
        invariant f < |chunks| && j <= |chunks[f]| && n == |Flat(chunks[..f])| + j <= |Flat(chunks)|
        invariant file == f && offset == Offset(chunks[f], j)
        invariant Consistent(disk, chunks, []) && Indexed(codec, disk.index, chunks, n)
        invariant disk == old(disk).(index := disk.index)
        invariant Recorded() && AllSafe(codec, old(trail), trail, Flat(chunks))
        decreases |Flat(chunks)| - n
      {
        ConsistentOpen(disk, chunks, []);
        AcrossFinds(disk.files, chunks, f, j);
        var (r, at, start) := NextAcross(disk.files, file, offset, info.latestFileNumber);
        if !r.Block? {
          return;
        }
        var e := Entry(at, start, Shift(codec.txs(r.bytes), r.bytesOffset - start));
        IndexedExtend(codec, disk.index, chunks, n, e);
        Write(disk.(index := IndexBlock(disk.index, codec.number(r.bytes), e)));
        SafeWithoutTail(codec, disk, chunks, n + 1, Flat(chunks));
        ghost var place := Locate(chunks, n);
        f, j, n := place.0, place.1 + 1, n + 1;
        file, offset := at, r.next;
      }
    }
  }

  /** The disk moveToNextFile leaves. */
  function AfterMove(d: Disk, info: Info): Disk
  {
    var n := info.latestFileNumber + 1;
    d.(files := if |d.files| == n then d.files + [[]] else d.files,
       saved := [Info(n, 0, false, info.lastPersistedBlock)], open := n, synced := 0)
  }

  /** Bytes written at the end of the open file. */
  function Extended(d: Disk, bytes: Bytes): Disk
    requires d.open < |d.files|
  {
    d.(files := d.files[d.open := d.files[d.open] + bytes])
  }

  /** The open file synced. */
  function Flushed(d: Disk): Disk
    requires d.open < |d.files|
  {
    d.(synced := |d.files[d.open]|)
  }

  /** truncateFile, which only ever shortens. */
  function Truncated(d: Disk, size: nat): Disk
    requires d.open < |d.files|
  {
    if |d.files[d.open]| <= size then d
    else d.(files := d.files[d.open := d.files[d.open][..size]], synced := if d.synced < size then d.synced else size)
  }

  /** The open file made if it is missing. */
  function Opened(d: Disk): Disk
    requires d.open <= |d.files|
  {
    if d.open < |d.files| then d else d.(files := d.files + [[]])
  }

  // ----- every disk written is crash safe -----

  ghost predicate AllSafe(codec: Codec, was: seq<Disk>, now: seq<Disk>, committed: seq<Bytes>)
  {
    was <= now && forall i :: |was| <= i < |now| ==> CrashSafe(codec, now[i], committed)
  }

  lemma AllSafeNone(codec: Codec, trail: seq<Disk>, committed: seq<Bytes>)
    ensures AllSafe(codec, trail, trail, committed)
  {
  }

  lemma AllSafeThen(codec: Codec, was: seq<Disk>, mid: seq<Disk>, now: seq<Disk>, committed: seq<Bytes>)
    requires AllSafe(codec, was, mid, committed) && AllSafe(codec, mid, now, committed)
    ensures AllSafe(codec, was, now, committed)
  {
    hide CrashSafe;
  }

  lemma UnsafeStays(codec: Codec, was: seq<Disk>, mid: seq<Disk>, now: seq<Disk>, committed: seq<Bytes>)
    requires was < mid <= now && !CrashSafe(codec, mid[|mid| - 1], committed)
    ensures !AllSafe(codec, was, now, committed)
  {
    hide CrashSafe;
    assert now[|mid| - 1] == mid[|mid| - 1];
  }

  /** A second file while the first is empty. */
  lemma Misfilled(b: Bytes)
    ensures forall d :: !Consistent(d, [[], []], []) && !Consistent(d, WithBlock([[], []], b), [])
  {
  }

  ghost predicate Appendable(codec: Codec, d: Disk, chunks: Chunks, b: Bytes)
  {
    && Consistent(d, chunks, []) && Indexed(codec, d.index, chunks, |Flat(chunks)|)
    && Numbered(codec, Flat(chunks)) && Fits(b) && codec.number(b) == |Flat(chunks)|
  }

  /** The record of the block is there, but neither its summary nor its index entry. */
  ghost predicate Uncommitted(codec: Codec, d: Disk, start: Chunks, b: Bytes)
  {
    && WellFilled(start) && SavedAll(d, start) && Consistent(d, WithBlock(start, b), [])
    && Indexed(codec, d.index, start, |Flat(start)|)
    && Numbered(codec, Flat(start)) && Fits(b) && codec.number(b) == |Flat(start)|
  }

  lemma AppendableNow(codec: Codec, d: Disk, chunks: Chunks, b: Bytes)
    requires Consistent(d, chunks, []) && Indexed(codec, d.index, chunks, |Flat(chunks)|)
    requires Numbered(codec, Flat(chunks)) && Fits(b) && codec.number(b) == |Flat(chunks)|
    ensures Appendable(codec, d, chunks, b)
  {
  }

  lemma AppendableMeans(codec: Codec, d: Disk, chunks: Chunks, b: Bytes)
    requires Appendable(codec, d, chunks, b)
    ensures Consistent(d, chunks, []) && Indexed(codec, d.index, chunks, |Flat(chunks)|) && Numbered(codec, Flat(chunks))
  {
  }

  lemma AppendIsSafe(codec: Codec, d: Disk, chunks: Chunks, b: Bytes)
    requires Appendable(codec, d, chunks, b) && d.open < |d.files|
    ensures var d1 := Extended(d, EncodeVarint(|b|));
            var d2 := Extended(d1, b);
            && CrashSafe(codec, d1, Flat(chunks)) && CrashSafe(codec, d2, Flat(chunks))
            && CrashSafe(codec, Flushed(d2), Flat(chunks)) && Uncommitted(codec, Flushed(d2), chunks, b)
  {
    hide Record, FileOf, EncodeVarint, Holds, CrashSafe, Consistent, Flat, Indexed, Numbered, NumberedTail;
    var encodedLen := EncodeVarint(|b|);
    RecordParts(b);
    ConsistentOpen(d, chunks, []);
    PartIsSafe(codec, d, chunks, b, |encodedLen|);
    PartIsSafe(codec, d, chunks, b, |Record(b)|);
    var d2 := Extended(Extended(d, encodedLen), b);
    assert d.files[d.open] + encodedLen + b == d.files[d.open] + Record(b);
    assert d2 == Extended(d, Record(b)[..|Record(b)|]);
    SyncedConsistent(d2, chunks, b);
    FlatWithBlock(chunks, b);
    IndexedStable(codec, d.index, chunks, WithBlock(chunks, b), |Flat(chunks)|);
    NumberedNext(codec, chunks, b);
    SafeWithoutTail(codec, Flushed(d2), WithBlock(chunks, b), |Flat(chunks)|, Flat(chunks));
  }

  lemma PartIsSafe(codec: Codec, d: Disk, chunks: Chunks, b: Bytes, n: nat)
    requires Appendable(codec, d, chunks, b) && d.open < |d.files| && n <= |Record(b)|
    ensures Consistent(Extended(d, Record(b)[..n]), chunks, Record(b)[..n])
    ensures CrashSafe(codec, Extended(d, Record(b)[..n]), Flat(chunks))
  {
    hide Record, FileOf, EncodeVarint, Holds, CrashSafe, Consistent, Flat, Indexed, Numbered, NumberedTail;
    AppendedConsistent(d, chunks, b, n);
    NumberedPart(codec, chunks, b, n);
    ConsistentIsCrashSafe(codec, Extended(d, Record(b)[..n]), chunks, Record(b)[..n], |Flat(chunks)|, Flat(chunks));
  }

  lemma FailedAppendIsSafe(codec: Codec, d: Disk, chunks: Chunks, b: Bytes, n: nat)
    requires Appendable(codec, d, chunks, b) && d.open < |d.files| && n <= |Record(b)|
    ensures var d1 := Extended(d, Record(b)[..n]);
            && CrashSafe(codec, d1, Flat(chunks)) && CrashSafe(codec, d, Flat(chunks))
            && Truncated(d1, InfoOf(chunks).latestFileSize) == d
  {
    hide Record, FileOf, EncodeVarint, Holds, CrashSafe, Consistent, Flat, Indexed, Numbered, InfoOf;
    PartIsSafe(codec, d, chunks, b, n);
    KnownSize(d, chunks);
    SafeWithoutTail(codec, d, chunks, |Flat(chunks)|, Flat(chunks));
    var base := d.files[d.open];
    assert (base + Record(b)[..n])[..|base|] == base;
    assert n == 0 ==> base + Record(b)[..n] == base;
    assert Truncated(Extended(d, Record(b)[..n]), |base|).files == d.files;
  }

  lemma FailedSaveIsSafe(codec: Codec, d: Disk, start: Chunks, b: Bytes)
    requires Uncommitted(codec, d, start, b) && d.open < |d.files|
    ensures var d1 := Truncated(d, InfoOf(start).latestFileSize);
            Appendable(codec, d1, start, b) && CrashSafe(codec, d1, Flat(start))
  {
    hide Record, FileOf, EncodeVarint, CrashSafe, Consistent, Flat, Indexed, Numbered, InfoOf;
    TruncatedConsistent(d, start, b);
    SafeWithoutTail(codec, Truncated(d, InfoOf(start).latestFileSize), start, |Flat(start)|, Flat(start));
  }

  lemma CommitIsSafe(codec: Codec, d: Disk, start: Chunks, b: Bytes)
    requires Uncommitted(codec, d, start, b)
    ensures var info := InfoOf(start);
            var chunks := WithBlock(start, b);
            var next := Info(info.latestFileNumber, info.latestFileSize + |Record(b)|, false, codec.number(b));
            var d1 := d.(saved := d.saved + [next]);
            var d2 := d1.(index := IndexBlock(d.index, codec.number(b), EntryFor(codec, next.latestFileNumber, info.latestFileSize, b)));
            && next == InfoOf(chunks) && Consistent(d2, chunks, []) && Numbered(codec, Flat(chunks))
            && Indexed(codec, d2.index, chunks, |Flat(chunks)|)
            && CrashSafe(codec, d1, Flat(start)) && CrashSafe(codec, d2, Flat(start))
  {
    hide Record, FileOf, EncodeVarint, Holds, CrashSafe, Indexed, Flat, Current, Numbered, InfoAt, SavedAt;
    var chunks := WithBlock(start, b);
    InfoAfter(start, b);
    FlatWithBlock(start, b);
    NumberedNext(codec, start, b);
    SavedConsistent(d, chunks);
    var d1 := d.(saved := d.saved + [InfoOf(chunks)]);
    IndexedStable(codec, d.index, start, chunks, |Flat(start)|);
    SafeWithoutTail(codec, d1, chunks, |Flat(start)|, Flat(start));
    IndexedNext(codec, d.index, start, b);
    InfoCounts(start);
    var e := EntryFor(codec, |start| - 1, InfoOf(start).latestFileSize, b);
    SafeWithoutTail(codec, d1.(index := IndexBlock(d.index, |Flat(start)|, e)), chunks, |Flat(chunks)|, Flat(start));
  }

  /** Between making the next file and pointing to it. */
  lemma MadeIsSafe(codec: Codec, d: Disk, chunks: Chunks)
    requires Consistent(d, chunks, []) && Indexed(codec, d.index, chunks, |Flat(chunks)|) && Numbered(codec, Flat(chunks))
    ensures |d.files| == |chunks| ==> CrashSafe(codec, d.(files := d.files + [[]]), Flat(chunks))
  {
    hide FileOf, AllFit, CrashSafe, Indexed, Numbered, Flat;
    if |d.files| == |chunks| {
      SafeWithoutTail(codec, d.(files := d.files + [[]]), chunks, |Flat(chunks)|, Flat(chunks));
    }
  }

  lemma FilesKnown(d: Disk, chunks: Chunks)
    requires Consistent(d, chunks, [])
    ensures |chunks| <= |d.files| <= |chunks| + 1 && InfoOf(chunks).latestFileNumber == |chunks| - 1
  {
  }

  /** The three writes of a restart. */
  lemma RestartIsSafe(codec: Codec, d: Disk, chunks: Chunks, tail: Bytes, k: nat)
    requires Crashed(d.files, chunks, tail) && d.saved == [InfoOf(chunks)]
    requires d.open == |chunks| - 1 && d.synced == InfoOf(chunks).latestFileSize
    requires Indexed(codec, d.index, chunks, k) && Numbered(codec, Flat(chunks))
    ensures d.open <= |d.files| && CrashSafe(codec, d, Flat(chunks)) && CrashSafe(codec, Opened(d), Flat(chunks))
    ensures var d2 := Truncated(Opened(d), InfoOf(chunks).latestFileSize);
            Consistent(d2, chunks, []) && CrashSafe(codec, d2, Flat(chunks))
  {
    hide FileOf, AllFit, CutRecord, Crashed, Indexed, Numbered, Flat, CrashSafe, Consistent, InfoOf;
    LaterFilesEmpty(d.files, chunks, tail);
    FoundIsCrashSafe(codec, d, chunks, tail, k);
    OpenedCrashed(d, chunks, tail);
    FoundIsCrashSafe(codec, Opened(d), chunks, tail, k);
    ReopenedConsistent(Opened(d), chunks, tail);
    SafeWithoutTail(codec, Truncated(Opened(d), InfoOf(chunks).latestFileSize), chunks, k, Flat(chunks));
  }

  lemma OpenedCrashed(d: Disk, chunks: Chunks, tail: Bytes)
    requires Crashed(d.files, chunks, tail) && d.open == |chunks| - 1 <= |d.files|
    ensures Crashed(Opened(d).files, chunks, tail) && |Opened(d).files| >= |chunks|
  {
    hide FileOf, AllFit, CutRecord;
    EmptyFile();
  }

  function HashOfLast(codec: Codec, bs: seq<Bytes>): Bytes
  {
    if bs == [] then [] else codec.headerHash(bs[|bs| - 1])
  }

  lemma FreshConsistent(codec: Codec, d: Disk)
    requires d == Disk([[]], 0, 0, [Info(0, 0, true, 0)], Index(map[], None))
    ensures Consistent(d, [[]], []) && Flat([[]]) == [] && InfoOf([[]]) == Info(0, 0, true, 0)
    ensures Indexed(codec, d.index, [[]], 0)
  {
    var chunks: Chunks := [[]];
    assert Earlier(chunks) == [] && Current(chunks) == [];
    assert SavedAt(d.saved[0], chunks) by {
      assert d.saved[0] == InfoAt(chunks, 0);
    }
  }

  lemma SafeWithoutTail(codec: Codec, d: Disk, chunks: Chunks, k: nat, committed: seq<Bytes>)
    requires Consistent(d, chunks, []) && Indexed(codec, d.index, chunks, k) && Numbered(codec, Flat(chunks))
    requires committed <= Flat(chunks) && |Flat(chunks)| <= |committed| + 1
    ensures CrashSafe(codec, d, committed)
  {
    hide Consistent, Indexed, Numbered, Flat, CrashSafe, NumberedTail;
    NoTail(codec, chunks);
    ConsistentIsCrashSafe(codec, d, chunks, [], k, committed);
  }

  lemma NumberedNext(codec: Codec, chunks: Chunks, b: Bytes)
    requires chunks != [] && Numbered(codec, Flat(chunks)) && codec.number(b) == |Flat(chunks)|
    ensures Numbered(codec, Flat(WithBlock(chunks, b)))
  {
    hide Flat;
    FlatWithBlock(chunks, b);
  }

  lemma RecordParts(b: Bytes)
    ensures Record(b) == EncodeVarint(|b|) + b && Record(b)[..|Record(b)|] == Record(b)
    ensures Record(b)[..|EncodeVarint(|b|)|] == EncodeVarint(|b|)
  {
  }

  lemma ConsistentOpen(d: Disk, chunks: Chunks, tail: Bytes)
    requires Consistent(d, chunks, tail)
    ensures WellFilled(chunks) && d.open < |d.files| && d.synced <= |d.files[d.open]|
    ensures forall i :: 0 <= i < |d.saved| ==> SavedAt(d.saved[i], chunks)
  {
  }

  lemma EmptyInfo(chunks: Chunks)
    requires chunks != []
    ensures Flat(chunks) == [] ==> InfoOf(chunks).latestFileSize == 0
  {
    if Flat(chunks) == [] {
      assert Current(chunks) == [] && Current(chunks)[..0] == [];
    }
  }

  lemma KnownSize(d: Disk, chunks: Chunks)
    requires Consistent(d, chunks, [])
    ensures d.open < |d.files| && InfoOf(chunks).latestFileSize == |d.files[d.open]| == d.synced
  {
    assert Current(chunks)[..|Current(chunks)|] == Current(chunks);
  }

  function IndexBlock(index: Index, n: nat, e: Entry): Index
  {
    Index(index.entries[n := e], Some(n))
  }

  // ----- each write keeps the disk consistent -----

  /** Part of a record at the end of the open file. */
  lemma AppendedConsistent(d: Disk, chunks: Chunks, b: Bytes, written: nat)
    requires Consistent(d, chunks, []) && Fits(b) && written <= |Record(b)|
    ensures d.open < |d.files| && d.files[d.open] == FileOf(Current(chunks)) && d.synced == |d.files[d.open]|
    ensures Consistent(d.(files := d.files[d.open := d.files[d.open] + Record(b)[..written]]), chunks, Record(b)[..written])
  {
    hide Record, FileOf;
    assert FileOf(Current(chunks)) + [] == FileOf(Current(chunks));
    assert Record(b)[..written] <= Record(b);
  }

  /** The whole record, durable. */
  lemma SyncedConsistent(d: Disk, chunks: Chunks, b: Bytes)
    requires Consistent(d, chunks, Record(b)) && Fits(b)
    ensures Consistent(d.(synced := |d.files[d.open]|), WithBlock(chunks, b), [])
  {
    hide Record, FileOf;
    var chunks' := WithBlock(chunks, b);
    WellFilledWithBlock(chunks, b);
    FileSnoc(Current(chunks), b);
    assert FileOf(Current(chunks')) + [] == FileOf(Current(chunks'));
    assert Current(chunks) <= Current(chunks');
    forall i | 0 <= i < |d.saved|
      ensures SavedAt(d.saved[i], chunks')
    {
      assert SavedAt(d.saved[i], chunks);
      var j :| 0 <= j <= |Current(chunks)| && d.saved[i] == InfoAt(chunks, j);
      SameInfo(chunks, chunks', j);
    }
  }

  /** The record cut off again. */
  lemma TruncatedConsistent(d: Disk, chunks: Chunks, b: Bytes)
    requires chunks != [] && Consistent(d, WithBlock(chunks, b), []) && WellFilled(chunks)
    requires forall i :: 0 <= i < |d.saved| ==> SavedAt(d.saved[i], chunks)
    ensures d.open < |d.files| && Consistent(Truncated(d, InfoOf(chunks).latestFileSize), chunks, [])
  {
    hide Record, FileOf;
    var bs := Current(chunks);
    FileSnoc(bs, b);
    assert bs[..|bs|] == bs;
    assert FileOf(bs) + [] == FileOf(bs);
    assert (FileOf(bs) + Record(b) + [])[..|FileOf(bs)|] == FileOf(bs);
  }

  lemma SavedConsistent(d: Disk, chunks: Chunks)
    requires Consistent(d, chunks, [])
    ensures Consistent(d.(saved := d.saved + [InfoOf(chunks)]), chunks, [])
  {
    hide FileOf;
    assert SavedAt(InfoOf(chunks), chunks);
  }

  /** The summary computed by addBlock is that of the files with the new block. */
  lemma InfoAfter(chunks: Chunks, b: Bytes)
    requires chunks != []
    ensures InfoOf(WithBlock(chunks, b)) ==
            Info(InfoOf(chunks).latestFileNumber, InfoOf(chunks).latestFileSize + |Record(b)|, false, |Flat(chunks)|)
  {
    hide Record;
    var bs := Current(chunks);
    assert bs[..|bs|] == bs && (bs + [b])[..|bs| + 1] == bs + [b];
    FileSnoc(bs, b);
  }

  lemma EntryOfLast(codec: Codec, chunks: Chunks, b: Bytes)
    requires chunks != []
    ensures |Flat(chunks)| < |Flat(WithBlock(chunks, b))|
    ensures EntryOf(codec, WithBlock(chunks, b), |Flat(chunks)|) ==
            EntryFor(codec, |chunks| - 1, InfoOf(chunks).latestFileSize, b)
  {
    hide FileOf, EncodeVarint, Flat, Locate, EntryFor;
    var chunks' := WithBlock(chunks, b);
    FlatWithBlock(chunks, b);
    assert chunks'[..|chunks| - 1] == Earlier(chunks);
    var bs := Current(chunks);
    assert bs[..|bs|] == bs && (bs + [b])[..|bs|] == bs;
    FlatSizes(chunks);
    LocateAt(chunks', |chunks| - 1, |bs|);
    assert chunks'[|chunks| - 1] == bs + [b];
  }

  lemma FlatSizes(chunks: Chunks)
    requires chunks != []
    ensures |Flat(chunks)| == |Flat(Earlier(chunks))| + |Current(chunks)|
  {
  }

  lemma IndexedExtend(codec: Codec, index: Index, chunks: Chunks, n: nat, e: Entry)
    requires Indexed(codec, index, chunks, n) && n < |Flat(chunks)| && e == EntryOf(codec, chunks, n)
    ensures Indexed(codec, IndexBlock(index, n, e), chunks, n + 1)
  {
    hide EntryOf, Flat;
  }

  lemma IndexedNext(codec: Codec, index: Index, chunks: Chunks, b: Bytes)
    requires chunks != [] && Indexed(codec, index, chunks, |Flat(chunks)|)
    ensures var n := |Flat(chunks)|;
            var e := EntryFor(codec, |chunks| - 1, InfoOf(chunks).latestFileSize, b);
            Indexed(codec, IndexBlock(index, n, e), WithBlock(chunks, b), n + 1)
  {
    hide FileOf, Flat, Indexed, EncodeVarint, InfoOf, EntryFor, EntryOf, WithBlock;
    IndexedStable(codec, index, chunks, WithBlock(chunks, b), |Flat(chunks)|);
    EntryOfLast(codec, chunks, b);
    IndexedExtend(codec, index, WithBlock(chunks, b), |Flat(chunks)|,
                  EntryFor(codec, |chunks| - 1, InfoOf(chunks).latestFileSize, b));
  }

  lemma NewFileConsistent(codec: Codec, d: Disk, chunks: Chunks)
    requires chunks != [] && Flat(chunks) != [] && Holds(d.files, chunks, []) && |d.files| == |chunks| + 1
    requires d.open == |chunks| && d.synced == 0
    requires d.saved == [Info(|chunks|, 0, false, |Flat(chunks)| - 1)]
    requires Indexed(codec, d.index, chunks, |Flat(chunks)|)
    ensures Consistent(d, chunks + [[]], []) && Flat(chunks + [[]]) == Flat(chunks)
    ensures InfoOf(chunks + [[]]) == d.saved[0]
    ensures Indexed(codec, d.index, chunks + [[]], |Flat(chunks)|)
  {
    hide FileOf, AllFit;
    var chunks' := chunks + [[]];
    FlatNewFile(chunks);
    IndexedStable(codec, d.index, chunks, chunks', |Flat(chunks)|);
    assert Earlier(chunks') == chunks && Current(chunks') == [];
    FirstChunk(chunks);
    EmptyFile();
    assert FileOf([]) + [] == [] && FileOf(Current(chunks)) + [] == FileOf(Current(chunks));
    assert SavedAt(d.saved[0], chunks') by {
      assert Current(chunks')[..0] == [];
      assert d.saved[0] == InfoAt(chunks', 0);
    }
  }

  lemma EmptyFile()
    ensures FileOf([]) == [] && AllFit([])
  {
  }

  lemma FirstChunk(chunks: Chunks)
    requires WellFilled(chunks) && Flat(chunks) != []
    ensures chunks[0] != []
  {
    if |chunks| == 1 {
      assert Earlier(chunks) == [];
    }
  }

  // ----- restart -----

  lemma SyncInfoFound(d: Disk, chunks: Chunks, tail: Bytes)
    requires Crashed(d.files, chunks, tail) && |d.saved| == 1 && SavedAt(d.saved[0], chunks)
    ensures SyncInfo(d.files, d.saved[0]) == Some(InfoOf(chunks)) && |chunks| - 1 <= |d.files|
  {
    hide Crashed, SyncInfo, FileOf;
    var j :| 0 <= j <= |Current(chunks)| && d.saved[0] == InfoAt(chunks, j);
    SyncInfoExact(d.files, chunks, tail, j);
    LaterFilesEmpty(d.files, chunks, tail);
  }

  lemma ReopenedConsistent(d: Disk, chunks: Chunks, tail: Bytes)
    requires Crashed(d.files, chunks, tail) && d.saved == [InfoOf(chunks)] && |d.files| >= |chunks|
    requires d.open == |chunks| - 1 && d.synced == InfoOf(chunks).latestFileSize
    ensures Consistent(Truncated(d, InfoOf(chunks).latestFileSize), chunks, [])
  {
    hide FileOf, AllFit, CutRecord;
    var bs := Current(chunks);
    var base := FileOf(bs);
    assert bs[..|bs|] == bs && base + [] == base;
    assert (base + tail)[..|base|] == base;
    assert SavedAt(InfoOf(chunks), chunks);
  }

  /** The number in the summary counts the blocks. */
  lemma InfoCounts(chunks: Chunks)
    requires chunks != []
    ensures InfoOf(chunks).latestFileNumber == |chunks| - 1
    ensures InfoOf(chunks).noBlockFiles <==> Flat(chunks) == []
    ensures Flat(chunks) != [] ==> InfoOf(chunks).lastPersistedBlock == |Flat(chunks)| - 1
  {
  }

  lemma FirstBlockIsZero(codec: Codec, files: seq<Bytes>, chunks: Chunks)
    requires Holds(files, chunks, []) && Numbered(codec, Flat(chunks)) && Flat(chunks) != []
    ensures |files| > 0 && Next(files[0], 0).Block? && codec.number(Next(files[0], 0).bytes) == 0
  {
    hide AllFit, Next, EncodeVarint;
    FirstChunk(chunks);
    assert chunks[..0] == [] && chunks[0][..0] == [];
    LocateAt(chunks, 0, 0);
    NextAt(chunks[0], [], 0);
    assert FileOf(chunks[0]) + [] == FileOf(chunks[0]);
  }

  /** blockStream's nextBlockBytesAndPlacementInfo: at the end of a file it goes on with the next.
      The result says where the read took place. */
  function NextAcross(files: seq<Bytes>, f: nat, offset: nat, end: nat): (Read, nat, nat)
    requires f <= end < |files|
    decreases end - f
  {
    var r := Next(files[f], offset);
    if r.End? && f < end then NextAcross(files, f + 1, 0, end) else (r, f, offset)
  }

  /** From the start of any record, or the end of any file, the stream gives the next block where
      it is, across files, and ends after the last. */
  lemma {:induction false} AcrossFinds(files: seq<Bytes>, chunks: Chunks, f: nat, j: nat)
    requires Holds(files, chunks, []) && f < |chunks| && j <= |chunks[f]|
    ensures var n := |Flat(chunks[..f])| + j;
            var (r, at, start) := NextAcross(files, f, Offset(chunks[f], j), |chunks| - 1);
            && n <= |Flat(chunks)|
            && at < |files|
            && if n == |Flat(chunks)| then r == End
               else
                 var (f', j') := Locate(chunks, n);
                 && at == f' && start == Offset(chunks[f'], j')
                 && r == Next(files[at], start)
                 && r == Block(Flat(chunks)[n], start + |EncodeVarint(|Flat(chunks)[n]|)|, Offset(chunks[f'], j' + 1))
    decreases |chunks| - f
  {
    hide FileOf, AllFit, Next, EncodeVarint, Flat, Locate;
    assert files[f] == FileOf(chunks[f]) + [] by {
      assert FileOf(chunks[f]) + [] == FileOf(chunks[f]);
    }
    if j < |chunks[f]| {
      LocateAt(chunks, f, j);
      NextAt(chunks[f], [], j);
    } else {
      assert chunks[f][..j] == chunks[f];
      EndAtEnd(files[f]);
      FlatUpTo(chunks, f);
      if f < |chunks| - 1 {
        assert chunks[f + 1][..0] == [];
        EmptyFile();
        AcrossFinds(files, chunks, f + 1, 0);
      }
    }
  }

  lemma EndAtEnd(file: Bytes)
    ensures Next(file, |file|) == End
  {
  }

  lemma FlatUpTo(chunks: Chunks, f: nat)
    requires f < |chunks|
    ensures Flat(chunks[..f + 1]) == Flat(chunks[..f]) + chunks[f]
    ensures chunks[..|chunks|] == chunks
  {
    assert chunks[..f + 1][..f] == chunks[..f];
  }

  /** The index entry at the save point says where the last indexed block is. */
  lemma IndexSavePoint(codec: Codec, index: Index, chunks: Chunks, k: nat)
    requires Indexed(codec, index, chunks, k)
    ensures index.savePoint == (if k == 0 then None else Some(k - 1)) && k <= |Flat(chunks)|
    ensures k > 0 ==>
              && k - 1 in index.entries
              && var (f, j) := Locate(chunks, k - 1);
              && index.entries[k - 1].fileNum == f && index.entries[k - 1].offset == Offset(chunks[f], j)
  {
  }

  lemma StartOfAll(chunks: Chunks)
    requires chunks != []
    ensures Flat(chunks[..0]) == [] && Offset(chunks[0], 0) == 0
  {
    assert chunks[0][..0] == [];
  }

  lemma IndexedBound(codec: Codec, index: Index, chunks: Chunks, k: nat)
    requires Indexed(codec, index, chunks, k)
    ensures k <= |Flat(chunks)|
  {
  }

  /** Moving to the next file is crash safe exactly when a block has been written: the summary it
      saves says that there are blocks. A first block too large for a file therefore breaks recovery. */
  lemma MoveIsSafeIff(codec: Codec, d: Disk, chunks: Chunks)
    requires Consistent(d, chunks, []) && Numbered(codec, Flat(chunks))
    requires Indexed(codec, d.index, chunks, |Flat(chunks)|)
    ensures CrashSafe(codec, AfterMove(d, InfoOf(chunks)), Flat(chunks)) <==> Flat(chunks) != []
  {
    var d' := AfterMove(d, InfoOf(chunks));
    if Flat(chunks) != [] {
      MoveIsSafe(codec, d, chunks);
    } else {
      EmptyStore(d, chunks);
      MovedEmptyFails(codec, d');
    }
  }

  lemma MoveIsSafe(codec: Codec, d: Disk, chunks: Chunks)
    requires Consistent(d, chunks, []) && Numbered(codec, Flat(chunks)) && Flat(chunks) != []
    requires Indexed(codec, d.index, chunks, |Flat(chunks)|)
    ensures var d' := AfterMove(d, InfoOf(chunks));
            && CrashSafe(codec, d', Flat(chunks)) && Consistent(d', chunks + [[]], [])
            && Indexed(codec, d'.index, chunks + [[]], |Flat(chunks)|) && InfoOf(chunks + [[]]) == d'.saved[0]
  {
    hide FileOf, AllFit, Indexed, Flat, CrashSafe;
    InfoCounts(chunks);
    var d' := AfterMove(d, InfoOf(chunks));
    NewFileConsistent(codec, d', chunks);
    SafeWithoutTail(codec, d', chunks + [[]], |Flat(chunks)|, Flat(chunks));
  }

  lemma EmptyStore(d: Disk, chunks: Chunks)
    requires Consistent(d, chunks, []) && Flat(chunks) == []
    ensures chunks == [[]] && AfterMove(d, InfoOf(chunks)).files == [[], []]
    ensures AfterMove(d, InfoOf(chunks)).saved == [Info(1, 0, false, 0)]
  {
    if chunks[0] != [] {
      FlatNonempty(chunks);
    }
    assert |chunks| == 1 && chunks == [[]];
    assert Earlier(chunks) == [];
  }

  lemma MovedEmptyFails(codec: Codec, d: Disk)
    requires d.files == [[], []] && d.open == 1 && d.synced == 0 && d.saved == [Info(1, 0, false, 0)]
    ensures !CrashSafe(codec, d, [])
  {
    assert CutFiles(d, 0, 2, d.files) by {
      assert d.files[1][..0] == [];
    }
    assert CrashImage(d, d);
    assert d.files[..1] == [[]] && d.files[..1][..0] == [];
    assert AllBlocks(d.files[..1]) == [];
    assert AllBlocks(d.files) == [];
    assert SyncInfo(d.files, d.saved[0]) == Some(Info(1, 0, false, 0));
    assert !RestartsRight(d, []);
  }
}
