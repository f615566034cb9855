/**
 The host tool that makes volumes and copies files in and out of them. It works on the same
 format as the kernel driver, with its own plain bitmap search and its own block counts.
 */
module TfsTool {
  import opened Sequences
  import opened Bitmap
  import opened TfsFormat
  import Tfs

  // ---------- A new volume ----------

  /** The part of a disk that one allocation block can describe, which is all the driver uses. */
  ghost function Described(d: Image): Image {
    if |d| <= MAX_BLOCKS then d else d[..MAX_BLOCKS]
  }

  /** tfstool_createvol; null stands for the tool's complaint that the size is too small. */
  method CreateVolume(size: int, volume: string) returns (disk: Disk?)
    ensures disk == null <==> size < 3
    ensures disk != null ==> fresh(disk) && |disk.blocks| == size && VolumeOk(Described(disk.blocks))
    ensures disk != null ==> Tfs.Mountable(disk.blocks) && disk.blocks[HEADER].volume == volume
    ensures disk != null ==> Files(Described(disk.blocks)) == map[]
    ensures disk != null ==> FreeSpace(Described(disk.blocks)) == BLOCK_SIZE * (Tfs.Min(size, MAX_BLOCKS) - 3)
  {
    if size < 3 {
      return null;
    }
    var bat := new Word[128];
    Init(bat, 8 * BLOCK_SIZE);
    Set(bat, HEADER, true);
    Set(bat, ALLOCATION, true);
    Set(bat, DIRECTORY, true);
    var blocks := [Header(MAGIC, volume), Bat(bat[..]), Directory(seq(MAX_FILES, _ => VACANT))];
    for i := 3 to size
      invariant |blocks| == i && blocks[HEADER] == Header(MAGIC, volume) && blocks[ALLOCATION] == Bat(bat[..])
      invariant blocks[DIRECTORY] == Directory(seq(MAX_FILES, _ => VACANT))
    {
      blocks := blocks + [Data(Zeros(BLOCK_SIZE))];
    }
    EmptyVolume(Described(blocks));
    disk := new Disk(blocks);
  }

  lemma EmptyVolume(d: Image)
    requires Formatted(d) && forall i :: 0 <= i < MAX_FILES ==> Entries(d)[i] == VACANT
    requires forall p :: 0 <= p < |d| ==> (Bits(d[ALLOCATION].words)[p] <==> p < 3)
    ensures VolumeOk(d) && Files(d) == map[] && FreeSpace(d) == BLOCK_SIZE * (|d| - 3)
  {
    FlatEmpty(OwnedLists(d, Entries(d)));
    Conservation(d);
  }

  lemma {:induction false} FlatEmpty(lists: seq<seq<nat>>)
    requires forall i :: 0 <= i < |lists| ==> lists[i] == []
    ensures Flat(lists) == []
  {
    if lists != [] {
      FlatEmpty(lists[1..]);
    }
  }

  // ---------- Copying a file in ----------

  /** The data blocks the tool uses: one more than needed for a multiple of the block size below the maximum. */
  function BlocksTaken(size: nat): (n: nat)
    ensures size <= MAX_FILESIZE ==>
      n == Tfs.NumBlocks(size) + (if size % BLOCK_SIZE == 0 && size < MAX_FILESIZE then 1 else 0)
  {
    if size == MAX_FILESIZE then BLOCKS_MAX else size / BLOCK_SIZE + 1
  }

  /** The first free entry; -1 if the name is taken or all entries are. */
  method ChooseFirst(d: Image, name: string) returns (index: int)
    requires VolumeOk(d) && ValidName(name)
    ensures index == -1 <==> name in Files(d) || !Tfs.HasVacancy(Entries(d))
    ensures index != -1 ==> 0 <= index < MAX_FILES && Entries(d)[index].inode == 0 && !HasName(Entries(d), name)
    ensures index != -1 ==> forall i :: 0 <= i < index ==> Entries(d)[i].inode != 0
  {
    var taken, i := ScanFirst(d[DIRECTORY].entries, name);
    Tfs.NameMeansFile(d, name);
    return if taken then -1 else i;
  }

  method ScanFirst(es: seq<Entry>, name: string) returns (taken: bool, index: int)
    ensures taken <==> exists i :: 0 <= i < |es| && es[i].name == name
    ensures -1 <= index < |es|
    ensures !taken && index == -1 ==> forall i :: 0 <= i < |es| ==> es[i].inode != 0
    ensures !taken && index >= 0 ==> es[index].inode == 0 && forall i :: 0 <= i < index ==> es[i].inode != 0
  {
    taken, index := false, -1;
    for i := 0 to |es|
      invariant -1 <= index < i
      invariant forall k :: 0 <= k < i ==> es[k].name != name
      invariant forall k :: 0 <= k < (if index == -1 then i else index) ==> es[k].inode != 0
      invariant index >= 0 ==> es[index].inode == 0
    {
      if es[i].inode == 0 && index == -1 {
        index := i;
      }
      if es[i].name == name {
        return true, index;
      }
    }
  }

  /** One more block, found by the plain scan. */
  method Grab(bat: array<Word>, total: nat, ghost bits0: seq<bool>, ghost taken: seq<nat>) returns (b: int)
    requires total <= 32 * bat.Length && Grabbed(bits0, Bits(bat[..]), total, taken)
    modifies bat
    ensures b == -1 ==> CountClear(bits0[..total]) == |taken|
    ensures b != -1 ==> b >= 0 && Grabbed(bits0, Bits(bat[..]), total, taken + [b as nat])
  {
    ghost var bits := Bits(bat[..]);
    CountClearZero(bits[..total]);
    b := ScanAll(bat, total);
    if b >= 0 {
      GrabNext(bits0, bits, total, taken, b);
    }
  }

  /** Of `source`, the first `size` bytes are on the blocks `bs`; besides, only the bitmap in memory has changed. */
  ghost predicate CopiedIn(d: Image, d': Image, bits: seq<bool>, source: seq<Byte>, ino: nat, bs: seq<nat>, size: nat) {
    && VolumeOk(d) && Grabbed(Bits(d[ALLOCATION].words), bits, |d|, [ino] + bs)
    && Tfs.Touches(d, d', bs) && size <= |source| && size <= BLOCK_SIZE * |bs|
    && Joined(d', bs)[..size] == source[..size]
  }

  /** A block more: what is written to it comes behind what is there. */
  lemma NextBlock(d: Image, d': Image, d'': Image, bits: seq<bool>, bits': seq<bool>, source: seq<Byte>, ino: nat,
                  bs: seq<nat>, size: nat, b: nat, data: seq<Byte>, size': nat)
    requires CopiedIn(d, d', bits, source, ino, bs, size) && size == BLOCK_SIZE * |bs|
    requires Grabbed(Bits(d[ALLOCATION].words), bits', |d|, [ino] + bs + [b])
    requires b < |d| && |data| == BLOCK_SIZE && d'' == d'[b := Data(data)]
    requires size <= size' <= |source| && size' - size <= BLOCK_SIZE && data[..size' - size] == source[size..size']
    ensures CopiedIn(d, d'', bits', source, ino, bs + [b], size')
  {
    assert [ino] + bs + [b] == [ino] + (bs + [b]);
    ReservedRange(d, bits', ino, bs + [b]);
    DistinctConcat(bs, [b]);
    assert b in [ino] + (bs + [b]);
    TouchesMore(d, d', d'', bs, b, data);
    BlockMore(d', d'', bs, b, data);
    BytesMore(Joined(d', bs), data, source, size, size');
  }

  lemma TouchesMore(d: Image, d': Image, d'': Image, bs: seq<nat>, b: nat, data: seq<Byte>)
    requires Tfs.Touches(d, d', bs) && 3 <= b < |d| && b !in bs && |data| == BLOCK_SIZE && d'' == d'[b := Data(data)]
    ensures Tfs.Touches(d, d'', bs + [b])
  {
  }

  lemma BytesMore(bytes: seq<Byte>, data: seq<Byte>, source: seq<Byte>, size: nat, size': nat)
    requires |bytes| == size <= size' <= |source| && size' - size <= |data| && bytes[..size] == source[..size]
    requires data[..size' - size] == source[size..size']
    ensures (bytes + data)[..size'] == source[..size']
  {
    assert (bytes + data)[..size'] == bytes + data[..size' - size];
    assert source[..size'] == source[..size] + source[size..size'];
  }

  lemma BlockMore(d: Image, d': Image, bs: seq<nat>, b: nat, data: seq<Byte>)
    requires b < |d| && b !in bs && |data| == BLOCK_SIZE && d' == d[b := Data(data)]
    ensures Joined(d', bs + [b]) == Joined(d, bs) + data
  {
    var after := Joined(d', bs + [b]);
    forall k | 0 <= k < |after|
      ensures after[k] == (Joined(d, bs) + data)[k]
    {
      var q := k / BLOCK_SIZE;
      if q < |bs| {
        assert bs[q] in bs && (bs + [b])[q] == bs[q];
        assert k < BLOCK_SIZE * |bs|;
      } else {
        assert q == |bs| && k == BLOCK_SIZE * |bs| + k % BLOCK_SIZE;
      }
    }
  }

  /** After `i` turns of the loop: that many block numbers are in the inode, and the blocks hold the source so far. */
  ghost predicate Progress(d: Image, d': Image, bits: seq<bool>, source: seq<Byte>, ino: nat, ptrs: seq<nat>, i: nat,
                           size: nat) {
    && i <= |ptrs| == BLOCKS_MAX && (forall k :: i <= k < BLOCKS_MAX ==> ptrs[k] == 0)
    && CopiedIn(d, d', bits, source, ino, ptrs[..i], size)
  }

  /** fread and write_block: the next at most 512 bytes of the source go to block `b`. */
  method CopyChunk(disk: Disk, b: nat, source: seq<Byte>, filesize: nat, data: array<Byte>) returns (n: nat)
    requires b < |disk.blocks| && filesize <= |source| && data.Length == BLOCK_SIZE
    modifies disk, data
    ensures n == Tfs.Min(BLOCK_SIZE, |source| - filesize)
    ensures |data[..]| == BLOCK_SIZE && data[..n] == source[filesize..filesize + n]
    ensures disk.blocks == old(disk.blocks)[b := Data(data[..])]
  {
    n := Tfs.Min(BLOCK_SIZE, |source| - filesize);
    Tfs.MemCopy(source[filesize..filesize + n], data, 0);
    disk.blocks := disk.blocks[b := Data(data[..])];
  }

  /** One turn of the loop of tfstool_write; `more` says that the end of the source was not met. */
  method CopyTurn(disk: Disk, bat: array<Word>, source: seq<Byte>, ptrs: array<nat>, i: nat, filesize: nat,
                  data: array<Byte>,
                  ghost d: Image, ghost ino: nat) returns (writeOk: bool, more: bool, filesize': nat)
    requires i < BLOCKS_MAX && data.Length == BLOCK_SIZE && |d| <= 32 * bat.Length && filesize == BLOCK_SIZE * i
    requires Progress(d, disk.blocks, Bits(bat[..]), source, ino, ptrs[..], i, filesize)
    modifies disk, bat, ptrs, data
    ensures writeOk ==> Progress(d, disk.blocks, Bits(bat[..]), source, ino, ptrs[..], i + 1, filesize')
    ensures writeOk ==> filesize' == Tfs.Min(filesize + BLOCK_SIZE, |source|)
    ensures writeOk ==> (more <==> filesize + BLOCK_SIZE <= |source|)
    ensures !writeOk ==> CopyDone(d, disk.blocks, Bits(bat[..]), source, ino, ptrs[..], i, filesize', false)
  {
    ghost var bits, bs := Bits(bat[..]), ptrs[..i];
    var total := |disk.blocks|;
    assert ptrs[..][..i] == bs;
    var b := Grab(bat, total, Bits(d[ALLOCATION].words), [ino] + bs);
    if b == -1 {
      StoppedShort(d, disk.blocks, bits, Bits(bat[..]), source, ino, ptrs[..], i);
      return false, false, filesize;
    }
    BehindSystem(d, Bits(bat[..]), [ino] + bs, b);
    assert 2 < b < total;
    filesize' := TakeBlock(disk, b, source, ptrs, i, filesize, data, d, bits, Bits(bat[..]), ino);
    return true, filesize' == filesize + BLOCK_SIZE, filesize';
  }

  /** The turn's work with the block it has found. */
  method TakeBlock(disk: Disk, b: nat, source: seq<Byte>, ptrs: array<nat>, i: nat, filesize: nat, data: array<Byte>,
                   ghost d: Image, ghost bits: seq<bool>, ghost bits': seq<bool>, ghost ino: nat)
    returns (filesize': nat)
    requires i < BLOCKS_MAX && data.Length == BLOCK_SIZE && filesize == BLOCK_SIZE * i && 3 <= b < |d|
    requires Progress(d, disk.blocks, bits, source, ino, ptrs[..], i, filesize)
    requires Grabbed(Bits(d[ALLOCATION].words), bits', |d|, [ino] + ptrs[..i] + [b])
    modifies disk, ptrs, data
    ensures Progress(d, disk.blocks, bits', source, ino, ptrs[..], i + 1, filesize')
    ensures filesize' == Tfs.Min(filesize + BLOCK_SIZE, |source|)
  {
    assert ptrs[..][..i] == ptrs[..i];
    filesize' := FillBlock(disk, b, source, ptrs, i, filesize, data, d, bits, bits', ino);
    assert ptrs[..][..i + 1] == ptrs[..i + 1];
  }

  lemma BehindSystem(d: Image, bits: seq<bool>, taken: seq<nat>, b: nat)
    requires VolumeOk(d) && Grabbed(Bits(d[ALLOCATION].words), bits, |d|, taken + [b])
    ensures 3 <= b < |d|
  {
    assert b in taken + [b];
    assert BlockBits(d)[b] == Bits(d[ALLOCATION].words)[b];
  }

  /** The block found is filled and entered in the inode. */
  method FillBlock(disk: Disk, b: nat, source: seq<Byte>, ptrs: array<nat>, i: nat, filesize: nat, data: array<Byte>,
                   ghost d: Image, ghost bits: seq<bool>, ghost bits': seq<bool>, ghost ino: nat)
    returns (filesize': nat)
    requires i < ptrs.Length && data.Length == BLOCK_SIZE && filesize == BLOCK_SIZE * i && 3 <= b < |d|
    requires CopiedIn(d, disk.blocks, bits, source, ino, ptrs[..i], filesize)
    requires Grabbed(Bits(d[ALLOCATION].words), bits', |d|, [ino] + ptrs[..i] + [b])
    modifies disk, ptrs, data
    ensures forall k :: i < k < ptrs.Length ==> ptrs[k] == old(ptrs[k])
    ensures CopiedIn(d, disk.blocks, bits', source, ino, ptrs[..i + 1], filesize')
    ensures filesize' == Tfs.Min(filesize + BLOCK_SIZE, |source|)
  {
    ghost var bs, d' := ptrs[..i], disk.blocks;
    var n := CopyChunk(disk, b, source, filesize, data);
    ptrs[i] := b;
    NextBlock(d, d', disk.blocks, bits, bits', source, ino, bs, filesize, b, data[..], filesize + n);
    assert ptrs[..i + 1] == bs + [b];
    filesize' := filesize + n;
  }

  /** What the copying loop leaves: all of the source that fits a file, or as much as there were blocks for. */
  ghost predicate CopyDone(d: Image, d': Image, bits: seq<bool>, source: seq<Byte>, ino: nat, ptrs: seq<nat>,
                           count: nat,
                           filesize: nat, writeOk: bool) {
    && count <= |ptrs| == BLOCKS_MAX && (forall k :: count <= k < BLOCKS_MAX ==> ptrs[k] == 0)
    && Tfs.Touches(d, d', ptrs[..count]) && VolumeOk(d)
    && (forall b :: b in ptrs[..count] ==> b < |d| && !BlockBits(d)[b])
    && var wanted := Tfs.Min(|source|, MAX_FILESIZE);
      if writeOk
      then filesize == wanted && count == BlocksTaken(wanted) &&
           CopiedIn(d, d', bits, source, ino, ptrs[..count], filesize)
      else CountClear(BlockBits(d)) == 1 + count < 1 + BlocksTaken(wanted)
  }

  /** The loop of tfstool_write. */
  method CopyIn(disk: Disk, bat: array<Word>, source: seq<Byte>, ptrs: array<nat>, ghost ino: nat)
    returns (writeOk: bool, filesize: nat, ghost count: nat)
    requires VolumeOk(disk.blocks) && |disk.blocks| <= 32 * bat.Length && ptrs.Length == BLOCKS_MAX
    requires forall k :: 0 <= k < BLOCKS_MAX ==> ptrs[k] == 0
    requires Grabbed(Bits(disk.blocks[ALLOCATION].words), Bits(bat[..]), |disk.blocks|, [ino])
    modifies disk, bat, ptrs
    ensures CopyDone(old(disk.blocks), disk.blocks, Bits(bat[..]), source, ino, ptrs[..], count, filesize, writeOk)
  {
    ghost var d := disk.blocks;
    var data := new Byte[BLOCK_SIZE];
    var total := |disk.blocks|;
    var i := 0;
    writeOk, filesize, count := true, 0, 0;
    assert [ino] + ptrs[..][..0] == [ino];
    while i < total && filesize < MAX_FILESIZE
      invariant 0 <= i == count <= BLOCKS_MAX && filesize == BLOCK_SIZE * i && writeOk
      invariant Progress(d, disk.blocks, Bits(bat[..]), source, ino, ptrs[..], i, filesize)
    {
      var more;
      writeOk, more, filesize := CopyTurn(disk, bat, source, ptrs, i, filesize, data, d, ino);
      if !writeOk {
        return;
      }
      i, count := i + 1, count + 1;
      if !more {
        Finished(d, disk.blocks, Bits(bat[..]), source, ino, ptrs[..], i, filesize);
        return;
      }
    }
    RoomForAll(d, disk.blocks, Bits(bat[..]), source, ino, ptrs[..][..i], filesize);
    Finished(d, disk.blocks, Bits(bat[..]), source, ino, ptrs[..], i, filesize);
  }

  lemma StoppedShort(d: Image, d': Image, bits: seq<bool>, bits': seq<bool>, source: seq<Byte>, ino: nat,
                     ptrs: seq<nat>, i: nat)
    requires i < BLOCKS_MAX && Progress(d, d', bits, source, ino, ptrs, i, BLOCK_SIZE * i)
    requires CountClear(BlockBits(d)) == 1 + i
    ensures CopyDone(d, d', bits', source, ino, ptrs, i, BLOCK_SIZE * i, false)
  {
    CopiedBlocksFree(d, d', bits, source, ino, ptrs[..i], BLOCK_SIZE * i);
    assert i < BlocksTaken(Tfs.Min(|source|, MAX_FILESIZE));
  }

  lemma Finished(d: Image, d': Image, bits: seq<bool>, source: seq<Byte>, ino: nat, ptrs: seq<nat>, i: nat, size: nat)
    requires Progress(d, d', bits, source, ino, ptrs, i, size)
    requires (size == |source| < BLOCK_SIZE * i <= |source| + BLOCK_SIZE) || (size == MAX_FILESIZE && i == BLOCKS_MAX)
    ensures CopyDone(d, d', bits, source, ino, ptrs, i, size, true)
  {
    CopiedBlocksFree(d, d', bits, source, ino, ptrs[..i], size);
    assert i == BlocksTaken(Tfs.Min(|source|, MAX_FILESIZE));
  }

  lemma CopiedBlocksFree(d: Image, d': Image, bits: seq<bool>, source: seq<Byte>, ino: nat, bs: seq<nat>, size: nat)
    requires CopiedIn(d, d', bits, source, ino, bs, size)
    ensures forall b :: b in bs ==> b < |d| && !BlockBits(d)[b]
  {
    ReservedRange(d, bits, ino, bs);
    assert forall b :: b in bs ==> b in [ino] + bs;
  }

  /** The bound on the number of turns never ends the loop. */
  lemma RoomForAll(d: Image, d': Image, bits: seq<bool>, source: seq<Byte>, ino: nat, bs: seq<nat>, size: nat)
    requires CopiedIn(d, d', bits, source, ino, bs, size)
    ensures |bs| < |d|
  {
    CountClearZero(BlockBits(d));
  }

  /** Exactly when the tool can store a file. */
  ghost predicate Storable(d: Image, source: seq<Byte>, target: string)
    requires VolumeOk(d)
  {
    |source| <= MAX_FILESIZE && Tfs.CanHold(d, target, BlocksTaken(|source|))
  }

  /** A failed attempt may have written to free blocks, which changes no file. */
  ghost predicate NothingStored(d: Image, d': Image) {
    && VolumeOk(d) && VolumeOk(d') && |d'| == |d| && Files(d') == Files(d)
    && forall b :: 0 <= b < |d| && BlockBits(d)[b] ==> d'[b] == d[b]
  }

  /** tfstool_write. */
  method WriteFile(disk: Disk, source: seq<Byte>, target: string) returns (ok: bool)
    requires VolumeOk(disk.blocks) && ValidName(target)
    modifies disk
    ensures ok <==> Storable(old(disk.blocks), source, target)
    ensures ok ==> Added(old(disk.blocks), disk.blocks, target, source, BlocksTaken(|source|))
    ensures ok ==> Placed(old(disk.blocks), disk.blocks, target)
    ensures !ok ==> NothingStored(old(disk.blocks), disk.blocks)
  {
    var index := ChooseFirst(disk.blocks, target);
    if index == -1 {
      return false;
    }
    var bat := Tfs.LoadBat(disk.blocks);
    var total := |disk.blocks|;
    var ino := Grab(bat, total, Bits(bat[..]), []);
    if ino == -1 {
      return false;
    }
    BehindSystem(disk.blocks, Bits(bat[..]), [], ino);
    assert 2 < ino < total;
    assert [] + [ino as nat] == [ino as nat];
    ok := StoreSource(disk, bat, index, source, Entry(ino, target));
  }

  /** With the inode's block reserved: copies the data, and if all went well writes the system blocks. */
  method StoreSource(disk: Disk, bat: array<Word>, index: nat, source: seq<Byte>, e: Entry) returns (ok: bool)
    requires CanEnter(disk.blocks, index, e) && bat.Length == |disk.blocks[ALLOCATION].words|
    requires Grabbed(Bits(disk.blocks[ALLOCATION].words), Bits(bat[..]), |disk.blocks|, [e.inode])
    modifies disk, bat
    ensures ok <==> |source| <= MAX_FILESIZE && Roomy(old(disk.blocks), BlocksTaken(|source|))
    ensures ok ==> Added(old(disk.blocks), disk.blocks, e.name, source, BlocksTaken(|source|))
    ensures ok ==> Placed(old(disk.blocks), disk.blocks, e.name)
    ensures !ok ==> NothingStored(old(disk.blocks), disk.blocks)
  {
    ghost var d := disk.blocks;
    var ptrs := new nat[BLOCKS_MAX](_ => 0);
    ghost var count;
    var writeOk, filesize;
    writeOk, filesize, count := CopyIn(disk, bat, source, ptrs, e.inode);
    if filesize != |source| || !writeOk {
      GivenUp(d, disk.blocks, Bits(bat[..]), source, e.inode, ptrs[..], count, filesize, writeOk);
      return false;
    }
    WriteMetadata(disk, bat, index, source, e, filesize, ptrs, d, count);
    return true;
  }

  /** With all the data copied: the file is in the volume once the system blocks are written. */
  method WriteMetadata(disk: Disk, bat: array<Word>, index: nat, source: seq<Byte>, e: Entry, filesize: nat,
                       ptrs: array<nat>, ghost d: Image, ghost count: nat)
    requires CanEnter(d, index, e) && ptrs.Length == BLOCKS_MAX
    requires CopyDone(d, disk.blocks, Bits(bat[..]), source, e.inode, ptrs[..], count, filesize, true)
    requires filesize == |source|
    modifies disk
    ensures |source| <= MAX_FILESIZE && Roomy(d, BlocksTaken(|source|))
    ensures Added(d, disk.blocks, e.name, source, BlocksTaken(|source|)) && Placed(d, disk.blocks, e.name)
  {
    ghost var d1 := disk.blocks;
    CopyLeavesSystem(d, d1, Bits(bat[..]), source, e.inode, ptrs[..], count, filesize);
    WriteSystem(disk, bat, index, e, filesize, ptrs, d);
    SourceStored(d, d1, disk.blocks, bat[..], index, e, source, ptrs[..], count, filesize);
  }

  /** The inode, then the directory, then the allocation block. */
  method WriteSystem(disk: Disk, bat: array<Word>, index: nat, e: Entry, filesize: nat, ptrs: array<nat>,
                     ghost d: Image)
    requires CanEnter(d, index, e) && |disk.blocks| == |d| && ptrs.Length == BLOCKS_MAX
    requires disk.blocks[HEADER] == d[HEADER] && disk.blocks[DIRECTORY] == d[DIRECTORY]
    modifies disk
    ensures Entered(d, old(disk.blocks), disk.blocks, bat[..], index, e, filesize, ptrs[..])
  {
    var entries := disk.blocks[DIRECTORY].entries;
    disk.blocks := disk.blocks[e.inode := Inode(filesize, ptrs[..])];
    disk.blocks := disk.blocks[DIRECTORY := Directory(entries[index := e])];
    disk.blocks := disk.blocks[ALLOCATION := Bat(bat[..])];
  }

  lemma GivenUp(d: Image, d': Image, bits: seq<bool>, source: seq<Byte>, ino: nat, ptrs: seq<nat>, count: nat,
                size: nat, writeOk: bool)
    requires CopyDone(d, d', bits, source, ino, ptrs, count, size, writeOk) && (size != |source| || !writeOk)
    ensures NothingStored(d, d') && !(|source| <= MAX_FILESIZE && Roomy(d, BlocksTaken(|source|)))
  {
    UnownedWrites(d, d');
  }

  lemma CopyLeavesSystem(d: Image, d': Image, bits: seq<bool>, source: seq<Byte>, ino: nat, ptrs: seq<nat>,
                         count: nat, size: nat)
    requires CopyDone(d, d', bits, source, ino, ptrs, count, size, true)
    ensures |d'| == |d| && d'[HEADER] == d[HEADER] && d'[ALLOCATION] == d[ALLOCATION] && d'[DIRECTORY] == d[DIRECTORY]
    ensures Used(ptrs) == ptrs[..count] && ino !in ptrs[..count] && forall b :: b in ptrs[..count] ==> b >= 3
  {
    ReservedRange(d, bits, ino, ptrs[..count]);
    assert forall b :: b in ptrs[..count] ==> b in [ino] + ptrs[..count];
    UsedIs(ptrs, count);
  }

  lemma SourceStored(d: Image, d1: Image, d': Image, words: seq<Word>, index: nat, e: Entry, source: seq<Byte>,
                     ptrs: seq<nat>, count: nat, size: nat)
    requires CopyDone(d, d1, Bits(words), source, e.inode, ptrs, count, size, true) && size == |source| <= MAX_FILESIZE
    requires Entered(d, d1, d', words, index, e, size, ptrs)
    ensures Added(d, d', e.name, source, BlocksTaken(|source|)) && Placed(d, d', e.name)
    ensures Roomy(d, BlocksTaken(|source|))
  {
    var bs := ptrs[..count];
    CopyLeavesSystem(d, d1, Bits(words), source, e.inode, ptrs, count, size);
    SourceLaid(d, d1, d', words, index, e, size, ptrs, bs);
    JoinedKept(d1, d', bs);
    assert source[..size] == source;
    LaidIsStored(d, d', words, index, e, source, ptrs, bs);
  }

  lemma LaidIsStored(d: Image, d': Image, words: seq<Word>, index: nat, e: Entry, source: seq<Byte>, ptrs: seq<nat>,
                     bs: seq<nat>)
    requires Laid(d, d', words, index, e, |source|, ptrs, bs) && Joined(d', bs)[..|source|] == source
    ensures Added(d, d', e.name, source, |bs|) && Placed(d, d', e.name) && Roomy(d, |bs|)
  {
    Stored(d, d', words, index, e, |source|, ptrs, bs);
    StoredPlaced(d, d', words, index, e, |source|, ptrs, bs);
  }

  lemma SourceLaid(d: Image, d1: Image, d': Image, words: seq<Word>, index: nat, e: Entry, size: nat, ptrs: seq<nat>,
                   bs: seq<nat>)
    requires Tfs.Touches(d, d1, bs) && Entered(d, d1, d', words, index, e, size, ptrs)
    requires Grabbed(Bits(d[ALLOCATION].words), Bits(words), |d|, [e.inode] + bs)
    requires Used(ptrs) == bs && size <= BLOCK_SIZE * |bs|
    requires e.inode !in bs && forall b :: b in bs ==> b >= 3
    ensures Laid(d, d', words, index, e, size, ptrs, bs)
  {
  }

  // ---------- Copying a file out, deleting ----------

  /** tfstool_read: the bytes written to the host's file. */
  method ReadFile(disk: Disk, name: string) returns (found: bool, out: seq<Byte>)
    requires VolumeOk(disk.blocks) && ValidName(name)
    ensures found <==> name in Files(disk.blocks)
    ensures found ==> out == Files(disk.blocks)[name].bytes
  {
    var es := disk.blocks[DIRECTORY].entries;
    Tfs.NameMeansFile(disk.blocks, name);
    var index := Tfs.FindName(es, name);
    if index < 0 {
      return false, [];
    }
    FileAt(disk.blocks, index);
    assert EntryOk(disk.blocks, es[index]);
    out := CopyOut(disk, es[index].inode);
    return true, out;
  }

  /** The loop of tfstool_read; behind the file's end it copies nothing. */
  method CopyOut(disk: Disk, ino: nat) returns (out: seq<Byte>)
    requires InodeOk(disk.blocks, ino)
    ensures out == FileBytes(disk.blocks, ino)
  {
    var ptrs, filesize := disk.blocks[ino].ptrs, disk.blocks[ino].filesize;
    ghost var bs := Used(ptrs);
    ghost var whole := Joined(disk.blocks, bs);
    var i := 0;
    out := [];
    while i < BLOCKS_MAX && ptrs[i] != 0
      invariant 0 <= i <= |bs| && out == whole[..Tfs.Min(BLOCK_SIZE * i, filesize)]
    {
      assert bs[i] == ptrs[i] && bs[i] in bs;
      var size := Tfs.Min(filesize - |out|, BLOCK_SIZE);
      BlockSlice(disk.blocks, bs, i, 0, size);
      OutMore(whole, filesize, i, size);
      out := out + disk.blocks[ptrs[i]].bytes[..size];
      i := i + 1;
    }
    assert i == |bs|;
  }

  lemma OutMore(whole: seq<Byte>, n: nat, i: nat, size: nat)
    requires n <= |whole| && BLOCK_SIZE * i + size <= |whole|
    requires size == Tfs.Min(n - Tfs.Min(BLOCK_SIZE * i, n), BLOCK_SIZE)
    ensures whole[..Tfs.Min(BLOCK_SIZE * i, n)] + whole[BLOCK_SIZE * i + 0..BLOCK_SIZE * i + size] ==
            whole[..Tfs.Min(BLOCK_SIZE * (i + 1), n)]
  {
  }

  /** tfstool_delete. */
  method DeleteFile(disk: Disk, name: string) returns (found: bool)
    requires VolumeOk(disk.blocks) && ValidName(name)
    modifies disk
    ensures found <==> name in old(Files(disk.blocks))
    ensures !found ==> disk.blocks == old(disk.blocks)
    ensures found ==> Removed(old(disk.blocks), disk.blocks, name) && Freed(old(disk.blocks), disk.blocks, name)
  {
    Tfs.NameMeansFile(disk.blocks, name);
    var es := disk.blocks[DIRECTORY].entries;
    var index := Tfs.FindName(es, name);
    if index < 0 {
      return false;
    }
    assert EntryOk(disk.blocks, es[index]);
    Wipe(disk, index);
    return true;
  }

  method Wipe(disk: Disk, index: nat)
    requires VolumeOk(disk.blocks) && index < MAX_FILES
    requires Entries(disk.blocks)[index].inode != 0 && EntryOk(disk.blocks, Entries(disk.blocks)[index])
    modifies disk
    ensures old(Entries(disk.blocks)[index].name in Files(disk.blocks))
    ensures Removed(old(disk.blocks), disk.blocks, old(Entries(disk.blocks)[index].name))
    ensures Freed(old(disk.blocks), disk.blocks, old(Entries(disk.blocks)[index].name))
  {
    ghost var d := disk.blocks;
    var es := disk.blocks[DIRECTORY].entries;
    var bat := Tfs.LoadBat(disk.blocks);
    ReleaseBlocks(bat, es[index].inode, disk.blocks[es[index].inode].ptrs);
    disk.blocks := disk.blocks[ALLOCATION := Bat(bat[..])];
    disk.blocks := disk.blocks[DIRECTORY := Directory(es[index := Entry(0, "")])];
    Cleared(d, disk.blocks, bat[..], index, es[index]);
    ClearedFreed(d, disk.blocks, bat[..], index, es[index]);
  }

  /** Clears the bits of the data blocks and then that of the inode block. */
  method ReleaseBlocks(bat: array<Word>, ino: nat, ptrs: seq<nat>)
    requires ino < 32 * bat.Length && forall b :: b in Used(ptrs) ==> b < 32 * bat.Length
    modifies bat
    ensures Dropped(old(Bits(bat[..])), Bits(bat[..]), [ino] + Used(ptrs))
  {
    ghost var bits := Bits(bat[..]);
    var i := 0;
    while i < |ptrs| && ptrs[i] != 0
      invariant 0 <= i <= |Used(ptrs)| && Dropped(bits, Bits(bat[..]), Used(ptrs)[..i])
    {
      assert Used(ptrs)[i] == ptrs[i] && ptrs[i] in Used(ptrs);
      Set(bat, ptrs[i], false);
      assert Used(ptrs)[..i + 1] == Used(ptrs)[..i] + [ptrs[i]];
      i := i + 1;
    }
    assert Used(ptrs)[..i] == Used(ptrs);
    Set(bat, ino, false);
  }
}
