/** The kernel's Trivial Filesystem driver, working on a disk of the format in TfsFormat. */
module Tfs {
  import opened Sequences
  import opened Bitmap
  import opened TfsFormat

  const VFS_OK := 0
  const VFS_ERROR := -2
  const VFS_NOT_FOUND := -5

  /** The data blocks of a file of `size` bytes: enough to hold it, and with one less it would not fit. */
  function NumBlocks(size: nat): (n: nat)
    ensures size <= BLOCK_SIZE * n && (n > 0 ==> BLOCK_SIZE * (n - 1) < size)
    ensures n <= BLOCKS_MAX <==> size <= MAX_FILESIZE
  {
    (size + BLOCK_SIZE - 1) / BLOCK_SIZE
  }

  /** No number of blocks smaller than that holds the file, and an empty file has none. */
  lemma LeastBlocks(size: nat, k: nat)
    ensures size <= BLOCK_SIZE * k <==> NumBlocks(size) <= k
    ensures NumBlocks(size) == 0 <==> size == 0
  {
    var n := NumBlocks(size);
    if k < n {
      assert BLOCK_SIZE * k <= BLOCK_SIZE * (n - 1);
    } else {
      assert BLOCK_SIZE * n <= BLOCK_SIZE * k;
    }
  }

  /** The allocation block, read into a buffer. */
  method LoadBat(d: Image) returns (bat: array<Word>)
    requires Formatted(d)
    ensures fresh(bat) && bat[..] == d[ALLOCATION].words
  {
    var words := d[ALLOCATION].words;
    bat := new Word[|words|](i requires 0 <= i < |words| => words[i]);
    assert bat[..] == words;
  }

  // ---------- Mounting ----------

  /** The test of tfs_init on the header block. */
  ghost predicate Mountable(d: Image) {
    |d| > 0 && d[HEADER].Header? && d[HEADER].magic == MAGIC
  }

  /** tfs_init on a disk of a format it knows: whether it accepts the disk, and the volume's name. */
  method Mount(disk: Disk) returns (ok: bool, volume: string)
    requires |disk.blocks| > 0 && disk.blocks[HEADER].Header?
    ensures ok <==> Mountable(disk.blocks)
    ensures ok ==> volume == disk.blocks[HEADER].volume
  {
    var header := disk.blocks[HEADER];
    if header.magic != MAGIC {
      return false, "";
    }
    return true, header.volume;
  }

  // ---------- Directory searches ----------

  /** The loop of tfs_open and tfs_remove. */
  method FindName(es: seq<Entry>, name: string) returns (index: int)
    ensures -1 <= index < |es|
    ensures index == -1 ==> forall i :: 0 <= i < |es| ==> es[i].name != name
    ensures index >= 0 ==> es[index].name == name && forall i :: 0 <= i < index ==> es[i].name != name
  {
    for i := 0 to |es|
      invariant forall k :: 0 <= k < i ==> es[k].name != name
    {
      if es[i].name == name {
        return i;
      }
    }
    return -1;
  }

  /** The loop of tfs_create: is the name taken, and which is the last free entry? */
  method ScanDirectory(es: seq<Entry>, name: string) returns (taken: bool, index: int)
    ensures taken <==> exists i :: 0 <= i < |es| && es[i].name == name
    ensures -1 <= index < |es|
    ensures !taken && index == -1 ==> forall i :: 0 <= i < |es| ==> es[i].inode != 0
    ensures !taken && index >= 0 ==> es[index].inode == 0 && forall i :: index < i < |es| ==> es[i].inode != 0
  {
    taken, index := false, -1;
    for i := 0 to |es|
      invariant -1 <= index < i
      invariant forall k :: 0 <= k < i ==> es[k].name != name
      invariant forall k :: index < k < i ==> es[k].inode != 0
      invariant index >= 0 ==> es[index].inode == 0
    {
      if es[i].name == name {
        return true, index;
      }
      if es[i].inode == 0 {
        index := i;
      }
    }
  }

  lemma NameMeansFile(d: Image, name: string)
    requires VolumeOk(d) && ValidName(name)
    ensures HasName(Entries(d), name) <==> exists i :: 0 <= i < MAX_FILES && Entries(d)[i].name == name
    ensures HasName(Entries(d), name) <==> name in Files(d)
    ensures forall i :: 0 <= i < MAX_FILES && Entries(d)[i].name == name ==> Entries(d)[i].inode != 0
  {
    var es := Entries(d);
    forall i | 0 <= i < MAX_FILES && es[i].name == name
      ensures es[i].inode != 0
    {
      assert EntryOk(d, es[i]);
    }
  }

  // ---------- Opening ----------

  /** `fileid` is what opening `name` gave. */
  ghost predicate OpenAs(d: Image, fileid: int, name: string) {
    VolumeOk(d) && name in InodeMap(Entries(d)) && fileid == InodeMap(Entries(d))[name]
  }

  /** tfs_open. */
  method Open(disk: Disk, name: string) returns (r: int)
    requires VolumeOk(disk.blocks) && ValidName(name)
    ensures r == VFS_NOT_FOUND <==> name !in Files(disk.blocks)
    ensures r != VFS_NOT_FOUND ==> 3 <= r < |disk.blocks| && OpenAs(disk.blocks, r, name)
  {
    NameMeansFile(disk.blocks, name);
    var es := disk.blocks[DIRECTORY].entries;
    var i := FindName(es, name);
    if i == -1 {
      return VFS_NOT_FOUND;
    }
    assert EntryOk(disk.blocks, es[i]);
    InodeMapAt(es, i);
    return es[i].inode;
  }

  // ---------- Reserving blocks ----------

  /** One more block, if there is one. */
  method Grab(bat: array<Word>, total: nat, ghost bits0: seq<bool>, ghost taken: seq<nat>) returns (b: int)
    requires WordsFor(total) <= bat.Length && Grabbed(bits0, Bits(bat[..]), total, taken)
    modifies bat
    ensures b == -1 ==> CountClear(bits0[..total]) == |taken|
    ensures b != -1 ==> b >= 0 && Grabbed(bits0, Bits(bat[..]), total, taken + [b as nat])
  {
    ghost var bits := Bits(bat[..]);
    CountClearZero(bits[..total]);
    b := FindNSet(bat, total);
    if b >= 0 {
      GrabNext(bits0, bits, total, taken, b);
    }
  }

  /** The inode's block and then each data block; the rest of the pointers are zeroed. */
  method Reserve(bat: array<Word>, total: nat, n: nat) returns (ok: bool, ino: int, ptrs: array<nat>)
    requires WordsFor(total) <= bat.Length && n <= BLOCKS_MAX
    requires total > 0 && Bits(bat[..])[0]
    modifies bat
    ensures fresh(ptrs) && ptrs.Length == BLOCKS_MAX
    ensures ok <==> CountClear(old(Bits(bat[..]))[..total]) >= 1 + n
    ensures ok ==> ino > 0 && Grabbed(old(Bits(bat[..])), Bits(bat[..]), total, [ino as nat] + ptrs[..n])
    ensures ok ==> Used(ptrs[..]) == ptrs[..n]
  {
    ghost var bits0 := Bits(bat[..]);
    ptrs := new nat[BLOCKS_MAX];
    ino := Grab(bat, total, bits0, []);
    if ino == -1 {
      return false, ino, ptrs;
    }
    assert [] + [ino as nat] == [ino as nat];
    ok := GrabData(bat, total, n, ptrs, bits0, ino);
    if ok {
      ghost var used := ptrs[..n];
      ZeroRest(ptrs, n);
      NoZeroBlock(bits0, Bits(bat[..]), total, [ino as nat], used);
      UsedIs(ptrs[..], n);
    }
  }

  method GrabData(bat: array<Word>, total: nat, n: nat, ptrs: array<nat>, ghost bits0: seq<bool>, ghost ino: nat)
    returns (ok: bool)
    requires WordsFor(total) <= bat.Length && n <= ptrs.Length && Grabbed(bits0, Bits(bat[..]), total, [ino])
    modifies bat, ptrs
    ensures ok <==> CountClear(bits0[..total]) >= 1 + n
    ensures ok ==> Grabbed(bits0, Bits(bat[..]), total, [ino] + ptrs[..n])
  {
    assert [ino] + ptrs[..0] == [ino];
    for i := 0 to n
      invariant Grabbed(bits0, Bits(bat[..]), total, [ino] + ptrs[..i])
    {
      ghost var taken := [ino] + ptrs[..i];
      var b := Grab(bat, total, bits0, taken);
      if b == -1 {
        return false;
      }
      ptrs[i] := b;
      assert taken + [b as nat] == [ino] + ptrs[..i + 1];
    }
    return true;
  }

  method ZeroRest(ptrs: array<nat>, n: nat)
    requires n <= ptrs.Length
    modifies ptrs
    ensures ptrs[..n] == old(ptrs[..n]) && forall k :: n <= k < ptrs.Length ==> ptrs[k] == 0
  {
    for i := n to ptrs.Length
      invariant ptrs[..n] == old(ptrs[..n]) && forall k :: n <= k < i ==> ptrs[k] == 0
    {
      ptrs[i] := 0;
    }
  }

  // ---------- Creating ----------

  ghost predicate HasVacancy(es: seq<Entry>) {
    exists i :: 0 <= i < |es| && es[i].inode == 0
  }

  lemma {:induction false} NameCount(es: seq<Entry>)
    requires NamesUnique(es)
    ensures |Names(es)| <= |es| && (|Names(es)| == |es| <==> !HasVacancy(es))
  {
    if es == [] {
      assert Names(es) == {};
    } else {
      var front, last := es[..|es| - 1], es[|es| - 1];
      assert es == front + [last];
      NameCount(front);
      NamesOfMore(front, last);
    }
  }

  lemma NamesOfMore(front: seq<Entry>, last: Entry)
    requires NamesUnique(front + [last])
    ensures Names(front + [last]) == Names(front) + (if last.inode == 0 then {} else {last.name})
    ensures last.inode != 0 ==> last.name !in Names(front)
    ensures HasVacancy(front + [last]) <==> last.inode == 0 || HasVacancy(front)
  {
    var es := front + [last];
    assert forall i :: 0 <= i < |front| ==> es[i] == front[i];
    assert es[|front|] == last;
  }

  lemma VacancyMeansRoom(d: Image)
    requires VolumeOk(d)
    ensures HasVacancy(Entries(d)) <==> |Files(d)| < MAX_FILES
  {
    NameCount(Entries(d));
    assert Files(d).Keys == Names(Entries(d));
  }

  /** The name is new, there is a directory entry for it, and room for `n` data blocks and the inode. */
  ghost predicate CanHold(d: Image, name: string, n: nat)
    requires VolumeOk(d)
  {
    name !in Files(d) && HasVacancy(Entries(d)) && Roomy(d, n)
  }

  /** Exactly when a create succeeds. */
  ghost predicate Creatable(d: Image, name: string, size: nat)
    requires VolumeOk(d)
  {
    size <= MAX_FILESIZE && CanHold(d, name, NumBlocks(size))
  }

  /** tfs_create: a file of `size` zero bytes. */
  method Create(disk: Disk, name: string, size: nat) returns (r: int)
    requires VolumeOk(disk.blocks) && ValidName(name)
    modifies disk
    ensures VolumeOk(disk.blocks) && |disk.blocks| == |old(disk.blocks)|
    ensures r == if Creatable(old(disk.blocks), name, size) then VFS_OK else VFS_ERROR
    ensures r != VFS_OK ==> disk.blocks == old(disk.blocks)
    ensures r == VFS_OK ==> Added(old(disk.blocks), disk.blocks, name, Zeros(size), NumBlocks(size))
    ensures r == VFS_OK ==> Placed(old(disk.blocks), disk.blocks, name)
  {
    var n := NumBlocks(size);
    if n > BLOCKS_MAX {
      return VFS_ERROR;
    }
    var index := ChooseEntry(disk.blocks, name);
    if index == -1 {
      return VFS_ERROR;
    }
    var ok := CreateAt(disk, index, name, size, n);
    return if ok then VFS_OK else VFS_ERROR;
  }

  lemma RoomyMeans(d: Image, n: nat)
    requires VolumeOk(d)
    ensures Roomy(d, n) <==> CountClear(Bits(d[ALLOCATION].words)[..|d|]) >= 1 + n
    ensures Bits(d[ALLOCATION].words)[0]
  {
    assert BlockBits(d)[0];
  }

  /** With a directory entry found: reserves the blocks and, if there are enough, stores the file. */
  method CreateAt(disk: Disk, index: nat, name: string, size: nat, n: nat) returns (ok: bool)
    requires VolumeOk(disk.blocks) && ValidName(name) && n == NumBlocks(size) <= BLOCKS_MAX
    requires index < MAX_FILES && Entries(disk.blocks)[index].inode == 0 && !HasName(Entries(disk.blocks), name)
    modifies disk
    ensures ok == Roomy(old(disk.blocks), n)
    ensures if ok then Added(old(disk.blocks), disk.blocks, name, Zeros(size), n) else disk.blocks == old(disk.blocks)
    ensures ok ==> Placed(old(disk.blocks), disk.blocks, name)
  {
    var bat := LoadBat(disk.blocks);
    RoomyMeans(disk.blocks, n);
    var ino, ptrs;
    ok, ino, ptrs := Reserve(bat, |disk.blocks|, n);
    if ok {
      StoreFile(disk, bat, index, Entry(ino, name), size, ptrs, n);
    }
  }

  /** The free entry that tfs_create uses; -1 if the name is taken or all entries are. */
  method ChooseEntry(d: Image, name: string) returns (index: int)
    requires VolumeOk(d) && ValidName(name)
    ensures index == -1 <==> name in Files(d) || !HasVacancy(Entries(d))
    ensures index != -1 ==> 0 <= index < MAX_FILES && Entries(d)[index].inode == 0 && !HasName(Entries(d), name)
    ensures index != -1 ==> forall i :: index < i < MAX_FILES ==> Entries(d)[i].inode != 0
  {
    var taken, i := ScanDirectory(d[DIRECTORY].entries, name);
    NameMeansFile(d, name);
    return if taken then -1 else i;
  }

  /** The four kinds of block writes of tfs_create. */
  method StoreFile(disk: Disk, bat: array<Word>, index: nat, e: Entry, size: nat, ptrs: array<nat>, n: nat)
    requires VolumeOk(disk.blocks) && index < MAX_FILES && Entries(disk.blocks)[index].inode == 0
    requires ValidName(e.name) && !HasName(Entries(disk.blocks), e.name) && e.inode != 0
    requires n == NumBlocks(size) && ptrs.Length == BLOCKS_MAX && n <= BLOCKS_MAX && Used(ptrs[..]) == ptrs[..n]
    requires bat.Length == |disk.blocks[ALLOCATION].words|
    requires Grabbed(Bits(disk.blocks[ALLOCATION].words), Bits(bat[..]), |disk.blocks|, [e.inode] + ptrs[..n])
    modifies disk
    ensures Added(old(disk.blocks), disk.blocks, e.name, Zeros(size), n)
    ensures Placed(old(disk.blocks), disk.blocks, e.name)
  {
    ghost var d, bs := disk.blocks, ptrs[..n];
    ReservedRange(d, Bits(bat[..]), e.inode, bs);
    var entries := disk.blocks[DIRECTORY].entries;
    disk.blocks := disk.blocks[ALLOCATION := Bat(bat[..])];
    disk.blocks := disk.blocks[DIRECTORY := Directory(entries[index := e])];
    disk.blocks := disk.blocks[e.inode := Inode(size, ptrs[..])];
    ghost var d1 := disk.blocks;
    assert forall k :: 0 <= k < n ==> bs[k] in [e.inode] + bs;
    ZeroData(disk, ptrs[..n]);
    ZerosLaid(d, d1, disk.blocks, bat[..], index, e, size, ptrs[..], bs);
    StoredZeros(d, disk.blocks, bat[..], index, e, size, ptrs[..], bs);
  }

  lemma StoredZeros(d: Image, d': Image, words: seq<Word>, index: nat, e: Entry, size: nat, ptrs: seq<nat>,
                    bs: seq<nat>)
    requires Laid(d, d', words, index, e, size, ptrs, bs)
    requires forall b :: b in bs ==> b < |d| && d'[b] == Data(Zeros(BLOCK_SIZE))
    ensures Added(d, d', e.name, Zeros(size), |bs|) && Placed(d, d', e.name)
  {
    ZeroBlocksJoin(d', bs);
    assert Zeros(BLOCK_SIZE * |bs|)[..size] == Zeros(size);
    Stored(d, d', words, index, e, size, ptrs, bs);
    StoredPlaced(d, d', words, index, e, size, ptrs, bs);
  }

  lemma ZerosLaid(d: Image, d1: Image, d': Image, words: seq<Word>, index: nat, e: Entry, size: nat, ptrs: seq<nat>,
                  bs: seq<nat>)
    requires Entered(d, d, d1, words, index, e, size, ptrs)
    requires Grabbed(Bits(d[ALLOCATION].words), Bits(words), |d|, [e.inode] + bs)
    requires Used(ptrs) == bs && |bs| == NumBlocks(size) && |d'| == |d|
    requires forall b :: b in bs ==> b < |d| && d'[b] == Data(Zeros(BLOCK_SIZE))
    requires forall b :: 0 <= b < |d'| && b !in bs ==> d'[b] == d1[b]
    ensures Laid(d, d', words, index, e, size, ptrs, bs)
  {
    ReservedRange(d, Bits(words), e.inode, bs);
    assert forall b :: b in bs ==> b in [e.inode] + bs;
    assert HEADER !in bs && ALLOCATION !in bs && DIRECTORY !in bs;
  }

  method ZeroData(disk: Disk, bs: seq<nat>)
    requires forall k :: 0 <= k < |bs| ==> bs[k] < |disk.blocks|
    modifies disk
    ensures |disk.blocks| == |old(disk.blocks)|
    ensures forall b :: b in bs ==> disk.blocks[b] == Data(Zeros(BLOCK_SIZE))
    ensures forall b :: 0 <= b < |disk.blocks| && b !in bs ==> disk.blocks[b] == old(disk.blocks)[b]
  {
    for i := 0 to |bs|
      invariant |disk.blocks| == |old(disk.blocks)|
      invariant forall k :: 0 <= k < i ==> disk.blocks[bs[k]] == Data(Zeros(BLOCK_SIZE))
      invariant forall b :: 0 <= b < |disk.blocks| && b !in bs ==> disk.blocks[b] == old(disk.blocks)[b]
    {
      disk.blocks := disk.blocks[bs[i] := Data(Zeros(BLOCK_SIZE))];
    }
  }

  // ---------- Removing ----------

  /** tfs_remove. */
  method Remove(disk: Disk, name: string) returns (r: int)
    requires VolumeOk(disk.blocks) && ValidName(name)
    modifies disk
    ensures VolumeOk(disk.blocks)
    ensures r == if name in old(Files(disk.blocks)) then VFS_OK else VFS_NOT_FOUND
    ensures r != VFS_OK ==> disk.blocks == old(disk.blocks)
    ensures r == VFS_OK ==> Removed(old(disk.blocks), disk.blocks, name) && Freed(old(disk.blocks), disk.blocks, name)
  {
    NameMeansFile(disk.blocks, name);
    var es := disk.blocks[DIRECTORY].entries;
    var index := FindName(es, name);
    if index == -1 {
      return VFS_NOT_FOUND;
    }
    assert EntryOk(disk.blocks, es[index]);
    Erase(disk, index);
    return VFS_OK;
  }

  /** Gives back the blocks of entry `index` and writes allocation block and directory. */
  method Erase(disk: Disk, index: nat)
    requires VolumeOk(disk.blocks) && index < MAX_FILES
    requires Entries(disk.blocks)[index].inode != 0 && EntryOk(disk.blocks, Entries(disk.blocks)[index])
    modifies disk
    ensures old(Entries(disk.blocks)[index].name in Files(disk.blocks))
    ensures Removed(old(disk.blocks), disk.blocks, old(Entries(disk.blocks)[index].name))
    ensures Freed(old(disk.blocks), disk.blocks, old(Entries(disk.blocks)[index].name))
  {
    ghost var d := disk.blocks;
    var es := disk.blocks[DIRECTORY].entries;
    var bat := LoadBat(disk.blocks);
    ReleaseBlocks(bat, es[index].inode, disk.blocks[es[index].inode].ptrs);
    disk.blocks := disk.blocks[ALLOCATION := Bat(bat[..])];
    disk.blocks := disk.blocks[DIRECTORY := Directory(es[index := Entry(0, "")])];
    Cleared(d, disk.blocks, bat[..], index, es[index]);
    ClearedFreed(d, disk.blocks, bat[..], index, es[index]);
  }

  /** Clears the bits of the inode block and of the blocks it names, up to the first zero. */
  method ReleaseBlocks(bat: array<Word>, ino: nat, ptrs: seq<nat>)
    requires ino < 32 * bat.Length && forall b :: b in Used(ptrs) ==> b < 32 * bat.Length
    modifies bat
    ensures Dropped(old(Bits(bat[..])), Bits(bat[..]), [ino] + Used(ptrs))
  {
    ghost var bits := Bits(bat[..]);
    Set(bat, ino, false);
    ghost var gone := [ino];
    var i := 0;
    while i < |ptrs| && ptrs[i] != 0
      invariant 0 <= i <= |Used(ptrs)|
      invariant gone == [ino] + Used(ptrs)[..i] && Dropped(bits, Bits(bat[..]), gone)
    {
      assert Used(ptrs)[i] == ptrs[i] && ptrs[i] in Used(ptrs);
      Set(bat, ptrs[i], false);
      gone := gone + [ptrs[i]];
      i := i + 1;
    }
    assert Used(ptrs)[..i] == Used(ptrs);
  }

  // ---------- Free space ----------

  /** tfs_getfree. */
  method GetFree(disk: Disk) returns (r: int)
    requires VolumeOk(disk.blocks)
    ensures r == FreeSpace(disk.blocks)
    ensures r == BLOCK_SIZE * (|disk.blocks| - 3 - |Owned(disk.blocks)|)
  {
    var bat := LoadBat(disk.blocks);
    var total := |disk.blocks|;
    var marked := CountSet(bat, total);
    Conservation(disk.blocks);
    return (total - marked) * BLOCK_SIZE;
  }

  method CountSet(bat: array<Word>, total: nat) returns (marked: int)
    requires total <= 32 * bat.Length
    ensures marked == total - CountClear(Bits(bat[..])[..total])
  {
    ghost var bits := Bits(bat[..]);
    marked := 0;
    for i := 0 to total
      invariant marked == i - CountClear(bits[..i])
    {
      assert bits[..i + 1][..i] == bits[..i];
      var bit := Get(bat, i);
      marked := marked + (if bit then 1 else 0);
    }
  }

  // ---------- Reading and writing ----------

  function Min(a: int, b: int): (r: int)
    ensures r <= a && r <= b && (r == a || r == b)
  {
    if a < b then a else b
  }

  /** memcopy into a buffer. */
  method MemCopy(part: seq<Byte>, buffer: array<Byte>, at: nat)
    requires at + |part| <= buffer.Length
    modifies buffer
    ensures buffer[..] == Splice(old(buffer[..]), at, part)
  {
    ghost var before := buffer[..];
    for i := 0 to |part|
      invariant forall k :: 0 <= k < buffer.Length ==>
        buffer[k] == if at <= k < at + i then part[k - at] else before[k]
    {
      buffer[at + i] := part[i];
    }
  }

  /** Block `id` reads as an inode whose data blocks are data blocks, each named once. */
  ghost predicate Usable(d: Image, id: int) {
    id >= 0 && InodeOk(d, id) && Distinct(DataBlocks(d, id))
  }

  /** The id of a file that exists: its inode names data blocks that hold its bytes. */
  lemma OpenFile(d: Image, fileid: int, name: string) returns (idx: nat)
    requires OpenAs(d, fileid, name)
    ensures Usable(d, fileid) && Content(d, name) == FileBytes(d, fileid) && name in Files(d)
    ensures idx < MAX_FILES && Entries(d)[idx] == Entry(fileid, name)
  {
    idx := IndexOf(Entries(d), name);
    FileAt(d, idx);
    assert EntryOk(d, Entries(d)[idx]);
    FlatApart(OwnedLists(d, Entries(d)), idx, if idx == 0 then 1 else 0);
    DistinctConcat([fileid as nat], DataBlocks(d, fileid));
  }

  /** The driver's own check that an id can be that of a file. */
  ghost predicate IdChecked(d: Image, fileid: int) {
    2 <= fileid <= |d|
  }

  /**
   From an offset inside the file, as many bytes as fit and are left: the start of the buffer
   holds that slice of the file, the rest of the buffer is unchanged.
   */
  ghost predicate DeliversSlice(content: seq<Byte>, offset: int, bufsize: nat, before: seq<Byte>, after: seq<Byte>,
                                r: int) {
    if 0 <= offset <= |content|
    then r == Min(bufsize, |content| - offset) && r <= |before| &&
         after == Splice(before, 0, content[offset..offset + r])
    else r == VFS_ERROR && after == before
  }

  /** tfs_read, on an id that fails the check or whose block reads as an inode. */
  method Read(disk: Disk, fileid: int, buffer: array<Byte>, bufsize: nat, offset: int) returns (r: int)
    requires bufsize <= buffer.Length
    requires IdChecked(disk.blocks, fileid) ==> InodeOk(disk.blocks, fileid)
    modifies buffer
    ensures !IdChecked(disk.blocks, fileid) ==> r == VFS_ERROR && buffer[..] == old(buffer[..])
    ensures IdChecked(disk.blocks, fileid) ==>
      DeliversSlice(FileBytes(disk.blocks, fileid), offset, bufsize, old(buffer[..]), buffer[..], r)
  {
    if fileid < 2 || fileid > |disk.blocks| {
      return VFS_ERROR;
    }
    r := ReadInode(disk, fileid, buffer, bufsize, offset);
  }

  /** The rest of tfs_read, on an inode block. */
  method ReadInode(disk: Disk, ino: nat, buffer: array<Byte>, bufsize: nat, offset: int) returns (r: int)
    requires InodeOk(disk.blocks, ino) && bufsize <= buffer.Length
    modifies buffer
    ensures DeliversSlice(FileBytes(disk.blocks, ino), offset, bufsize, old(buffer[..]), buffer[..], r)
  {
    var inode := disk.blocks[ino];
    if offset < 0 || offset > inode.filesize {
      return VFS_ERROR;
    }
    ghost var before, whole := buffer[..], Joined(disk.blocks, Used(inode.ptrs));
    r := Min(bufsize, inode.filesize - offset);
    if r != 0 {
      ReadSpan(disk, inode.ptrs, buffer, offset, r);
    }
    Delivered(whole, inode.filesize, offset, bufsize, before, buffer[..], r);
  }

  lemma Delivered(whole: seq<Byte>, n: nat, offset: nat, bufsize: nat, before: seq<Byte>, after: seq<Byte>, r: nat)
    requires offset <= n <= |whole| && bufsize <= |before| && r == Min(bufsize, n - offset)
    requires if r == 0 then after == before else after == Splice(before, 0, whole[offset..offset + r])
    ensures DeliversSlice(whole[..n], offset, bufsize, before, after, r)
  {
    assert whole[..n][offset..offset + r] == whole[offset..offset + r];
    assert r == 0 ==> Splice(before, 0, whole[offset..offset + r]) == before;
  }

  /** The first and the last block that a span of bytes touches. */
  lemma SpanBlocks(offset: nat, size: nat, count: nat)
    requires 0 < size && offset + size <= BLOCK_SIZE * count
    ensures var b1, b2 := offset / BLOCK_SIZE, (offset + size - 1) / BLOCK_SIZE;
      var first := Min(BLOCK_SIZE - offset % BLOCK_SIZE, size);
      && b1 <= b2 < count && 0 < first <= size && offset % BLOCK_SIZE + first <= BLOCK_SIZE
      && BLOCK_SIZE * b1 + offset % BLOCK_SIZE == offset
      && Remaining(offset, size, b1 + 1, b2, first)
  {
  }

  /** After `done` bytes, block `b1` is next, and block `b2` holds the last byte. */
  ghost predicate Remaining(offset: nat, size: nat, b1: nat, b2: nat, done: nat) {
    && done <= size && b1 <= b2 + 1 && BLOCK_SIZE * b2 < offset + size <= BLOCK_SIZE * b2 + BLOCK_SIZE
    && (b1 <= b2 ==> offset + done == BLOCK_SIZE * b1)
    && (b1 == b2 + 1 ==> done == size)
  }

  /** Copies the first block's part, then whole blocks, then the last block's part. */
  method ReadSpan(disk: Disk, ptrs: seq<nat>, buffer: array<Byte>, offset: nat, size: nat)
    requires 0 < size <= buffer.Length && offset + size <= BLOCK_SIZE * |Used(ptrs)|
    requires forall b :: b in Used(ptrs) ==> IsData(disk.blocks, b)
    modifies buffer
    ensures buffer[..] == Splice(old(buffer[..]), 0, Joined(disk.blocks, Used(ptrs))[offset..offset + size])
  {
    ghost var before := buffer[..];
    SpanBlocks(offset, size, |Used(ptrs)|);
    var b1 := offset / BLOCK_SIZE;
    var b2 := (offset + size - 1) / BLOCK_SIZE;
    var read := Min(BLOCK_SIZE - offset % BLOCK_SIZE, size);
    ReadPart(disk, ptrs, b1, offset % BLOCK_SIZE, read, buffer, 0, offset);
    b1 := b1 + 1;
    ReadRest(disk, ptrs, buffer, offset, size, b1, b2, read, before);
  }

  /** The loop of tfs_read. */
  method ReadRest(disk: Disk, ptrs: seq<nat>, buffer: array<Byte>, ghost offset: nat, size: nat, start: nat, b2: nat,
                  first: nat,
                  ghost before: seq<Byte>)
    requires size <= buffer.Length == |before| && b2 < |Used(ptrs)| && Remaining(offset, size, start, b2, first)
    requires offset + size <= |Joined(disk.blocks, Used(ptrs))|
    requires forall b :: b in Used(ptrs) ==> IsData(disk.blocks, b)
    requires buffer[..] == Splice(before, 0, Joined(disk.blocks, Used(ptrs))[offset..offset + first])
    modifies buffer
    ensures buffer[..] == Splice(before, 0, Joined(disk.blocks, Used(ptrs))[offset..offset + size])
  {
    ghost var whole := Joined(disk.blocks, Used(ptrs));
    var b1: nat, read: nat := start, first;
    while b1 <= b2
      invariant Remaining(offset, size, b1, b2, read)
      invariant buffer[..] == Splice(before, 0, whole[offset..offset + read])
    {
      read := ReadTurn(disk, ptrs, buffer, offset, size, b1, b2, read, before);
      b1 := b1 + 1;
    }
  }

  /** How much of block `b1` is wanted. */
  function PartSize(size: nat, b1: nat, b2: nat, done: nat): int {
    if b1 == b2 then size - done else BLOCK_SIZE
  }

  lemma PartFits(offset: nat, size: nat, b1: nat, b2: nat, done: nat)
    requires Remaining(offset, size, b1, b2, done) && b1 <= b2
    ensures 0 < PartSize(size, b1, b2, done) <= BLOCK_SIZE && done + PartSize(size, b1, b2, done) <= size
    ensures offset + done == BLOCK_SIZE * b1 + 0
    ensures Remaining(offset, size, b1 + 1, b2, done + PartSize(size, b1, b2, done))
  {
  }

  /** One turn of that loop: block `b1` is read. */
  method ReadTurn(disk: Disk, ptrs: seq<nat>, buffer: array<Byte>, ghost offset: nat, size: nat, b1: nat, b2: nat,
                  read: nat,
                  ghost before: seq<Byte>) returns (read': nat)
    requires size <= buffer.Length == |before| && b1 <= b2 < |Used(ptrs)| && Remaining(offset, size, b1, b2, read)
    requires offset + size <= |Joined(disk.blocks, Used(ptrs))|
    requires forall b :: b in Used(ptrs) ==> IsData(disk.blocks, b)
    requires buffer[..] == Splice(before, 0, Joined(disk.blocks, Used(ptrs))[offset..offset + read])
    modifies buffer
    ensures Remaining(offset, size, b1 + 1, b2, read')
    ensures buffer[..] == Splice(before, 0, Joined(disk.blocks, Used(ptrs))[offset..offset + read'])
  {
    var part := PartSize(size, b1, b2, read);
    PartFits(offset, size, b1, b2, read);
    ghost var mid, whole := buffer[..], Joined(disk.blocks, Used(ptrs));
    read' := read + part;
    ReadPart(disk, ptrs, b1, 0, part, buffer, read, offset + read);
    SpliceNext(before, mid, buffer[..], whole, offset, read, read');
  }

  lemma SpliceNext(before: seq<Byte>, mid: seq<Byte>, after: seq<Byte>, whole: seq<Byte>, offset: nat, read: nat,
                   read': nat)
    requires read <= read' <= |before| && offset + read' <= |whole|
    requires mid == Splice(before, 0, whole[offset..offset + read])
    requires after == Splice(mid, read, whole[offset + read..offset + read + (read' - read)])
    ensures after == Splice(before, 0, whole[offset..offset + read'])
  {
    assert whole[offset..offset + read] + whole[offset + read..offset + read'] == whole[offset..offset + read'];
  }

  /** Reads one block and copies `count` bytes of it, those from position `pos` of the file on. */
  method ReadPart(disk: Disk, ptrs: seq<nat>, j: nat, from: nat, count: nat, buffer: array<Byte>, at: nat,
                  ghost pos: nat)
    requires j < |Used(ptrs)| && from + count <= BLOCK_SIZE && at + count <= buffer.Length
    requires pos == BLOCK_SIZE * j + from
    requires forall b :: b in Used(ptrs) ==> IsData(disk.blocks, b)
    modifies buffer
    ensures pos + count <= BLOCK_SIZE * |Used(ptrs)|
    ensures buffer[..] == Splice(old(buffer[..]), at, Joined(disk.blocks, Used(ptrs))[pos..pos + count])
  {
    assert ptrs[j] == Used(ptrs)[j] && ptrs[j] in Used(ptrs);
    BlockSlice(disk.blocks, Used(ptrs), j, from, from + count);
    MemCopy(disk.blocks[ptrs[j]].bytes[from..from + count], buffer, at);
  }

  /** Only blocks in `bs` differ, and those still hold data. */
  ghost predicate Touches(d: Image, d': Image, bs: seq<nat>) {
    && |d'| == |d| && (forall b :: b in bs ==> IsData(d', b))
    && forall b :: 0 <= b < |d| && b !in bs ==> d'[b] == d[b]
  }

  /** From an offset inside the file, as many bytes as there are and as fit replace those that were there. */
  ghost predicate ReplacesSlice(content: seq<Byte>, offset: int, data: seq<Byte>, content': seq<Byte>, r: int) {
    if 0 <= offset <= |content|
    then r == Min(|data|, |content| - offset) && content' == Splice(content, offset, data[..r])
    else r == VFS_ERROR && content' == content
  }

  /** What tfs_write through the id of the file `name` does to the volume. */
  ghost predicate Overwrites(d: Image, d': Image, name: string, offset: int, data: seq<Byte>, r: int)
    requires VolumeOk(d)
  {
    && VolumeOk(d') && name in Files(d)
    && Files(d') == Files(d)[name := Files(d)[name].(bytes := Content(d', name))]
    && ReplacesSlice(Content(d, name), offset, data, Content(d', name), r)
    && |d'| == |d| && d'[ALLOCATION] == d[ALLOCATION] && d'[DIRECTORY] == d[DIRECTORY]
  }

  /** Of the blocks `bs` only the written bytes change, also behind the file's end, and no other block changes. */
  ghost predicate RawReplaced(d: Image, d': Image, bs: seq<nat>, offset: int, data: seq<Byte>, r: int) {
    if r == VFS_ERROR then d' == d
    else
      && Touches(d, d', bs)
      && 0 <= offset <= offset + r <= BLOCK_SIZE * |bs| && r <= |data|
      && Joined(d', bs) == Splice(Joined(d, bs), offset, data[..r])
  }

  /** The number of bytes tfs_write and tfs_read can transfer, or the error. */
  function Transferred(filesize: nat, offset: int, count: nat): (r: int)
    ensures r == VFS_ERROR <==> !(0 <= offset <= filesize)
    ensures r != VFS_ERROR ==> 0 <= r <= count && offset + r <= filesize && (r == count || offset + r == filesize)
  {
    if 0 <= offset <= filesize then Min(count, filesize - offset) else VFS_ERROR
  }

  /** What tfs_write does to the disk, whoever the blocks belong to. */
  ghost predicate RawWrite(d: Image, d': Image, id: nat, offset: int, data: seq<Byte>, r: int) {
    && Usable(d, id) && r == Transferred(d[id].filesize, offset, |data|)
    && RawReplaced(d, d', DataBlocks(d, id), offset, data, r)
  }

  /** tfs_write, on an id that fails the check or whose block reads as an inode. */
  method Write(disk: Disk, fileid: int, data: seq<Byte>, offset: int) returns (r: int)
    requires IdChecked(disk.blocks, fileid) ==> Usable(disk.blocks, fileid)
    modifies disk
    ensures !IdChecked(old(disk.blocks), fileid) ==> r == VFS_ERROR && disk.blocks == old(disk.blocks)
    ensures IdChecked(old(disk.blocks), fileid) ==> RawWrite(old(disk.blocks), disk.blocks, fileid, offset, data, r)
  {
    if fileid < 2 || fileid > |disk.blocks| {
      return VFS_ERROR;
    }
    r := WriteInode(disk, fileid, data, offset);
  }

  /** Through the id of a file that exists, tfs_write changes that file as it should, and nothing else. */
  lemma WriteThroughOwnId(d: Image, d': Image, id: nat, name: string, offset: int, data: seq<Byte>, r: int)
    requires OpenAs(d, id, name) && RawWrite(d, d', id, offset, data, r)
    ensures Overwrites(d, d', name, offset, data, r)
  {
    var idx := OpenFile(d, id, name);
    WriteAtEntry(d, d', idx, name, id, offset, data, r);
  }

  lemma WriteAtEntry(d: Image, d': Image, idx: nat, name: string, id: nat, offset: int, data: seq<Byte>, r: int)
    requires VolumeOk(d) && idx < MAX_FILES && Entries(d)[idx] == Entry(id, name) && InodeOk(d, id)
    requires Content(d, name) == FileBytes(d, id) && RawWrite(d, d', id, offset, data, r)
    ensures Overwrites(d, d', name, offset, data, r)
  {
    if r == VFS_ERROR {
      NothingWritten(d, idx, name, id, offset, data);
    } else {
      WrittenOver(d, d', idx, name, id, offset, data, r);
    }
  }

  lemma NothingWritten(d: Image, idx: nat, name: string, ino: nat, offset: int, data: seq<Byte>)
    requires VolumeOk(d) && idx < MAX_FILES && Entries(d)[idx] == Entry(ino, name) && InodeOk(d, ino)
    requires Content(d, name) == FileBytes(d, ino) && !(0 <= offset <= d[ino].filesize)
    ensures Overwrites(d, d, name, offset, data, VFS_ERROR)
  {
    FileAt(d, idx);
    SameValue(Files(d), name);
  }

  lemma SameValue(files: map<string, File>, name: string)
    requires name in files
    ensures files[name := files[name].(bytes := files[name].bytes)] == files
  {
  }

  lemma WrittenOver(d: Image, d': Image, idx: nat, name: string, ino: nat, offset: int, data: seq<Byte>, r: int)
    requires VolumeOk(d) && idx < MAX_FILES && Entries(d)[idx] == Entry(ino, name) && InodeOk(d, ino)
    requires Content(d, name) == FileBytes(d, ino)
    requires RawReplaced(d, d', DataBlocks(d, ino), offset, data, r)
    requires 0 <= offset <= d[ino].filesize && r == Min(|data|, d[ino].filesize - offset)
    ensures Overwrites(d, d', name, offset, data, r)
  {
    var bytes := FileAfterWrite(d, d', idx, name, ino, offset, data, r);
    ContentIs(d', Files(d), name, bytes);
  }

  lemma ContentIs(d': Image, files: map<string, File>, name: string, bytes: seq<Byte>)
    requires VolumeOk(d') && name in files && Files(d') == files[name := files[name].(bytes := bytes)]
    ensures Content(d', name) == bytes
  {
  }

  lemma FileAfterWrite(d: Image, d': Image, idx: nat, name: string, ino: nat, offset: int, data: seq<Byte>, r: int)
    returns (bytes: seq<Byte>)
    requires VolumeOk(d) && idx < MAX_FILES && Entries(d)[idx] == Entry(ino, name) && InodeOk(d, ino) && ino != 0
    requires r != VFS_ERROR && RawReplaced(d, d', DataBlocks(d, ino), offset, data, r) && offset + r <= d[ino].filesize
    ensures VolumeOk(d') && name in Files(d) && Files(d') == Files(d)[name := Files(d)[name].(bytes := bytes)]
    ensures |d'| == |d| && d'[ALLOCATION] == d[ALLOCATION] && d'[DIRECTORY] == d[DIRECTORY]
    ensures 0 <= offset && 0 <= r <= |data| && offset + r <= |FileBytes(d, ino)|
    ensures bytes == Splice(FileBytes(d, ino), offset, data[..r])
  {
    FileAt(d, idx);
    ChangeFile(d, d', idx, Entry(ino, name));
    SpliceOfPrefix(Joined(d, DataBlocks(d, ino)), d[ino].filesize, offset, data[..r]);
    bytes := FileBytes(d', ino);
  }

  lemma SpliceOfPrefix(s: seq<Byte>, n: nat, at: nat, part: seq<Byte>)
    requires at + |part| <= n <= |s|
    ensures Splice(s, at, part)[..n] == Splice(s[..n], at, part)
  {
  }

  /** The rest of tfs_write, on an inode block. */
  method WriteInode(disk: Disk, ino: nat, data: seq<Byte>, offset: int) returns (r: int)
    requires Usable(disk.blocks, ino)
    modifies disk
    ensures RawWrite(old(disk.blocks), disk.blocks, ino, offset, data, r)
  {
    var inode := disk.blocks[ino];
    if offset < 0 || offset > inode.filesize {
      return VFS_ERROR;
    }
    r := Min(|data|, inode.filesize - offset);
    ghost var d := disk.blocks;
    if r == 0 {
      SpliceNothing(Joined(d, Used(inode.ptrs)), offset);
      return;
    }
    WriteSpan(disk, inode.ptrs, data[..r], offset);
  }

  lemma SpliceNothing(s: seq<Byte>, at: nat)
    requires at <= |s|
    ensures Splice(s, at, []) == s
  {
  }

  /** Writes the first block's part, then whole blocks, then the last block's part. */
  method WriteSpan(disk: Disk, ptrs: seq<nat>, data: seq<Byte>, offset: nat)
    requires 0 < |data| && offset + |data| <= BLOCK_SIZE * |Used(ptrs)| && Distinct(Used(ptrs))
    requires Touches(disk.blocks, disk.blocks, Used(ptrs))
    modifies disk
    ensures Touches(old(disk.blocks), disk.blocks, Used(ptrs))
    ensures Joined(disk.blocks, Used(ptrs)) == Splice(Joined(old(disk.blocks), Used(ptrs)), offset, data)
  {
    ghost var d := disk.blocks;
    SpanBlocks(offset, |data|, |Used(ptrs)|);
    var b1 := offset / BLOCK_SIZE;
    var b2 := (offset + |data| - 1) / BLOCK_SIZE;
    var written := Min(BLOCK_SIZE - offset % BLOCK_SIZE, |data|);
    var buf := new Byte[BLOCK_SIZE];
    WritePart(disk, ptrs, b1, offset % BLOCK_SIZE, data[..written], buf, offset);
    b1 := b1 + 1;
    WriteRest(disk, ptrs, data, offset, b1, b2, written, buf, d);
    assert data[..|data|] == data;
  }

  /** The loop of tfs_write. */
  method WriteRest(disk: Disk, ptrs: seq<nat>, data: seq<Byte>, ghost offset: nat, start: nat, b2: nat, first: nat,
                   buf: array<Byte>, ghost d: Image)
    requires buf.Length == BLOCK_SIZE && Distinct(Used(ptrs))
    requires b2 < |Used(ptrs)| && Remaining(offset, |data|, start, b2, first)
    requires offset + |data| <= |Joined(d, Used(ptrs))|
    requires Touches(d, disk.blocks, Used(ptrs))
    requires Joined(disk.blocks, Used(ptrs)) == Splice(Joined(d, Used(ptrs)), offset, data[..first])
    modifies disk, buf
    ensures Touches(d, disk.blocks, Used(ptrs))
    ensures Joined(disk.blocks, Used(ptrs)) == Splice(Joined(d, Used(ptrs)), offset, data[..|data|])
  {
    var b1: nat, written: nat := start, first;
    while b1 <= b2
      invariant Remaining(offset, |data|, b1, b2, written)
      invariant Touches(d, disk.blocks, Used(ptrs))
      invariant Joined(disk.blocks, Used(ptrs)) == Splice(Joined(d, Used(ptrs)), offset, data[..written])
    {
      written := WriteTurn(disk, ptrs, data, offset, b1, b2, written, buf, d);
      b1 := b1 + 1;
    }
  }

  /** One turn of that loop: block `b1` is written. */
  method WriteTurn(disk: Disk, ptrs: seq<nat>, data: seq<Byte>, ghost offset: nat, b1: nat, b2: nat, written: nat,
                   buf: array<Byte>, ghost d: Image) returns (written': nat)
    requires buf.Length == BLOCK_SIZE && Distinct(Used(ptrs))
    requires b1 <= b2 < |Used(ptrs)| && Remaining(offset, |data|, b1, b2, written)
    requires offset + |data| <= |Joined(d, Used(ptrs))|
    requires Touches(d, disk.blocks, Used(ptrs))
    requires Joined(disk.blocks, Used(ptrs)) == Splice(Joined(d, Used(ptrs)), offset, data[..written])
    modifies disk, buf
    ensures Remaining(offset, |data|, b1 + 1, b2, written')
    ensures Touches(d, disk.blocks, Used(ptrs))
    ensures Joined(disk.blocks, Used(ptrs)) == Splice(Joined(d, Used(ptrs)), offset, data[..written'])
  {
    var part := PartSize(|data|, b1, b2, written);
    PartFits(offset, |data|, b1, b2, written);
    ghost var mid, whole, d1 := Joined(disk.blocks, Used(ptrs)), Joined(d, Used(ptrs)), disk.blocks;
    written' := written + part;
    WritePart(disk, ptrs, b1, 0, data[written..written'], buf, offset + written);
    TouchesTwice(d, d1, disk.blocks, Used(ptrs));
    SpliceOn(whole, mid, Joined(disk.blocks, Used(ptrs)), offset, data, written, written');
  }

  lemma TouchesTwice(d: Image, d1: Image, d2: Image, bs: seq<nat>)
    requires Touches(d, d1, bs) && Touches(d1, d2, bs)
    ensures Touches(d, d2, bs)
  {
  }

  lemma SpliceOn(whole: seq<Byte>, mid: seq<Byte>, after: seq<Byte>, offset: nat, data: seq<Byte>, written: nat,
                 written': nat)
    requires written <= written' <= |data| && offset + |data| <= |whole|
    requires mid == Splice(whole, offset, data[..written])
    requires after == Splice(mid, offset + written, data[written..written'])
    ensures after == Splice(whole, offset, data[..written'])
  {
    assert data[..written] + data[written..written'] == data[..written'];
  }

  /** Writes part of one block; unless all of it is replaced, the block is read first. */
  method WritePart(disk: Disk, ptrs: seq<nat>, j: nat, at: nat, part: seq<Byte>, buf: array<Byte>, ghost pos: nat)
    requires buf.Length == BLOCK_SIZE && Distinct(Used(ptrs))
    requires j < |Used(ptrs)| && at + |part| <= BLOCK_SIZE && pos == BLOCK_SIZE * j + at
    requires forall b :: b in Used(ptrs) ==> IsData(disk.blocks, b)
    modifies disk, buf
    ensures Touches(old(disk.blocks), disk.blocks, Used(ptrs)) && pos + |part| <= BLOCK_SIZE * |Used(ptrs)|
    ensures Joined(disk.blocks, Used(ptrs)) == Splice(Joined(old(disk.blocks), Used(ptrs)), pos, part)
  {
    assert ptrs[j] == Used(ptrs)[j] && ptrs[j] in Used(ptrs);
    ghost var d := disk.blocks;
    if |part| < BLOCK_SIZE {
      MemCopy(disk.blocks[ptrs[j]].bytes, buf, 0);
    }
    MemCopy(part, buf, at);
    assert buf[..] == Splice(d[ptrs[j]].bytes, at, part);
    disk.blocks := disk.blocks[ptrs[j] := Data(buf[..])];
    BlockSplice(d, disk.blocks, Used(ptrs), j, at, part, pos);
  }
}
