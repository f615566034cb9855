/**
 File ids over time. The driver's id of a file is the number of its inode block, and the file
 layer keeps it while the file is open. What keeps an id good, what a write through an id does
 once the file has been removed, and exactly when a write through an id is right.
 */
module TfsIds {
  import opened Sequences
  import opened Bitmap
  import opened TfsFormat
  import opened Tfs
  import TfsTool

  // ---------- An id stays good until its file is removed ----------

  lemma KnownNames(d: Image)
    requires VolumeOk(d)
    ensures forall name :: name in Files(d) <==> name in InodeMap(Entries(d))
  {
  }

  lemma SurvivesAdd(d: Image, d': Image, id: int, name: string, added: string)
    requires OpenAs(d, id, name) && added !in Files(d) && Placed(d, d', added)
    ensures OpenAs(d', id, name)
  {
    KnownNames(d);
  }

  lemma SurvivesRemove(d: Image, d': Image, id: int, name: string, removed: string)
    requires OpenAs(d, id, name) && Freed(d, d', removed)
    ensures OpenAs(d', id, name) <==> name != removed
  {
    KeyKept(InodeMap(Entries(d)), InodeMap(Entries(d')), name, removed);
  }

  lemma KeyKept(m: map<string, nat>, m': map<string, nat>, name: string, gone: string)
    requires name in m && m' == m - {gone}
    ensures if name == gone then name !in m' else name in m' && m'[name] == m[name]
  {
  }

  lemma SurvivesWrite(d: Image, d': Image, id: int, name: string)
    requires OpenAs(d, id, name) && VolumeOk(d') && |d'| == |d| && d'[DIRECTORY] == d[DIRECTORY]
    ensures OpenAs(d', id, name)
  {
  }

  // ---------- An id whose file has been removed ----------

  /** Blocks taken from free ones and given back. */
  lemma BitsBack(bits: seq<bool>, bits1: seq<bool>, bits2: seq<bool>, bs: seq<nat>)
    requires |bits| == |bits1| == |bits2| && forall p :: p in bs ==> p < |bits| && !bits[p]
    requires forall p :: 0 <= p < |bits| ==> (bits1[p] <==> bits[p] || p in bs)
    requires forall p :: 0 <= p < |bits| ==> (bits2[p] <==> bits1[p] && p !in bs)
    ensures bits2 == bits
  {
  }

  lemma CreateThenRemove(d: Image, d1: Image, d2: Image, a: string)
    requires VolumeOk(d) && Placed(d, d1, a) && Freed(d1, d2, a)
    ensures BlockBits(d2) == BlockBits(d)
  {
    BitsBack(BlockBits(d), BlockBits(d1), BlockBits(d2), BlocksOf(d1, a));
  }

  lemma FirstFreeIsId(d: Image, d': Image, name: string)
    requires VolumeOk(d) && Placed(d, d', name)
    ensures OpenAs(d', FirstClear(BlockBits(d)), name)
  {
  }

  /** A file made right after another one was removed gets the same id. */
  lemma SameIdAgain(d: Image, d1: Image, d2: Image, d3: Image, a: string, b: string)
    requires VolumeOk(d) && Placed(d, d1, a) && Freed(d1, d2, a) && Placed(d2, d3, b)
    ensures OpenAs(d1, FirstClear(BlockBits(d)), a) && OpenAs(d3, FirstClear(BlockBits(d)), b)
  {
    CreateThenRemove(d, d1, d2, a);
    FirstFreeIsId(d, d1, a);
    FirstFreeIsId(d2, d3, b);
  }

  /**
   The failing run: a file is made and opened, removed, and another one made. The write through
   the id of the first changes the second.
   */
  method StaleWrite(disk: Disk, a: string, b: string, size: nat, data: seq<Byte>) returns (r: int)
    requires VolumeOk(disk.blocks) && ValidName(a) && ValidName(b) && a != b && b !in Files(disk.blocks)
    requires Creatable(disk.blocks, a, size)
    modifies disk
    ensures VolumeOk(disk.blocks) && a !in Files(disk.blocks) && b in Files(disk.blocks)
    ensures r == Min(|data|, size) && Content(disk.blocks, b) == Splice(Zeros(size), 0, data[..r])
  {
    ghost var d := disk.blocks;
    var made := Create(disk, a, size);
    ghost var d1 := disk.blocks;
    var id := Open(disk, a);
    var gone := Remove(disk, a);
    ghost var d2 := disk.blocks;
    StillCreatable(d, d1, d2, a, b, size);
    made := Create(disk, b, size);
    ghost var d3 := disk.blocks;
    SameIdAgain(d, d1, d2, d3, a, b);
    ghost var idx := OpenFile(d3, id, b);
    r := Write(disk, id, data, 0);
    WriteThroughOwnId(d3, disk.blocks, id, b, 0, data, r);
  }

  /** That run on a new volume: one byte written to "a" is then in "b", to which nobody has written. */
  method StaleWriteOnNewVolume() returns (disk: Disk, r: int)
    ensures VolumeOk(disk.blocks) && Content(disk.blocks, "b") == [7] && "a" !in Files(disk.blocks)
  {
    var volume := TfsTool.CreateVolume(8, "volume");
    disk := volume;
    VacancyMeansRoom(disk.blocks);
    r := StaleWrite(disk, "a", "b", 1, [7]);
  }

  lemma StillCreatable(d: Image, d1: Image, d2: Image, a: string, b: string, size: nat)
    requires VolumeOk(d) && Creatable(d, a, size) && b !in Files(d)
    requires Added(d, d1, a, Zeros(size), NumBlocks(size)) && a in Files(d1) && Removed(d1, d2, a)
    ensures Creatable(d2, b, size) && Files(d2) == Files(d)
  {
    VacancyMeansRoom(d);
    VacancyMeansRoom(d2);
    BackAgain(Files(d), a, File(Zeros(size), NumBlocks(size)));
  }

  lemma BackAgain(files: map<string, File>, name: string, f: File)
    requires name !in files
    ensures files[name := f] - {name} == files && name in files[name := f] && files[name := f][name] == f
  {
  }

  /** After the removal and before anything new is made, the blocks a stale id leads to are free. */
  lemma StaleAfterRemove(d: Image, d': Image, id: nat, name: string)
    requires OpenAs(d, id, name) && Freed(d, d', name)
    ensures Usable(d', id) && DataBlocks(d', id) == DataBlocks(d, id)
    ensures forall b :: b in DataBlocks(d', id) ==> b < |d'| && !BlockBits(d')[b]
  {
    var idx := OpenFile(d, id, name);
    UsableKept(d, d', id);
    FreeOnceFreed(d, d', id, name);
  }

  lemma UsableKept(d: Image, d': Image, id: nat)
    requires Usable(d, id) && |d'| == |d| && forall b :: 0 <= b < |d| && !IsSystem(b) ==> d'[b] == d[b]
    ensures Usable(d', id) && DataBlocks(d', id) == DataBlocks(d, id)
  {
    assert d'[id] == d[id];
  }

  lemma FreeOnceFreed(d: Image, d': Image, id: nat, name: string)
    requires OpenAs(d, id, name) && Freed(d, d', name) && Usable(d, id)
    ensures forall b :: b in DataBlocks(d, id) ==> b < |d'| && !BlockBits(d')[b]
  {
    forall b | b in DataBlocks(d, id)
      ensures b < |d'| && !BlockBits(d')[b]
    {
      assert IsData(d, b) && b in BlocksOf(d, name);
    }
  }

  /** A write through a stale id whose blocks are free is lost: no file changes. */
  lemma LostWrite(d: Image, d': Image, id: nat, offset: int, data: seq<Byte>, r: int)
    requires VolumeOk(d) && RawWrite(d, d', id, offset, data, r)
    requires forall b :: b in DataBlocks(d, id) ==> b < |d| && !BlockBits(d)[b]
    ensures VolumeOk(d') && Files(d') == Files(d)
  {
    UnownedWrites(d, d');
  }

  // ---------- Exactly when a write through an id is right ----------

  /** Whatever is written through `id`, wherever, is written to the file `name` and to nothing else. */
  ghost predicate AlwaysRight(d: Image, id: nat, name: string)
    requires VolumeOk(d)
  {
    forall d', offset, data, r :: RawWrite(d, d', id, offset, data, r) ==> Overwrites(d, d', name, offset, data, r)
  }

  /** Blocks that hold the same bytes are the same. */
  lemma JoinedDetermines(d: Image, d': Image, bs: seq<nat>)
    requires Touches(d, d', bs) && (forall b :: b in bs ==> IsData(d, b)) && Joined(d', bs) == Joined(d, bs)
    ensures d' == d
  {
    forall b | 0 <= b < |d|
      ensures d'[b] == d[b]
    {
      if b in bs {
        var j :| 0 <= j < |bs| && bs[j] == b;
        BlockSlice(d, bs, j, 0, BLOCK_SIZE);
        BlockSlice(d', bs, j, 0, BLOCK_SIZE);
        assert d[b].bytes[0..BLOCK_SIZE] == d[b].bytes && d'[b].bytes[0..BLOCK_SIZE] == d'[b].bytes;
      }
    }
  }

  lemma EmptyWrite(d: Image, d': Image, id: nat, offset: int, data: seq<Byte>, r: int)
    requires RawWrite(d, d', id, offset, data, r) && d[id].filesize == 0
    ensures d' == d && r == if offset == 0 then 0 else VFS_ERROR
  {
    if offset == 0 {
      SpliceNothing(Joined(d, DataBlocks(d, id)), 0);
      assert data[..0] == [];
      JoinedDetermines(d, d', DataBlocks(d, id));
    }
  }

  lemma EmptyIsRight(d: Image, name: string, offset: int, data: seq<Byte>)
    requires VolumeOk(d) && name in Files(d) && Content(d, name) == []
    ensures Overwrites(d, d, name, offset, data, if offset == 0 then 0 else VFS_ERROR)
  {
    SameValue(Files(d), name);
    SpliceNothing([], 0);
    assert data[..0] == [];
  }

  lemma NoByte(d: Image, id: nat, data: seq<Byte>)
    requires Usable(d, id) && d[id].filesize == 0
    ensures RawWrite(d, d, id, 0, data, 0)
  {
    SpliceNothing(Joined(d, DataBlocks(d, id)), 0);
    assert data[..0] == [];
  }

  lemma OneByte(d: Image, id: nat, data: seq<Byte>) returns (d': Image)
    requires Usable(d, id) && d[id].filesize > 0 && |data| == 1
    ensures RawWrite(d, d', id, 0, data, 1)
  {
    var bs := DataBlocks(d, id);
    assert bs[0] in bs && data[..1] == data;
    d' := d[bs[0] := Data(Splice(d[bs[0]].bytes, 0, data))];
    BlockSplice(d, d', bs, 0, 0, data, 0);
  }

  /** A write of one byte through the id of another file that is not what it would have been to `name`. */
  lemma WrongWrite(d: Image, id: nat, name: string, other: string) returns (d': Image, data: seq<Byte>, r: int)
    requires OpenAs(d, id, other) && name in Files(d) && name != other
    requires Content(d, name) != [] || Content(d, other) != []
    ensures RawWrite(d, d', id, 0, data, r) && !Overwrites(d, d', name, 0, data, r)
  {
    var idx := OpenFile(d, id, other);
    data := Differing(Content(d, name));
    if d[id].filesize == 0 {
      d', r := d, 0;
      NoByte(d, id, data);
    } else {
      d' := OneByte(d, id, data);
      r := 1;
      WriteThroughOwnId(d, d', id, other, 0, data, r);
      OtherContent(d, d', name, other, data, r);
      NotReplaced(Content(d, name), data);
    }
  }

  ghost function Differing(c: seq<Byte>): (data: seq<Byte>)
    ensures |data| == 1 && (c != [] ==> data[0] != c[0])
  {
    [if c != [] && c[0] == 0 then 1 else 0]
  }

  lemma OtherContent(d: Image, d': Image, name: string, other: string, data: seq<Byte>, r: int)
    requires VolumeOk(d) && name in Files(d) && name != other && Overwrites(d, d', other, 0, data, r)
    ensures Content(d', name) == Content(d, name)
  {
    SameElsewhere(Files(d), Files(d'), name, other, Files(d)[other].(bytes := Content(d', other)));
  }

  lemma SameElsewhere(files: map<string, File>, files': map<string, File>, name: string, other: string, f: File)
    requires files' == files[other := f] && name != other && name in files
    ensures name in files' && files'[name] == files[name]
  {
  }

  lemma NotReplaced(c: seq<Byte>, data: seq<Byte>)
    requires |data| == 1 && (c != [] ==> data[0] != c[0])
    ensures !ReplacesSlice(c, 0, data, c, 1)
  {
    if c != [] {
      assert Splice(c, 0, data[..1])[0] == data[0];
    }
  }

  /**
   For the id of an existing file: every write through it is right for `name` if and only if the
   id is that of `name`, which opening `name` again would show, or both files are empty.
   */
  lemma RightExactlyIf(d: Image, id: nat, name: string, other: string)
    requires OpenAs(d, id, other) && name in Files(d)
    ensures AlwaysRight(d, id, name) <==> name == other || (Content(d, name) == [] && Content(d, other) == [])
  {
    if name == other {
      forall d', offset, data, r | RawWrite(d, d', id, offset, data, r)
        ensures Overwrites(d, d', name, offset, data, r)
      {
        WriteThroughOwnId(d, d', id, name, offset, data, r);
      }
    } else if Content(d, name) == [] && Content(d, other) == [] {
      var idx := OpenFile(d, id, other);
      forall d', offset, data, r | RawWrite(d, d', id, offset, data, r)
        ensures Overwrites(d, d', name, offset, data, r)
      {
        EmptyWrite(d, d', id, offset, data, r);
        EmptyIsRight(d, name, offset, data);
      }
    } else {
      var d', data, r := WrongWrite(d, id, name, other);
    }
  }
}
