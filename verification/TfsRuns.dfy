/**
 The Trivial Filesystem as a whole. A volume is abstracted to its files and its number of free
 blocks; on these, what each operation does and whether it succeeds is a plain function. A
 session adds what the file layer keeps: the ids that opening files gave, for reads and writes
 at any later time. Every sequence of driver and tool calls on a disk follows that function as
 long as no file is removed while it is open.
 */
module TfsRuns {
  import opened Bitmap
  import opened TfsFormat
  import Tfs
  import TfsIds
  import TfsTool

  datatype Volume = Volume(files: map<string, File>, free: nat)

  datatype Op =
    | Create(name: string, size: nat)
    | Remove(name: string)
    | Overwrite(name: string, data: seq<Byte>, offset: int)
    | Store(name: string, source: seq<Byte>)
    | Delete(name: string)

  ghost function View(d: Image): Volume
    requires VolumeOk(d)
  {
    Volume(Files(d), CountClear(BlockBits(d)))
  }

  /** A new file of `n` data blocks finds a name, a directory entry and blocks. */
  ghost predicate Fits(v: Volume, name: string, n: nat) {
    name !in v.files && |v.files| < MAX_FILES && v.free >= 1 + n
  }

  ghost predicate Succeeds(v: Volume, op: Op) {
    match op
    case Create(name, size) => size <= MAX_FILESIZE && Fits(v, name, Tfs.NumBlocks(size))
    case Store(name, source) => |source| <= MAX_FILESIZE && Fits(v, name, TfsTool.BlocksTaken(|source|))
    case Remove(name) => name in v.files
    case Delete(name) => name in v.files
    case Overwrite(name, _, offset) => name in v.files && 0 <= offset <= |v.files[name].bytes|
  }

  ghost function With(v: Volume, name: string, bytes: seq<Byte>, n: nat): Volume
    requires v.free >= 1 + n
  {
    Volume(v.files[name := File(bytes, n)], v.free - 1 - n)
  }

  ghost function Without(v: Volume, name: string): Volume
    requires name in v.files
  {
    Volume(v.files - {name}, v.free + 1 + v.files[name].blocks)
  }

  ghost function Changed(v: Volume, name: string, data: seq<Byte>, offset: nat): Volume
    requires name in v.files && offset <= |v.files[name].bytes|
  {
    var f := v.files[name];
    var n := Tfs.Min(|data|, |f.bytes| - offset);
    v.(files := v.files[name := f.(bytes := Splice(f.bytes, offset, data[..n]))])
  }

  ghost function Next(v: Volume, op: Op): Volume {
    if !Succeeds(v, op) then v
    else match op
      case Create(name, size) => With(v, name, Zeros(size), Tfs.NumBlocks(size))
      case Store(name, source) => With(v, name, source, TfsTool.BlocksTaken(|source|))
      case Remove(name) => Without(v, name)
      case Delete(name) => Without(v, name)
      case Overwrite(name, data, offset) => Changed(v, name, data, offset)
  }

  // ---------- Refinement ----------

  /** A disk operation has done what the operation does to the abstract volume. */
  ghost predicate Refines(d: Image, d': Image, op: Op, ok: bool) {
    && VolumeOk(d) && VolumeOk(d') && |d'| == |d|
    && View(d') == Next(View(d), op) && ok == Succeeds(View(d), op)
  }

  lemma AddedIsWith(d: Image, d': Image, name: string, bytes: seq<Byte>, n: nat)
    requires VolumeOk(d) && Added(d, d', name, bytes, n)
    ensures View(d).free >= 1 + n && View(d') == With(View(d), name, bytes, n)
  {
  }

  lemma FitsMeans(d: Image, name: string, n: nat)
    requires VolumeOk(d)
    ensures Fits(View(d), name, n) <==> Tfs.CanHold(d, name, n)
  {
    Tfs.VacancyMeansRoom(d);
  }

  lemma CreateRefines(d: Image, d': Image, name: string, size: nat, ok: bool)
    requires VolumeOk(d) && ok == Tfs.Creatable(d, name, size)
    requires if ok then Added(d, d', name, Zeros(size), Tfs.NumBlocks(size)) else d' == d
    ensures Refines(d, d', Create(name, size), ok)
  {
    FitsMeans(d, name, Tfs.NumBlocks(size));
    if ok {
      AddedIsWith(d, d', name, Zeros(size), Tfs.NumBlocks(size));
    }
  }

  lemma StoreRefines(d: Image, d': Image, name: string, source: seq<Byte>, ok: bool)
    requires VolumeOk(d) && ok == TfsTool.Storable(d, source, name)
    requires if ok then Added(d, d', name, source, TfsTool.BlocksTaken(|source|)) else TfsTool.NothingStored(d, d')
    ensures Refines(d, d', Store(name, source), ok)
  {
    StoreSucceeds(d, name, source, ok);
    if ok {
      AddedIsWith(d, d', name, source, TfsTool.BlocksTaken(|source|));
      StoreNext(View(d), name, source);
    } else {
      SameView(d, d');
    }
  }

  lemma StoreSucceeds(d: Image, name: string, source: seq<Byte>, ok: bool)
    requires VolumeOk(d) && ok == TfsTool.Storable(d, source, name)
    ensures ok == Succeeds(View(d), Store(name, source))
  {
    var n := TfsTool.BlocksTaken(|source|);
    FitsMeans(d, name, n);
    StoreMeans(View(d), name, source, n, Tfs.CanHold(d, name, n));
  }

  lemma StoreMeans(v: Volume, name: string, source: seq<Byte>, n: nat, can: bool)
    requires n == TfsTool.BlocksTaken(|source|) && can == Fits(v, name, n)
    ensures Succeeds(v, Store(name, source)) == (|source| <= MAX_FILESIZE && can)
  {
  }

  lemma StoreNext(v: Volume, name: string, source: seq<Byte>)
    requires Succeeds(v, Store(name, source))
    ensures Next(v, Store(name, source)) == With(v, name, source, TfsTool.BlocksTaken(|source|))
  {
  }

  lemma SameView(d: Image, d': Image)
    requires TfsTool.NothingStored(d, d')
    ensures View(d') == View(d)
  {
    assert BlockBits(d)[ALLOCATION];
  }

  lemma RemoveRefines(d: Image, d': Image, name: string, ok: bool)
    requires VolumeOk(d) && ok == (name in Files(d))
    requires if ok then Removed(d, d', name) else d' == d
    ensures Refines(d, d', Remove(name), ok) && Refines(d, d', Delete(name), ok)
  {
    if ok {
      ViewWithout(View(d), View(d'), name);
    }
  }

  lemma ViewWithout(v: Volume, v': Volume, name: string)
    requires name in v.files && v'.files == v.files - {name} && v'.free == v.free + 1 + v.files[name].blocks
    ensures v' == Next(v, Remove(name)) == Next(v, Delete(name))
  {
  }

  lemma OverwriteRefines(d: Image, d': Image, name: string, data: seq<Byte>, offset: int, r: int)
    requires VolumeOk(d) && Tfs.Overwrites(d, d', name, offset, data, r)
    ensures Refines(d, d', Overwrite(name, data, offset), r != Tfs.VFS_ERROR)
  {
    ViewChanged(View(d), View(d'), name, data, offset, Content(d', name), r);
  }

  lemma ViewChanged(v: Volume, v': Volume, name: string, data: seq<Byte>, offset: int, bytes: seq<Byte>, r: int)
    requires name in v.files && v' == v.(files := v.files[name := v.files[name].(bytes := bytes)])
    requires Tfs.ReplacesSlice(v.files[name].bytes, offset, data, bytes, r)
    ensures v' == Next(v, Overwrite(name, data, offset))
    ensures (r != Tfs.VFS_ERROR) == Succeeds(v, Overwrite(name, data, offset))
  {
    if r == Tfs.VFS_ERROR {
      assert v.files[name := v.files[name].(bytes := bytes)] == v.files;
    }
  }

  // ---------- Ids ----------

  ghost predicate Takes(op: Op, name: string) {
    (op.Remove? || op.Delete?) && op.name == name
  }

  /** Every id stays the id of its file, unless that file is removed. */
  ghost predicate IdsKept(d: Image, d': Image, op: Op) {
    forall id, name :: Tfs.OpenAs(d, id, name) && !Takes(op, name) ==> Tfs.OpenAs(d', id, name)
  }

  lemma AddKeepsIds(d: Image, d': Image, op: Op)
    requires VolumeOk(d) && op.name !in Files(d) && Placed(d, d', op.name)
    ensures IdsKept(d, d', op)
  {
    forall id, name | Tfs.OpenAs(d, id, name)
      ensures Tfs.OpenAs(d', id, name)
    {
      TfsIds.SurvivesAdd(d, d', id, name, op.name);
    }
  }

  lemma RemoveKeepsIds(d: Image, d': Image, op: Op)
    requires VolumeOk(d) && Freed(d, d', op.name) && (op.Remove? || op.Delete?)
    ensures IdsKept(d, d', op)
  {
    forall id, name | Tfs.OpenAs(d, id, name) && !Takes(op, name)
      ensures Tfs.OpenAs(d', id, name)
    {
      TfsIds.SurvivesRemove(d, d', id, name, op.name);
    }
  }

  lemma SameDirectoryKeepsIds(d: Image, d': Image, op: Op)
    requires VolumeOk(d) && VolumeOk(d') && |d'| == |d| && d'[DIRECTORY] == d[DIRECTORY]
    ensures IdsKept(d, d', op)
  {
    forall id, name | Tfs.OpenAs(d, id, name)
      ensures Tfs.OpenAs(d', id, name)
    {
      TfsIds.SurvivesWrite(d, d', id, name);
    }
  }

  lemma NothingStoredKeepsIds(d: Image, d': Image, op: Op)
    requires TfsTool.NothingStored(d, d')
    ensures IdsKept(d, d', op)
  {
    assert BlockBits(d)[DIRECTORY];
    SameDirectoryKeepsIds(d, d', op);
  }

  // ---------- One operation ----------

  /** One operation on a disk does what it does to the abstract volume, and keeps all ids but those it removes. */
  method Perform(disk: Disk, op: Op) returns (ok: bool)
    requires VolumeOk(disk.blocks) && ValidName(op.name)
    modifies disk
    ensures Refines(old(disk.blocks), disk.blocks, op, ok) && IdsKept(old(disk.blocks), disk.blocks, op)
  {
    match op {
      case Create(name, size) =>
        ok := PerformCreate(disk, name, size);
      case Store(name, source) =>
        ok := PerformStore(disk, name, source);
      case Remove(name) =>
        ok := PerformRemove(disk, name);
      case Delete(name) =>
        ok := PerformDelete(disk, name);
      case Overwrite(name, data, offset) =>
        ok := OpenAndWrite(disk, name, data, offset);
    }
  }

  method PerformCreate(disk: Disk, name: string, size: nat) returns (ok: bool)
    requires VolumeOk(disk.blocks) && ValidName(name)
    modifies disk
    ensures Refines(old(disk.blocks), disk.blocks, Create(name, size), ok)
    ensures IdsKept(old(disk.blocks), disk.blocks, Create(name, size))
  {
    ghost var d := disk.blocks;
    var r := Tfs.Create(disk, name, size);
    ok := r == Tfs.VFS_OK;
    CreateRefines(d, disk.blocks, name, size, ok);
    if ok {
      AddKeepsIds(d, disk.blocks, Create(name, size));
    }
  }

  method PerformStore(disk: Disk, name: string, source: seq<Byte>) returns (ok: bool)
    requires VolumeOk(disk.blocks) && ValidName(name)
    modifies disk
    ensures Refines(old(disk.blocks), disk.blocks, Store(name, source), ok)
    ensures IdsKept(old(disk.blocks), disk.blocks, Store(name, source))
  {
    ghost var d := disk.blocks;
    ok := TfsTool.WriteFile(disk, source, name);
    StoreRefines(d, disk.blocks, name, source, ok);
    if ok {
      AddKeepsIds(d, disk.blocks, Store(name, source));
    } else {
      NothingStoredKeepsIds(d, disk.blocks, Store(name, source));
    }
  }

  method PerformRemove(disk: Disk, name: string) returns (ok: bool)
    requires VolumeOk(disk.blocks) && ValidName(name)
    modifies disk
    ensures Refines(old(disk.blocks), disk.blocks, Remove(name), ok)
    ensures IdsKept(old(disk.blocks), disk.blocks, Remove(name))
  {
    ghost var d := disk.blocks;
    var r := Tfs.Remove(disk, name);
    ok := r == Tfs.VFS_OK;
    RemoveRefines(d, disk.blocks, name, ok);
    if ok {
      RemoveKeepsIds(d, disk.blocks, Remove(name));
    }
  }

  method PerformDelete(disk: Disk, name: string) returns (ok: bool)
    requires VolumeOk(disk.blocks) && ValidName(name)
    modifies disk
    ensures Refines(old(disk.blocks), disk.blocks, Delete(name), ok)
    ensures IdsKept(old(disk.blocks), disk.blocks, Delete(name))
  {
    ghost var d := disk.blocks;
    ok := TfsTool.DeleteFile(disk, name);
    RemoveRefines(d, disk.blocks, name, ok);
    if ok {
      RemoveKeepsIds(d, disk.blocks, Delete(name));
    }
  }

  method OpenAndWrite(disk: Disk, name: string, data: seq<Byte>, offset: int) returns (ok: bool)
    requires VolumeOk(disk.blocks) && ValidName(name)
    modifies disk
    ensures Refines(old(disk.blocks), disk.blocks, Overwrite(name, data, offset), ok)
    ensures IdsKept(old(disk.blocks), disk.blocks, Overwrite(name, data, offset))
  {
    var id := Tfs.Open(disk, name);
    if id == Tfs.VFS_NOT_FOUND {
      return false;
    }
    ok := WriteById(disk, id, data, offset, name);
  }

  /** A write through an id that is still that of the file it was opened for. */
  method WriteById(disk: Disk, id: int, data: seq<Byte>, offset: int, ghost name: string) returns (ok: bool)
    requires Tfs.OpenAs(disk.blocks, id, name)
    modifies disk
    ensures Refines(old(disk.blocks), disk.blocks, Overwrite(name, data, offset), ok)
    ensures IdsKept(old(disk.blocks), disk.blocks, Overwrite(name, data, offset))
  {
    ghost var d := disk.blocks;
    ghost var idx := Tfs.OpenFile(d, id, name);
    var r := Tfs.Write(disk, id, data, offset);
    Tfs.WriteThroughOwnId(d, disk.blocks, id, name, offset, data, r);
    OverwriteRefines(d, disk.blocks, name, data, offset, r);
    SameDirectoryKeepsIds(d, disk.blocks, Overwrite(name, data, offset));
    return r != Tfs.VFS_ERROR;
  }

  // ---------- Sessions ----------

  /** The volume, and for each open so far the name of its file, empty if it failed or was closed. */
  datatype Session = Session(v: Volume, names: seq<string>)

  datatype Call =
    | OnVolume(op: Op)
    | Open(name: string)
    | Close(handle: nat)
    | ReadFrom(handle: nat, count: nat, offset: int)
    | WriteTo(handle: nat, data: seq<Byte>, offset: int)

  datatype Reply = Reply(ok: bool, bytes: seq<Byte>)

  ghost predicate IsOpen(s: Session, h: nat) {
    h < |s.names| && s.names[h] != "" && s.names[h] in s.v.files
  }

  ghost function NextSession(s: Session, call: Call): Session {
    match call
    case OnVolume(op) => s.(v := Next(s.v, op))
    case Open(name) => s.(names := s.names + [if name in s.v.files then name else ""])
    case Close(h) => if h < |s.names| then s.(names := s.names[h := ""]) else s
    case ReadFrom(_, _, _) => s
    case WriteTo(h, data, offset) => if IsOpen(s, h) then s.(v := Next(s.v, Overwrite(s.names[h], data, offset))) else s
  }

  ghost function Answer(s: Session, call: Call): Reply {
    match call
    case OnVolume(op) => Reply(Succeeds(s.v, op), [])
    case Open(name) => Reply(name in s.v.files, [])
    case Close(h) => Reply(IsOpen(s, h), [])
    case ReadFrom(h, count, offset) =>
      if IsOpen(s, h) then Slice(s.v.files[s.names[h]].bytes, count, offset) else Reply(false, [])
    case WriteTo(h, data, offset) => Reply(IsOpen(s, h) && Succeeds(s.v, Overwrite(s.names[h], data, offset)), [])
  }

  ghost function Slice(bytes: seq<Byte>, count: nat, offset: int): Reply {
    if 0 <= offset <= |bytes|
    then Reply(true, bytes[offset..offset + Tfs.Min(count, |bytes| - offset)])
    else Reply(false, [])
  }

  lemma ReadOpen(s: Session, h: nat, count: nat, offset: int)
    requires IsOpen(s, h)
    ensures NextSession(s, ReadFrom(h, count, offset)) == s
    ensures Answer(s, ReadFrom(h, count, offset)) == Slice(s.v.files[s.names[h]].bytes, count, offset)
  {
  }

  lemma WriteOpen(s: Session, h: nat, data: seq<Byte>, offset: int, op: Op)
    requires IsOpen(s, h) && op == Overwrite(s.names[h], data, offset)
    ensures NextSession(s, WriteTo(h, data, offset)) == s.(v := Next(s.v, op))
    ensures Answer(s, WriteTo(h, data, offset)) == Reply(Succeeds(s.v, op), [])
  {
  }

  lemma NotOpen(s: Session, h: nat, call: Call)
    requires !IsOpen(s, h) && (call.ReadFrom? || call.WriteTo?) && call.handle == h
    ensures NextSession(s, call) == s && Answer(s, call) == Reply(false, [])
  {
  }

  lemma Opening(s: Session, name: string, found: bool)
    requires found == (name in s.v.files)
    ensures NextSession(s, Open(name)) == s.(names := s.names + [if found then name else ""])
    ensures Answer(s, Open(name)) == Reply(found, [])
  {
  }

  /** No file is removed while it is open. */
  ghost predicate Safe(s: Session, call: Call) {
    call.OnVolume? && (call.op.Remove? || call.op.Delete?) ==> call.op.name !in s.names
  }

  ghost predicate ProperCall(call: Call) {
    (call.OnVolume? ==> ValidName(call.op.name)) && (call.Open? ==> ValidName(call.name))
  }

  const CLOSED := -1

  /** The ids the file layer holds are those of the files they were opened for. */
  ghost predicate Holds(d: Image, ids: seq<int>, names: seq<string>) {
    && |ids| == |names|
    && forall k :: 0 <= k < |ids| ==> if names[k] == "" then ids[k] == CLOSED else Tfs.OpenAs(d, ids[k], names[k])
  }

  /** The call has done to the disk and the ids what it does to the session. */
  ghost predicate Follows(s: Session, d: Image, d': Image, ids': seq<int>, call: Call, reply: Reply) {
    && VolumeOk(d') && |d'| == |d| && Holds(d', ids', NextSession(s, call).names)
    && View(d') == NextSession(s, call).v && reply == Answer(s, call)
  }

  lemma StillHolds(d: Image, d': Image, op: Op, ids: seq<int>, names: seq<string>)
    requires Holds(d, ids, names) && IdsKept(d, d', op) && forall k :: 0 <= k < |names| ==> !Takes(op, names[k])
    ensures Holds(d', ids, names)
  {
  }

  /** One call, on a disk and a table of ids. */
  method Do(disk: Disk, ids: seq<int>, call: Call, ghost s: Session) returns (ids': seq<int>, reply: Reply)
    requires VolumeOk(disk.blocks) && s.v == View(disk.blocks) && Holds(disk.blocks, ids, s.names)
    requires ProperCall(call) && Safe(s, call)
    modifies disk
    ensures Follows(s, old(disk.blocks), disk.blocks, ids', call, reply)
  {
    match call {
      case OnVolume(op) =>
        ids', reply := DoOnVolume(disk, ids, op, s);
      case Open(name) =>
        ids', reply := DoOpen(disk, ids, name, s);
      case Close(h) =>
        reply := Reply(h < |ids| && ids[h] != CLOSED, []);
        ids' := if h < |ids| then ids[h := CLOSED] else ids;
        OpenMeans(disk.blocks, ids, s, h);
      case ReadFrom(h, count, offset) =>
        ids', reply := DoRead(disk, ids, h, count, offset, s);
      case WriteTo(h, data, offset) =>
        ids', reply := DoWrite(disk, ids, h, data, offset, s);
    }
  }

  /** The table entry is in use exactly if the handle is open. */
  lemma OpenMeans(d: Image, ids: seq<int>, s: Session, h: nat)
    requires VolumeOk(d) && s.v == View(d) && Holds(d, ids, s.names)
    ensures h < |ids| && ids[h] != CLOSED <==> IsOpen(s, h)
    ensures IsOpen(s, h) ==> Tfs.OpenAs(d, ids[h], s.names[h])
  {
    TfsIds.KnownNames(d);
  }

  method DoOnVolume(disk: Disk, ids: seq<int>, op: Op, ghost s: Session) returns (ids': seq<int>, reply: Reply)
    requires VolumeOk(disk.blocks) && s.v == View(disk.blocks) && Holds(disk.blocks, ids, s.names)
    requires ValidName(op.name) && Safe(s, OnVolume(op))
    modifies disk
    ensures Follows(s, old(disk.blocks), disk.blocks, ids', OnVolume(op), reply)
  {
    ghost var d := disk.blocks;
    var ok := Perform(disk, op);
    StillHolds(d, disk.blocks, op, ids, s.names);
    return ids, Reply(ok, []);
  }

  method DoOpen(disk: Disk, ids: seq<int>, name: string, ghost s: Session) returns (ids': seq<int>, reply: Reply)
    requires VolumeOk(disk.blocks) && s.v == View(disk.blocks) && Holds(disk.blocks, ids, s.names) && ValidName(name)
    ensures Follows(s, disk.blocks, disk.blocks, ids', Open(name), reply)
  {
    var id := Tfs.Open(disk, name);
    var found := id != Tfs.VFS_NOT_FOUND;
    Opening(s, name, found);
    OneMoreId(disk.blocks, ids, s.names, id, name, found);
    return ids + [if found then id else CLOSED], Reply(found, []);
  }

  lemma OneMoreId(d: Image, ids: seq<int>, names: seq<string>, id: int, name: string, found: bool)
    requires Holds(d, ids, names) && name != "" && (found ==> Tfs.OpenAs(d, id, name))
    ensures Holds(d, ids + [if found then id else CLOSED], names + [if found then name else ""])
  {
  }

  method DoRead(disk: Disk, ids: seq<int>, h: nat, count: nat, offset: int, ghost s: Session)
    returns (ids': seq<int>, reply: Reply)
    requires VolumeOk(disk.blocks) && s.v == View(disk.blocks) && Holds(disk.blocks, ids, s.names)
    ensures Follows(s, disk.blocks, disk.blocks, ids', ReadFrom(h, count, offset), reply)
  {
    OpenMeans(disk.blocks, ids, s, h);
    ids' := ids;
    if h >= |ids| || ids[h] == CLOSED {
      NotOpen(s, h, ReadFrom(h, count, offset));
      return ids', Reply(false, []);
    }
    ghost var content := OpenContent(disk.blocks, s, h);
    ReadOpen(s, h, count, offset);
    reply := ReadById(disk, ids[h], count, offset, s.names[h], content);
  }

  lemma OpenContent(d: Image, s: Session, h: nat) returns (content: seq<Byte>)
    requires VolumeOk(d) && s.v == View(d) && IsOpen(s, h)
    ensures content == Content(d, s.names[h]) == s.v.files[s.names[h]].bytes
  {
    content := Content(d, s.names[h]);
  }

  /** A read through an id that is still that of the file it was opened for. */
  method ReadById(disk: Disk, id: int, count: nat, offset: int, ghost name: string, ghost content: seq<Byte>)
    returns (reply: Reply)
    requires Tfs.OpenAs(disk.blocks, id, name) && content == Content(disk.blocks, name)
    ensures reply == Slice(content, count, offset)
  {
    ghost var idx := Tfs.OpenFile(disk.blocks, id, name);
    var buffer := new Byte[count];
    ghost var before := buffer[..];
    var r := Tfs.Read(disk, id, buffer, count, offset);
    SliceDelivered(content, count, offset, before, buffer[..], r);
    reply := if r == Tfs.VFS_ERROR then Reply(false, []) else Reply(true, buffer[..r]);
  }

  lemma SliceDelivered(content: seq<Byte>, count: nat, offset: int, before: seq<Byte>, after: seq<Byte>, r: int)
    requires Tfs.DeliversSlice(content, offset, count, before, after, r) && |before| == count
    ensures r == Tfs.VFS_ERROR ==> Slice(content, count, offset) == Reply(false, [])
    ensures r != Tfs.VFS_ERROR ==> 0 <= r <= |after| && Slice(content, count, offset) == Reply(true, after[..r])
  {
  }

  method DoWrite(disk: Disk, ids: seq<int>, h: nat, data: seq<Byte>, offset: int, ghost s: Session)
    returns (ids': seq<int>, reply: Reply)
    requires VolumeOk(disk.blocks) && s.v == View(disk.blocks) && Holds(disk.blocks, ids, s.names)
    modifies disk
    ensures Follows(s, old(disk.blocks), disk.blocks, ids', WriteTo(h, data, offset), reply)
  {
    OpenMeans(disk.blocks, ids, s, h);
    ids' := ids;
    if h < |ids| && ids[h] != CLOSED {
      reply := WriteOpened(disk, ids, h, data, offset, s);
    } else {
      NotOpen(s, h, WriteTo(h, data, offset));
      reply := Reply(false, []);
    }
  }

  method WriteOpened(disk: Disk, ids: seq<int>, h: nat, data: seq<Byte>, offset: int, ghost s: Session)
    returns (reply: Reply)
    requires VolumeOk(disk.blocks) && s.v == View(disk.blocks) && Holds(disk.blocks, ids, s.names)
    requires IsOpen(s, h) && h < |ids| && Tfs.OpenAs(disk.blocks, ids[h], s.names[h])
    modifies disk
    ensures Follows(s, old(disk.blocks), disk.blocks, ids, WriteTo(h, data, offset), reply)
  {
    ghost var d, op := disk.blocks, Overwrite(s.names[h], data, offset);
    WriteOpen(s, h, data, offset, op);
    var ok := WriteById(disk, ids[h], data, offset, s.names[h]);
    StillHolds(d, disk.blocks, op, ids, s.names);
    reply := Reply(ok, []);
  }

  // ---------- Runs ----------

  ghost function AfterAll(s: Session, calls: seq<Call>): Session {
    if calls == [] then s else NextSession(AfterAll(s, calls[..|calls| - 1]), calls[|calls| - 1])
  }

  /** Every call's reply, on the session that those before it left. */
  ghost predicate Answers(s: Session, calls: seq<Call>, replies: seq<Reply>) {
    |replies| == |calls| && forall i :: 0 <= i < |calls| ==> replies[i] == Answer(AfterAll(s, calls[..i]), calls[i])
  }

  ghost predicate SafeRun(s: Session, calls: seq<Call>) {
    forall i :: 0 <= i < |calls| ==> ProperCall(calls[i]) && Safe(AfterAll(s, calls[..i]), calls[i])
  }

  lemma OneMore(s: Session, calls: seq<Call>, replies: seq<Reply>, call: Call, reply: Reply)
    requires Answers(s, calls, replies) && reply == Answer(AfterAll(s, calls), call)
    ensures Answers(s, calls + [call], replies + [reply])
    ensures AfterAll(s, calls + [call]) == NextSession(AfterAll(s, calls), call)
  {
    var all := calls + [call];
    assert all[..|calls|] == calls;
    forall i | 0 <= i < |all|
      ensures (replies + [reply])[i] == Answer(AfterAll(s, all[..i]), all[i])
    {
      assert i < |calls| ==> all[..i] == calls[..i];
    }
  }

  /** All blocks of the disk are system blocks, blocks of files or free. */
  ghost predicate Accounted(d: Image) {
    VolumeOk(d) && View(d).free + |Owned(d)| + 3 == |d|
  }

  /**
   Whatever calls are made, as long as no file is removed while it is open, the volume stays
   sound and of the same size, files, free space and every reply are those of the session, and
   no block is lost.
   */
  method Run(disk: Disk, calls: seq<Call>) returns (replies: seq<Reply>)
    requires VolumeOk(disk.blocks) && SafeRun(Session(View(disk.blocks), []), calls)
    modifies disk
    ensures Accounted(disk.blocks) && |disk.blocks| == |old(disk.blocks)|
    ensures View(disk.blocks) == AfterAll(Session(old(View(disk.blocks)), []), calls).v
    ensures Answers(Session(old(View(disk.blocks)), []), calls, replies)
  {
    ghost var s := Session(View(disk.blocks), []);
    ghost var n := |disk.blocks|;
    var ids: seq<int> := [];
    replies := [];
    for i := 0 to |calls|
      invariant VolumeOk(disk.blocks) && |disk.blocks| == n && View(disk.blocks) == AfterAll(s, calls[..i]).v
      invariant Holds(disk.blocks, ids, AfterAll(s, calls[..i]).names) && Answers(s, calls[..i], replies)
    {
      var reply;
      ids, reply := Do(disk, ids, calls[i], AfterAll(s, calls[..i]));
      OneMore(s, calls[..i], replies, calls[i], reply);
      replies := replies + [reply];
      assert calls[..i] + [calls[i]] == calls[..i + 1];
    }
    assert calls[..|calls|] == calls;
    Conservation(disk.blocks);
  }

  /** A run from a new volume of `size` blocks. */
  method RunFresh(size: int, volume: string, calls: seq<Call>) returns (disk: Disk?, replies: seq<Reply>)
    requires size <= MAX_BLOCKS && (size >= 3 ==> SafeRun(Session(Volume(map[], size - 3), []), calls))
    ensures disk == null <==> size < 3
    ensures disk != null ==> Accounted(disk.blocks) && |disk.blocks| == size
    ensures disk != null ==> View(disk.blocks) == AfterAll(Session(Volume(map[], size - 3), []), calls).v
    ensures disk != null ==> Answers(Session(Volume(map[], size - 3), []), calls, replies)
  {
    disk := TfsTool.CreateVolume(size, volume);
    replies := [];
    if disk != null {
      NewView(disk.blocks);
      replies := Run(disk, calls);
    }
  }

  lemma NewView(d: Image)
    requires VolumeOk(d) && Files(d) == map[] && FreeSpace(d) == BLOCK_SIZE * (|d| - 3)
    ensures View(d) == Volume(map[], |d| - 3)
  {
  }

  // ---------- What follows ----------

  /** Removing a file that was just created or stored gives back exactly the volume before. */
  lemma RemoveUndoes(v: Volume, op: Op, undo: Op)
    requires (op.Create? || op.Store?) && Succeeds(v, op) && (undo == Remove(op.name) || undo == Delete(op.name))
    ensures Next(Next(v, op), undo) == v
  {
    var n := if op.Create? then Tfs.NumBlocks(op.size) else TfsTool.BlocksTaken(|op.source|);
    var bytes := if op.Create? then Zeros(op.size) else op.source;
    assert Next(v, op) == With(v, op.name, bytes, n);
    assert With(v, op.name, bytes, n).files - {op.name} == v.files;
  }

  /** Handle `h` is open on the file `name`. */
  ghost predicate OpenFor(s: Session, h: nat, name: string) {
    IsOpen(s, h) && s.names[h] == name
  }

  /** A handle comes from an open of an existing file and ends with its close, and only so. */
  lemma HandleLifeCycle(s: Session, call: Call, h: nat, name: string)
    requires Safe(s, call) && ProperCall(call)
    requires h < |s.names| && s.names[h] == name ==> name == "" || name in s.v.files
    ensures OpenFor(NextSession(s, call), h, name) <==>
      (OpenFor(s, h, name) && call != Close(h)) || (call == Open(name) && h == |s.names| && name in s.v.files)
  {
  }

  /** Until it is closed a handle answers with the bytes its file has at that time. */
  lemma {:induction false} ReadsCurrentBytes(s: Session, calls: seq<Call>, h: nat, name: string, count: nat,
                                             offset: int)
    requires SafeRun(s, calls) && OpenFor(s, h, name) && Close(h) !in calls
    ensures var s' := AfterAll(s, calls);
      OpenFor(s', h, name) && Answer(s', ReadFrom(h, count, offset)) == Slice(s'.v.files[name].bytes, count, offset)
    decreases |calls|
  {
    if calls != [] {
      var n := |calls| - 1;
      assert forall i :: 0 <= i < n ==> calls[..n][i] == calls[i] && calls[..n][..i] == calls[..i];
      ReadsCurrentBytes(s, calls[..n], h, name, count, offset);
      HandleLifeCycle(AfterAll(s, calls[..n]), calls[n], h, name);
    }
  }

  /** A file stored by the tool reads back byte for byte, with the tool and with the driver. */
  method StoreAndFetch(disk: Disk, source: seq<Byte>, target: string, buffer: array<Byte>)
    returns (ok: bool, out: seq<Byte>, n: int)
    requires VolumeOk(disk.blocks) && ValidName(target) && |source| <= buffer.Length
    modifies disk, buffer
    ensures ok == Succeeds(old(View(disk.blocks)), Store(target, source))
    ensures ok ==> out == source && n == |source| && buffer[..n] == source
  {
    ghost var d := disk.blocks;
    out, n := [], 0;
    ok := TfsTool.WriteFile(disk, source, target);
    StoreRefines(d, disk.blocks, target, source, ok);
    if ok {
      out, n := FetchBoth(disk, target, buffer, |source|);
    }
  }

  /** Both ways to read a file from its start. */
  method FetchBoth(disk: Disk, name: string, buffer: array<Byte>, bufsize: nat) returns (out: seq<Byte>, n: int)
    requires VolumeOk(disk.blocks) && ValidName(name) && name in Files(disk.blocks) && bufsize <= buffer.Length
    modifies buffer
    ensures out == Content(disk.blocks, name)
    ensures n == Tfs.Min(bufsize, |out|) && buffer[..n] == out[..n]
  {
    var found;
    found, out := TfsTool.ReadFile(disk, name);
    n := OpenAndRead(disk, name, buffer, bufsize, 0, out);
  }

  method OpenAndRead(disk: Disk, name: string, buffer: array<Byte>, bufsize: nat, offset: int, ghost content: seq<Byte>)
    returns (n: int)
    requires VolumeOk(disk.blocks) && ValidName(name) && name in Files(disk.blocks) && bufsize <= buffer.Length
    requires content == Content(disk.blocks, name)
    modifies buffer
    ensures Tfs.DeliversSlice(content, offset, bufsize, old(buffer[..]), buffer[..], n)
  {
    var id := Tfs.Open(disk, name);
    ghost var idx := Tfs.OpenFile(disk.blocks, id, name);
    n := Tfs.Read(disk, id, buffer, bufsize, offset);
  }

  /** A read that follows a write delivers the slice of the old contents with the written bytes put in. */
  lemma ReadAfterWrite(content: seq<Byte>, data: seq<Byte>, at: int, content': seq<Byte>, w: int,
                       offset: int, bufsize: nat, before: seq<Byte>, after: seq<Byte>, r: int)
    requires Tfs.ReplacesSlice(content, at, data, content', w) && w != Tfs.VFS_ERROR
    requires Tfs.DeliversSlice(content', offset, bufsize, before, after, r) && r != Tfs.VFS_ERROR
    ensures forall k :: 0 <= k < r ==>
      after[k] == if at <= offset + k < at + w then data[offset + k - at] else content[offset + k]
    ensures at == offset && bufsize == |data| ==> r == w && after[..r] == data[..r]
  {
    var slice := content'[offset..offset + r];
    assert |slice| == r && |content'| == |content|;
    forall k | 0 <= k < r
      ensures after[k] == if at <= offset + k < at + w then data[offset + k - at] else content[offset + k]
    {
      assert after[k] == slice[k] == content'[offset + k];
      SpliceAt(content, at, data[..w], offset + k);
    }
    if at == offset && bufsize == |data| {
      assert after[..r] == data[..r];
    }
  }

  lemma SpliceAt(s: seq<Byte>, at: nat, part: seq<Byte>, i: nat)
    requires at + |part| <= |s| && i < |s|
    ensures Splice(s, at, part)[i] == if at <= i < at + |part| then part[i - at] else s[i]
  {
  }
}
