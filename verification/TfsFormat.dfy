/**
 The on-disk format of the Trivial Filesystem: a header, one allocation block, one directory
 block, and inode and data blocks. The kernel driver and the host tool both work on it; what
 they rely on and what their changes keep is stated here, on values.
 */
module TfsFormat {
  import opened Sequences
  import opened Bitmap

  const BLOCK_SIZE := 512
  const BLOCKS_MAX := 127
  const MAX_FILES := 25
  const MAX_FILESIZE := 65024
  const MAX_BLOCKS := 4096
  const MAGIC := 3745
  const HEADER := 0
  const ALLOCATION := 1
  const DIRECTORY := 2

  type Byte = b: int | 0 <= b < 256

  /** A directory entry; inode 0 marks a free one. */
  datatype Entry = Entry(inode: nat, name: string)

  const VACANT := Entry(0, "")

  datatype Block =
    | Header(magic: nat, volume: string)
    | Bat(words: seq<Word>)
    | Directory(entries: seq<Entry>)
    | Inode(filesize: nat, ptrs: seq<nat>)
    | Data(bytes: seq<Byte>)

  type Image = seq<Block>

  class Disk {
    var blocks: Image

    constructor (blocks: Image)
      ensures this.blocks == blocks
    {
      this.blocks := blocks;
    }
  }

  // ---------- Reading the format ----------

  ghost predicate Formatted(d: Image) {
    && 3 <= |d| <= MAX_BLOCKS
    && d[ALLOCATION].Bat? && 32 * |d[ALLOCATION].words| == MAX_BLOCKS
    && d[DIRECTORY].Directory? && |d[DIRECTORY].entries| == MAX_FILES
  }

  ghost function Entries(d: Image): seq<Entry>
    requires Formatted(d)
  {
    d[DIRECTORY].entries
  }

  /** One bit per block of the disk. */
  ghost function BlockBits(d: Image): (bits: seq<bool>)
    requires Formatted(d)
    ensures |bits| == |d|
  {
    Bits(d[ALLOCATION].words)[..|d|]
  }

  /** The block numbers in front of the first zero. */
  ghost function Used(ptrs: seq<nat>): (r: seq<nat>)
    ensures |r| <= |ptrs| && r == ptrs[..|r|] && 0 !in r
    ensures |r| < |ptrs| ==> ptrs[|r|] == 0
  {
    if ptrs == [] || ptrs[0] == 0 then [] else [ptrs[0]] + Used(ptrs[1..])
  }

  lemma UsedIs(ptrs: seq<nat>, n: nat)
    requires n <= |ptrs| && 0 !in ptrs[..n] && (n < |ptrs| ==> ptrs[n] == 0)
    ensures Used(ptrs) == ptrs[..n]
  {
    var used := Used(ptrs);
    assert |used| == n;
  }

  /** The data blocks that inode block `ino` names. */
  ghost function DataBlocks(d: Image, ino: nat): seq<nat> {
    if ino < |d| && d[ino].Inode? then Used(d[ino].ptrs) else []
  }

  ghost function OwnedBy(d: Image, e: Entry): seq<nat> {
    if e.inode == 0 then [] else [e.inode] + DataBlocks(d, e.inode)
  }

  ghost function Flat(lists: seq<seq<nat>>): seq<nat> {
    if lists == [] then [] else lists[0] + Flat(lists[1..])
  }

  ghost function OwnedLists(d: Image, es: seq<Entry>): (r: seq<seq<nat>>)
    ensures |r| == |es| && forall i :: 0 <= i < |es| ==> r[i] == OwnedBy(d, es[i])
  {
    seq(|es|, i requires 0 <= i < |es| => OwnedBy(d, es[i]))
  }

  /** All inode and data blocks of all files, in directory order. */
  ghost function Owned(d: Image): seq<nat>
    requires Formatted(d)
  {
    Flat(OwnedLists(d, Entries(d)))
  }

  ghost predicate ValidName(name: string) {
    1 <= |name| <= 15
  }

  ghost predicate IsData(d: Image, b: nat) {
    3 <= b < |d| && d[b].Data? && |d[b].bytes| == BLOCK_SIZE
  }

  /** The inode block of a file and the data blocks it names are what they should be. */
  ghost predicate InodeOk(d: Image, ino: nat) {
    && 3 <= ino < |d| && d[ino].Inode? && |d[ino].ptrs| == BLOCKS_MAX
    && d[ino].filesize <= BLOCK_SIZE * |DataBlocks(d, ino)|
    && forall b :: b in DataBlocks(d, ino) ==> IsData(d, b)
  }

  ghost predicate EntryOk(d: Image, e: Entry) {
    if e.inode == 0 then e == VACANT else ValidName(e.name) && InodeOk(d, e.inode)
  }

  ghost predicate NamesUnique(es: seq<Entry>) {
    forall i, j :: 0 <= i < j < |es| && es[i].inode != 0 && es[j].inode != 0 ==> es[i].name != es[j].name
  }

  /**
   The volume invariant: entries are sound, names unique, no block belongs twice, and the
   bitmap marks exactly the system blocks and the blocks of files.
   */
  ghost predicate VolumeOk(d: Image) {
    && Formatted(d)
    && (forall i :: 0 <= i < MAX_FILES ==> EntryOk(d, Entries(d)[i]))
    && NamesUnique(Entries(d))
    && Distinct(Owned(d))
    && BitsExact(BlockBits(d), Owned(d))
  }

  ghost predicate BitsExact(bits: seq<bool>, owned: seq<nat>) {
    forall p :: 0 <= p < |bits| ==> (bits[p] <==> p < 3 || p in owned)
  }

  // ---------- Contents ----------

  ghost function ByteAt(d: Image, b: nat, o: nat): Byte {
    if b < |d| && d[b].Data? && o < |d[b].bytes| then d[b].bytes[o] else 0
  }

  /** The bytes of blocks `bs`, one block behind the other. */
  ghost function Joined(d: Image, bs: seq<nat>): (r: seq<Byte>)
    ensures |r| == BLOCK_SIZE * |bs|
  {
    seq(BLOCK_SIZE * |bs|, k requires 0 <= k < BLOCK_SIZE * |bs| => ByteAt(d, bs[k / BLOCK_SIZE], k % BLOCK_SIZE))
  }

  ghost function FileBytes(d: Image, ino: nat): seq<Byte>
    requires InodeOk(d, ino)
  {
    Joined(d, DataBlocks(d, ino))[..d[ino].filesize]
  }

  /** A file as its user sees it, with the number of data blocks it occupies. */
  datatype File = File(bytes: seq<Byte>, blocks: nat)

  ghost function FileOf(d: Image, ino: nat): File
    requires InodeOk(d, ino)
  {
    File(FileBytes(d, ino), |DataBlocks(d, ino)|)
  }

  ghost predicate HasName(es: seq<Entry>, name: string) {
    exists i :: 0 <= i < |es| && es[i].inode != 0 && es[i].name == name
  }

  /** Where `name` is in the directory. */
  ghost function IndexOf(es: seq<Entry>, name: string): (i: nat)
    requires HasName(es, name)
    ensures i < |es| && es[i].inode != 0 && es[i].name == name
  {
    var i :| 0 <= i < |es| && es[i].inode != 0 && es[i].name == name;
    i
  }

  ghost function Names(es: seq<Entry>): set<string> {
    set i | 0 <= i < |es| && es[i].inode != 0 :: es[i].name
  }

  /** The inode block of the file `name`. */
  ghost function InodeNamed(d: Image, name: string): nat
    requires VolumeOk(d) && HasName(Entries(d), name)
  {
    Entries(d)[IndexOf(Entries(d), name)].inode
  }

  /** The abstract volume: a map from names to bytes. */
  ghost function Files(d: Image): (files: map<string, File>)
    requires VolumeOk(d)
  {
    map name | name in Names(Entries(d)) :: FileOf(d, InodeNamed(d, name))
  }

  ghost function Content(d: Image, name: string): seq<Byte> {
    if VolumeOk(d) && name in Files(d) then Files(d)[name].bytes else []
  }

  /** Which inode block each file has: what opening it gives. */
  ghost function InodeMap(es: seq<Entry>): map<string, nat> {
    map name | name in Names(es) :: es[IndexOf(es, name)].inode
  }

  /** The inode block and the data blocks of the file `name`. */
  ghost function BlocksOf(d: Image, name: string): seq<nat>
    requires Formatted(d)
  {
    var inodes := InodeMap(Entries(d));
    if name in inodes then [inodes[name]] + DataBlocks(d, inodes[name]) else []
  }

  lemma InodeMapAt(es: seq<Entry>, i: nat)
    requires NamesUnique(es) && i < |es| && es[i].inode != 0
    ensures es[i].name in InodeMap(es) && InodeMap(es)[es[i].name] == es[i].inode
  {
    assert IndexOf(es, es[i].name) == i;
  }

  lemma InodeMapElsewhere(es: seq<Entry>, es': seq<Entry>, idx: nat, name: string)
    requires NamesUnique(es) && NamesUnique(es') && idx < |es| == |es'| && es' == es[idx := es'[idx]]
    requires es[idx].inode == 0 || es[idx].name != name
    requires es'[idx].inode == 0 || es'[idx].name != name
    ensures AgreeAt(InodeMap(es'), InodeMap(es), name)
  {
    if name in InodeMap(es) {
      var i := IndexOf(es, name);
      assert es'[i] == es[i];
      InodeMapAt(es', i);
    }
    if name in InodeMap(es') {
      var i := IndexOf(es', name);
      assert es'[i] == es[i];
      InodeMapAt(es, i);
    }
  }

  lemma InodeMapWith(es: seq<Entry>, es': seq<Entry>, idx: nat, e: Entry)
    requires NamesUnique(es) && NamesUnique(es') && idx < |es| && es' == es[idx := e]
    requires es[idx].inode == 0 && e.inode != 0
    ensures InodeMap(es') == InodeMap(es)[e.name := e.inode]
  {
    var after := InodeMap(es)[e.name := e.inode];
    forall name
      ensures AgreeAt(InodeMap(es'), after, name)
    {
      if name == e.name {
        InodeMapAt(es', idx);
      } else {
        InodeMapElsewhere(es, es', idx, name);
      }
    }
    AgreeEverywhere(InodeMap(es'), after);
  }

  lemma InodeMapWithout(es: seq<Entry>, es': seq<Entry>, idx: nat)
    requires NamesUnique(es) && NamesUnique(es') && idx < |es| && es' == es[idx := VACANT] && es[idx].inode != 0
    ensures InodeMap(es') == InodeMap(es) - {es[idx].name}
  {
    var gone := es[idx].name;
    forall name
      ensures AgreeAt(InodeMap(es'), InodeMap(es) - {gone}, name)
    {
      if name == gone {
        NameDropped(es, es', idx);
      } else {
        InodeMapElsewhere(es, es', idx, name);
        AgreeElsewhere(InodeMap(es'), InodeMap(es), name, gone);
      }
    }
    AgreeEverywhere(InodeMap(es'), InodeMap(es) - {gone});
  }

  lemma NameDropped(es: seq<Entry>, es': seq<Entry>, idx: nat)
    requires NamesUnique(es) && idx < |es| && es' == es[idx := VACANT] && es[idx].inode != 0
    ensures es[idx].name !in Names(es')
  {
    assert forall i :: 0 <= i < |es'| && es'[i].inode != 0 ==> i != idx && es'[i].name == es[i].name != es[idx].name;
  }

  lemma FileAt(d: Image, i: nat)
    requires VolumeOk(d) && i < MAX_FILES && Entries(d)[i].inode != 0
    ensures HasName(Entries(d), Entries(d)[i].name) && InodeNamed(d, Entries(d)[i].name) == Entries(d)[i].inode
    ensures Entries(d)[i].name in Files(d)
    ensures Files(d)[Entries(d)[i].name] == FileOf(d, Entries(d)[i].inode)
  {
    var es := Entries(d);
    var j := IndexOf(es, es[i].name);
    assert i == j;
  }

  // ---------- Lists of lists ----------

  lemma {:induction false} FlatAt(lists: seq<seq<nat>>, i: nat)
    requires i < |lists|
    ensures Flat(lists) == Flat(lists[..i]) + lists[i] + Flat(lists[i + 1..])
  {
    if i > 0 {
      FlatAt(lists[1..], i - 1);
      assert lists[1..][..i - 1] == lists[..i][1..] && lists[1..][i..] == lists[i + 1..];
    } else {
      assert lists[..0] == [];
    }
  }

  lemma FlatUpdate(lists: seq<seq<nat>>, i: nat, l: seq<nat>)
    requires i < |lists|
    ensures Flat(lists[i := l]) == Flat(lists[..i]) + l + Flat(lists[i + 1..])
  {
    FlatAt(lists[i := l], i);
    assert lists[i := l][..i] == lists[..i] && lists[i := l][i + 1..] == lists[i + 1..];
  }

  lemma FlatMembers(lists: seq<seq<nat>>, i: nat, x: nat)
    requires i < |lists| && x in lists[i]
    ensures x in Flat(lists)
  {
    FlatAt(lists, i);
  }

  lemma {:induction false} FlatSource(lists: seq<seq<nat>>, x: nat) returns (i: nat)
    requires x in Flat(lists)
    ensures i < |lists| && x in lists[i]
  {
    if x in lists[0] {
      i := 0;
    } else {
      var j := FlatSource(lists[1..], x);
      i := j + 1;
    }
  }

  /** Lists of a duplicate-free collection share no element. */
  lemma FlatApart(lists: seq<seq<nat>>, i: nat, j: nat)
    requires Distinct(Flat(lists)) && i < |lists| && j < |lists| && i != j
    ensures Distinct(lists[i]) && forall x :: x in lists[i] ==> x !in lists[j]
  {
    var others := lists[i := []];
    FlatAt(lists, i);
    DistinctConcat(Flat(lists[..i]) + lists[i], Flat(lists[i + 1..]));
    DistinctConcat(Flat(lists[..i]), lists[i]);
    FlatUpdate(lists, i, []);
    forall x | x in lists[j]
      ensures x in Flat(others)
    {
      FlatMembers(others, j, x);
    }
  }

  /** Putting new elements in place of list `i`. */
  lemma ReplaceList(lists: seq<seq<nat>>, i: nat, l: seq<nat>)
    requires Distinct(Flat(lists)) && i < |lists| && Distinct(l)
    requires forall x :: x in l ==> x !in Flat(lists)
    ensures Distinct(Flat(lists[i := l]))
    ensures forall x :: x in Flat(lists[i := l]) <==> x in l || (x in Flat(lists) && x !in lists[i])
    ensures |Flat(lists[i := l])| == |Flat(lists)| - |lists[i]| + |l|
  {
    var pre, suf := Flat(lists[..i]), Flat(lists[i + 1..]);
    FlatAt(lists, i);
    FlatUpdate(lists, i, l);
    DistinctConcat(pre + lists[i], suf);
    DistinctConcat(pre, lists[i]);
    DistinctConcat(pre + l, suf);
    DistinctConcat(pre, l);
  }

  // ---------- What changes keep ----------

  /** An entry whose blocks are untouched means what it meant. */
  lemma EntryKept(d: Image, d': Image, e: Entry)
    requires EntryOk(d, e) && |d'| == |d|
    requires forall b :: b in OwnedBy(d, e) ==> b < |d| && d'[b] == d[b]
    ensures EntryOk(d', e) && OwnedBy(d', e) == OwnedBy(d, e)
    ensures e.inode != 0 ==> FileOf(d', e.inode) == FileOf(d, e.inode)
  {
    if e.inode != 0 {
      var bs := DataBlocks(d, e.inode);
      assert d'[e.inode] == d[e.inode];
      assert forall b :: b in bs ==> b in OwnedBy(d, e);
      JoinedKept(d, d', bs);
    }
  }

  lemma JoinedKept(d: Image, d': Image, bs: seq<nat>)
    requires |d'| == |d| && forall b :: b in bs ==> b < |d| && d'[b] == d[b]
    ensures Joined(d', bs) == Joined(d, bs)
  {
    forall k | 0 <= k < BLOCK_SIZE * |bs|
      ensures Joined(d', bs)[k] == Joined(d, bs)[k]
    {
      assert bs[k / BLOCK_SIZE] in bs;
    }
  }

  /** Block numbers in the owned lists lie behind the system blocks and on the disk. */
  lemma OwnedInRange(d: Image)
    requires VolumeOk(d)
    ensures forall b :: b in Owned(d) ==> 3 <= b < |d|
  {
    forall b | b in Owned(d)
      ensures 3 <= b < |d|
    {
      var i := FlatSource(OwnedLists(d, Entries(d)), b);
      EntryRange(d, Entries(d)[i]);
    }
  }

  lemma EntryRange(d: Image, e: Entry)
    requires EntryOk(d, e)
    ensures forall b :: b in OwnedBy(d, e) ==> 3 <= b < |d|
  {
  }

  lemma OwnedByIsOwned(d: Image, i: nat)
    requires Formatted(d) && i < MAX_FILES
    ensures forall b :: b in OwnedBy(d, Entries(d)[i]) ==> b in Owned(d)
  {
    forall b | b in OwnedBy(d, Entries(d)[i])
      ensures b in Owned(d)
    {
      FlatMembers(OwnedLists(d, Entries(d)), i, b);
    }
  }

  lemma OwnersApart(d: Image, i: nat, j: nat)
    requires VolumeOk(d) && i < MAX_FILES && j < MAX_FILES && i != j
    ensures forall b :: b in OwnedBy(d, Entries(d)[i]) ==> b !in OwnedBy(d, Entries(d)[j])
  {
    FlatApart(OwnedLists(d, Entries(d)), i, j);
  }

  /** A change that concerns only entry `idx` and its blocks. */
  ghost predicate Local(d: Image, d': Image, idx: nat) {
    && VolumeOk(d) && Formatted(d') && |d'| == |d| && idx < MAX_FILES
    && Entries(d') == Entries(d)[idx := Entries(d')[idx]]
    && forall b :: b in Owned(d) && b !in OwnedBy(d, Entries(d)[idx]) ==> b < |d| && d'[b] == d[b]
  }

  lemma OtherKept(d: Image, d': Image, idx: nat, i: nat)
    requires Local(d, d', idx) && i < MAX_FILES && i != idx
    ensures Entries(d')[i] == Entries(d)[i] && EntryOk(d', Entries(d)[i])
    ensures OwnedBy(d', Entries(d)[i]) == OwnedBy(d, Entries(d)[i])
    ensures Entries(d)[i].inode != 0 ==> FileOf(d', Entries(d)[i].inode) == FileOf(d, Entries(d)[i].inode)
  {
    OwnedByIsOwned(d, i);
    OwnersApart(d, i, idx);
    EntryKept(d, d', Entries(d)[i]);
  }

  lemma ListsAfter(d: Image, d': Image, idx: nat)
    requires Local(d, d', idx)
    ensures OwnedLists(d', Entries(d')) == OwnedLists(d, Entries(d))[idx := OwnedBy(d', Entries(d')[idx])]
    ensures EntryOk(d', Entries(d')[idx]) ==> forall i :: 0 <= i < MAX_FILES ==> EntryOk(d', Entries(d')[i])
  {
    forall i | 0 <= i < MAX_FILES && i != idx
      ensures OwnedBy(d', Entries(d')[i]) == OwnedBy(d, Entries(d)[i]) && EntryOk(d', Entries(d')[i])
    {
      OtherKept(d, d', idx, i);
    }
  }

  /** All files but the one at `idx` are there as before. */
  lemma FilesAfter(d: Image, d': Image, idx: nat, name: string)
    requires Local(d, d', idx) && VolumeOk(d')
    requires name != Entries(d)[idx].name || Entries(d)[idx].inode == 0
    requires name != Entries(d')[idx].name || Entries(d')[idx].inode == 0
    ensures name in Files(d') <==> name in Files(d)
    ensures name in Files(d) ==> Files(d')[name] == Files(d)[name]
  {
    if name in Files(d) {
      var i := IndexOf(Entries(d), name);
      OtherKept(d, d', idx, i);
      FileAt(d', i);
    }
    if name in Files(d') {
      var i := IndexOf(Entries(d'), name);
      OtherKept(d, d', idx, i);
      FileAt(d, i);
    }
  }

  ghost predicate AgreeAt<V>(a: map<string, V>, b: map<string, V>, name: string) {
    (name in a <==> name in b) && (name in a ==> a[name] == b[name])
  }

  lemma AgreeEverywhere<V>(a: map<string, V>, b: map<string, V>)
    requires forall name :: AgreeAt(a, b, name)
    ensures a == b
  {
    assert forall name :: AgreeAt(a, b, name) ==> (name in a <==> name in b);
    assert a.Keys == b.Keys;
    assert forall name :: name in a ==> AgreeAt(a, b, name);
  }

  /** With a file at `idx` afterwards, and no other one there before, the map changes at its name. */
  lemma FilesWith(d: Image, d': Image, idx: nat, e: Entry)
    requires Local(d, d', idx) && VolumeOk(d') && Entries(d')[idx] == e && e.inode != 0
    requires Entries(d)[idx].inode == 0 || Entries(d)[idx].name == e.name
    ensures Files(d') == Files(d)[e.name := FileOf(d', e.inode)]
  {
    var after := Files(d)[e.name := FileOf(d', e.inode)];
    forall name
      ensures AgreeAt(Files(d'), after, name)
    {
      if name == e.name {
        FileAt(d', idx);
      } else {
        FilesAfter(d, d', idx, name);
      }
    }
    AgreeEverywhere(Files(d'), after);
  }

  /** Without a file at `idx` afterwards, the map loses the name that was there. */
  lemma FilesWithout(d: Image, d': Image, idx: nat, e: Entry)
    requires Local(d, d', idx) && VolumeOk(d') && Entries(d')[idx] == VACANT
    requires Entries(d)[idx] == e && e.inode != 0
    ensures Files(d') == Files(d) - {e.name}
  {
    var after := Files(d) - {e.name};
    forall name
      ensures AgreeAt(Files(d'), after, name)
    {
      if name == e.name {
        NameGone(d, d', idx, e);
      } else {
        FilesAfter(d, d', idx, name);
        AgreeElsewhere(Files(d'), Files(d), name, e.name);
      }
    }
    AgreeEverywhere(Files(d'), after);
  }

  lemma AgreeElsewhere<V>(a: map<string, V>, b: map<string, V>, name: string, gone: string)
    requires AgreeAt(a, b, name) && name != gone
    ensures AgreeAt(a, b - {gone}, name)
  {
  }

  lemma NameGone(d: Image, d': Image, idx: nat, e: Entry)
    requires Local(d, d', idx) && VolumeOk(d') && Entries(d')[idx] == VACANT
    requires Entries(d)[idx] == e && e.inode != 0
    ensures e.name !in Files(d')
  {
    NameDropped(Entries(d), Entries(d'), idx);
  }

  /** Putting a file on blocks that were free into a free directory entry. */
  lemma AddFile(d: Image, d': Image, idx: nat, e: Entry, l: seq<nat>)
    requires Local(d, d', idx) && Entries(d)[idx].inode == 0 && Entries(d')[idx] == e
    requires e.inode != 0 && EntryOk(d', e) && !HasName(Entries(d), e.name)
    requires l == OwnedBy(d', e) && Distinct(l) && forall b :: b in l ==> b < |d| && !BlockBits(d)[b]
    requires forall p :: 0 <= p < |d| ==> (BlockBits(d')[p] <==> BlockBits(d)[p] || p in l)
    ensures VolumeOk(d') && Files(d') == Files(d)[e.name := FileOf(d', e.inode)]
    ensures |Owned(d')| == |Owned(d)| + |l|
  {
    ListsAfter(d, d', idx);
    NewNameUnique(Entries(d), idx, e);
    OwnedAfterAdd(d, d', idx, e, l);
    FilesWith(d, d', idx, e);
  }

  lemma NewNameUnique(es: seq<Entry>, idx: nat, e: Entry)
    requires NamesUnique(es) && idx < |es| && !HasName(es, e.name)
    ensures NamesUnique(es[idx := e])
  {
  }

  lemma OwnedAfterAdd(d: Image, d': Image, idx: nat, e: Entry, l: seq<nat>)
    requires Local(d, d', idx) && Entries(d)[idx].inode == 0 && Entries(d')[idx] == e
    requires l == OwnedBy(d', e) && Distinct(l) && forall b :: b in l ==> b < |d| && !BlockBits(d)[b]
    requires forall p :: 0 <= p < |d| ==> (BlockBits(d')[p] <==> BlockBits(d)[p] || p in l)
    ensures Distinct(Owned(d')) && BitsExact(BlockBits(d'), Owned(d')) && |Owned(d')| == |Owned(d)| + |l|
  {
    ListsAfter(d, d', idx);
    assert forall b :: b in l ==> b !in Owned(d);
    ReplaceList(OwnedLists(d, Entries(d)), idx, l);
  }

  /** Taking a file out of the directory and giving its blocks back. */
  lemma DropFile(d: Image, d': Image, idx: nat, e: Entry)
    requires Local(d, d', idx) && Entries(d)[idx] == e && e.inode != 0 && Entries(d')[idx] == VACANT
    requires forall p :: 0 <= p < |d| ==> (BlockBits(d')[p] <==> BlockBits(d)[p] && p !in OwnedBy(d, e))
    ensures VolumeOk(d') && Files(d') == Files(d) - {e.name}
    ensures |Owned(d')| == |Owned(d)| - |OwnedBy(d, e)|
  {
    ListsAfter(d, d', idx);
    OwnedAfterDrop(d, d', idx, e);
    FilesWithout(d, d', idx, e);
  }

  lemma OwnedAfterDrop(d: Image, d': Image, idx: nat, e: Entry)
    requires Local(d, d', idx) && Entries(d)[idx] == e && Entries(d')[idx] == VACANT
    requires forall p :: 0 <= p < |d| ==> (BlockBits(d')[p] <==> BlockBits(d)[p] && p !in OwnedBy(d, e))
    ensures Distinct(Owned(d')) && BitsExact(BlockBits(d'), Owned(d'))
    ensures |Owned(d')| == |Owned(d)| - |OwnedBy(d, e)|
  {
    ListsAfter(d, d', idx);
    ReplaceList(OwnedLists(d, Entries(d)), idx, []);
    OwnedInRange(d);
    OwnedByIsOwned(d, idx);
  }

  /** Changing only the data blocks of one file. */
  lemma ChangeFile(d: Image, d': Image, idx: nat, e: Entry)
    requires VolumeOk(d) && |d'| == |d| && idx < MAX_FILES && Entries(d)[idx] == e && e.inode != 0
    requires forall b :: 0 <= b < |d| && b !in DataBlocks(d, e.inode) ==> d'[b] == d[b]
    requires forall b :: b in DataBlocks(d, e.inode) ==> IsData(d', b)
    ensures VolumeOk(d') && Owned(d') == Owned(d) && InodeOk(d', e.inode) && d'[e.inode] == d[e.inode]
    ensures d'[ALLOCATION] == d[ALLOCATION] && d'[DIRECTORY] == d[DIRECTORY]
    ensures Files(d') == Files(d)[e.name := FileOf(d', e.inode)]
  {
    SystemBlocksKept(d, d', idx);
    ListsAfter(d, d', idx);
    assert OwnedLists(d', Entries(d')) == OwnedLists(d, Entries(d));
    FilesWith(d, d', idx, e);
  }

  lemma SystemBlocksKept(d: Image, d': Image, idx: nat)
    requires VolumeOk(d) && |d'| == |d| && idx < MAX_FILES && Entries(d)[idx].inode != 0
    requires forall b :: 0 <= b < |d| && b !in DataBlocks(d, Entries(d)[idx].inode) ==> d'[b] == d[b]
    requires forall b :: b in DataBlocks(d, Entries(d)[idx].inode) ==> IsData(d', b)
    ensures d'[ALLOCATION] == d[ALLOCATION] && d'[DIRECTORY] == d[DIRECTORY] && Local(d, d', idx)
    ensures EntryOk(d', Entries(d)[idx]) && OwnedBy(d', Entries(d)[idx]) == OwnedBy(d, Entries(d)[idx])
    ensures d'[Entries(d)[idx].inode] == d[Entries(d)[idx].inode]
  {
    var e := Entries(d)[idx];
    var bs := DataBlocks(d, e.inode);
    assert EntryOk(d, e);
    OwnedByIsOwned(d, idx);
    OwnedInRange(d);
    assert e.inode !in bs by {
      FlatApart(OwnedLists(d, Entries(d)), idx, if idx == 0 then 1 else 0);
      DistinctConcat([e.inode], bs);
    }
    assert forall b :: b in bs ==> b in OwnedBy(d, e);
  }

  /** Writing to blocks that belong to nobody. */
  lemma UnownedWrites(d: Image, d': Image)
    requires VolumeOk(d) && |d'| == |d|
    requires forall b :: 0 <= b < |d| && BlockBits(d)[b] ==> d'[b] == d[b]
    ensures VolumeOk(d') && Files(d') == Files(d)
  {
    OwnedInRange(d);
    SameSystem(d, d');
    forall name
      ensures AgreeAt(Files(d'), Files(d), name)
    {
      if name == Entries(d)[0].name && Entries(d)[0].inode != 0 {
        OwnedByIsOwned(d, 0);
        EntryKept(d, d', Entries(d)[0]);
        FileAt(d, 0);
        FileAt(d', 0);
      } else {
        FilesAfter(d, d', 0, name);
      }
    }
    AgreeEverywhere(Files(d'), Files(d));
  }

  lemma SameSystem(d: Image, d': Image)
    requires VolumeOk(d) && |d'| == |d| && d'[ALLOCATION] == d[ALLOCATION] && d'[DIRECTORY] == d[DIRECTORY]
    requires forall b :: b in Owned(d) ==> b < |d| && d'[b] == d[b]
    ensures VolumeOk(d') && Local(d, d', 0)
  {
    ListsAfter(d, d', 0);
    OwnedByIsOwned(d, 0);
    EntryKept(d, d', Entries(d)[0]);
    assert OwnedLists(d', Entries(d')) == OwnedLists(d, Entries(d));
  }

  // ---------- Free space ----------

  lemma {:induction false} CountBySet(bits: seq<bool>, marked: set<nat>)
    requires forall p :: p in marked <==> 0 <= p < |bits| && bits[p]
    ensures CountClear(bits) == |bits| - |marked|
  {
    if bits == [] {
      assert marked == {};
    } else {
      var n := |bits| - 1;
      CountBySet(bits[..n], marked - {n});
    }
  }

  /** On every sound volume the free blocks, the files' blocks and the system blocks make up the disk. */
  lemma Conservation(d: Image)
    requires VolumeOk(d)
    ensures CountClear(BlockBits(d)) + |Owned(d)| + 3 == |d|
  {
    OwnedInRange(d);
    var marked := Marked(Owned(d));
    CountBySet(BlockBits(d), marked);
  }

  lemma Marked(owned: seq<nat>) returns (marked: set<nat>)
    requires Distinct(owned) && forall b :: b in owned ==> 3 <= b
    ensures |marked| == |owned| + 3 && forall p: nat :: p in marked <==> p < 3 || p in owned
  {
    DistinctSize(owned);
    var system: set<nat> := {0, 1, 2};
    marked := Elements(owned) + system;
    assert Elements(owned) !! system && |system| == 3;
    assert forall p: nat :: p in system <==> p < 3;
  }

  /** Bytes that are free for files, as tfs_getfree reports them. */
  ghost function FreeSpace(d: Image): nat
    requires Formatted(d)
  {
    BLOCK_SIZE * CountClear(BlockBits(d))
  }

  /** There is room for an inode and `n` data blocks. */
  ghost predicate Roomy(d: Image, n: nat)
    requires Formatted(d)
  {
    FreeSpace(d) >= BLOCK_SIZE * (1 + n)
  }

  // ---------- Reserving blocks ----------

  /** `taken` lists blocks that were clear in `bits0`; `bits` differs from it exactly in them. */
  ghost predicate Grabbed(bits0: seq<bool>, bits: seq<bool>, n: nat, taken: seq<nat>) {
    && |bits| == |bits0| && n <= |bits| && Distinct(taken)
    && (forall t :: t in taken ==> t < n && !bits0[t])
    && (forall p :: 0 <= p < |bits| ==> (bits[p] <==> bits0[p] || p in taken))
    && CountClear(bits[..n]) + |taken| == CountClear(bits0[..n])
    && (taken != [] ==> taken[0] == FirstClear(bits0[..n]))
  }

  lemma GrabNext(bits0: seq<bool>, bits: seq<bool>, n: nat, taken: seq<nat>, r: nat)
    requires Grabbed(bits0, bits, n, taken) && r == FirstClear(bits[..n])
    ensures Grabbed(bits0, bits[r := true], n, taken + [r])
  {
    CountClearUpdate(bits[..n], r, true);
    assert bits[r := true][..n] == bits[..n][r := true];
    DistinctConcat(taken, [r]);
    if taken == [] {
      assert bits == bits0;
    }
  }

  lemma NoZeroBlock(bits0: seq<bool>, bits: seq<bool>, n: nat, a: seq<nat>, b: seq<nat>)
    requires Grabbed(bits0, bits, n, a + b) && n > 0 && bits0[0]
    ensures 0 !in a && 0 !in b
  {
    assert 0 in b ==> 0 in a + b;
  }

  /** Blocks reserved on a sound volume lie behind the system blocks. */
  lemma ReservedRange(d: Image, bits': seq<bool>, ino: nat, bs: seq<nat>)
    requires VolumeOk(d) && Grabbed(Bits(d[ALLOCATION].words), bits', |d|, [ino] + bs)
    ensures 3 <= ino < |d| && ino !in bs && Distinct(bs)
    ensures forall b :: b in [ino] + bs ==> 3 <= b < |d| && !BlockBits(d)[b] && b !in Owned(d)
  {
    DistinctConcat([ino], bs);
    OwnedInRange(d);
    assert ino in [ino] + bs;
    forall b | b in [ino] + bs
      ensures 3 <= b < |d| && !BlockBits(d)[b] && b !in Owned(d)
    {
      assert BlockBits(d)[b] == Bits(d[ALLOCATION].words)[b];
    }
  }

  /** The volume has the file `name` more; it lies on an inode block and `n` data blocks that were free. */
  ghost predicate Added(d: Image, d': Image, name: string, content: seq<Byte>, n: nat)
    requires VolumeOk(d)
  {
    && VolumeOk(d') && |d'| == |d| && Files(d') == Files(d)[name := File(content, n)]
    && FreeSpace(d') == FreeSpace(d) - BLOCK_SIZE * (1 + n)
  }

  /** Entry `e` can go into the directory at `index`. */
  ghost predicate CanEnter(d: Image, index: nat, e: Entry) {
    && VolumeOk(d) && index < MAX_FILES && Entries(d)[index].inode == 0
    && ValidName(e.name) && !HasName(Entries(d), e.name) && 3 <= e.inode < |d|
  }

  /** Allocation block, directory and inode block of a new file are written, and nothing else since `d1`. */
  ghost predicate Entered(d: Image, d1: Image, d': Image, words: seq<Word>, index: nat, e: Entry, size: nat,
                          ptrs: seq<nat>) {
    && CanEnter(d, index, e) && |d1| == |d'| == |d| && d'[HEADER] == d[HEADER]
    && d'[ALLOCATION] == Bat(words) && d'[DIRECTORY] == Directory(Entries(d)[index := e])
    && d'[e.inode] == Inode(size, ptrs) && |ptrs| == BLOCKS_MAX
    && (forall b :: 3 <= b < |d| && b != e.inode ==> d'[b] == d1[b])
  }

  /** The blocks reserved for `e` hold its inode and its data; directory and bitmap are written back. */
  ghost predicate Laid(d: Image, d': Image, words: seq<Word>, index: nat, e: Entry, size: nat, ptrs: seq<nat>,
                       bs: seq<nat>) {
    && CanEnter(d, index, e) && |d'| == |d|
    && Grabbed(Bits(d[ALLOCATION].words), Bits(words), |d|, [e.inode] + bs)
    && d'[ALLOCATION] == Bat(words) && d'[DIRECTORY] == Directory(Entries(d)[index := e])
    && d'[e.inode] == Inode(size, ptrs) && |ptrs| == BLOCKS_MAX && Used(ptrs) == bs
    && size <= BLOCK_SIZE * |bs| && (forall b :: b in bs ==> IsData(d', b)) && d'[HEADER] == d[HEADER]
    && (forall b :: 3 <= b < |d| && b != e.inode && b !in bs ==> d'[b] == d[b])
  }

  lemma LaidIsLocal(d: Image, d': Image, words: seq<Word>, index: nat, e: Entry, size: nat, ptrs: seq<nat>,
                    bs: seq<nat>)
    requires Laid(d, d', words, index, e, size, ptrs, bs)
    ensures Local(d, d', index) && EntryOk(d', e) && OwnedBy(d', e) == [e.inode] + bs
    ensures InodeOk(d', e.inode) && FileOf(d', e.inode) == File(Joined(d', bs)[..size], |bs|)
  {
    ReservedRange(d, Bits(words), e.inode, bs);
    OwnedInRange(d);
    assert forall b :: b in bs ==> b in [e.inode] + bs;
    assert |Bits(words)| == MAX_BLOCKS;
  }

  lemma LaidBits(d: Image, d': Image, words: seq<Word>, index: nat, e: Entry, size: nat, ptrs: seq<nat>, bs: seq<nat>)
    requires Laid(d, d', words, index, e, size, ptrs, bs) && Formatted(d')
    ensures forall p :: 0 <= p < |d| ==> (BlockBits(d')[p] <==> BlockBits(d)[p] || p in [e.inode] + bs)
    ensures CountClear(BlockBits(d')) + 1 + |bs| == CountClear(BlockBits(d))
  {
    var l := [e.inode] + bs;
    assert BlockBits(d') == Bits(words)[..|d|] && BlockBits(d) == Bits(d[ALLOCATION].words)[..|d|];
    assert |l| == 1 + |bs|;
  }

  /** Then the volume is sound, and has exactly this file more. */
  lemma Stored(d: Image, d': Image, words: seq<Word>, index: nat, e: Entry, size: nat, ptrs: seq<nat>, bs: seq<nat>)
    requires Laid(d, d', words, index, e, size, ptrs, bs)
    ensures Added(d, d', e.name, Joined(d', bs)[..size], |bs|)
  {
    var l := [e.inode] + bs;
    LaidIsLocal(d, d', words, index, e, size, ptrs, bs);
    LaidBits(d, d', words, index, e, size, ptrs, bs);
    ReservedRange(d, Bits(words), e.inode, bs);
    AddFile(d, d', index, e, l);
    FileAt(d', index);
  }

  /**
   Where the file is and what else has changed: it has the first free block for its inode,
   its blocks were free, every other file keeps its inode block, and no other block changes
   except the allocation block and the directory.
   */
  ghost predicate Placed(d: Image, d': Image, name: string)
    requires VolumeOk(d)
  {
    && VolumeOk(d') && |d'| == |d| && FirstClear(BlockBits(d)) >= 0
    && InodeMap(Entries(d')) == InodeMap(Entries(d))[name := FirstClear(BlockBits(d))]
    && (forall p :: p in BlocksOf(d', name) ==> p < |d| && !BlockBits(d)[p])
    && (forall p :: 0 <= p < |d| ==> (BlockBits(d')[p] <==> BlockBits(d)[p] || p in BlocksOf(d', name)))
    && (forall b :: 0 <= b < |d| && !IsSystem(b) && b !in BlocksOf(d', name) ==> d'[b] == d[b])
  }

  /** The two blocks that change with every file that comes or goes. */
  ghost predicate IsSystem(b: nat) {
    b == ALLOCATION || b == DIRECTORY
  }

  lemma StoredPlaced(d: Image, d': Image, words: seq<Word>, index: nat, e: Entry, size: nat, ptrs: seq<nat>,
                     bs: seq<nat>)
    requires Laid(d, d', words, index, e, size, ptrs, bs) && VolumeOk(d')
    ensures Placed(d, d', e.name)
  {
    LaidBlocks(d, d', words, index, e, size, ptrs, bs);
    LaidElsewhere(d, d', e.inode, bs);
    LaidBits(d, d', words, index, e, size, ptrs, bs);
    ReservedRange(d, Bits(words), e.inode, bs);
  }

  lemma LaidBlocks(d: Image, d': Image, words: seq<Word>, index: nat, e: Entry, size: nat, ptrs: seq<nat>, bs: seq<nat>)
    requires Laid(d, d', words, index, e, size, ptrs, bs) && VolumeOk(d')
    ensures e.inode == FirstClear(BlockBits(d)) && InodeMap(Entries(d')) == InodeMap(Entries(d))[e.name := e.inode]
    ensures BlocksOf(d', e.name) == [e.inode] + bs
  {
    InodeMapWith(Entries(d), Entries(d'), index, e);
    assert ([e.inode] + bs)[0] == e.inode;
  }

  lemma LaidElsewhere(d: Image, d': Image, ino: nat, bs: seq<nat>)
    requires 3 <= |d| == |d'| && d'[HEADER] == d[HEADER]
    requires forall b :: 3 <= b < |d| && b != ino && b !in bs ==> d'[b] == d[b]
    ensures forall b :: 0 <= b < |d| && !IsSystem(b) && b !in [ino] + bs ==> d'[b] == d[b]
  {
    forall b | 0 <= b < |d| && !IsSystem(b) && b !in [ino] + bs
      ensures d'[b] == d[b]
    {
      assert b in bs ==> b in [ino] + bs;
    }
  }

  /** The volume has the file `name` less, and the space of its blocks more. */
  ghost predicate Removed(d: Image, d': Image, name: string)
    requires VolumeOk(d) && name in Files(d)
  {
    && VolumeOk(d') && |d'| == |d| && Files(d') == Files(d) - {name}
    && FreeSpace(d') == FreeSpace(d) + BLOCK_SIZE * (1 + Files(d)[name].blocks)
  }

  /** Its blocks are free again, every other file keeps its inode block, and no block but the system's changes. */
  ghost predicate Freed(d: Image, d': Image, name: string)
    requires VolumeOk(d)
  {
    && VolumeOk(d') && |d'| == |d| && InodeMap(Entries(d')) == InodeMap(Entries(d)) - {name}
    && (forall p :: 0 <= p < |d| ==> (BlockBits(d')[p] <==> BlockBits(d)[p] && p !in BlocksOf(d, name)))
    && (forall b :: 0 <= b < |d| && !IsSystem(b) ==> d'[b] == d[b])
  }

  lemma ClearedFreed(d: Image, d': Image, words: seq<Word>, index: nat, e: Entry)
    requires Wiped(d, d', words, index, e) && VolumeOk(d')
    ensures Freed(d, d', e.name)
  {
    WipedIsLocal(d, d', words, index, e);
    InodeMapAt(Entries(d), index);
    InodeMapWithout(Entries(d), Entries(d'), index);
    assert BlocksOf(d, e.name) == OwnedBy(d, e);
  }

  /** The bits with exactly those in `gone` cleared. */
  ghost predicate Dropped(bits: seq<bool>, bits': seq<bool>, gone: seq<nat>) {
    |bits'| == |bits| && forall p :: 0 <= p < |bits| ==> (bits'[p] <==> bits[p] && p !in gone)
  }

  /** The entry is vacant, its blocks are given back, everything else is as before. */
  ghost predicate Wiped(d: Image, d': Image, words: seq<Word>, index: nat, e: Entry) {
    && VolumeOk(d) && index < MAX_FILES && Entries(d)[index] == e && e.inode != 0
    && |d'| == |d| && Dropped(Bits(d[ALLOCATION].words), Bits(words), OwnedBy(d, e))
    && d'[ALLOCATION] == Bat(words) && d'[DIRECTORY] == Directory(Entries(d)[index := VACANT])
    && (forall b :: 0 <= b < |d| && !IsSystem(b) ==> d'[b] == d[b])
  }

  lemma WipedIsLocal(d: Image, d': Image, words: seq<Word>, index: nat, e: Entry)
    requires Wiped(d, d', words, index, e)
    ensures Local(d, d', index) && Entries(d')[index] == VACANT
    ensures forall p :: 0 <= p < |d| ==> (BlockBits(d')[p] <==> BlockBits(d)[p] && p !in OwnedBy(d, e))
  {
    OwnedInRange(d);
  }

  lemma Cleared(d: Image, d': Image, words: seq<Word>, index: nat, e: Entry)
    requires Wiped(d, d', words, index, e)
    ensures e.name in Files(d) && Removed(d, d', e.name)
  {
    WipedIsLocal(d, d', words, index, e);
    FileAt(d, index);
    DropFile(d, d', index, e);
    Conservation(d);
    Conservation(d');
  }

  // ---------- Bytes of files ----------

  ghost function Splice(s: seq<Byte>, at: nat, part: seq<Byte>): (r: seq<Byte>)
    requires at + |part| <= |s|
    ensures |r| == |s|
  {
    s[..at] + part + s[at + |part|..]
  }

  /** What one block contributes to a file. */
  lemma BlockSlice(d: Image, bs: seq<nat>, j: nat, from: nat, to: nat)
    requires j < |bs| && IsData(d, bs[j]) && from <= to <= BLOCK_SIZE
    ensures BLOCK_SIZE * j + to <= BLOCK_SIZE * |bs|
    ensures Joined(d, bs)[BLOCK_SIZE * j + from..BLOCK_SIZE * j + to] == d[bs[j]].bytes[from..to]
  {
    var slice := Joined(d, bs)[BLOCK_SIZE * j + from..BLOCK_SIZE * j + to];
    forall k | 0 <= k < to - from
      ensures slice[k] == d[bs[j]].bytes[from..to][k]
    {
      var at := BLOCK_SIZE * j + from + k;
      assert at / BLOCK_SIZE == j && at % BLOCK_SIZE == from + k;
    }
  }

  /** Changing part of one block changes that part of the file and nothing else. */
  lemma BlockSplice(d: Image, d': Image, bs: seq<nat>, j: nat, at: nat, part: seq<Byte>, pos: nat)
    requires j < |bs| && Distinct(bs) && IsData(d, bs[j]) && at + |part| <= BLOCK_SIZE
    requires d' == d[bs[j] := Data(Splice(d[bs[j]].bytes, at, part))] && pos == BLOCK_SIZE * j + at
    ensures pos + |part| <= BLOCK_SIZE * |bs| && Joined(d', bs) == Splice(Joined(d, bs), pos, part)
  {
    var after := Splice(Joined(d, bs), pos, part);
    forall k | 0 <= k < BLOCK_SIZE * |bs|
      ensures Joined(d', bs)[k] == after[k]
    {
      var q, o := k / BLOCK_SIZE, k % BLOCK_SIZE;
      assert k == BLOCK_SIZE * q + o;
      if q != j {
        assert bs[q] != bs[j];
        assert k < BLOCK_SIZE * j || k >= BLOCK_SIZE * j + BLOCK_SIZE;
      }
    }
  }

  function Zeros(n: nat): (z: seq<Byte>)
    ensures |z| == n && forall i :: 0 <= i < n ==> z[i] == 0
  {
    seq(n, _ => 0 as Byte)
  }

  lemma ZeroBlocksJoin(d: Image, bs: seq<nat>)
    requires forall b :: b in bs ==> b < |d| && d[b] == Data(Zeros(BLOCK_SIZE))
    ensures Joined(d, bs) == Zeros(BLOCK_SIZE * |bs|)
  {
    forall k | 0 <= k < BLOCK_SIZE * |bs|
      ensures Joined(d, bs)[k] == 0
    {
      assert bs[k / BLOCK_SIZE] in bs;
    }
  }
}
