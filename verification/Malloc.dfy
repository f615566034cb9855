/**
 The userland heap: a first-fit, address-ordered free list with splitting and coalescing. A
 block starts with one word holding its size; a free block holds the address of the next free
 block in its second word. Memory is a map from addresses to words, so the allocator's own
 words and the words of the programs' payloads share one address space.
 */
module Malloc {

  const WORD := 4
  const MIN_ALLOC := 8
  const NULL := 0

  type Memory = map<int, int>

  datatype Block = Block(addr: int, size: int, live: bool)

  // ---------- Tiling ----------

  /** The blocks lie one behind the other from `from` to `to`. */
  ghost predicate Tiles(bs: seq<Block>, from: int, to: int) {
    if bs == [] then from == to
    else bs[0].addr == from && WellSized(bs[0]) && Tiles(bs[1..], from + bs[0].size, to)
  }

  /** Big enough for a free block's two words and its own header, and a whole number of words. */
  ghost predicate WellSized(b: Block) {
    b.size >= WORD + MIN_ALLOC && b.size % WORD == 0
  }

  /** No two neighbours are both free. */
  ghost predicate Coalesced(bs: seq<Block>) {
    forall i :: 0 <= i < |bs| - 1 ==> bs[i].live || bs[i + 1].live
  }

  lemma {:induction false} TilesConcat(a: seq<Block>, b: seq<Block>, from: int, mid: int, to: int)
    requires Tiles(a, from, mid) && Tiles(b, mid, to)
    ensures Tiles(a + b, from, to)
  {
    if a == [] {
      assert a + b == b;
    } else {
      TilesConcat(a[1..], b, from + a[0].size, mid, to);
      assert (a + b)[1..] == a[1..] + b;
    }
  }

  /** Where a tiling is cut, both parts tile. */
  lemma {:induction false} TilesSplit(a: seq<Block>, b: seq<Block>, from: int, to: int) returns (mid: int)
    requires Tiles(a + b, from, to)
    ensures Tiles(a, from, mid) && Tiles(b, mid, to) && from <= mid <= to
    ensures a != [] ==> from < mid
    ensures b != [] ==> b[0].addr == mid < to
  {
    if a == [] {
      mid := from;
      assert a + b == b;
      TilesBounds(b, from, to);
    } else {
      assert (a + b)[1..] == a[1..] + b;
      mid := TilesSplit(a[1..], b, from + a[0].size, to);
    }
  }

  lemma {:induction false} TilesBounds(bs: seq<Block>, from: int, to: int)
    requires Tiles(bs, from, to)
    ensures from <= to && (bs != [] ==> from < to)
  {
    if bs != [] {
      TilesBounds(bs[1..], from + bs[0].size, to);
    }
  }

  /** Blocks of a tiling are well sized, lie inside it, and later ones lie behind earlier ones. */
  lemma {:induction false} TilesAt(bs: seq<Block>, from: int, to: int, i: nat)
    requires Tiles(bs, from, to) && i < |bs|
    ensures WellSized(bs[i]) && from <= bs[i].addr && bs[i].addr + bs[i].size <= to
    ensures i + 1 < |bs| ==> bs[i + 1].addr == bs[i].addr + bs[i].size
  {
    if i > 0 {
      TilesAt(bs[1..], from + bs[0].size, to, i - 1);
    } else {
      TilesBounds(bs[1..], from + bs[0].size, to);
    }
  }

  lemma {:induction false} TilesOrder(bs: seq<Block>, from: int, to: int, i: nat, j: nat)
    requires Tiles(bs, from, to) && i < j < |bs|
    ensures bs[i].addr + bs[i].size <= bs[j].addr
    ensures bs[i].addr + bs[i].size == bs[j].addr <==> j == i + 1
    decreases j - i
  {
    TilesAt(bs, from, to, i);
    TilesAt(bs, from, to, j);
    if i + 1 < j {
      TilesOrder(bs, from, to, i + 1, j);
      TilesAt(bs, from, to, i + 1);
    }
  }

  /** The distance from first base to heap end is exactly the sum of all block sizes. */
  ghost function TotalSize(bs: seq<Block>): int {
    if bs == [] then 0 else bs[0].size + TotalSize(bs[1..])
  }

  lemma {:induction false} TilesTotal(bs: seq<Block>, from: int, to: int)
    requires Tiles(bs, from, to)
    ensures TotalSize(bs) == to - from
  {
    if bs != [] {
      TilesTotal(bs[1..], from + bs[0].size, to);
    }
  }

  /** Once nothing is live, one free block covers the whole heap. */
  lemma AllFreeIsOneBlock(bs: seq<Block>, from: int, to: int)
    requires Tiles(bs, from, to) && Coalesced(bs) && forall i :: 0 <= i < |bs| ==> !bs[i].live
    ensures bs == if from == to then [] else [Block(from, to - from, false)]
  {
    TilesBounds(bs, from, to);
    if |bs| >= 2 {
      assert false;
    } else if |bs| == 1 {
      assert Tiles(bs[1..], from + bs[0].size, to);
    }
  }

  // ---------- The free list ----------

  /** Every block's first word holds its size. */
  ghost predicate Headers(mem: Memory, bs: seq<Block>) {
    forall i :: 0 <= i < |bs| ==> bs[i].addr in mem && mem[bs[i].addr] == bs[i].size
  }

  /** Following `next` from `first` visits the free blocks of `bs` in order and ends at `link`. */
  ghost predicate Chained(mem: Memory, bs: seq<Block>, first: int, link: int) {
    if bs == [] then first == link
    else if bs[0].live then Chained(mem, bs[1..], first, link)
    else first == bs[0].addr && first + WORD in mem && Chained(mem, bs[1..], mem[first + WORD], link)
  }

  lemma {:induction false} ChainedConcat(mem: Memory, a: seq<Block>, b: seq<Block>, first: int, mid: int, link: int)
    requires Chained(mem, a, first, mid) && Chained(mem, b, mid, link)
    ensures Chained(mem, a + b, first, link)
  {
    if a == [] {
      assert a + b == b;
    } else {
      assert (a + b)[1..] == a[1..] + b;
      ChainedConcat(mem, a[1..], b, if a[0].live then first else mem[first + WORD], mid, link);
    }
  }

  lemma {:induction false} ChainedSplit(mem: Memory, a: seq<Block>, b: seq<Block>, first: int, link: int)
    returns (mid: int)
    requires Chained(mem, a + b, first, link)
    ensures Chained(mem, a, first, mid) && Chained(mem, b, mid, link)
  {
    if a == [] {
      assert a + b == b;
      mid := first;
    } else {
      assert (a + b)[1..] == a[1..] + b;
      mid := ChainedSplit(mem, a[1..], b, if a[0].live then first else mem[first + WORD], link);
    }
  }

  /** Only the second words of free blocks matter to the list. */
  lemma {:induction false} ChainedFrame(mem: Memory, mem': Memory, bs: seq<Block>, first: int, link: int)
    requires Chained(mem, bs, first, link)
    requires forall i :: 0 <= i < |bs| && !bs[i].live && bs[i].addr + WORD in mem ==>
      bs[i].addr + WORD in mem' && mem'[bs[i].addr + WORD] == mem[bs[i].addr + WORD]
    ensures Chained(mem', bs, first, link)
  {
    if bs != [] {
      forall i | 0 <= i < |bs[1..]| && !bs[1..][i].live && bs[1..][i].addr + WORD in mem
        ensures bs[1..][i].addr + WORD in mem' && mem'[bs[1..][i].addr + WORD] == mem[bs[1..][i].addr + WORD]
      {
        assert bs[1..][i] == bs[i + 1];
      }
      ChainedFrame(mem, mem', bs[1..], if bs[0].live then first else mem[first + WORD], link);
    }
  }

  /** The address of the last free block, or NULL. */
  ghost function LastFree(bs: seq<Block>): int {
    if bs == [] then NULL
    else if LastFree(bs[1..]) != NULL then LastFree(bs[1..])
    else if bs[0].live then NULL
    else bs[0].addr
  }

  lemma {:induction false} LastFreeConcat(a: seq<Block>, b: seq<Block>)
    ensures LastFree(a + b) == if LastFree(b) != NULL then LastFree(b) else LastFree(a)
  {
    if a == [] {
      assert a + b == b;
    } else {
      assert (a + b)[1..] == a[1..] + b;
      LastFreeConcat(a[1..], b);
    }
  }

  /** If no block is free, the list passes through unchanged. */
  lemma {:induction false} NoFreeChained(mem: Memory, bs: seq<Block>, from: int, to: int, first: int, link: int)
    requires Tiles(bs, from, to) && from > NULL && LastFree(bs) == NULL
    ensures Chained(mem, bs, first, link) <==> first == link
  {
    if bs != [] {
      NoFreeChained(mem, bs[1..], from + bs[0].size, to, first, link);
    }
  }

  lemma {:induction false} LastFreeBounds(bs: seq<Block>, from: int, to: int)
    requires Tiles(bs, from, to) && from > NULL && LastFree(bs) != NULL
    ensures from <= LastFree(bs) < to
  {
    TilesBounds(bs[1..], from + bs[0].size, to);
    if LastFree(bs[1..]) != NULL {
      LastFreeBounds(bs[1..], from + bs[0].size, to);
    }
  }

  /** Overwriting the last free block's second word changes where the list leads, and nothing else. */
  lemma {:induction false} RelinkLast(mem: Memory, bs: seq<Block>, from: int, to: int, first: int, link: int,
                                      link': int)
    requires Tiles(bs, from, to) && from > NULL && Chained(mem, bs, first, link) && LastFree(bs) != NULL
    ensures Chained(mem[LastFree(bs) + WORD := link'], bs, first, link')
  {
    var mem' := mem[LastFree(bs) + WORD := link'];
    var rest := bs[1..];
    if LastFree(rest) != NULL {
      LastFreeBounds(rest, from + bs[0].size, to);
      RelinkLast(mem, rest, from + bs[0].size, to, if bs[0].live then first else mem[first + WORD], link, link');
    } else {
      NoFreeChained(mem', rest, from + bs[0].size, to, link', link');
    }
  }

  /** The block a non-null list pointer names: the first free block ahead. */
  lemma {:induction false} Locate(mem: Memory, bs: seq<Block>, from: int, to: int, first: int) returns (k: nat)
    requires Tiles(bs, from, to) && from > NULL && Chained(mem, bs, first, NULL)
    ensures k <= |bs| && (first == NULL <==> k == |bs|)
    ensures forall j :: 0 <= j < k ==> bs[j].live
    ensures k < |bs| ==> !bs[k].live && bs[k].addr == first && first + WORD in mem
    ensures Chained(mem, bs[..k], first, first) && LastFree(bs[..k]) == NULL
    ensures k < |bs| ==> Chained(mem, bs[k + 1..], mem[first + WORD], NULL)
  {
    if bs == [] {
      k := 0;
    } else if bs[0].live {
      var j := Locate(mem, bs[1..], from + bs[0].size, to, first);
      k := j + 1;
      assert bs[..k][1..] == bs[1..][..j];
      assert bs[k..] == bs[1..][j..];
      assert k < |bs| ==> bs[k + 1..] == bs[1..][j + 1..];
    } else {
      k := 0;
    }
  }

  // ---------- The size test ----------

  /** A 32-bit unsigned value read as a signed one. */
  function Signed(x: int): int {
    var u := x % 0x1_0000_0000;
    if u >= 0x8000_0000 then u - 0x1_0000_0000 else u
  }

  /** The test that a block is big enough to be split, on 32-bit machine arithmetic. */
  predicate CanSplit(blockSize: int, size: int) {
    Signed(blockSize - size - WORD) >= Signed(MIN_ALLOC + WORD)
  }

  /** The test says what it should for every block exactly if the request is at most 2^31 + 8 bytes. */
  lemma SplitTestExact(size: int)
    requires 0 <= size < 0x1_0000_0000 && size % WORD == 0
    ensures (forall b :: 12 <= b < 0x8000_0000 && b % WORD == 0 ==> (CanSplit(b, size) <==> b - size - WORD >= 12)) <==>
            size <= 0x8000_0008
  {
    if size > 0x8000_0008 {
      assert CanSplit(12, size) || CanSplit(0x4000_0000, size);
    }
  }

  /** The header of the upper part that a split makes, counted from the block's start, on 32-bit machine arithmetic. */
  function SplitPoint(blockSize: int, size: int): nat {
    (blockSize - size - WORD) % 0x1_0000_0000
  }

  /**
   Where the test is wrong it lets too small a block be split: the header of what is handed out
   is then written at or behind the block's end, and the block that stays claims what lies there.
   */
  lemma WrongSplitEscapes(blockSize: int, size: int)
    requires 12 <= blockSize < 0x8000_0000 && blockSize % WORD == 0 && 0 <= size < 0x1_0000_0000 && size % WORD == 0
    requires CanSplit(blockSize, size) && blockSize - size - WORD < 12
    ensures SplitPoint(blockSize, size) >= blockSize
  {
    assert blockSize - size - WORD + 0x1_0000_0000 == SplitPoint(blockSize, size);
  }

  /** So it is with a request of 2^31 + 12 bytes and a free block of 12 bytes. */
  lemma HugeRequest()
    ensures Rounded(0x8000_000c) == 0x8000_000c && CanSplit(12, 0x8000_000c)
    ensures SplitPoint(12, 0x8000_000c) == 0x7fff_fffc
  {
  }

  /** The number of bytes malloc asks for: at least two words, rounded up to whole words. */
  function Rounded(size: nat): (r: nat)
    ensures size <= r && MIN_ALLOC <= r && r % WORD == 0
    ensures r < size + WORD || r == MIN_ALLOC
  {
    var s := if size < MIN_ALLOC then MIN_ALLOC else size;
    if s % WORD != 0 then s - s % WORD + WORD else s
  }

  // ---------- What the operations do to the blocks ----------

  /** The blocks tile the heap, their headers hold their sizes, and the list runs through the free ones in order. */
  ghost predicate Consistent(mem: Memory, bs: seq<Block>, base: int, end: int, freeList: int) {
    && NULL < base && end <= 0x8000_0000
    && Tiles(bs, base, end) && Headers(mem, bs) && Chained(mem, bs, freeList, NULL)
  }

  ghost predicate HeapOk(mem: Memory, bs: seq<Block>, base: int, end: int, freeList: int) {
    Consistent(mem, bs, base, end, freeList) && Coalesced(bs)
  }

  /** The address ranges handed out to the program: payload start and payload size. */
  ghost function Payloads(bs: seq<Block>): set<(int, int)> {
    set i | 0 <= i < |bs| && bs[i].live :: (bs[i].addr + WORD, bs[i].size - WORD)
  }

  /** Different payloads share no byte. */
  lemma PayloadsDisjoint(bs: seq<Block>, from: int, to: int, p: (int, int), q: (int, int))
    requires Tiles(bs, from, to) && p in Payloads(bs) && q in Payloads(bs) && p != q
    ensures p.0 + p.1 <= q.0 || q.0 + q.1 <= p.0
  {
    var i :| 0 <= i < |bs| && bs[i].live && p == (bs[i].addr + WORD, bs[i].size - WORD);
    var j :| 0 <= j < |bs| && bs[j].live && q == (bs[j].addr + WORD, bs[j].size - WORD);
    if i < j {
      TilesOrder(bs, from, to, i, j);
    } else {
      TilesOrder(bs, from, to, j, i);
    }
  }

  lemma PayloadOf(bs: seq<Block>, i: nat)
    requires i < |bs|
    ensures bs[i].live ==> (bs[i].addr + WORD, bs[i].size - WORD) in Payloads(bs)
  {
  }

  /** Once everything is given back, the list is one block that covers the heap. */
  lemma NothingLive(mem: Memory, bs: seq<Block>, base: int, end: int, freeList: int)
    requires HeapOk(mem, bs, base, end, freeList) && Payloads(bs) == {}
    ensures base == end ==> freeList == NULL
    ensures base < end ==> freeList == base && base in mem && mem[base] == end - base
    ensures base < end ==> base + WORD in mem && mem[base + WORD] == NULL
  {
    forall i | 0 <= i < |bs|
      ensures !bs[i].live
    {
      PayloadOf(bs, i);
    }
    AllFreeIsOneBlock(bs, base, end);
    if base < end {
      assert Chained(mem, [], mem[base + WORD], NULL) by {
        assert bs[1..] == [] && bs[0].addr == base;
      }
    }
  }

  /** A program that writes inside its own payloads does not disturb the heap. */
  lemma PayloadWriteKeepsHeap(mem: Memory, bs: seq<Block>, base: int, end: int, freeList: int, p: (int, int), a: int,
                              v: int)
    requires HeapOk(mem, bs, base, end, freeList) && p in Payloads(bs) && p.0 <= a < p.0 + p.1
    ensures HeapOk(mem[a := v], bs, base, end, freeList)
    ensures PayloadsKept(mem, mem[a := v], Payloads(bs) - {p})
  {
    var k :| 0 <= k < |bs| && bs[k].live && p == (bs[k].addr + WORD, bs[k].size - WORD);
    forall i | 0 <= i < |bs|
      ensures bs[i].addr != a && (!bs[i].live ==> bs[i].addr + WORD != a)
    {
      TilesAt(bs, base, end, i);
      TilesAt(bs, base, end, k);
      if i < k {
        TilesOrder(bs, base, end, i, k);
      } else if k < i {
        TilesOrder(bs, base, end, k, i);
      }
    }
    ChainedFrame(mem, mem[a := v], bs, freeList, NULL);
    forall q | q in Payloads(bs) - {p}
      ensures !(q.0 <= a < q.0 + q.1)
    {
      PayloadsDisjoint(bs, base, end, p, q);
    }
  }

  /** The words of other live payloads are untouched. */
  ghost predicate PayloadsKept(mem: Memory, mem': Memory, kept: set<(int, int)>) {
    forall p, a :: p in kept && p.0 <= a < p.0 + p.1 ==>
      (a in mem <==> a in mem') && (a in mem ==> mem'[a] == mem[a])
  }

  /** Nothing changes outside `[from, to)` except the word at `word`. */
  ghost predicate SameOutside(mem: Memory, mem': Memory, from: int, to: int, word: int) {
    forall a :: !(from <= a < to) && a != word ==> (a in mem <==> a in mem') && (a in mem ==> mem'[a] == mem[a])
  }

  lemma {:induction false} LastFreeIndex(bs: seq<Block>) returns (k: nat)
    requires LastFree(bs) != NULL
    ensures k < |bs| && !bs[k].live && bs[k].addr == LastFree(bs)
  {
    if LastFree(bs[1..]) != NULL {
      var j := LastFreeIndex(bs[1..]);
      k := j + 1;
    } else {
      k := 0;
    }
  }

  /** Where the pointer behind the last free block is stored: its second word, or the list head itself. */
  ghost function LinkWord(bs: seq<Block>): int {
    if LastFree(bs) == NULL then NULL else LastFree(bs) + WORD
  }

  /** The word holding that pointer is neither a header nor part of a live payload. */
  lemma LinkWordIsPrivate(bs: seq<Block>, from: int, to: int, i: nat)
    requires Tiles(bs, from, to) && i < |bs| && from > NULL
    ensures bs[i].addr != LinkWord(bs)
    ensures bs[i].live ==> !(bs[i].addr <= LinkWord(bs) < bs[i].addr + bs[i].size)
    ensures LinkWord(bs) < to
  {
    TilesAt(bs, from, to, i);
    if LastFree(bs) != NULL {
      var k := LastFreeIndex(bs);
      TilesAt(bs, from, to, k);
      if i < k {
        TilesOrder(bs, from, to, i, k);
      } else if k < i {
        TilesOrder(bs, from, to, k, i);
      }
    }
  }

  /** Blocks before a changed region keep their headers and payloads. */
  lemma FrontKept(mem: Memory, mem': Memory, bs: seq<Block>, base: int, from: int, to: int)
    requires Tiles(bs, base, from) && base > NULL && Headers(mem, bs) && from <= to
    requires SameOutside(mem, mem', from, to, LinkWord(bs))
    ensures Headers(mem', bs) && PayloadsKept(mem, mem', Payloads(bs))
  {
    forall i | 0 <= i < |bs|
      ensures bs[i].addr in mem' && mem'[bs[i].addr] == bs[i].size
    {
      TilesAt(bs, base, from, i);
      LinkWordIsPrivate(bs, base, from, i);
    }
    forall p, a | p in Payloads(bs) && p.0 <= a < p.0 + p.1
      ensures (a in mem <==> a in mem') && (a in mem ==> mem'[a] == mem[a])
    {
      var i :| 0 <= i < |bs| && bs[i].live && p == (bs[i].addr + WORD, bs[i].size - WORD);
      TilesAt(bs, base, from, i);
      LinkWordIsPrivate(bs, base, from, i);
    }
  }

  /** Blocks behind a changed region keep their headers, links and payloads. */
  lemma BackKept(mem: Memory, mem': Memory, bs: seq<Block>, from: int, to: int, end: int, word: int, first: int)
    requires Tiles(bs, to, end) && Headers(mem, bs) && Chained(mem, bs, first, NULL)
    requires SameOutside(mem, mem', from, to, word) && word < to
    ensures Headers(mem', bs) && Chained(mem', bs, first, NULL) && PayloadsKept(mem, mem', Payloads(bs))
  {
    forall i | 0 <= i < |bs|
      ensures bs[i].addr >= to
    {
      TilesAt(bs, to, end, i);
    }
    ChainedFrame(mem, mem', bs, first, NULL);
    forall p, a | p in Payloads(bs) && p.0 <= a < p.0 + p.1
      ensures (a in mem <==> a in mem') && (a in mem ==> mem'[a] == mem[a])
    {
      var i :| 0 <= i < |bs| && bs[i].live && p == (bs[i].addr + WORD, bs[i].size - WORD);
      TilesAt(bs, to, end, i);
    }
  }

  lemma PayloadsConcat(a: seq<Block>, b: seq<Block>)
    ensures Payloads(a + b) == Payloads(a) + Payloads(b)
  {
    forall i | 0 <= i < |b| && b[i].live
      ensures (b[i].addr + WORD, b[i].size - WORD) in Payloads(a + b)
    {
      assert (a + b)[|a| + i] == b[i];
    }
    forall i | 0 <= i < |a| && a[i].live
      ensures (a[i].addr + WORD, a[i].size - WORD) in Payloads(a + b)
    {
      assert (a + b)[i] == a[i];
    }
  }

  /**
   Replacing the blocks between `from` and `to`: if the new ones tile the same region and the
   list is led through them, the heap is consistent again and all other payloads are untouched.
   */
  lemma ReplaceRegion(mem: Memory, mem': Memory, pre: seq<Block>, mid: seq<Block>, suf: seq<Block>,
                      base: int, from: int, to: int, end: int, freeList: int, in': int, out': int)
    requires NULL < base && end <= 0x8000_0000
    requires Tiles(pre, base, from) && Tiles(mid, from, to) && Tiles(suf, to, end)
    requires Headers(mem, pre) && Headers(mem', mid) && Headers(mem, suf)
    requires Chained(mem', pre, freeList, in') && Chained(mem', mid, in', out') && Chained(mem, suf, out', NULL)
    requires SameOutside(mem, mem', from, to, LinkWord(pre))
    ensures Consistent(mem', pre + mid + suf, base, end, freeList)
    ensures PayloadsKept(mem, mem', Payloads(pre) + Payloads(suf))
    ensures Payloads(pre + mid + suf) == Payloads(pre) + Payloads(mid) + Payloads(suf)
  {
    TilesBounds(mid, from, to);
    FrontKept(mem, mem', pre, base, from, to);
    TilesBounds(pre, base, from);
    if pre != [] {
      LinkWordIsPrivate(pre, base, from, 0);
    }
    BackKept(mem, mem', suf, from, to, end, LinkWord(pre), out');
    TilesConcat(pre, mid, base, from, to);
    TilesConcat(pre + mid, suf, base, to, end);
    ChainedConcat(mem', pre, mid, freeList, in', out');
    ChainedConcat(mem', pre + mid, suf, freeList, out', NULL);
    PayloadsConcat(pre, mid);
    PayloadsConcat(pre + mid, suf);
  }

  /** Cuts a consistent heap in front of block `i` and in front of block `j`. */
  lemma Cut(mem: Memory, bs: seq<Block>, base: int, end: int, freeList: int, i: nat, j: nat)
    returns (from: int, to: int, in': int, out': int)
    requires Consistent(mem, bs, base, end, freeList) && i <= j <= |bs|
    ensures Tiles(bs[..i], base, from) && Tiles(bs[i..j], from, to) && Tiles(bs[j..], to, end)
    ensures Chained(mem, bs[..i], freeList, in') && Chained(mem, bs[i..j], in', out')
    ensures Chained(mem, bs[j..], out', NULL)
    ensures Headers(mem, bs[..i]) && Headers(mem, bs[i..j]) && Headers(mem, bs[j..])
    ensures bs == bs[..i] + bs[i..j] + bs[j..]
  {
    assert bs == bs[..j] + bs[j..] && bs[..j] == bs[..i] + bs[i..j];
    to := TilesSplit(bs[..j], bs[j..], base, end);
    from := TilesSplit(bs[..i], bs[i..j], base, to);
    out' := ChainedSplit(mem, bs[..j], bs[j..], freeList, NULL);
    in' := ChainedSplit(mem, bs[..i], bs[i..j], freeList, out');
  }

  // ---------- The three ways malloc finds space ----------

  /** What a successful allocation does: one payload more, every other one as it was. */
  ghost predicate Allocates(mem: Memory, mem': Memory, bs: seq<Block>, bs': seq<Block>, ptr: int, n: int) {
    && (ptr, n) !in Payloads(bs) && Payloads(bs') == Payloads(bs) + {(ptr, n)}
    && PayloadsKept(mem, mem', Payloads(bs))
  }

  /** The bytes in free blocks, their headers included. */
  ghost function FreeBytes(bs: seq<Block>): int {
    if bs == [] then 0 else (if bs[0].live then 0 else bs[0].size) + FreeBytes(bs[1..])
  }

  lemma {:induction false} FreeBytesConcat(a: seq<Block>, b: seq<Block>)
    ensures FreeBytes(a + b) == FreeBytes(a) + FreeBytes(b)
  {
    if a == [] {
      assert a + b == b;
    } else {
      assert (a + b)[1..] == a[1..] + b;
      FreeBytesConcat(a[1..], b);
    }
  }

  lemma FreeBytesOfParts(pre: seq<Block>, mid: seq<Block>, suf: seq<Block>)
    ensures FreeBytes(pre + mid + suf) == FreeBytes(pre) + FreeBytes(mid) + FreeBytes(suf)
  {
    FreeBytesConcat(pre, mid);
    FreeBytesConcat(pre + mid, suf);
  }

  lemma FreeBytesOfOne(b: Block)
    ensures FreeBytes([b]) == if b.live then 0 else b.size
  {
    assert [b][1..] == [];
  }

  lemma FreeBytesOfTwo(a: Block, b: Block)
    ensures FreeBytes([a, b]) == (if a.live then 0 else a.size) + (if b.live then 0 else b.size)
  {
    assert [a, b] == [a] + [b];
    FreeBytesConcat([a], [b]);
    FreeBytesOfOne(a);
    FreeBytesOfOne(b);
  }

  lemma FreeBytesReplaced(pre: seq<Block>, b: Block, mid: seq<Block>, suf: seq<Block>)
    ensures FreeBytes(pre + mid + suf) - FreeBytes(pre + [b] + suf) == FreeBytes(mid) - (if b.live then 0 else b.size)
  {
    FreeBytesOfParts(pre, [b], suf);
    FreeBytesOfParts(pre, mid, suf);
    FreeBytesOfOne(b);
  }

  /** A block whose rest could not hold a free block of its own is handed out whole, any other only in part. */
  const MIN_BLOCK := 12

  /**
   `size` bytes at `ptr` out of block `i`, the first free one with room for them and a header. If
   the rest is big enough to be a block, it stays free at the block's own address and the upper
   end is handed out; otherwise all of the block is.
   */
  ghost predicate CutFrom(bs: seq<Block>, bs': seq<Block>, i: nat, size: int, ptr: int, n: int) {
    && i < |bs| && NoFit(bs, i, size + WORD) && !bs[i].live && bs[i].size >= size + WORD
    && if bs[i].size >= size + WORD + MIN_BLOCK
       then
         && n == size && ptr == bs[i].addr + bs[i].size - size
         && bs' == bs[..i] + [Block(bs[i].addr, bs[i].size - size - WORD, false), Block(ptr - WORD, size + WORD, true)]
                   + bs[i + 1..]
       else n == bs[i].size - WORD && ptr == bs[i].addr + WORD && bs' == bs[i := Block(bs[i].addr, bs[i].size, true)]
  }

  ghost predicate FromFirstFit(bs: seq<Block>, bs': seq<Block>, size: int, ptr: int, n: int) {
    exists i :: CutFrom(bs, bs', i, size, ptr, n)
  }

  /** The payload is no longer than it has to be, and the free bytes fall by exactly the block handed out. */
  lemma CutIsTight(bs: seq<Block>, bs': seq<Block>, i: nat, size: int, ptr: int, n: int)
    requires CutFrom(bs, bs', i, size, ptr, n)
    ensures size <= n < size + MIN_BLOCK && FreeBytes(bs') == FreeBytes(bs) - (n + WORD)
  {
    var pre, b, suf := bs[..i], bs[i], bs[i + 1..];
    assert bs == pre + [b] + suf;
    if b.size >= size + WORD + MIN_BLOCK {
      var low, high := Block(b.addr, b.size - size - WORD, false), Block(ptr - WORD, size + WORD, true);
      FreeBytesReplaced(pre, b, [low, high], suf);
      FreeBytesOfTwo(low, high);
    } else {
      TakenWhole(bs, i);
    }
  }

  lemma TakenWhole(bs: seq<Block>, i: nat)
    requires i < |bs| && !bs[i].live
    ensures FreeBytes(bs[i := Block(bs[i].addr, bs[i].size, true)]) == FreeBytes(bs) - bs[i].size
  {
    var pre, b, suf, whole := bs[..i], bs[i], bs[i + 1..], Block(bs[i].addr, bs[i].size, true);
    assert bs == pre + [b] + suf && bs[i := whole] == pre + [whole] + suf;
    FreeBytesReplaced(pre, b, [whole], suf);
    FreeBytesOfOne(whole);
  }

  lemma SplitIsCut(bs: seq<Block>, bs': seq<Block>, i: nat, size: int, ptr: int)
    requires i < |bs| && NoFit(bs, i, size + WORD) && !bs[i].live && bs[i].size >= size + WORD + MIN_BLOCK
    requires ptr == bs[i].addr + bs[i].size - size && bs' == bs[..i] + SplitBlocks(bs[i], size + WORD) + bs[i + 1..]
    ensures CutFrom(bs, bs', i, size, ptr, size)
  {
    assert SplitBlocks(bs[i], size + WORD) ==
           [Block(bs[i].addr, bs[i].size - size - WORD, false), Block(ptr - WORD, size + WORD, true)];
  }

  lemma TakeIsCut(bs: seq<Block>, bs': seq<Block>, i: nat, size: int, ptr: int)
    requires i < |bs| && NoFit(bs, i, size + WORD) && !bs[i].live
    requires size + WORD <= bs[i].size < size + WORD + MIN_BLOCK
    requires ptr == bs[i].addr + WORD && bs' == bs[i := bs[i].(live := true)]
    ensures CutFrom(bs, bs', i, size, ptr, bs[i].size - WORD)
  {
  }

  /** An address in a free block is no payload. */
  lemma FreeIsNoPayload(bs: seq<Block>, base: int, end: int, i: nat, a: int, n: int)
    requires Tiles(bs, base, end) && i < |bs| && !bs[i].live && bs[i].addr <= a - WORD < bs[i].addr + bs[i].size
    ensures (a, n) !in Payloads(bs)
  {
    forall j | 0 <= j < |bs| && bs[j].live
      ensures bs[j].addr + WORD != a
    {
      TilesAt(bs, base, end, j);
      if i < j {
        TilesOrder(bs, base, end, i, j);
      } else {
        TilesOrder(bs, base, end, j, i);
      }
    }
  }

  ghost function SplitBlocks(b: Block, full: int): seq<Block> {
    [b.(size := b.size - full), Block(b.addr + b.size - full, full, true)]
  }

  /** Splitting block `i`: the upper part is handed out, the lower part stays on the list where it was. */
  lemma SplitOk(mem: Memory, bs: seq<Block>, base: int, end: int, freeList: int, i: nat, full: int, mem': Memory,
                bs': seq<Block>, ptr: int, n: int)
    requires HeapOk(mem, bs, base, end, freeList) && i < |bs| && !bs[i].live
    requires ptr == bs[i].addr + bs[i].size - full + WORD && n == full - WORD
    requires full >= 12 && full % WORD == 0 && bs[i].size - full >= 12
    requires mem' == mem[bs[i].addr := bs[i].size - full][bs[i].addr + bs[i].size - full := full]
    requires bs' == bs[..i] + SplitBlocks(bs[i], full) + bs[i + 1..]
    ensures HeapOk(mem', bs', base, end, freeList)
    ensures Allocates(mem, mem', bs, bs', ptr, n)
  {
    var b, pre, suf := bs[i], bs[..i], bs[i + 1..];
    var mid := SplitBlocks(b, full);
    var from, to, in', out' := Cut(mem, bs, base, end, freeList, i, i + 1);
    assert bs[i..i + 1] == [b];
    SplitRegion(mem, b, full, from, to, in', out');
    TilesBounds(pre, base, from);
    ChainedPreFrame(mem, mem', pre, base, from, to, freeList, in');
    SplitCoalesced(bs, i, full);
    ReplaceRegion(mem, mem', pre, mid, suf, base, from, to, end, freeList, in', out');
    SplitAllocates(mem, mem', bs, bs', base, end, i, full, ptr, n);
  }

  lemma SplitAllocates(mem: Memory, mem': Memory, bs: seq<Block>, bs': seq<Block>, base: int, end: int, i: nat,
                       full: int, ptr: int, n: int)
    requires Tiles(bs, base, end) && i < |bs| && !bs[i].live && 0 < full <= bs[i].size
    requires ptr == bs[i].addr + bs[i].size - full + WORD && n == full - WORD
    requires bs' == bs[..i] + SplitBlocks(bs[i], full) + bs[i + 1..]
    requires PayloadsKept(mem, mem', Payloads(bs[..i]) + Payloads(bs[i + 1..]))
    ensures Allocates(mem, mem', bs, bs', ptr, n)
  {
    var b, pre, suf := bs[i], bs[..i], bs[i + 1..];
    assert bs == pre + [b] + suf;
    FreeIsNoPayload(bs, base, end, i, ptr, n);
    SplitPayloads(pre, b, suf, full);
    OnePayloadMore(mem, mem', bs, bs', ptr, n, Payloads(pre) + Payloads(suf));
  }

  lemma OnePayloadMore(mem: Memory, mem': Memory, bs: seq<Block>, bs': seq<Block>, ptr: int, n: int,
                       kept: set<(int, int)>)
    requires (ptr, n) !in Payloads(bs) && Payloads(bs) == kept && Payloads(bs') == kept + {(ptr, n)}
    requires PayloadsKept(mem, mem', kept)
    ensures Allocates(mem, mem', bs, bs', ptr, n)
  {
  }

  lemma SplitPayloads(pre: seq<Block>, b: Block, suf: seq<Block>, full: int)
    requires !b.live
    ensures Payloads(pre + [b] + suf) == Payloads(pre) + Payloads(suf)
    ensures Payloads(pre + SplitBlocks(b, full) + suf) ==
            Payloads(pre) + Payloads(suf) + {(b.addr + b.size - full + WORD, full - WORD)}
  {
    var mid := SplitBlocks(b, full);
    PayloadsOfParts(pre, [b], suf);
    SinglePayload(b);
    PayloadsOfParts(pre, mid, suf);
    PayloadsConcat([mid[0]], [mid[1]]);
    SinglePayload(mid[0]);
    SinglePayload(mid[1]);
    assert mid == [mid[0]] + [mid[1]];
  }

  /** Inside the split block's own region. */
  lemma SplitRegion(mem: Memory, b: Block, full: int, from: int, to: int, in': int, out': int)
    requires Tiles([b], from, to) && !b.live && Chained(mem, [b], in', out') && Headers(mem, [b])
    requires full >= 12 && full % WORD == 0 && b.size - full >= 12
    ensures b.addr == from && b.addr + b.size == to
    ensures var mem' := mem[b.addr := b.size - full][b.addr + b.size - full := full];
      && Tiles(SplitBlocks(b, full), from, to) && Headers(mem', SplitBlocks(b, full))
      && Chained(mem', SplitBlocks(b, full), in', out')
  {
    var mid := SplitBlocks(b, full);
    assert [b][1..] == [] && mid[1..] == [mid[1]] && mid[1..][1..] == [];
    assert (b.size - full) % WORD == 0;
  }

  lemma SinglePayload(b: Block)
    ensures Payloads([b]) == if b.live then {(b.addr + WORD, b.size - WORD)} else {}
  {
    assert [b][0] == b;
  }

  lemma PayloadsOfParts(pre: seq<Block>, mid: seq<Block>, suf: seq<Block>)
    ensures Payloads(pre + mid + suf) == Payloads(pre) + Payloads(mid) + Payloads(suf)
  {
    PayloadsConcat(pre, mid);
    PayloadsConcat(pre + mid, suf);
  }

  lemma SplitCoalesced(bs: seq<Block>, i: nat, full: int)
    requires Coalesced(bs) && i < |bs|
    ensures Coalesced(bs[..i] + SplitBlocks(bs[i], full) + bs[i + 1..])
  {
    var bs' := bs[..i] + SplitBlocks(bs[i], full) + bs[i + 1..];
    forall j | 0 <= j < |bs'| - 1
      ensures bs'[j].live || bs'[j + 1].live
    {
      if j < i {
        assert bs[j].live || bs[j + 1].live;
      } else if j > i + 1 {
        assert bs[j - 1].live || bs[j].live;
      }
    }
  }

  /** Changes from `from` on do not touch the list in front of it. */
  lemma ChainedPreFrame(mem: Memory, mem': Memory, pre: seq<Block>, base: int, from: int, to: int, first: int,
                        link: int)
    requires Tiles(pre, base, from) && Chained(mem, pre, first, link)
    requires forall a :: a < from && a in mem ==> a in mem' && mem'[a] == mem[a]
    ensures Chained(mem', pre, first, link)
  {
    forall j | 0 <= j < |pre|
      ensures pre[j].addr + WORD < from
    {
      TilesAt(pre, base, from, j);
    }
    ChainedFrame(mem, mem', pre, first, link);
  }

  /** Memory once the pointer behind the last free block of `pre` leads to `link`. */
  ghost function Relinked(mem: Memory, pre: seq<Block>, link: int): Memory {
    if LastFree(pre) == NULL then mem else mem[LastFree(pre) + WORD := link]
  }

  ghost function RelinkedHead(freeList: int, pre: seq<Block>, link: int): int {
    if LastFree(pre) == NULL then link else freeList
  }

  lemma RelinkOk(mem: Memory, pre: seq<Block>, base: int, from: int, freeList: int, in': int, link: int)
    requires Tiles(pre, base, from) && base > NULL && Chained(mem, pre, freeList, in')
    ensures Chained(Relinked(mem, pre, link), pre, RelinkedHead(freeList, pre, link), link)
  {
    if LastFree(pre) == NULL {
      NoFreeChained(mem, pre, base, from, link, link);
    } else {
      RelinkLast(mem, pre, base, from, freeList, in', link);
    }
  }

  /** Handing out block `i` whole: the list goes past it. */
  lemma TakeOk(mem: Memory, bs: seq<Block>, base: int, end: int, freeList: int, i: nat)
    requires HeapOk(mem, bs, base, end, freeList) && i < |bs| && !bs[i].live && bs[i].addr + WORD in mem
    ensures var b, next := bs[i], mem[bs[i].addr + WORD];
      var mem', bs' := Relinked(mem, bs[..i], next), bs[i := b.(live := true)];
      && HeapOk(mem', bs', base, end, RelinkedHead(freeList, bs[..i], next))
      && Allocates(mem, mem', bs, bs', b.addr + WORD, b.size - WORD)
  {
    var b, next, pre, suf := bs[i], mem[bs[i].addr + WORD], bs[..i], bs[i + 1..];
    var mem', mid := Relinked(mem, pre, next), [b.(live := true)];
    var from, to, in', out' := Cut(mem, bs, base, end, freeList, i, i + 1);
    assert bs[i..i + 1] == [b] && bs == pre + [b] + suf && bs[i := b.(live := true)] == pre + mid + suf;
    LinkWordBefore(pre, base, from);
    TakeRegion(mem, mem', b, from, to, in', out');
    RelinkOk(mem, pre, base, from, freeList, in', next);
    assert Coalesced(pre + mid + suf) by {
      assert forall j :: 0 <= j < |bs| && j != i ==> (pre + mid + suf)[j] == bs[j];
    }
    ReplaceRegion(mem, mem', pre, mid, suf, base, from, to, end, RelinkedHead(freeList, pre, next), next, out');
    TakeAllocates(mem, mem', bs, base, end, i);
  }

  lemma LinkWordBefore(pre: seq<Block>, base: int, from: int)
    requires Tiles(pre, base, from) && base > NULL
    ensures LinkWord(pre) < from
  {
    TilesBounds(pre, base, from);
    if pre != [] {
      LinkWordIsPrivate(pre, base, from, 0);
    }
  }

  lemma TakeRegion(mem: Memory, mem': Memory, b: Block, from: int, to: int, in': int, out': int)
    requires Tiles([b], from, to) && !b.live && Chained(mem, [b], in', out') && Headers(mem, [b])
    requires forall a :: a >= from && a in mem ==> a in mem' && mem'[a] == mem[a]
    ensures out' == mem[b.addr + WORD]
    ensures Tiles([b.(live := true)], from, to) && Headers(mem', [b.(live := true)])
    ensures Chained(mem', [b.(live := true)], out', out')
  {
    assert [b][1..] == [] && [b.(live := true)][1..] == [] && [b][0] == b;
  }

  lemma TakeAllocates(mem: Memory, mem': Memory, bs: seq<Block>, base: int, end: int, i: nat)
    requires Tiles(bs, base, end) && i < |bs| && !bs[i].live
    requires PayloadsKept(mem, mem', Payloads(bs[..i]) + Payloads(bs[i + 1..]))
    ensures Allocates(mem, mem', bs, bs[i := bs[i].(live := true)], bs[i].addr + WORD, bs[i].size - WORD)
  {
    var b, pre, suf := bs[i], bs[..i], bs[i + 1..];
    var b' := b.(live := true);
    assert bs == pre + [b] + suf && bs[i := b'] == pre + [b'] + suf;
    TilesAt(bs, base, end, i);
    FreeIsNoPayload(bs, base, end, i, b.addr + WORD, b.size - WORD);
    PayloadsOfParts(pre, [b], suf);
    PayloadsOfParts(pre, [b'], suf);
    SinglePayload(b);
    SinglePayload(b');
    OnePayloadMore(mem, mem', bs, bs[i := b'], b.addr + WORD, b.size - WORD,
                   Payloads(pre) + Payloads(suf));
  }

  /** A block behind the old end of the heap. */
  lemma ExtendOk(mem: Memory, bs: seq<Block>, base: int, end: int, freeList: int, full: int)
    requires HeapOk(mem, bs, base, end, freeList) && full >= 12 && full % WORD == 0 && end + full <= 0x8000_0000
    ensures var mem', bs' := mem[end := full], bs + [Block(end, full, true)];
      && HeapOk(mem', bs', base, end + full, freeList)
      && Allocates(mem, mem', bs, bs', end + WORD, full - WORD)
  {
    var b := Block(end, full, true);
    var mem' := mem[end := full];
    ChainedPreFrame(mem, mem', bs, base, end, end + full, freeList, NULL);
    assert [b][1..] == [];
    assert bs + [b] + [] == bs + [b];
    ReplaceRegion(mem, mem', bs, [b], [], base, end, end + full, end + full, freeList, NULL, NULL);
    assert Payloads(bs) + Payloads([]) == Payloads(bs);
    ExtendAllocates(mem, mem', bs, base, end, full);
  }

  lemma ExtendAllocates(mem: Memory, mem': Memory, bs: seq<Block>, base: int, end: int, full: int)
    requires Tiles(bs, base, end) && PayloadsKept(mem, mem', Payloads(bs))
    ensures Allocates(mem, mem', bs, bs + [Block(end, full, true)], end + WORD, full - WORD)
  {
    forall j | 0 <= j < |bs|
      ensures bs[j].addr < end
    {
      TilesAt(bs, base, end, j);
    }
    PayloadsConcat(bs, [Block(end, full, true)]);
    SinglePayload(Block(end, full, true));
    OnePayloadMore(mem, mem', bs, bs + [Block(end, full, true)], end + WORD, full - WORD, Payloads(bs));
  }

  // ---------- Giving a block back ----------

  /** What free does: one payload less, every other one as it was. */
  ghost predicate Releases(mem: Memory, mem': Memory, bs: seq<Block>, bs': seq<Block>, ptr: int, n: int) {
    && (ptr, n) in Payloads(bs) && Payloads(bs') == Payloads(bs) - {(ptr, n)}
    && PayloadsKept(mem, mem', Payloads(bs'))
  }

  /** Merging afterwards changes nothing about it. */
  lemma ReleasesOn(mem: Memory, mem1: Memory, mem2: Memory, bs: seq<Block>, mid: seq<Block>, bs': seq<Block>,
                   ptr: int, n: int)
    requires Releases(mem, mem1, bs, mid, ptr, n) && Payloads(bs') == Payloads(mid)
    requires PayloadsKept(mem1, mem2, Payloads(mid))
    ensures Releases(mem, mem2, bs, bs', ptr, n)
  {
  }

  /** Linking block `b` into the list, between the free blocks in front of it and those behind. */
  lemma InsertOk(mem: Memory, bs: seq<Block>, base: int, end: int, freeList: int, b: nat, cur: int,
                 mem': Memory, bs': seq<Block>, freeList': int, ptr: int, n: int)
    requires Consistent(mem, bs, base, end, freeList) && b < |bs| && bs[b].live
    requires ptr == bs[b].addr + WORD && n == bs[b].size - WORD
    requires Chained(mem, bs[..b], freeList, cur) && Chained(mem, bs[b + 1..], cur, NULL)
    requires mem' == Relinked(mem, bs[..b], bs[b].addr)[bs[b].addr + WORD := cur]
    requires freeList' == RelinkedHead(freeList, bs[..b], bs[b].addr) && bs' == bs[b := bs[b].(live := false)]
    ensures Consistent(mem', bs', base, end, freeList')
    ensures Releases(mem, mem', bs, bs', ptr, n)
  {
    var blk, pre, suf := bs[b], bs[..b], bs[b + 1..];
    var link, mid := blk.addr, [blk.(live := false)];
    var from, to, in', out' := Cut(mem, bs, base, end, freeList, b, b + 1);
    assert bs[b..b + 1] == [blk] && bs == pre + [blk] + suf && bs' == pre + mid + suf;
    LinkWordBefore(pre, base, from);
    InsertRegion(mem, mem', blk, from, to, cur);
    RelinkOk(mem, pre, base, from, freeList, in', link);
    ChainedPreFrame(Relinked(mem, pre, link), mem', pre, base, from, to, freeList', link);
    ReplaceRegion(mem, mem', pre, mid, suf, base, from, to, end, freeList', link, cur);
    InsertReleases(mem, mem', bs, base, end, b);
  }

  lemma InsertCoalesced(bs: seq<Block>, b: nat)
    requires Coalesced(bs) && b < |bs|
    ensures CoalescedBut(bs[b := bs[b].(live := false)], b - 1, b)
    ensures bs[b := bs[b].(live := false)][..b] == bs[..b]
  {
  }

  lemma InsertRegion(mem: Memory, mem': Memory, blk: Block, from: int, to: int, cur: int)
    requires Tiles([blk], from, to) && Headers(mem, [blk])
    requires blk.addr + WORD in mem' && mem'[blk.addr + WORD] == cur
    requires forall a :: a >= from && a in mem && a != blk.addr + WORD ==> a in mem' && mem'[a] == mem[a]
    ensures blk.addr == from && blk.addr + WORD < to
    ensures Tiles([blk.(live := false)], from, to) && Headers(mem', [blk.(live := false)])
    ensures Chained(mem', [blk.(live := false)], from, cur)
  {
    assert [blk][1..] == [] && [blk.(live := false)][1..] == [] && [blk][0] == blk;
  }

  lemma InsertReleases(mem: Memory, mem': Memory, bs: seq<Block>, base: int, end: int, b: nat)
    requires Tiles(bs, base, end) && b < |bs| && bs[b].live
    requires PayloadsKept(mem, mem', Payloads(bs[..b]) + Payloads(bs[b + 1..]))
    ensures Releases(mem, mem', bs, bs[b := bs[b].(live := false)], bs[b].addr + WORD, bs[b].size - WORD)
  {
    var blk, pre, suf := bs[b], bs[..b], bs[b + 1..];
    var blk' := blk.(live := false);
    assert bs == pre + [blk] + suf && bs[b := blk'] == pre + [blk'] + suf;
    PayloadsOfParts(pre, [blk], suf);
    PayloadsOfParts(pre, [blk'], suf);
    SinglePayload(blk);
    SinglePayload(blk');
    NotAmongOthers(bs, base, end, b);
    OnePayloadLess(mem, mem', bs, bs[b := blk'], (blk.addr + WORD, blk.size - WORD), Payloads(pre) + Payloads(suf));
  }

  lemma OnePayloadLess(mem: Memory, mem': Memory, bs: seq<Block>, bs': seq<Block>, p: (int, int), kept: set<(int, int)>)
    requires Payloads(bs) == kept + {p} && Payloads(bs') == kept && p !in kept && PayloadsKept(mem, mem', kept)
    ensures Releases(mem, mem', bs, bs', p.0, p.1)
  {
    assert p == (p.0, p.1);
  }

  /** A block's payload is none of those in front of it or behind it. */
  lemma NotAmongOthers(bs: seq<Block>, base: int, end: int, b: nat)
    requires Tiles(bs, base, end) && b < |bs|
    ensures (bs[b].addr + WORD, bs[b].size - WORD) !in Payloads(bs[..b]) + Payloads(bs[b + 1..])
  {
    var pre, suf := bs[..b], bs[b + 1..];
    forall j | 0 <= j < |pre|
      ensures pre[j].addr != bs[b].addr
    {
      TilesAt(bs, base, end, j);
      TilesOrder(bs, base, end, j, b);
    }
    forall j | 0 <= j < |suf|
      ensures suf[j].addr != bs[b].addr
    {
      TilesAt(bs, base, end, b);
      TilesOrder(bs, base, end, b, b + 1 + j);
    }
  }

  ghost function Merged(a: Block, b: Block): Block {
    a.(size := a.size + b.size)
  }

  /** Merging the neighbouring free blocks `j` and `j + 1`. */
  lemma MergeOk(mem: Memory, bs: seq<Block>, base: int, end: int, freeList: int, j: nat)
    requires Consistent(mem, bs, base, end, freeList) && j + 1 < |bs| && !bs[j].live && !bs[j + 1].live
    requires bs[j + 1].addr + WORD in mem
    ensures var a, b := bs[j], bs[j + 1];
      var mem' := mem[a.addr := a.size + b.size][a.addr + WORD := mem[b.addr + WORD]];
      var bs' := bs[..j] + [Merged(a, b)] + bs[j + 2..];
      && Consistent(mem', bs', base, end, freeList)
      && Payloads(bs') == Payloads(bs) && PayloadsKept(mem, mem', Payloads(bs))
  {
    var a, b, pre, suf := bs[j], bs[j + 1], bs[..j], bs[j + 2..];
    var mem' := mem[a.addr := a.size + b.size][a.addr + WORD := mem[b.addr + WORD]];
    var mid := [Merged(a, b)];
    var from, to, in', out' := Cut(mem, bs, base, end, freeList, j, j + 2);
    assert bs[j..j + 2] == [a, b] && bs == pre + [a, b] + suf;
    MergeRegion(mem, mem', a, b, from, to, in', out');
    ChainedPreFrame(mem, mem', pre, base, from, to, freeList, in');
    ReplaceRegion(mem, mem', pre, mid, suf, base, from, to, end, freeList, in', out');
    MergePayloads(pre, a, b, suf);
  }

  lemma MergeRegion(mem: Memory, mem': Memory, a: Block, b: Block, from: int, to: int, in': int, out': int)
    requires Tiles([a, b], from, to) && Headers(mem, [a, b]) && Chained(mem, [a, b], in', out') && !a.live && !b.live
    requires b.addr + WORD in mem && mem' == mem[a.addr := a.size + b.size][a.addr + WORD := mem[b.addr + WORD]]
    ensures a.addr == from && from + WORD < to
    ensures Tiles([Merged(a, b)], from, to) && Headers(mem', [Merged(a, b)]) && Chained(mem', [Merged(a, b)], in', out')
  {
    assert [a, b][1..] == [b] && [b][1..] == [] && [Merged(a, b)][1..] == [];
    assert WellSized(a) && Tiles([b], from + a.size, to) && WellSized(b);
    assert Tiles([b][1..], from + a.size + b.size, to);
    assert Chained(mem, [b], mem[in' + WORD], out') && Chained(mem, [b][1..], mem[b.addr + WORD], out');
  }

  lemma MergePayloads(pre: seq<Block>, a: Block, b: Block, suf: seq<Block>)
    requires !a.live && !b.live
    ensures Payloads(pre + [a, b] + suf) == Payloads(pre) + Payloads(suf) == Payloads(pre + [Merged(a, b)] + suf)
  {
    PayloadsOfParts(pre, [a, b], suf);
    PayloadsOfParts(pre, [Merged(a, b)], suf);
    PayloadsConcat([a], [b]);
    assert [a, b] == [a] + [b];
    SinglePayload(a);
    SinglePayload(b);
    SinglePayload(Merged(a, b));
  }

  /** Neighbours are not both free, except possibly the pairs that start at `lo` up to `hi`. */
  ghost predicate CoalescedBut(bs: seq<Block>, lo: int, hi: int) {
    forall i :: 0 <= i < |bs| - 1 && !(lo <= i <= hi) ==> bs[i].live || bs[i + 1].live
  }

  /** What the list looks like from block `j` on tells whether the next block is free. */
  lemma NextIsFree(mem: Memory, bs: seq<Block>, base: int, end: int, j: nat, cur: int)
    requires Tiles(bs, base, end) && base > NULL && j < |bs| && Chained(mem, bs[j + 1..], cur, NULL)
    ensures cur != NULL && cur - bs[j].addr == bs[j].size <==> j + 1 < |bs| && !bs[j + 1].live
    ensures j + 1 < |bs| && !bs[j + 1].live ==>
      cur == bs[j + 1].addr && cur + WORD in mem && Chained(mem, bs[j + 2..], mem[cur + WORD], NULL)
  {
    assert bs == bs[..j + 1] + bs[j + 1..];
    var mid := TilesSplit(bs[..j + 1], bs[j + 1..], base, end);
    var d := Locate(mem, bs[j + 1..], mid, end, cur);
    if d < |bs[j + 1..]| {
      assert bs[j + 1..][d] == bs[j + 1 + d];
      TilesOrder(bs, base, end, j, j + 1 + d);
    }
    if j + 1 < |bs| {
      assert bs[j + 1..][0] == bs[j + 1] && bs[j + 1..][1..] == bs[j + 2..];
    }
  }

  /** The last free block in front of block `b` is its neighbour exactly if they touch. */
  lemma PrevIsNeighbour(bs: seq<Block>, base: int, end: int, b: nat) returns (k: nat)
    requires Tiles(bs, base, end) && base > NULL && b < |bs| && LastFree(bs[..b]) != NULL
    ensures k < b && !bs[k].live && bs[k].addr == LastFree(bs[..b])
    ensures bs[b].addr - LastFree(bs[..b]) == bs[k].size <==> k == b - 1
    ensures b >= 1 && !bs[b - 1].live ==> k == b - 1
  {
    k := LastFreeIndex(bs[..b]);
    assert bs[..b][k] == bs[k];
    TilesOrder(bs, base, end, k, b);
    if b >= 1 && !bs[b - 1].live {
      assert bs[..b] == bs[..b - 1] + [bs[b - 1]];
      LastFreeConcat(bs[..b - 1], [bs[b - 1]]);
      TilesAt(bs, base, end, b - 1);
      if k < b - 1 {
        TilesAt(bs, base, end, k);
        TilesOrder(bs, base, end, k, b - 1);
      }
    }
  }

  lemma NoPrevMeansLive(bs: seq<Block>, base: int, end: int, b: nat)
    requires Tiles(bs, base, end) && base > NULL && 0 < b < |bs| && LastFree(bs[..b]) == NULL
    ensures bs[b - 1].live
  {
    assert bs[..b] == bs[..b - 1] + [bs[b - 1]];
    LastFreeConcat(bs[..b - 1], [bs[b - 1]]);
    TilesAt(bs, base, end, b - 1);
  }

  class Heap {
    var mem: Memory
    var freeList: int
    var heapEnd: int
    const base: int
    ghost var blocks: seq<Block>

    ghost predicate Valid()
      reads this
    {
      HeapOk(mem, blocks, base, heapEnd, freeList)
    }

    /** A process that has not allocated yet: the heap starts at its end. */
    constructor (start: int, mem: Memory)
      requires NULL < start <= 0x8000_0000
      ensures Valid() && base == heapEnd == start && blocks == [] && this.mem == mem
    {
      this.mem := mem;
      freeList, heapEnd, base, blocks := NULL, start, start, [];
    }

    /** The search loop of malloc: the first free block big enough for `size` bytes and a header. */
    method FirstFit(size: int) returns (block: int, prev: int, ghost i: nat)
      requires Valid() && MIN_ALLOC <= size <= 0x8000_0008 && size % WORD == 0
      ensures i <= |blocks| && (block == NULL <==> i == |blocks|)
      ensures NoFit(blocks, i, size + WORD)
      ensures i < |blocks| ==> !blocks[i].live && blocks[i].addr == block && blocks[i].size >= size + WORD
      ensures prev == LastFree(blocks[..i])
      ensures block != NULL ==> block + WORD in mem
    {
      block, prev := freeList, NULL;
      i := 0;
      ghost var from := base;
      assert blocks[0..] == blocks && blocks[..0] == [];
      while block != NULL
        invariant Walking(mem, blocks, base, heapEnd, freeList, i, from, block, prev)
        invariant NoFit(blocks, i, size + WORD)
        decreases |blocks| - i
      {
        ghost var k, from' := Advance(mem, blocks, base, heapEnd, freeList, i, from, block, prev);
        SplitTest(blocks[k].size, size);
        NoFitOn(blocks, i, k, size + WORD);
        assert mem[block] == blocks[k].size;
        if CanSplit(mem[block], size) || mem[block] >= size + WORD {
          i := k;
          return;
        }
        prev, block := block, mem[block + WORD];
        i, from := k + 1, from';
      }
      ghost var k := Locate(mem, blocks[i..], from, heapEnd, block);
      assert forall j :: i <= j < |blocks| ==> blocks[j] == blocks[i..][j - i];
      LastFreeConcat(blocks[..i], blocks[i..]);
      assert blocks[i..][..k] == blocks[i..] && blocks[..i] + blocks[i..] == blocks == blocks[..|blocks|];
      i := |blocks|;
    }

    /**
     malloc. `grant` says whether the kernel extends the heap when asked; it never extends it
     beyond the user segment.
     */
    method Malloc(request: nat, grant: bool) returns (ptr: int, ghost n: int)
      requires Valid() && request <= 0x8000_0008
      requires grant ==> heapEnd + Rounded(request) + WORD <= 0x8000_0000
      modifies this
      ensures Valid()
      ensures ptr == NULL <==> request == 0 || (!grant && NoFit(old(blocks), |old(blocks)|, Rounded(request) + WORD))
      ensures ptr == NULL ==> mem == old(mem) && blocks == old(blocks) && heapEnd == old(heapEnd)
      ensures ptr != NULL ==> Allocates(old(mem), mem, old(blocks), blocks, ptr, n)
      ensures ptr != NULL ==> Rounded(request) <= n < Rounded(request) + MIN_BLOCK
      ensures ptr != NULL && NoFit(old(blocks), |old(blocks)|, Rounded(request) + WORD) ==>
        AtEnd(old(blocks), blocks, old(heapEnd), heapEnd, Rounded(request), ptr, n)
      ensures ptr != NULL && !NoFit(old(blocks), |old(blocks)|, Rounded(request) + WORD) ==>
        && heapEnd == old(heapEnd) && FromFirstFit(old(blocks), blocks, Rounded(request), ptr, n)
        && FreeBytes(blocks) == FreeBytes(old(blocks)) - (n + WORD)
    {
      n := 0;
      if request == 0 {
        return NULL, n;
      }
      ptr, n := Allocate(Rounded(request), grant);
    }

    /** The rest of malloc, on a request in whole words. */
    method Allocate(size: nat, grant: bool) returns (ptr: int, ghost n: int)
      requires Valid() && MIN_ALLOC <= size <= 0x8000_0008 && size % WORD == 0
      requires grant ==> heapEnd + size + WORD <= 0x8000_0000
      modifies this
      ensures Valid()
      ensures ptr == NULL <==> !grant && NoFit(old(blocks), |old(blocks)|, size + WORD)
      ensures ptr == NULL ==> mem == old(mem) && blocks == old(blocks) && heapEnd == old(heapEnd)
      ensures ptr != NULL ==> Allocates(old(mem), mem, old(blocks), blocks, ptr, n) && size <= n < size + MIN_BLOCK
      ensures ptr != NULL && NoFit(old(blocks), |old(blocks)|, size + WORD) ==>
        AtEnd(old(blocks), blocks, old(heapEnd), heapEnd, size, ptr, n)
      ensures ptr != NULL && !NoFit(old(blocks), |old(blocks)|, size + WORD) ==>
        && heapEnd == old(heapEnd) && FromFirstFit(old(blocks), blocks, size, ptr, n)
        && FreeBytes(blocks) == FreeBytes(old(blocks)) - (n + WORD)
    {
      ghost var i;
      var block, prev;
      block, prev, i := FirstFit(size);
      n := 0;
      if block != NULL {
        ghost var before := blocks;
        ptr, n := UseBlock(block, prev, size, i);
        CutIsTight(before, blocks, i, size, ptr, n);
      } else if grant {
        ptr := Extend(size);
        n := size;
      } else {
        ptr := NULL;
      }
    }

    /** The kernel has moved the end of the heap; the new space becomes one block. */
    method Extend(size: nat) returns (ptr: int)
      requires Valid() && MIN_ALLOC <= size && size % WORD == 0 && heapEnd + size + WORD <= 0x8000_0000
      modifies this`mem, this`blocks, this`heapEnd
      ensures Valid() && Allocates(old(mem), mem, old(blocks), blocks, ptr, size)
      ensures AtEnd(old(blocks), blocks, old(heapEnd), heapEnd, size, ptr, size) && ptr != NULL
    {
      ExtendOk(mem, blocks, base, heapEnd, freeList, size + WORD);
      TilesBounds(blocks, base, heapEnd);
      EndAdded(blocks, heapEnd, size);
      mem := mem[heapEnd := size + WORD];
      blocks := blocks + [Block(heapEnd, size + WORD, true)];
      ptr := heapEnd + WORD;
      heapEnd := heapEnd + size + WORD;
    }

    /** Hands out all or the upper part of a free block that is big enough. */
    method UseBlock(block: int, prev: int, size: nat, ghost i: nat) returns (ptr: int, ghost n: int)
      requires Valid() && i < |blocks| && !blocks[i].live && blocks[i].addr == block && blocks[i].size >= size + WORD
      requires prev == LastFree(blocks[..i]) && block + WORD in mem && NoFit(blocks, i, size + WORD)
      requires MIN_ALLOC <= size <= 0x8000_0008 && size % WORD == 0
      modifies this`mem, this`blocks, this`freeList
      ensures Valid() && Allocates(old(mem), mem, old(blocks), blocks, ptr, n)
      ensures CutFrom(old(blocks), blocks, i, size, ptr, n) && ptr > block > NULL
    {
      TilesAt(blocks, base, heapEnd, i);
      assert block > NULL && mem[block] == blocks[i].size;
      SplitTest(blocks[i].size, size);
      if CanSplit(mem[block], size) {
        n := size;
        ptr := SplitAt(block, size, i);
      } else {
        n := blocks[i].size - WORD;
        ptr := TakeAt(block, prev, size, i);
      }
    }

    /** The block is too big but can be split: its upper end is handed out. */
    method SplitAt(block: int, size: int, ghost i: nat) returns (ptr: int)
      requires Valid() && i < |blocks| && !blocks[i].live && blocks[i].addr == block
      requires MIN_ALLOC <= size && size % WORD == 0 && blocks[i].size >= size + WORD + MIN_BLOCK
      requires NoFit(blocks, i, size + WORD)
      modifies this`mem, this`blocks
      ensures Valid() && Allocates(old(mem), mem, old(blocks), blocks, ptr, size)
      ensures CutFrom(old(blocks), blocks, i, size, ptr, size) && ptr > block
    {
      ghost var b, mem0, bs := blocks[i], mem, blocks;
      assert mem[block] == b.size;
      mem := mem[block := mem[block] - (size + WORD)];
      var newBlock := block + mem[block];
      mem := mem[newBlock := size + WORD];
      blocks := blocks[..i] + SplitBlocks(b, size + WORD) + blocks[i + 1..];
      ptr := newBlock + WORD;
      SplitOk(mem0, bs, base, heapEnd, freeList, i, size + WORD, mem, blocks, ptr, size);
      SplitIsCut(bs, blocks, i, size, ptr);
    }

    /** The block is big enough but not big enough to split: it is handed out whole. */
    method TakeAt(block: int, prev: int, ghost size: int, ghost i: nat) returns (ptr: int)
      requires Valid() && i < |blocks| && !blocks[i].live && blocks[i].addr == block
      requires prev == LastFree(blocks[..i]) && block + WORD in mem
      requires NoFit(blocks, i, size + WORD) && size + WORD <= blocks[i].size < size + WORD + MIN_BLOCK
      modifies this`mem, this`blocks, this`freeList
      ensures Valid() && Allocates(old(mem), mem, old(blocks), blocks, ptr, old(blocks)[i].size - WORD)
      ensures CutFrom(old(blocks), blocks, i, size, ptr, old(blocks)[i].size - WORD) && ptr > block
    {
      TakeOk(mem, blocks, base, heapEnd, freeList, i);
      var next := mem[block + WORD];
      if prev == NULL {
        freeList := next;
      } else {
        mem := mem[prev + WORD := next];
      }
      ptr := block + WORD;
      TakeIsCut(blocks, blocks[i := blocks[i].(live := true)], i, size, ptr);
      blocks := blocks[i := blocks[i].(live := true)];
    }

    /** The search loop of free: the free blocks on either side of block `b`. */
    method FindPlace(block: int, ghost b: nat) returns (prev: int, cur: int)
      requires Valid() && b < |blocks| && blocks[b].live && blocks[b].addr == block
      ensures prev == LastFree(blocks[..b])
      ensures Chained(mem, blocks[..b], freeList, cur) && Chained(mem, blocks[b + 1..], cur, NULL)
    {
      cur, prev := freeList, NULL;
      ghost var i, from := 0, base;
      assert blocks[0..] == blocks && blocks[..0] == [];
      while !(cur > block || cur == NULL)
        invariant i <= b && Walking(mem, blocks, base, heapEnd, freeList, i, from, cur, prev)
        decreases b - i
      {
        ghost var k, from' := Advance(mem, blocks, base, heapEnd, freeList, i, from, cur, prev);
        if k > b {
          TilesOrder(blocks, base, heapEnd, b, k);
          TilesAt(blocks, base, heapEnd, b);
        }
        prev, cur := cur, mem[cur + WORD];
        i, from := k + 1, from';
      }
      PlaceFound(mem, blocks, base, heapEnd, freeList, i, from, cur, prev, b);
    }

    /** Puts the block on the list. */
    method LinkIn(block: int, prev: int, cur: int, ghost b: nat)
      requires Valid() && b < |blocks| && blocks[b].live && blocks[b].addr == block && prev == LastFree(blocks[..b])
      requires Chained(mem, blocks[..b], freeList, cur) && Chained(mem, blocks[b + 1..], cur, NULL)
      modifies this`mem, this`freeList, this`blocks
      ensures Consistent(mem, blocks, base, heapEnd, freeList)
      ensures blocks == old(blocks)[b := old(blocks)[b].(live := false)] && CoalescedBut(blocks, b - 1, b)
      ensures Releases(old(mem), mem, old(blocks), blocks, block + WORD, old(blocks)[b].size - WORD)
      ensures block + WORD in mem && mem[block + WORD] == cur && prev == LastFree(blocks[..b])
    {
      ghost var mem0, bs, head, n := mem, blocks, freeList, blocks[b].size - WORD;
      if prev == NULL {
        freeList := block;
      } else {
        mem := mem[prev + WORD := block];
      }
      mem := mem[block + WORD := cur];
      blocks := blocks[b := blocks[b].(live := false)];
      InsertOk(mem0, bs, base, heapEnd, head, b, cur, mem, blocks, freeList, block + WORD, n);
      InsertCoalesced(bs, b);
    }

    /** free: the payload at `ptr` goes back to the free list, merged with the free blocks it touches. */
    method Free(ptr: int)
      requires Valid() && (ptr != NULL ==> exists n :: (ptr, n) in Payloads(blocks))
      modifies this
      ensures Valid() && heapEnd == old(heapEnd)
      ensures ptr == NULL ==> mem == old(mem) && blocks == old(blocks)
      ensures ptr != NULL ==> exists n :: Releases(old(mem), mem, old(blocks), blocks, ptr, n)
    {
      if ptr != NULL {
        var block := ptr - WORD;
        ghost var b :| 0 <= b < |blocks| && blocks[b].live && blocks[b].addr == block;
        var prev, cur := FindPlace(block, b);
        Release(block, prev, cur, b);
      }
    }

    /** Links block `b` in between its free neighbours on the list and merges it with those it touches. */
    method Release(block: int, prev: int, cur: int, ghost b: nat)
      requires Valid() && b < |blocks| && blocks[b].live && blocks[b].addr == block && prev == LastFree(blocks[..b])
      requires Chained(mem, blocks[..b], freeList, cur) && Chained(mem, blocks[b + 1..], cur, NULL)
      modifies this`mem, this`freeList, this`blocks
      ensures Valid() && Releases(old(mem), mem, old(blocks), blocks, block + WORD, old(blocks)[b].size - WORD)
    {
      ghost var mem0, bs, n := mem, blocks, blocks[b].size - WORD;
      LinkIn(block, prev, cur, b);
      ghost var mem1, mid := mem, blocks;
      MergeBoth(block, prev, cur, b);
      ReleasesOn(mem0, mem1, mem, bs, mid, blocks, block + WORD, n);
    }

    /** The two merges of free. */
    method MergeBoth(block: int, prev: int, cur: int, ghost b: nat)
      requires Consistent(mem, blocks, base, heapEnd, freeList) && CoalescedBut(blocks, b - 1, b)
      requires b < |blocks| && !blocks[b].live && blocks[b].addr == block && prev == LastFree(blocks[..b])
      requires block + WORD in mem && mem[block + WORD] == cur
      modifies this`mem, this`blocks
      ensures Valid()
      ensures Payloads(blocks) == Payloads(old(blocks)) && PayloadsKept(old(mem), mem, Payloads(blocks))
    {
      var blk;
      ghost var b';
      blk, b' := MergePrev(block, prev, cur, b);
      MergeNext(blk, cur, b');
    }

    /** Merges the freed block `b` with the free block in front of it if they touch. */
    method MergePrev(block: int, prev: int, cur: int, ghost b: nat) returns (blk: int, ghost b': nat)
      requires Consistent(mem, blocks, base, heapEnd, freeList) && CoalescedBut(blocks, b - 1, b)
      requires b < |blocks| && !blocks[b].live && blocks[b].addr == block && prev == LastFree(blocks[..b])
      requires block + WORD in mem && mem[block + WORD] == cur
      modifies this`mem, this`blocks
      ensures Consistent(mem, blocks, base, heapEnd, freeList) && CoalescedBut(blocks, b', b')
      ensures b' < |blocks| && !blocks[b'].live && blocks[b'].addr == blk && blk + WORD in mem && mem[blk + WORD] == cur
      ensures Payloads(blocks) == Payloads(old(blocks)) && PayloadsKept(old(mem), mem, Payloads(blocks))
    {
      blk, b' := block, b;
      if prev != NULL {
        ghost var k := PrevIsNeighbour(blocks, base, heapEnd, b);
        assert mem[prev] == blocks[k].size && mem[block] == blocks[b].size;
        if block - prev == mem[prev] {
          MergeCoalesces(blocks, k, b);
          Join(prev, mem[prev] + mem[block], cur, k);
          blk, b' := prev, k;
        }
      } else if b > 0 {
        NoPrevMeansLive(blocks, base, heapEnd, b);
      }
    }

    /** Merges the freed block `b` with the free block behind it if they touch. */
    method MergeNext(block: int, cur: int, ghost b: nat)
      requires Consistent(mem, blocks, base, heapEnd, freeList) && CoalescedBut(blocks, b, b)
      requires b < |blocks| && !blocks[b].live && blocks[b].addr == block
      requires block + WORD in mem && mem[block + WORD] == cur
      modifies this`mem, this`blocks
      ensures Valid()
      ensures Payloads(blocks) == Payloads(old(blocks)) && PayloadsKept(old(mem), mem, Payloads(blocks))
    {
      AfterFree(mem, blocks, base, heapEnd, freeList, b);
      NextIsFree(mem, blocks, base, heapEnd, b, cur);
      assert mem[block] == blocks[b].size;
      if cur != NULL && cur - block == mem[block] {
        MergeCoalesces(blocks, b, b);
        assert mem[cur] == blocks[b + 1].size;
        Join(block, mem[block] + mem[cur], mem[cur + WORD], b);
      }
    }

    /** Merges block `j` with the free block behind it. */
    method Join(block: int, size: int, next: int, ghost j: nat)
      requires Consistent(mem, blocks, base, heapEnd, freeList)
      requires j + 1 < |blocks| && !blocks[j].live && !blocks[j + 1].live && blocks[j].addr == block
      requires size == blocks[j].size + blocks[j + 1].size
      requires blocks[j + 1].addr + WORD in mem && next == mem[blocks[j + 1].addr + WORD]
      modifies this`mem, this`blocks
      ensures Consistent(mem, blocks, base, heapEnd, freeList)
      ensures blocks == old(blocks)[..j] + [Merged(old(blocks)[j], old(blocks)[j + 1])] + old(blocks)[j + 2..]
      ensures Payloads(blocks) == Payloads(old(blocks)) && PayloadsKept(old(mem), mem, Payloads(blocks))
      ensures block + WORD in mem && mem[block + WORD] == next
    {
      MergeOk(mem, blocks, base, heapEnd, freeList, j);
      mem := mem[block := size];
      mem := mem[block + WORD := next];
      blocks := blocks[..j] + [Merged(blocks[j], blocks[j + 1])] + blocks[j + 2..];
    }
  }

  /** Behind a free block the list goes on with the block's second word. */
  lemma AfterFree(mem: Memory, bs: seq<Block>, base: int, end: int, freeList: int, b: nat)
    requires Consistent(mem, bs, base, end, freeList) && b < |bs| && !bs[b].live
    ensures bs[b].addr + WORD in mem && Chained(mem, bs[b + 1..], mem[bs[b].addr + WORD], NULL)
  {
    var from, to, in', out' := Cut(mem, bs, base, end, freeList, b, b + 1);
    assert bs[b..b + 1] == [bs[b]] && [bs[b]][1..] == [];
  }

  /** Merging blocks `j` and `j + 1` leaves at most the pair behind the merged block. */
  lemma MergeCoalesces(bs: seq<Block>, j: nat, hi: int)
    requires j + 1 < |bs| && !bs[j].live && !bs[j + 1].live && j <= hi <= j + 1 && CoalescedBut(bs, j, hi)
    ensures CoalescedBut(bs[..j] + [Merged(bs[j], bs[j + 1])] + bs[j + 2..], j, hi - 1)
  {
    var bs' := bs[..j] + [Merged(bs[j], bs[j + 1])] + bs[j + 2..];
    forall i | 0 <= i < |bs'| - 1 && !(j <= i <= hi - 1)
      ensures bs'[i].live || bs'[i + 1].live
    {
      if i < j {
        assert bs'[i] == bs[i] && (bs'[i + 1].live == bs[i + 1].live);
      } else if i == j {
        assert bs'[i + 1] == bs[j + 2] && hi < j + 1;
      } else {
        assert bs'[i] == bs[i + 1] && bs'[i + 1] == bs[i + 2];
      }
    }
  }

  /** Between the walk's position and block `b` nothing is free. */
  lemma PlaceFound(mem: Memory, bs: seq<Block>, base: int, end: int, freeList: int, i: nat, from: int, cur: int,
                   prev: int, b: nat)
    requires Consistent(mem, bs, base, end, freeList) && Walking(mem, bs, base, end, freeList, i, from, cur, prev)
    requires i <= b < |bs| && bs[b].live && (cur == NULL || cur > bs[b].addr)
    ensures prev == LastFree(bs[..b])
    ensures Chained(mem, bs[..b], freeList, cur) && Chained(mem, bs[b + 1..], cur, NULL)
  {
    var d := Locate(mem, bs[i..], from, end, cur);
    assert i + d > b by {
      if i + d <= b {
        assert bs[i..][d] == bs[i + d];
        NotBehind(bs, base, end, i + d, b);
      }
    }
    AllLive(bs, i, b, d);
    assert bs[i..] == bs[i..b + 1] + bs[b + 1..] && bs[i..b + 1] == bs[i..b] + [bs[b]];
    var to := TilesSplit(bs[i..b + 1], bs[b + 1..], from, end);
    var at := TilesSplit(bs[i..b], [bs[b]], from, to);
    var m := ChainedSplit(mem, bs[i..b + 1], bs[b + 1..], cur, NULL);
    NoFreeChained(mem, bs[i..b + 1], from, to, cur, m);
    NoFreeChained(mem, bs[i..b], from, at, cur, cur);
    assert bs[..b] == bs[..i] + bs[i..b];
    ChainedConcat(mem, bs[..i], bs[i..b], freeList, cur, cur);
    LastFreeConcat(bs[..i], bs[i..b]);
  }

  lemma NotBehind(bs: seq<Block>, base: int, end: int, i: nat, j: nat)
    requires Tiles(bs, base, end) && i <= j < |bs|
    ensures bs[i].addr <= bs[j].addr
  {
    if i < j {
      TilesAt(bs, base, end, i);
      TilesOrder(bs, base, end, i, j);
    }
  }

  lemma AllLive(bs: seq<Block>, i: nat, b: nat, d: nat)
    requires i <= b < i + d <= |bs| && forall j :: 0 <= j < d ==> bs[i..][j].live
    ensures LastFree(bs[i..b]) == NULL && LastFree(bs[i..b + 1]) == NULL
  {
    var tail, upto, before := bs[i..], bs[i..b + 1], bs[i..b];
    assert forall j :: 0 <= j < |upto| ==> upto[j] == tail[j];
    assert forall j :: 0 <= j < |before| ==> before[j] == tail[j];
    LiveOnly(upto);
    LiveOnly(before);
  }

  lemma {:induction false} LiveOnly(bs: seq<Block>)
    requires forall j :: 0 <= j < |bs| ==> bs[j].live
    ensures LastFree(bs) == NULL
  {
    if bs != [] {
      LiveOnly(bs[1..]);
    }
  }

  /** A new block of exactly the needed size behind the old end of the heap. */
  ghost predicate AtEnd(bs: seq<Block>, bs': seq<Block>, end: int, end': int, size: int, ptr: int, n: int) {
    && n == size && ptr == end + WORD && end' == end + size + WORD
    && bs' == bs + [Block(end, size + WORD, true)] && FreeBytes(bs') == FreeBytes(bs)
  }

  lemma EndAdded(bs: seq<Block>, end: int, size: int)
    ensures AtEnd(bs, bs + [Block(end, size + WORD, true)], end, end + size + WORD, size, end + WORD, size)
  {
    FreeBytesConcat(bs, [Block(end, size + WORD, true)]);
    FreeBytesOfOne(Block(end, size + WORD, true));
  }

  /** No free block among the first `i` has `full` bytes. */
  ghost predicate NoFit(bs: seq<Block>, i: nat, full: int) {
    i <= |bs| && forall j :: 0 <= j < i ==> bs[j].live || bs[j].size < full
  }

  lemma NoFitOn(bs: seq<Block>, i: nat, k: nat, full: int)
    requires NoFit(bs, i, full) && i <= k < |bs| && forall j :: i <= j < k ==> bs[j].live
    ensures NoFit(bs, k, full) && (bs[k].size < full ==> NoFit(bs, k + 1, full))
  {
  }

  /** A walk along the free list that stands in front of block `i`, at address `from`. */
  ghost predicate Walking(mem: Memory, bs: seq<Block>, base: int, end: int, freeList: int,
                          i: nat, from: int, block: int, prev: int) {
    && i <= |bs| && base <= from
    && Tiles(bs[..i], base, from) && Tiles(bs[i..], from, end)
    && Chained(mem, bs[..i], freeList, block) && Chained(mem, bs[i..], block, NULL)
    && prev == LastFree(bs[..i])
  }

  /** The list pointer names the next free block `k`; behind it the walk goes on with its second word. */
  lemma Advance(mem: Memory, bs: seq<Block>, base: int, end: int, freeList: int, i: nat, from: int, block: int,
                prev: int)
    returns (k: nat, from': int)
    requires Consistent(mem, bs, base, end, freeList)
    requires Walking(mem, bs, base, end, freeList, i, from, block, prev) && block != NULL
    ensures i <= k < |bs| && !bs[k].live && bs[k].addr == block && block + WORD in mem
    ensures forall j :: i <= j < k ==> bs[j].live
    ensures 12 <= bs[k].size < 0x8000_0000 && bs[k].size % WORD == 0
    ensures prev == LastFree(bs[..k]) && Chained(mem, bs[..k], freeList, block)
    ensures Walking(mem, bs, base, end, freeList, k + 1, from', mem[block + WORD], block)
  {
    k := Ahead(mem, bs, base, end, freeList, i, from, block, prev);
    from' := Past(mem, bs, base, end, freeList, k, block);
  }

  lemma CutTwice(bs: seq<Block>, i: nat, d: nat)
    requires i + d <= |bs|
    ensures bs[..i + d] == bs[..i] + bs[i..][..d]
  {
  }

  /** The walk stands right in front of block `k`. */
  lemma Ahead(mem: Memory, bs: seq<Block>, base: int, end: int, freeList: int, i: nat, from: int, block: int, prev: int)
    returns (k: nat)
    requires Consistent(mem, bs, base, end, freeList)
    requires Walking(mem, bs, base, end, freeList, i, from, block, prev) && block != NULL
    ensures i <= k < |bs| && !bs[k].live && bs[k].addr == block && block + WORD in mem
    ensures forall j :: i <= j < k ==> bs[j].live
    ensures prev == LastFree(bs[..k]) && Chained(mem, bs[..k], freeList, block)
    ensures Chained(mem, bs[k + 1..], mem[block + WORD], NULL)
  {
    var d := Locate(mem, bs[i..], from, end, block);
    k := i + d;
    assert bs[i..][d] == bs[k] && bs[i..][d + 1..] == bs[k + 1..];
    assert forall j :: i <= j < k ==> bs[j] == bs[i..][j - i];
    CutTwice(bs, i, d);
    ChainedConcat(mem, bs[..i], bs[i..][..d], freeList, block, block);
    LastFreeConcat(bs[..i], bs[i..][..d]);
  }

  /** Behind block `k` the walk goes on with its second word. */
  lemma Past(mem: Memory, bs: seq<Block>, base: int, end: int, freeList: int, k: nat, block: int) returns (from': int)
    requires Consistent(mem, bs, base, end, freeList) && k < |bs| && !bs[k].live && bs[k].addr == block
    requires block + WORD in mem && Chained(mem, bs[..k], freeList, block)
    requires Chained(mem, bs[k + 1..], mem[block + WORD], NULL)
    ensures 12 <= bs[k].size < 0x8000_0000 && bs[k].size % WORD == 0
    ensures Walking(mem, bs, base, end, freeList, k + 1, from', mem[block + WORD], block)
  {
    TilesAt(bs, base, end, k);
    assert bs == bs[..k + 1] + bs[k + 1..] && bs[..k + 1] == bs[..k] + [bs[k]];
    from' := TilesSplit(bs[..k + 1], bs[k + 1..], base, end);
    ChainedConcat(mem, bs[..k], [bs[k]], freeList, block, mem[block + WORD]);
    LastFreeConcat(bs[..k], [bs[k]]);
  }

  lemma SplitTest(blockSize: int, size: int)
    requires 12 <= blockSize < 0x8000_0000 && blockSize % WORD == 0 && MIN_ALLOC <= size <= 0x8000_0008
    requires size % WORD == 0
    ensures CanSplit(blockSize, size) <==> blockSize - size - WORD >= 12
  {
  }
}
