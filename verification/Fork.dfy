/**
 The copy loop of process_fork_setup: for every valid half of every entry of the parent's page
 table, take a fresh frame, map it at the same virtual page of the child with the same write
 bit, and copy the page.
 */
module Fork {
  import opened PageTable
  import PagePool

  type Page = seq<int>

  /** Every frame the table maps has been handed out by the pool and exists in memory. */
  ghost predicate Backed(es: seq<Entry>, out: set<nat>, frames: nat) {
    forall q :: Lookup(es, q).Some? ==> Lookup(es, q).value.number in out && Lookup(es, q).value.number < frames
  }

  /** No two pages share a frame. */
  ghost predicate Unshared(es: seq<Entry>) {
    forall p, q :: Lookup(es, p).Some? && Lookup(es, q).Some? && p != q ==>
      Lookup(es, p).value.number != Lookup(es, q).value.number
  }

  /** The virtual pages that a sequence of entries maps. */
  ghost function PagesOf(es: seq<Entry>): set<nat> {
    if es == [] then {}
    else
      var last := es[|es| - 1];
      With(With(PagesOf(es[..|es| - 1]), last.even.valid, PairPage(last.vpn2, false)), last.odd.valid,
           PairPage(last.vpn2, true))
  }

  ghost function With(pages: set<nat>, valid: bool, page: nat): set<nat> {
    if valid then pages + {page} else pages
  }

  lemma {:induction false} PagesAreMapped(es: seq<Entry>, q: nat)
    requires DistinctPairs(es)
    ensures q in PagesOf(es) <==> Lookup(es, q).Some?
  {
    if es != [] {
      var n := |es| - 1;
      PagesAreMapped(es[..n], q);
      if es[n].vpn2 == q / 2 {
        assert !HasPair(es[..n], q / 2);
        LookupNone(es[..n], q);
      }
    }
  }

  /** Page `q` of the child is a copy of page `q` of the parent in a frame taken since `before`. */
  ghost predicate IsCopy(child: Frame, parent: Frame, before: seq<Page>, memory: seq<Page>, fresh': set<nat>) {
    && child.writable == parent.writable && child.number in fresh'
    && child.number < |memory| && parent.number < |before|
    && memory[child.number] == before[parent.number]
  }

  /** The child has copies of exactly the parent's pages in `pages`. */
  ghost predicate Copied(child: seq<Entry>, parent: seq<Entry>, pages: set<nat>, before: seq<Page>, memory: seq<Page>,
                         fresh': set<nat>) {
    && (forall q: nat :: Lookup(child, q).Some? <==> q in pages)
    && (forall q :: q in pages ==>
          && Lookup(parent, q).Some?
          && IsCopy(Lookup(child, q).value, Lookup(parent, q).value, before, memory, fresh'))
    && Unshared(child)
  }

  /** Pages in frames that were in use before are as they were. */
  ghost predicate OldPagesKept(before: seq<Page>, memory: seq<Page>, fresh': set<nat>) {
    |memory| == |before| && forall f :: 0 <= f < |before| && f !in fresh' ==> memory[f] == before[f]
  }

  /** One more copied page. */
  lemma CopiedOneMore(child: seq<Entry>, child': seq<Entry>, parent: seq<Entry>, pages: set<nat>, before: seq<Page>,
                      memory: seq<Page>, memory': seq<Page>, fresh': set<nat>, q: nat, frame: Frame)
    requires Copied(child, parent, pages, before, memory, fresh')
    requires Lookup(parent, q).Some? && q !in pages && frame.number !in fresh'
    requires forall x :: Lookup(child', x) == if x == q then Some(frame) else Lookup(child, x)
    requires Lookup(parent, q).value.number < |before| && frame.writable == Lookup(parent, q).value.writable
    requires frame.number < |memory| && memory' == memory[frame.number := before[Lookup(parent, q).value.number]]
    ensures Copied(child', parent, pages + {q}, before, memory', fresh' + {frame.number})
  {
  }

  /** Maps the new frame at the same page of the child and copies the parent's page into it. */
  method PlaceCopy(parent: Table, child: Table, memory: array<Page>, phys: nat, vaddr: nat, source: Half,
                   ghost pages: set<nat>, ghost before: seq<Page>, ghost fresh': set<nat>)
    requires parent.Valid() && child.Valid() && memory.Length == |before|
    requires parent != child && parent.entries != child.entries
    requires Copied(child.entries[..child.validCount], parent.entries[..parent.validCount], pages, before, memory[..],
                    fresh')
    requires OldPagesKept(before, memory[..], fresh') && phys / PagePool.PAGE_SIZE < memory.Length
    requires phys / PagePool.PAGE_SIZE !in fresh'
    requires parent.Mapped(PageOf(vaddr)) == FrameOf(source) && source.valid
    requires source.pfn < memory.Length && source.pfn !in fresh' && PageOf(vaddr) !in pages
    requires child.validCount < ENTRIES || HasPair(child.entries[..child.validCount], PageOf(vaddr) / 2)
    modifies child`validCount, child.entries, memory
    ensures child.Valid()
    ensures Copied(child.entries[..child.validCount], parent.entries[..parent.validCount], pages + {PageOf(vaddr)},
                   before, memory[..], fresh' + {phys / PagePool.PAGE_SIZE})
    ensures OldPagesKept(before, memory[..], fresh' + {phys / PagePool.PAGE_SIZE})
    ensures HasPair(child.entries[..child.validCount], PageOf(vaddr) / 2)
    ensures child.validCount <= old(child.validCount) + 1
    ensures HasPair(old(child.entries[..child.validCount]), PageOf(vaddr) / 2) ==>
      child.validCount == old(child.validCount)
  {
    ghost var es, es0, was := parent.entries[..parent.validCount], child.entries[..child.validCount], memory[..];
    var mapped := child.Map(phys, vaddr, source.dirty);
    assert mapped;
    var frame := phys / PagePool.PAGE_SIZE;
    forall x: nat
      ensures Lookup(child.entries[..child.validCount], x) ==
              if x == PageOf(vaddr) then Some(Frame(frame, source.dirty)) else Lookup(es0, x)
    {
      assert child.Mapped(x) == Lookup(child.entries[..child.validCount], x);
    }
    assert memory[source.pfn] == before[source.pfn];
    memory[frame] := memory[source.pfn];
    CopiedOneMore(es0, child.entries[..child.validCount], es, pages, before, was, memory[..], fresh',
                  PageOf(vaddr), Frame(frame, source.dirty));
  }

  /** Where the loop stands: the child holds copies of `pages` in frames taken since it began. */
  ghost predicate Copying(parent: Table, child: Table, pool: PagePool.Pool, memory: array<Page>,
                          pages: set<nat>, before: seq<Page>, out: set<nat>)
    reads parent, parent.entries, child, child.entries, pool, pool.bitmap, memory
  {
    && parent.Valid() && child.Valid() && pool.Valid() && memory.Length == pool.numPages == |before|
    && parent != child && parent.entries != child.entries
    && out <= pool.out
    && OldPagesKept(before, memory[..], pool.out - out)
    && Copied(child.entries[..child.validCount], parent.entries[..parent.validCount], pages, before, memory[..],
              pool.out - out)
  }

  /** One page of the loop: a frame, a mapping, a copy. `ok` is false where the kernel panics for lack of memory. */
  method CopyPage(parent: Table, child: Table, pool: PagePool.Pool, memory: array<Page>, vaddr: nat, source: Half,
                  ghost pages: set<nat>, ghost before: seq<Page>, ghost out: set<nat>) returns (ok: bool)
    requires Copying(parent, child, pool, memory, pages, before, out)
    requires parent.Mapped(PageOf(vaddr)) == FrameOf(source) && source.valid && source.pfn in out
    requires PageOf(vaddr) !in pages
    requires child.validCount < ENTRIES || HasPair(child.entries[..child.validCount], PageOf(vaddr) / 2)
    modifies child`validCount, child.entries, pool`numFree, pool`out, pool.bitmap, memory
    ensures ok <==> old(pool.numFree) > 0
    ensures ok ==> Copying(parent, child, pool, memory, pages + {PageOf(vaddr)}, before, out)
    ensures !ok ==> Copying(parent, child, pool, memory, pages, before, out) && pool.numFree == 0
    ensures ok ==> pool.numFree == old(pool.numFree) - 1
    ensures ok ==> HasPair(child.entries[..child.validCount], PageOf(vaddr) / 2)
    ensures child.validCount <= old(child.validCount) + 1
    ensures ok && HasPair(old(child.entries[..child.validCount]), PageOf(vaddr) / 2) ==>
      child.validCount == old(child.validCount)
  {
    ghost var out0 := pool.out;
    var phys := pool.GetPhysPage();
    if phys == 0 {
      return false;
    }
    PlaceCopy(parent, child, memory, phys, vaddr, source, pages, before, out0 - out);
    assert pool.out - out == (out0 - out) + {phys / PagePool.PAGE_SIZE};
    return true;
  }

  /**
   The copy loop. It ends early, where the kernel panics, exactly if the pool has too few pages. The
   parent's table is not among what it may change.
   */
  method CopyAddressSpace(parent: Table, child: Table, pool: PagePool.Pool, memory: array<Page>) returns (ok: bool)
    requires parent.Valid() && child.Valid() && pool.Valid() && memory.Length == pool.numPages
    requires parent != child && parent.entries != child.entries && child.validCount == 0
    requires Backed(parent.entries[..parent.validCount], pool.out, memory.Length)
    modifies child`validCount, child.entries, pool`numFree, pool`out, pool.bitmap, memory
    ensures child.Valid() && pool.Valid() && old(pool.out) <= pool.out
    ensures ok ==> Copied(child.entries[..child.validCount], parent.entries[..parent.validCount],
                          PagesOf(parent.entries[..parent.validCount]), old(memory[..]), memory[..],
                          pool.out - old(pool.out))
    ensures OldPagesKept(old(memory[..]), memory[..], pool.out - old(pool.out))
    ensures ok <==> old(pool.numFree) >= |PagesOf(parent.entries[..parent.validCount])|
    ensures ok ==> pool.numFree == old(pool.numFree) - |PagesOf(parent.entries[..parent.validCount])|
    ensures !ok ==> pool.numFree == 0
  {
    ghost var es := parent.entries[..parent.validCount];
    assert PagesOf(es[..0]) == {} && child.entries[..0] == [];
    ghost var pages;
    ok, pages := CopyAll(parent, child, pool, memory, es, memory[..], pool.out);
  }

  /** The loop itself, with what it has copied when it ends. */
  method CopyAll(parent: Table, child: Table, pool: PagePool.Pool, memory: array<Page>,
                 ghost es: seq<Entry>, ghost before: seq<Page>, ghost out: set<nat>)
    returns (ok: bool, ghost pages: set<nat>)
    requires Copying(parent, child, pool, memory, {}, before, out) && child.validCount == 0
    requires parent.validCount <= parent.entries.Length && es == parent.entries[..parent.validCount]
    requires Backed(es, out, memory.Length)
    modifies child`validCount, child.entries, pool`numFree, pool`out, pool.bitmap, memory
    ensures Copying(parent, child, pool, memory, pages, before, out)
    ensures pool.numFree + |pages| == old(pool.numFree)
    ensures if ok then pages == PagesOf(es) else pool.numFree == 0 && |pages| < |PagesOf(es)|
  {
    var i := 0;
    pages := {};
    assert PagesOf(es[..0]) == {};
    while i < parent.validCount
      invariant 0 <= i <= parent.validCount && child.validCount <= i && pages == PagesOf(es[..i])
      invariant Copying(parent, child, pool, memory, pages, before, out)
      invariant pool.numFree + |pages| == old(pool.numFree)
    {
      ok, pages := CopyEntry(parent, child, pool, memory, i, es, before, out);
      if !ok {
        TooFew(es, i + 1, pages);
        return;
      }
      i := i + 1;
    }
    assert es[..i] == es;
    ok := true;
  }

  lemma {:induction false} PagesGrow(es: seq<Entry>, i: nat)
    requires i <= |es|
    ensures PagesOf(es[..i]) <= PagesOf(es)
  {
    if i < |es| {
      var front := es[..|es| - 1];
      PagesGrow(front, i);
      assert front[..i] == es[..i];
    } else {
      assert es[..i] == es;
    }
  }

  lemma TooFew(es: seq<Entry>, i: nat, pages: set<nat>)
    requires i <= |es| && pages < PagesOf(es[..i])
    ensures |pages| < |PagesOf(es)|
  {
    PagesGrow(es, i);
    FewerPages(pages, PagesOf(es));
  }

  lemma FewerPages(some: set<nat>, all: set<nat>)
    requires some < all
    ensures |some| < |all|
  {
    var page :| page in all && page !in some;
    var rest := all - {page};
    assert some <= rest;
    Subset(some, rest);
  }

  lemma {:induction false} Subset(some: set<nat>, all: set<nat>)
    requires some <= all
    ensures |some| <= |all|
  {
    if some != {} {
      var page :| page in some;
      Subset(some - {page}, all - {page});
    }
  }

  /** The even or the odd page of a pair. */
  ghost function PairPage(vpn2: nat, odd: bool): nat {
    if odd then 2 * vpn2 + 1 else 2 * vpn2
  }

  /** One half of a turn: nothing to do if the half is not valid. */
  method CopyHalf(parent: Table, child: Table, pool: PagePool.Pool, memory: array<Page>, vpn2: nat, odd: bool,
                  half: Half,
                  ghost pages: set<nat>, ghost before: seq<Page>, ghost out: set<nat>, ghost i: nat)
    returns (ok: bool, ghost pages': set<nat>)
    requires Copying(parent, child, pool, memory, pages, before, out) && i < ENTRIES
    requires parent.Mapped(PairPage(vpn2, odd)) == FrameOf(half)
    requires half.valid ==> half.pfn in out && PairPage(vpn2, odd) !in pages
    requires Room(child, i, vpn2)
    modifies child`validCount, child.entries, pool`numFree, pool`out, pool.bitmap, memory
    ensures Copying(parent, child, pool, memory, pages', before, out)
    ensures ok ==> pages' == With(pages, half.valid, PairPage(vpn2, odd))
    ensures ok ==> Room(child, i, vpn2)
    ensures !ok ==> pool.numFree == 0 && half.valid && pages' == pages
    ensures pool.numFree + |pages'| == old(pool.numFree) + |pages|
  {
    ok, pages' := true, pages;
    if half.valid {
      var vaddr := vpn2 * 8192 + (if odd then PagePool.PAGE_SIZE else 0);
      assert PageOf(vaddr) == PairPage(vpn2, odd) && PairPage(vpn2, odd) / 2 == vpn2;
      ok := CopyPage(parent, child, pool, memory, vaddr, half, pages, before, out);
      if ok {
        pages' := pages + {PairPage(vpn2, odd)};
      }
    }
  }

  /** The child has at most `i` entries, or one more if that one is for pair `vpn2`. */
  ghost predicate Room(child: Table, i: nat, vpn2: nat)
    reads child, child.entries
  {
    && child.validCount <= child.entries.Length
    && (child.validCount <= i || (child.validCount == i + 1 && HasPair(child.entries[..child.validCount], vpn2)))
  }

  /** One turn of the loop: both halves of entry `i`. */
  method CopyEntry(parent: Table, child: Table, pool: PagePool.Pool, memory: array<Page>, i: nat,
                   ghost es: seq<Entry>, ghost before: seq<Page>, ghost out: set<nat>)
    returns (ok: bool, ghost pages: set<nat>)
    requires i < parent.validCount <= parent.entries.Length && child.validCount <= i
    requires es == parent.entries[..parent.validCount] && Backed(es, out, memory.Length)
    requires Copying(parent, child, pool, memory, PagesOf(es[..i]), before, out)
    modifies child`validCount, child.entries, pool`numFree, pool`out, pool.bitmap, memory
    ensures Copying(parent, child, pool, memory, pages, before, out)
    ensures ok ==> child.validCount <= i + 1 && pages == PagesOf(es[..i + 1])
    ensures !ok ==> pool.numFree == 0 && pages < PagesOf(es[..i + 1])
    ensures pool.numFree + |pages| == old(pool.numFree) + |PagesOf(es[..i])|
  {
    EntryPages(es, i, out, memory.Length);
    ok, pages := CopyBoth(parent, child, pool, memory, parent.entries[i], PagesOf(es[..i]), before, out, i);
  }

  method CopyBoth(parent: Table, child: Table, pool: PagePool.Pool, memory: array<Page>, entry: Entry,
                  ghost done: set<nat>, ghost before: seq<Page>, ghost out: set<nat>, ghost i: nat)
    returns (ok: bool, ghost pages: set<nat>)
    requires Copying(parent, child, pool, memory, done, before, out) && child.validCount <= i < ENTRIES
    requires PairPage(entry.vpn2, false) !in done && PairPage(entry.vpn2, true) !in done
    requires parent.Mapped(PairPage(entry.vpn2, false)) == FrameOf(entry.even)
    requires parent.Mapped(PairPage(entry.vpn2, true)) == FrameOf(entry.odd)
    requires (entry.even.valid ==> entry.even.pfn in out) && (entry.odd.valid ==> entry.odd.pfn in out)
    modifies child`validCount, child.entries, pool`numFree, pool`out, pool.bitmap, memory
    ensures Copying(parent, child, pool, memory, pages, before, out)
    ensures ok ==> child.validCount <= i + 1
    ensures ok ==> pages == With(With(done, entry.even.valid, PairPage(entry.vpn2, false)), entry.odd.valid,
                                 PairPage(entry.vpn2, true))
    ensures !ok ==> pool.numFree == 0 && pages < With(With(done, entry.even.valid, PairPage(entry.vpn2, false)),
                                                      entry.odd.valid, PairPage(entry.vpn2, true))
    ensures pool.numFree + |pages| == old(pool.numFree) + |done|
  {
    ok, pages := CopyHalf(parent, child, pool, memory, entry.vpn2, false, entry.even, done, before, out, i);
    if ok {
      ok, pages := CopyHalf(parent, child, pool, memory, entry.vpn2, true, entry.odd, pages, before, out, i);
    }
  }

  /** The pages of entry `i` have not been met before and are mapped by that entry. */
  lemma EntryPages(es: seq<Entry>, i: nat, out: set<nat>, frames: nat)
    requires DistinctPairs(es) && i < |es| && Backed(es, out, frames)
    ensures var v := es[i].vpn2;
      && PairPage(v, false) !in PagesOf(es[..i]) && PairPage(v, true) !in PagesOf(es[..i])
      && Lookup(es, PairPage(v, false)) == FrameOf(es[i].even) && Lookup(es, PairPage(v, true)) == FrameOf(es[i].odd)
      && (es[i].even.valid ==> es[i].even.pfn in out) && (es[i].odd.valid ==> es[i].odd.pfn in out)
      && PagesOf(es[..i + 1]) ==
           With(With(PagesOf(es[..i]), es[i].even.valid, PairPage(v, false)), es[i].odd.valid, PairPage(v, true))
  {
    assert es[..i + 1][..i] == es[..i];
    var v := es[i].vpn2;
    LookupAt(es, i, 2 * v);
    LookupAt(es, i, 2 * v + 1);
    assert !HasPair(es[..i], v);
    LookupNone(es[..i], 2 * v);
    LookupNone(es[..i], 2 * v + 1);
    PagesAreMapped(es[..i], 2 * v);
    PagesAreMapped(es[..i], 2 * v + 1);
  }

  /** What the child sees: the same pages with the same bytes and write bits, in frames shared with nobody. */
  lemma ChildIsACopy(child: seq<Entry>, parent: seq<Entry>, before: seq<Page>, memory: seq<Page>, out: set<nat>,
                     fresh': set<nat>, q: nat)
    requires DistinctPairs(parent) && Copied(child, parent, PagesOf(parent), before, memory, fresh')
    requires Backed(parent, out, |before|) && out !! fresh' && OldPagesKept(before, memory, fresh')
    ensures Lookup(child, q).Some? <==> Lookup(parent, q).Some?
    ensures Lookup(parent, q).Some? ==>
      && Lookup(child, q).value.number < |memory| && Lookup(parent, q).value.number < |memory|
      && Lookup(child, q).value.writable == Lookup(parent, q).value.writable
      && memory[Lookup(child, q).value.number] == memory[Lookup(parent, q).value.number]
      && (forall p :: Lookup(parent, p).Some? ==> Lookup(parent, p).value.number != Lookup(child, q).value.number)
  {
    PagesAreMapped(parent, q);
  }
}
