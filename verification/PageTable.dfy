/**
 Page tables with paired entries: one entry maps an even page and the odd page behind it,
 each with its own frame, write-enable bit and valid bit. The table stands for a partial map
 from virtual pages to frames.
 */
module PageTable {
  import PagePool

  const ENTRIES := 340

  datatype Half = Half(pfn: nat, dirty: bool, valid: bool)

  datatype Entry = Entry(vpn2: nat, even: Half, odd: Half)

  datatype Frame = Frame(number: nat, writable: bool)

  datatype Option<T> = None | Some(value: T)

  function PageOf(vaddr: nat): nat {
    vaddr / PagePool.PAGE_SIZE
  }

  function HalfFor(e: Entry, page: nat): Half {
    if page % 2 == 0 then e.even else e.odd
  }

  ghost function FrameOf(h: Half): Option<Frame> {
    if h.valid then Some(Frame(h.pfn, h.dirty)) else None
  }

  /** The frame a sequence of entries maps `page` to. */
  ghost function Lookup(es: seq<Entry>, page: nat): Option<Frame> {
    if es == [] then None
    else
      var last := es[|es| - 1];
      if last.vpn2 == page / 2 then FrameOf(HalfFor(last, page)) else Lookup(es[..|es| - 1], page)
  }

  /** No two entries map the same pair of pages. */
  ghost predicate DistinctPairs(es: seq<Entry>) {
    forall i, j :: 0 <= i < j < |es| ==> es[i].vpn2 != es[j].vpn2
  }

  ghost predicate HasPair(es: seq<Entry>, vpn2: nat) {
    exists i :: 0 <= i < |es| && es[i].vpn2 == vpn2
  }

  lemma {:induction false} LookupAt(es: seq<Entry>, i: nat, page: nat)
    requires DistinctPairs(es) && i < |es| && es[i].vpn2 == page / 2
    ensures Lookup(es, page) == FrameOf(HalfFor(es[i], page))
  {
    var n := |es| - 1;
    if i < n {
      assert es[..n][i] == es[i];
      LookupAt(es[..n], i, page);
    }
  }

  lemma {:induction false} LookupNone(es: seq<Entry>, page: nat)
    requires !HasPair(es, page / 2)
    ensures Lookup(es, page) == None
  {
    if es != [] {
      var n := |es| - 1;
      assert es[n].vpn2 != page / 2;
      forall i | 0 <= i < n
        ensures es[..n][i].vpn2 != page / 2
      {
        assert es[i].vpn2 != page / 2;
      }
      LookupNone(es[..n], page);
    }
  }

  /** Rewriting one entry's half changes what one page maps to and nothing else. */
  lemma LookupUpdate(es: seq<Entry>, i: nat, e: Entry, page: nat, q: nat)
    requires DistinctPairs(es) && i < |es| && es[i].vpn2 == e.vpn2 == page / 2
    requires HalfFor(e, page + 1) == HalfFor(es[i], page + 1)
    ensures DistinctPairs(es[i := e])
    ensures Lookup(es[i := e], q) == if q == page then FrameOf(HalfFor(e, page)) else Lookup(es, q)
  {
    var es' := es[i := e];
    if q / 2 == e.vpn2 {
      LookupAt(es, i, q);
      LookupAt(es', i, q);
    } else {
      LookupSameElsewhere(es, es', i, q);
    }
  }

  lemma {:induction false} LookupSameElsewhere(es: seq<Entry>, es': seq<Entry>, i: nat, q: nat)
    requires |es| == |es'| && i < |es| && es' == es[i := es'[i]] && es'[i].vpn2 == es[i].vpn2 != q / 2
    ensures Lookup(es', q) == Lookup(es, q)
  {
    var n := |es| - 1;
    if i < n {
      assert es'[..n] == es[..n][i := es'[i]];
      LookupSameElsewhere(es[..n], es'[..n], i, q);
    } else {
      assert es'[..n] == es[..n];
    }
  }

  /** What the TLB miss handler does with the faulting address. */
  datatype Miss = Load(index: nat) | InvalidHalf(index: nat) | NoEntry

  class Table {
    const entries: array<Entry>
    var validCount: nat

    ghost predicate Valid()
      reads this, entries
    {
      && entries.Length == ENTRIES && validCount <= ENTRIES
      && DistinctPairs(entries[..validCount])
    }

    /** The frame that virtual page `page` is mapped to. */
    ghost function Mapped(page: nat): Option<Frame>
      requires validCount <= entries.Length
      reads this, entries
    {
      Lookup(entries[..validCount], page)
    }

    /** vm_create_pagetable, once it has a page for the table; the memory is not cleared. */
    constructor (garbage: Entry)
      ensures Valid() && validCount == 0 && fresh(entries)
      ensures forall q :: Mapped(q) == None
    {
      entries := new Entry[ENTRIES](_ => garbage);
      validCount := 0;
    }

    /** The search shared by vm_map, vm_set_dirty and the TLB miss handler. */
    method Find(vpn2: nat) returns (i: nat)
      requires Valid()
      ensures i <= validCount
      ensures i < validCount ==> entries[i].vpn2 == vpn2
      ensures i == validCount <==> !HasPair(entries[..validCount], vpn2)
    {
      i := 0;
      while i < validCount
        invariant 0 <= i <= validCount
        invariant forall k :: 0 <= k < i ==> entries[k].vpn2 != vpn2
      {
        if entries[i].vpn2 == vpn2 {
          assert entries[..validCount][i].vpn2 == vpn2;
          return;
        }
        i := i + 1;
      }
    }

    /** Writes one half of entry `i`. */
    method SetHalf(i: nat, page: nat, h: Half)
      requires Valid() && i < validCount && entries[i].vpn2 == page / 2
      modifies entries
      ensures Valid()
      ensures forall q :: Mapped(q) == if q == page then FrameOf(h) else old(Mapped(q))
      ensures forall k :: 0 <= k < validCount ==> entries[k].vpn2 == old(entries[k].vpn2)
    {
      ghost var es := entries[..validCount];
      var e := entries[i];
      var e' := if page % 2 == 0 then e.(even := h) else e.(odd := h);
      entries[i] := e';
      assert entries[..validCount] == es[i := e'];
      forall q: nat
        ensures Mapped(q) == if q == page then FrameOf(h) else Lookup(es, q)
      {
        LookupUpdate(es, i, e', page, q);
      }
      LookupUpdate(es, i, e', page, page);
    }

    /** Adds an entry with one valid half at the end. */
    method AddEntry(page: nat, h: Half)
      requires Valid() && validCount < ENTRIES && h.valid && !HasPair(entries[..validCount], page / 2)
      modifies this`validCount, entries
      ensures Valid() && validCount == old(validCount) + 1
      ensures forall q :: Mapped(q) == if q == page then FrameOf(h) else old(Mapped(q))
      ensures entries[..old(validCount)] == old(entries[..validCount]) && entries[old(validCount)].vpn2 == page / 2
    {
      ghost var es := entries[..validCount];
      var old' := entries[validCount];
      var e := if page % 2 == 0 then Entry(page / 2, h, old'.odd.(valid := false))
               else Entry(page / 2, old'.even.(valid := false), h);
      entries[validCount] := e;
      validCount := validCount + 1;
      assert entries[..validCount] == es + [e];
      forall i | 0 <= i < |es|
        ensures es[i].vpn2 != e.vpn2
      {
      }
      forall q: nat
        ensures Mapped(q) == if q == page then FrameOf(h) else Lookup(es, q)
      {
        assert (es + [e])[..|es|] == es;
        if q / 2 == page / 2 {
          LookupNone(es, q);
        }
      }
    }

    /** vm_map; `ok` is false where the kernel panics, and then nothing has changed. */
    method Map(physaddr: nat, vaddr: nat, dirty: bool) returns (ok: bool)
      requires Valid()
      modifies this`validCount, entries
      ensures Valid()
      ensures ok <==> old(Mapped(PageOf(vaddr))) == None &&
                      (old(validCount) < ENTRIES || HasPair(old(entries[..validCount]), PageOf(vaddr) / 2))
      ensures ok ==> forall q :: Mapped(q) == (if q == PageOf(vaddr)
                                               then Some(Frame(physaddr / PagePool.PAGE_SIZE, dirty))
                                               else old(Mapped(q)))
      ensures ok && HasPair(old(entries[..validCount]), PageOf(vaddr) / 2) ==> validCount == old(validCount)
      ensures ok && !HasPair(old(entries[..validCount]), PageOf(vaddr) / 2) ==> validCount == old(validCount) + 1
      ensures ok ==> forall v :: HasPair(entries[..validCount], v) ==>
        HasPair(old(entries[..validCount]), v) || v == PageOf(vaddr) / 2
      ensures ok ==> HasPair(entries[..validCount], PageOf(vaddr) / 2)
      ensures !ok ==> validCount == old(validCount) && entries[..] == old(entries[..])
    {
      var page := PageOf(vaddr);
      var h := Half(physaddr / PagePool.PAGE_SIZE, dirty, true);
      var i := Find(page / 2);
      if i < validCount {
        LookupAt(entries[..validCount], i, page);
        if HalfFor(entries[i], page).valid {
          return false;
        }
        SetHalf(i, page, h);
        return true;
      }
      LookupNone(entries[..validCount], page);
      if validCount >= ENTRIES {
        return false;
      }
      AddEntry(page, h);
      return true;
    }

    /** vm_set_dirty; `ok` is false where the kernel panics, and then nothing has changed. */
    method SetDirty(vaddr: nat, dirty: bool) returns (ok: bool)
      requires Valid()
      modifies entries
      ensures Valid()
      ensures ok <==> old(Mapped(PageOf(vaddr))) != None
      ensures ok ==> forall q :: Mapped(q) == (if q == PageOf(vaddr) then Some(old(Mapped(q)).value.(writable := dirty))
                                               else old(Mapped(q)))
      ensures !ok ==> entries[..] == old(entries[..])
    {
      var page := PageOf(vaddr);
      var i := Find(page / 2);
      if i < validCount {
        LookupAt(entries[..validCount], i, page);
        var h := HalfFor(entries[i], page);
        if !h.valid {
          return false;
        }
        SetHalf(i, page, h.(dirty := dirty));
        return true;
      }
      LookupNone(entries[..validCount], page);
      return false;
    }

    /** The scan of tlb_access_exception: which entry it loads for the faulting address. */
    method OnMiss(badvaddr: nat) returns (m: Miss)
      requires Valid()
      ensures m.Load? <==> Mapped(PageOf(badvaddr)) != None
      ensures m.Load? ==>
        && m.index < validCount && entries[m.index].vpn2 == PageOf(badvaddr) / 2
        && Mapped(PageOf(badvaddr)) == FrameOf(HalfFor(entries[m.index], PageOf(badvaddr)))
      ensures m.NoEntry? <==> !HasPair(entries[..validCount], PageOf(badvaddr) / 2)
    {
      var page := PageOf(badvaddr);
      var i := Find(page / 2);
      if i < validCount {
        LookupAt(entries[..validCount], i, page);
        return if HalfFor(entries[i], page).valid then Load(i) else InvalidHalf(i);
      }
      LookupNone(entries[..validCount], page);
      return NoEntry;
    }
  }
}
