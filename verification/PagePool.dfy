/**
 The pool of physical pages: one bit per page and a counter of free pages. Pages below
 `staticEnd` belong to the kernel image and its permanent allocations.
 */
module PagePool {
  import opened Bitmap

  const PAGE_SIZE := 4096

  /** What the pool's bits mean: static pages and pages handed out are set, all others clear. */
  ghost predicate Accounts(bits: seq<bool>, staticEnd: nat, out: set<nat>) {
    && (forall p :: 0 <= p < |bits| ==> (bits[p] <==> p < staticEnd || p in out))
    && (forall p :: p in out ==> staticEnd <= p < |bits|)
  }

  class Pool {
    const bitmap: array<Word>
    const numPages: nat
    const staticEnd: nat
    var numFree: int
    ghost var out: set<nat>  // pages handed out and not yet given back

    ghost function PageBits(): seq<bool>
      requires numPages <= 32 * bitmap.Length
      reads bitmap
    {
      Bits(bitmap[..])[..numPages]
    }

    ghost predicate Valid()
      reads this, bitmap
    {
      && 0 < staticEnd <= numPages <= 0x10_0000 && bitmap.Length == WordsFor(numPages)
      && numFree == CountClear(PageBits())
      && Accounts(PageBits(), staticEnd, out)
    }

    /** pagepool_init, given the number of pages and how many of them the kernel keeps. */
    constructor (pages: nat, reserved: nat)
      requires 0 < reserved <= pages <= 0x10_0000
      ensures Valid() && numPages == pages && staticEnd == reserved && out == {}
      ensures fresh(bitmap)
    {
      numPages, staticEnd := pages, reserved;
      numFree := pages - reserved;
      out := {};
      bitmap := new Word[WordsFor(pages)];
      new;
      ReserveStatic(bitmap, pages, reserved);
    }

    /** pagepool_get_phys_page: the address of the lowest free page, or 0 if there is none. */
    method GetPhysPage() returns (addr: nat)
      requires Valid()
      modifies this`numFree, this`out, bitmap
      ensures Valid()
      ensures addr == 0 <==> old(numFree) == 0
      ensures addr == 0 ==> out == old(out) && numFree == old(numFree) && bitmap[..] == old(bitmap[..])
      ensures addr != 0 ==>
        && addr % PAGE_SIZE == 0 && staticEnd <= addr / PAGE_SIZE < numPages
        && addr / PAGE_SIZE !in old(out) && out == old(out) + {addr / PAGE_SIZE}
        && numFree == old(numFree) - 1
        && (forall p :: staticEnd <= p < addr / PAGE_SIZE ==> p in old(out))
    {
      if numFree > 0 {
        var i := TakePage();
        PageAddress(i);
        return i * PAGE_SIZE;
      } else {
        return 0;
      }
    }

    /** The search and the counter update; the counter promises that the search succeeds. */
    method TakePage() returns (i: int)
      requires Valid() && numFree > 0
      modifies this`numFree, this`out, bitmap
      ensures Valid() && staticEnd <= i < numPages
      ensures i !in old(out) && out == old(out) + {i} && numFree == old(numFree) - 1
      ensures forall p :: staticEnd <= p < i ==> p in old(out)
    {
      ghost var bits := PageBits();
      CountClearZero(bits);
      i := FindNSet(bitmap, numPages);
      numFree := numFree - 1;
      assert i >= 0 && numFree >= 0;
      TakenAccounts(bits, staticEnd, out, i);
      assert PageBits() == bits[i := true];
      out := out + {i};
    }

    /** pagepool_free_phys_page on a page that was handed out. */
    method FreePhysPage(addr: nat)
      requires Valid() && addr / PAGE_SIZE in out
      modifies this`numFree, this`out, bitmap
      ensures Valid()
      ensures out == old(out) - {addr / PAGE_SIZE} && numFree == old(numFree) + 1
    {
      var i := addr / PAGE_SIZE;
      assert i >= staticEnd;
      ghost var bits := PageBits();
      var bit := Get(bitmap, i);
      assert bit;
      Set(bitmap, i, false);
      FreedAccounts(bits, staticEnd, out, i);
      assert PageBits() == bits[i := false];
      numFree := numFree + 1;
      out := out - {i};
    }
  }

  lemma PageAddress(i: nat)
    ensures (i * PAGE_SIZE) / PAGE_SIZE == i && (i * PAGE_SIZE) % PAGE_SIZE == 0
  {
  }

  /** Handing out the first page whose bit is clear. */
  lemma TakenAccounts(bits: seq<bool>, staticEnd: nat, out: set<nat>, i: nat)
    requires Accounts(bits, staticEnd, out) && i == FirstClear(bits)
    ensures Accounts(bits[i := true], staticEnd, out + {i}) && staticEnd <= i && i !in out
    ensures CountClear(bits[i := true]) == CountClear(bits) - 1
    ensures forall p :: staticEnd <= p < i ==> p in out
  {
    CountClearUpdate(bits, i, true);
  }

  lemma FreedAccounts(bits: seq<bool>, staticEnd: nat, out: set<nat>, i: nat)
    requires Accounts(bits, staticEnd, out) && i in out
    ensures Accounts(bits[i := false], staticEnd, out - {i}) && CountClear(bits[i := false]) == CountClear(bits) + 1
  {
    CountClearUpdate(bits, i, false);
  }

  /** Clears the bitmap and marks the kernel's own pages. */
  method ReserveStatic(bitmap: array<Word>, pages: nat, reserved: nat)
    requires reserved <= pages && bitmap.Length == WordsFor(pages)
    modifies bitmap
    ensures forall p :: 0 <= p < pages ==> (Bits(bitmap[..])[p] <==> p < reserved)
    ensures CountClear(Bits(bitmap[..])[..pages]) == pages - reserved
  {
    Init(bitmap, pages);
    CountAllClear(Bits(bitmap[..])[..pages]);
    for i := 0 to reserved
      invariant forall p :: 0 <= p < pages ==> (Bits(bitmap[..])[p] <==> p < i)
      invariant CountClear(Bits(bitmap[..])[..pages]) == pages - i
    {
      ghost var bits := Bits(bitmap[..])[..pages];
      Set(bitmap, i, true);
      assert Bits(bitmap[..])[..pages] == bits[i := true];
      CountClearUpdate(bits, i, true);
    }
  }

  lemma {:induction false} CountAllClear(bits: seq<bool>)
    requires forall p :: 0 <= p < |bits| ==> !bits[p]
    ensures CountClear(bits) == |bits|
  {
    if bits != [] {
      CountAllClear(bits[..|bits| - 1]);
    }
  }
}
