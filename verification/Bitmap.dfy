/**
 Bitmaps stored in 32-bit words. The kernel's search for a clear bit skips full words and
 then tests single bits; the host tool's search tests every bit. Both are specified by the
 position of the first clear bit.
 */
module Bitmap {
  import opened Shifts

  type Word = w: nat | w < 0x1_0000_0000

  const FULL: Word := 0xffff_ffff

  /** Bit `j` of a word: `(w >> j) & 1`. */
  function WordBit(w: nat, j: nat): bool {
    ShiftRight(w, j) % 2 == 1
  }

  /** `w | (1 << j)` or `w & ~(1 << j)`: the power of two comes in or goes out unless it is there already. */
  function SetWordBit(w: Word, j: nat, value: bool): Word
    requires j < 32
  {
    PowerOfWidth();
    BitFits(w, 32, j);
    if WordBit(w, j) == value then w else if value then w + Pow2(j) else w - Pow2(j)
  }

  // ---------- Words and bits ----------

  lemma PowerOfWidth()
    ensures Pow2(32) == 0x1_0000_0000
  {
    assert Pow2(8) == 256;
    assert Pow2(16) == 65536 by {
      assert Pow2(12) == 4096;
    }
    assert Pow2(24) == 0x100_0000 by {
      assert Pow2(20) == 0x10_0000;
    }
    assert Pow2(28) == 0x1000_0000;
  }

  /** A bit that is set contributes its power of two; one that is clear leaves room for it. */
  lemma {:induction false} BitFits(w: nat, n: nat, j: nat)
    requires w < Pow2(n) && j < n
    ensures WordBit(w, j) ==> w >= Pow2(j)
    ensures !WordBit(w, j) ==> w + Pow2(j) < Pow2(n)
  {
    if j > 0 {
      BitFits(w / 2, n - 1, j - 1);
      ShiftRightHalf(w, j - 1);
    }
  }

  /** Adding the power of two of a clear bit sets that bit and no other. */
  lemma {:induction false} BitAfterAdd(w: nat, j: nat, k: nat)
    requires !WordBit(w, j)
    ensures WordBit(w + Pow2(j), k) == (k == j || WordBit(w, k))
  {
    if j == 0 {
      if k > 0 {
        ShiftRightHalf(w, k - 1);
        ShiftRightHalf(w + 1, k - 1);
        assert (w + 1) / 2 == w / 2;
      }
    } else {
      ShiftRightHalf(w, j - 1);
      assert (w + Pow2(j)) / 2 == w / 2 + Pow2(j - 1);
      if k > 0 {
        BitAfterAdd(w / 2, j - 1, k - 1);
        ShiftRightHalf(w, k - 1);
        ShiftRightHalf(w + Pow2(j), k - 1);
      }
    }
  }

  lemma {:induction false} SubtractClears(w: nat, j: nat)
    requires WordBit(w, j)
    ensures w >= Pow2(j) && !WordBit(w - Pow2(j), j)
  {
    if j > 0 {
      ShiftRightHalf(w, j - 1);
      SubtractClears(w / 2, j - 1);
      assert (w - Pow2(j)) / 2 == w / 2 - Pow2(j - 1);
      ShiftRightHalf(w - Pow2(j), j - 1);
    }
  }

  lemma WordBitAfterSet(w: Word, j: nat, k: nat, value: bool)
    requires j < 32
    ensures WordBit(SetWordBit(w, j, value), k) == if k == j then value else WordBit(w, k)
  {
    if WordBit(w, j) != value {
      if value {
        BitAfterAdd(w, j, k);
      } else {
        SubtractClears(w, j);
        BitAfterAdd(w - Pow2(j), j, k);
      }
    }
  }

  /** A number below 2^n with all its n bits set is 2^n - 1. */
  lemma {:induction false} AllBitsSet(w: nat, n: nat)
    requires w < Pow2(n) && forall j :: 0 <= j < n ==> WordBit(w, j)
    ensures w == Pow2(n) - 1
  {
    if n > 0 {
      forall j | 0 <= j < n - 1
        ensures WordBit(w / 2, j)
      {
        ShiftRightHalf(w, j);
        assert WordBit(w, j + 1);
      }
      AllBitsSet(w / 2, n - 1);
      assert WordBit(w, 0);
    }
  }

  /** A word other than the full one has a clear bit. */
  lemma ClearBitExists(w: Word) returns (c: nat)
    requires w != FULL
    ensures c < 32 && !WordBit(w, c)
  {
    PowerOfWidth();
    if forall j :: 0 <= j < 32 ==> WordBit(w, j) {
      AllBitsSet(w, 32);
    }
    c :| 0 <= c < 32 && !WordBit(w, c);
  }

  lemma {:induction false} FullWord(n: nat, j: nat)
    requires j < n
    ensures WordBit(Pow2(n) - 1, j)
  {
    assert (Pow2(n) - 1) / 2 == Pow2(n - 1) - 1;
    if j > 0 {
      FullWord(n - 1, j - 1);
      ShiftRightHalf(Pow2(n) - 1, j - 1);
    }
  }

  lemma {:induction false} ZeroWord(j: nat)
    ensures ShiftRight(0, j) == 0
  {
    if j > 0 {
      ZeroWord(j - 1);
    }
  }

  /** The bits of all words, in order of position. */
  ghost function Bits(words: seq<Word>): (b: seq<bool>)
    ensures |b| == 32 * |words|
  {
    seq(32 * |words|, p requires 0 <= p < 32 * |words| => WordBit(words[p / 32], p % 32))
  }

  lemma BitsAfterSet(words: seq<Word>, pos: nat, value: bool)
    requires pos < 32 * |words|
    ensures Bits(words[pos / 32 := SetWordBit(words[pos / 32], pos % 32, value)]) == Bits(words)[pos := value]
  {
    var words' := words[pos / 32 := SetWordBit(words[pos / 32], pos % 32, value)];
    forall p | 0 <= p < 32 * |words|
      ensures Bits(words')[p] == Bits(words)[pos := value][p]
    {
      WordBitAfterSet(words[pos / 32], pos % 32, p % 32, value);
    }
  }

  // ---------- The first clear bit ----------

  /** The position of the first clear bit, or -1. */
  ghost function FirstClear(bits: seq<bool>): (r: int)
    ensures -1 <= r < |bits|
    ensures r >= 0 ==> !bits[r] && forall i :: 0 <= i < r ==> bits[i]
    ensures r == -1 ==> forall i :: 0 <= i < |bits| ==> bits[i]
  {
    if bits == [] then -1
    else
      var r := FirstClear(bits[..|bits| - 1]);
      if r >= 0 then r else if bits[|bits| - 1] then -1 else |bits| - 1
  }

  lemma FirstClearIs(bits: seq<bool>, p: nat)
    requires p < |bits| && !bits[p] && forall i :: 0 <= i < p ==> bits[i]
    ensures FirstClear(bits) == p
  {
  }

  /** What a search over the first `l` bits leaves behind. */
  ghost function Taken(bits: seq<bool>, l: nat): seq<bool>
    requires l <= |bits|
  {
    var r := FirstClear(bits[..l]);
    if r >= 0 then bits[r := true] else bits
  }

  function WordsFor(l: nat): (r: nat)
    ensures l <= 32 * r < l + 32
  {
    (l + 31) / 32
  }

  method Get(bitmap: array<Word>, pos: nat) returns (bit: bool)
    requires pos < 32 * bitmap.Length
    ensures bit == Bits(bitmap[..])[pos]
  {
    bit := WordBit(bitmap[pos / 32], pos % 32);
  }

  method Set(bitmap: array<Word>, pos: nat, value: bool)
    requires pos < 32 * bitmap.Length
    modifies bitmap
    ensures Bits(bitmap[..]) == old(Bits(bitmap[..]))[pos := value]
  {
    ghost var words := bitmap[..];
    bitmap[pos / 32] := SetWordBit(bitmap[pos / 32], pos % 32, value);
    BitsAfterSet(words, pos, value);
    assert bitmap[..] == words[pos / 32 := SetWordBit(words[pos / 32], pos % 32, value)];
  }

  /** bitmap_init: clears the words that hold `size` bits. */
  method Init(bitmap: array<Word>, size: nat)
    requires WordsFor(size) <= bitmap.Length
    modifies bitmap
    ensures forall p :: 0 <= p < size ==> !Bits(bitmap[..])[p]
    ensures forall k :: WordsFor(size) <= k < bitmap.Length ==> bitmap[k] == old(bitmap[k])
  {
    var i := 0;
    while i < WordsFor(size)
      invariant 0 <= i <= WordsFor(size)
      invariant forall k :: 0 <= k < i ==> bitmap[k] == 0
      invariant forall k :: i <= k < bitmap.Length ==> bitmap[k] == old(bitmap[k])
    {
      bitmap[i] := 0;
      i := i + 1;
    }
    forall p | 0 <= p < size
      ensures !Bits(bitmap[..])[p]
    {
      ZeroWord(p % 32);
      assert bitmap[..][p / 32] == 0;
    }
  }

  /** The kernel's bitmap_findnset: looks at single bits only in words that are not full. */
  method FindNSet(bitmap: array<Word>, l: nat) returns (r: int)
    requires WordsFor(l) <= bitmap.Length
    modifies bitmap
    ensures r == FirstClear(old(Bits(bitmap[..]))[..l])
    ensures Bits(bitmap[..]) == Taken(old(Bits(bitmap[..])), l)
  {
    ghost var bits := Bits(bitmap[..]);
    var i := 0;
    while i < WordsFor(l)
      invariant 0 <= i <= WordsFor(l)
      invariant bits == Bits(bitmap[..])
      invariant forall p :: 0 <= p < 32 * i ==> bits[p]
    {
      if bitmap[i] != FULL {
        r := ScanWord(bitmap, i, l);
        return;
      }
      FullWordBits(bitmap[..], i);
      i := i + 1;
    }
    assert forall p :: 0 <= p < l ==> bits[..l][p];
    return -1;
  }

  lemma FullWordBits(words: seq<Word>, i: nat)
    requires i < |words| && words[i] == FULL
    ensures forall p :: 32 * i <= p < 32 * i + 32 ==> Bits(words)[p]
  {
    PowerOfWidth();
    forall p | 32 * i <= p < 32 * i + 32
      ensures Bits(words)[p]
    {
      FullWord(32, p % 32);
    }
  }

  /** The inner loop of bitmap_findnset, over the bits of word `i`, which is not full. */
  method ScanWord(bitmap: array<Word>, i: nat, l: nat) returns (r: int)
    requires i < WordsFor(l) <= bitmap.Length && bitmap[i] != FULL
    requires forall p :: 0 <= p < 32 * i ==> Bits(bitmap[..])[p]
    modifies bitmap
    ensures r == FirstClear(old(Bits(bitmap[..]))[..l])
    ensures Bits(bitmap[..]) == Taken(old(Bits(bitmap[..])), l)
  {
    ghost var bits := Bits(bitmap[..]);
    ghost var clear := ClearBitExists(bitmap[i]);
    var base := i * 32;
    assert !bits[base + clear] by {
      assert (base + clear) / 32 == i && (base + clear) % 32 == clear;
    }
    var j := 0;
    while j < 32
      invariant 0 <= j <= clear
      invariant bits == Bits(bitmap[..])
      invariant forall p :: 0 <= p < base + j ==> bits[p]
    {
      var bit := Get(bitmap, base + j);
      if !bit {
        if base + j >= l {
          assert forall p :: 0 <= p < l ==> bits[..l][p];
          return -1;
        }
        FirstClearIs(bits[..l], base + j);
        Set(bitmap, base + j, true);
        return base + j;
      }
      j := j + 1;
    }
    assert false;
  }

  /** The host tool's bitmap_findnset: tests every bit in turn. */
  method ScanAll(bitmap: array<Word>, l: nat) returns (r: int)
    requires l <= 32 * bitmap.Length
    modifies bitmap
    ensures r == FirstClear(old(Bits(bitmap[..]))[..l])
    ensures Bits(bitmap[..]) == Taken(old(Bits(bitmap[..])), l)
  {
    ghost var bits := Bits(bitmap[..]);
    var i := 0;
    while i < l
      invariant 0 <= i <= l
      invariant bits == Bits(bitmap[..])
      invariant forall p :: 0 <= p < i ==> bits[p]
    {
      var bit := Get(bitmap, i);
      if !bit {
        FirstClearIs(bits[..l], i);
        Set(bitmap, i, true);
        return i;
      }
      i := i + 1;
    }
    assert forall p :: 0 <= p < l ==> bits[..l][p];
    return -1;
  }

  // ---------- Counting ----------

  ghost function CountClear(bits: seq<bool>): nat {
    if bits == [] then 0
    else CountClear(bits[..|bits| - 1]) + (if bits[|bits| - 1] then 0 else 1)
  }

  lemma {:induction false} CountClearUpdate(bits: seq<bool>, p: nat, value: bool)
    requires p < |bits|
    ensures CountClear(bits[p := value]) ==
            CountClear(bits) + (if bits[p] then 1 else 0) - (if value then 1 else 0)
  {
    var n := |bits| - 1;
    if p < n {
      CountClearUpdate(bits[..n], p, value);
      assert bits[p := value][..n] == bits[..n][p := value];
    } else {
      assert bits[p := value][..n] == bits[..n];
    }
  }

  lemma {:induction false} CountClearZero(bits: seq<bool>)
    ensures CountClear(bits) == 0 <==> FirstClear(bits) == -1
    ensures CountClear(bits) <= |bits|
  {
    if bits != [] {
      CountClearZero(bits[..|bits| - 1]);
    }
  }
}
