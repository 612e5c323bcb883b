/** Segment allocation of sqMacMemory.c on a 64-bit system, over an arbitrary mmap. */
module SegmentMemory {
  import opened Division

  const ADDRESSES := 0x1_0000_0000_0000_0000
  const MASK_SPAN := 0x1_0000_0000
  /** (void *) -1 */
  const MAP_FAILED := 0xFFFF_FFFF_FFFF_FFFF

  /** A power of two that fits an int. */
  ghost predicate PageSize(p: int) { 0 < p < 0x8000_0000 && exists k: nat :: k <= 32 && p == Power(k) }

  /** The 64-bit two's complement of x. */
  function Bits64(x: int): nat { x % ADDRESSES }

  /** x & y, bit by bit. */
  function BitAnd(x: nat, y: nat): nat {
    if x == 0 || y == 0 then 0 else 2 * BitAnd(x / 2, y / 2) + (x % 2) * (y % 2)
  }

  /** x & pageMask. The 32-bit ~(pageSize - 1), widened without its sign, is 2^32 - pageSize. */
  function AndPageMask(x: nat, pageSize: nat): nat
    requires pageSize <= MASK_SPAN
  {
    BitAnd(x, MASK_SPAN - pageSize)
  }

  /** The n low bits of x. */
  function LowBits(x: nat, n: nat): nat { if n == 0 then 0 else 2 * LowBits(x / 2, n - 1) + x % 2 }

  lemma HalfRemainder(x: nat, p: nat, twice: nat)
    requires p > 0 && twice == 2 * p
    ensures x % twice == 2 * ((x / 2) % p) + x % 2
  {
    var q, r := (x / 2) / p, (x / 2) % p;
    assert x / 2 == q * p + r;
    assert q * twice == 2 * (q * p);
    DivisionUnique(x, twice, q, 2 * r + x % 2);
  }

  lemma {:induction false} LowBitsAreRemainder(x: nat, n: nat)
    ensures LowBits(x, n) == x % Power(n)
  {
    if n > 0 {
      LowBitsAreRemainder(x / 2, n - 1);
      HalfRemainder(x, Power(n - 1), Power(n));
    }
  }

  lemma AndEven(x: nat, h: nat)
    ensures BitAnd(x, 2 * h) == 2 * BitAnd(x / 2, h)
  {
    assert (2 * h) / 2 == h && (2 * h) % 2 == 0;
  }

  lemma AndOdd(x: nat, h: nat)
    ensures BitAnd(x, 2 * h + 1) == 2 * BitAnd(x / 2, h) + x % 2
  {
    assert (2 * h + 1) / 2 == h && (2 * h + 1) % 2 == 1;
  }

  /** Masking with 2^n - 1 keeps the n low bits. */
  lemma {:induction false} AndLowBits(x: nat, n: nat)
    ensures BitAnd(x, Power(n) - 1) == LowBits(x, n)
  {
    if n > 0 {
      AndLowBits(x / 2, n - 1);
      AndOdd(x, Power(n - 1) - 1);
    }
  }

  /** Masking with 2^n - 2^k keeps bits k to n - 1. */
  lemma {:induction false} AndBitsBetween(x: nat, k: nat, n: nat)
    requires k <= n
    ensures Power(k) <= Power(n)
    ensures BitAnd(x, Power(n) - Power(k)) == LowBits(x, n) - LowBits(x, k)
    decreases k
  {
    if k == 0 {
      AndLowBits(x, n);
    } else {
      AndBitsBetween(x / 2, k - 1, n - 1);
      AndEven(x, Power(n - 1) - Power(k - 1));
    }
  }

  lemma {:induction false} PowerAdd(j: nat, k: nat)
    ensures Power(j + k) == Power(j) * Power(k)
  {
    if j > 0 {
      PowerAdd(j - 1, k);
      assert Power(j + k) == 2 * Power(j - 1 + k);
    }
  }

  lemma MaskSpanIsPower()
    ensures Power(32) == MASK_SPAN
  {
    assert Power(8) == 256;
    PowerAdd(8, 8);
    PowerAdd(16, 16);
  }

  lemma PageSizeDivides(p: nat)
    requires PageSize(p)
    ensures MASK_SPAN % p == 0
  {
    var k: nat :| k <= 32 && p == Power(k);
    MaskSpanIsPower();
    PowerAdd(32 - k, k);
    DivisionUnique(MASK_SPAN, p, Power(32 - k), 0);
  }

  /** The mask takes the offset in the page off the low half. */
  lemma AndPageMaskExact(x: nat, p: nat)
    requires PageSize(p)
    ensures AndPageMask(x, p) == x % MASK_SPAN - x % p
  {
    var k: nat :| k <= 32 && p == Power(k);
    MaskSpanIsPower();
    AndBitsBetween(x, k, 32);
    LowBitsAreRemainder(x, 32);
    LowBitsAreRemainder(x, k);
  }

  function RoundUpToPage(v: int, pageSize: nat): int
    requires pageSize <= MASK_SPAN
  {
    AndPageMask(Bits64(v + pageSize - 1), pageSize)
  }

  /** Splits x by 2^32 and by the page size, which divides it. */
  lemma Split(a: nat, k: nat, p: nat, c: nat, d: nat)
    requires p * c + d < p * k && d < p
    ensures (p * k * a + (p * c + d)) % p == d && 0 <= p * c <= p * k - p
  {
    var q := k * a + c;
    assert p * k * a + (p * c + d) == q * p + d by {
      assert p * k * a == p * (k * a);
      assert p * (k * a + c) == p * (k * a) + p * c;
    }
    DivisionUnique(p * k * a + (p * c + d), p, q, d);
    Multiple(c - k, p);
    assert (c - k) * p == p * c - p * k;
  }

  lemma PageDivides(b: nat, p: nat)
    requires p > 0 && MASK_SPAN % p == 0
    ensures p * (MASK_SPAN / p) == MASK_SPAN
    ensures p * (b / p) + b % p == b
  {
  }

  lemma MultipleOf(p: nat, c: nat)
    requires p > 0
    ensures (p * c) % p == 0
  {
    DivisionUnique(p * c, p, c, 0);
  }

  lemma MultipleBelow(x: nat, p: nat)
    requires p > 0 && MASK_SPAN % p == 0
    ensures 0 <= x % MASK_SPAN - x % p <= MASK_SPAN - p && (x % MASK_SPAN - x % p) % p == 0
  {
    var k, a, b := MASK_SPAN / p, x / MASK_SPAN, x % MASK_SPAN;
    var c, d := b / p, b % p;
    PageDivides(b, p);
    Split(a, k, p, c, d);
    MultipleOf(p, c);
  }

  /** What the mask leaves is a multiple of the page size within its reach. */
  lemma MaskedMultiple(x: nat, p: nat)
    requires PageSize(p)
    ensures 0 <= AndPageMask(x, p) <= MASK_SPAN - p && AndPageMask(x, p) % p == 0
  {
    PageSizeDivides(p);
    MultipleBelow(x, p);
    AndPageMaskExact(x, p);
  }

  lemma InReach(x: nat, p: nat)
    requires 0 < p && x < MASK_SPAN
    ensures Bits64(x) == x && x - p < x % MASK_SPAN - x % p <= x
  {
    assert 0 <= x % p < p;
  }

  /** Rounding up a 64-bit value gives a multiple of the page size below 2^32: the next one if the
      value is no more than the last one, and otherwise one below the value. */
  lemma RoundUpExact(v: nat, p: nat)
    requires PageSize(p) && v < ADDRESSES
    ensures var r := RoundUpToPage(v, p);
            && 0 <= r < MASK_SPAN && r % p == 0
            && (r >= v <==> v <= MASK_SPAN - p)
            && (v <= MASK_SPAN - p ==> r < v + p)
  {
    var x := Bits64(v + p - 1);
    MaskedMultiple(x, p);
    AndPageMaskExact(x, p);
    if v <= MASK_SPAN - p { InReach(v + p - 1, p); }
  }

  /** minAddress after k mappings were rejected. */
  function Raised(minAddress: nat, bytes: int, k: nat): int
  {
    if k == 0 then minAddress else Raised(minAddress, bytes, k - 1) + bytes
  }

  /** Where an mmap call is asked to map, how much, and which call it is; what it gives. */
  type Mmap = (int, int, nat) -> nat

  /** What the mapping asked for after k rejections gives. */
  function Offer(mmap: Mmap, round: int -> int, minAddress: nat, bytes: int, k: nat): nat {
    mmap(round(Raised(minAddress, bytes, k)), bytes, k)
  }

  /** The mappings given back: each was asked for in turn and lay below the address asked for. */
  ghost predicate Rejects(rejected: seq<nat>, mmap: Mmap, round: int -> int, minAddress: nat, bytes: int) {
    rejected == [] ||
    (var k := |rejected| - 1;
     && Rejects(rejected[..k], mmap, round, minAddress, bytes)
     && Raised(minAddress, bytes, k) < ADDRESSES
     && rejected[k] == Offer(mmap, round, minAddress, bytes, k) < Raised(minAddress, bytes, k))
  }

  function Rounding(pageSize: nat): int -> int
    requires pageSize <= MASK_SPAN
  {
    v => RoundUpToPage(v, pageSize)
  }

  class Segments {
    const pageSize: nat
    /** The addresses mmap and munmap calls gave and took back, in order. */
    ghost var mapped: seq<nat>
    ghost var unmapped: seq<nat>

    constructor (pageSize: nat)
      ensures this.pageSize == pageSize && mapped == unmapped == []
    {
      this.pageSize, mapped, unmapped := pageSize, [], [];
    }

    /** The loop: every mapping below the address asked for is given back, and the address asked for
        then rises by its size, to the end of the address space at most. */
    method MapAbove(bytes: int, start: nat, round: int -> int, mmap: Mmap)
      returns (alloc: nat, ghost rejected: seq<nat>, ghost failed: bool)
      requires 0 <= bytes < ADDRESSES && start < ADDRESSES
      modifies this
      ensures unmapped == old(unmapped) + rejected && Rejects(rejected, mmap, round, start, bytes)
      ensures alloc != 0 ==> bytes > 0 && alloc >= Raised(start, bytes, |rejected|)
      ensures alloc != 0 ==>
                && mapped == old(mapped) + rejected + [alloc]
                && alloc == Offer(mmap, round, start, bytes, |rejected|)
      ensures alloc == 0 && start > 0 ==> mapped == old(mapped) + rejected
      ensures alloc == 0 && start > 0 && !failed ==>
                bytes == 0 || Raised(start, bytes, |rejected| + 1) >= ADDRESSES
      ensures failed ==> alloc == 0 && Offer(mmap, round, start, bytes, |rejected|) == MAP_FAILED
    {
      rejected, failed := [], false;
      var minAddress, n := start, 0;
      while Bits64(minAddress + bytes) > minAddress
        invariant n == |rejected| && start <= minAddress == Raised(start, bytes, n) < ADDRESSES
        invariant unmapped == old(unmapped) + rejected && mapped == old(mapped) + rejected
        invariant Rejects(rejected, mmap, round, start, bytes)
        decreases ADDRESSES - minAddress
      {
        alloc := mmap(round(minAddress), bytes, n);
        if alloc == MAP_FAILED {
          failed := true;
          return 0, rejected, failed;
        }
        mapped := mapped + [alloc];
        if alloc >= minAddress {
          return;
        }
        unmapped, rejected := unmapped + [alloc], rejected + [alloc];
        assert rejected[..|rejected| - 1] == rejected[..n];
        minAddress, n := minAddress + bytes, n + 1;
      }
      alloc := 0;
    }

    /** Allocates at or above minAddress. Unless it answers null the one mapping kept starts there; a
        null answer keeps none, and means that mmap failed, that the rounded size is zero, or that
        the address space above minAddress ran out. */
    method SqAllocateMemorySegmentOfSizeAboveAllocatedSizeInto(size: int, minAddress: nat, mmap: Mmap)
      returns (alloc: nat, allocatedSize: int, ghost rejected: seq<nat>)
      requires PageSize(pageSize) && minAddress < ADDRESSES
      modifies this
      ensures allocatedSize == Rounding(pageSize)(size)
      ensures unmapped == old(unmapped) + rejected
      ensures Rejects(rejected, mmap, Rounding(pageSize), minAddress, allocatedSize)
      ensures 0 <= size <= 0x1_0000_0000 - pageSize ==>
                size <= allocatedSize < size + pageSize && allocatedSize % pageSize == 0
      ensures alloc != 0 ==>
                && alloc >= Raised(minAddress, allocatedSize, |rejected|) >= minAddress && allocatedSize > 0
                && mapped == old(mapped) + rejected + [alloc]
                && alloc == Offer(mmap, Rounding(pageSize), minAddress, allocatedSize, |rejected|)
      ensures alloc == 0 && minAddress > 0 ==>
                && mapped == old(mapped) + rejected
                && (|| Offer(mmap, Rounding(pageSize), minAddress, allocatedSize, |rejected|) == MAP_FAILED
                    || allocatedSize == 0
                    || Raised(minAddress, allocatedSize, |rejected| + 1) >= ADDRESSES)
    {
      allocatedSize := Rounding(pageSize)(size);
      assert 0 <= size <= MASK_SPAN - pageSize ==>
          size <= allocatedSize < size + pageSize && allocatedSize % pageSize == 0 by {
        if 0 <= size <= MASK_SPAN - pageSize { RoundUpExact(size, pageSize); }
      }
      assert 0 <= allocatedSize < ADDRESSES by { MaskedMultiple(Bits64(size + pageSize - 1), pageSize); }
      ghost var failed;
      alloc, rejected, failed := MapAbove(allocatedSize, minAddress, Rounding(pageSize), mmap);
      RaisedAbove(minAddress, allocatedSize, |rejected|);
    }
  }

  lemma {:induction false} RaisedAbove(minAddress: nat, bytes: int, k: nat)
    requires bytes >= 0
    ensures Raised(minAddress, bytes, k) == minAddress + k * bytes >= minAddress
  {
    if k > 0 { RaisedAbove(minAddress, bytes, k - 1); }
  }

  /** In plain terms: the k-th mapping given back is what mmap gave, asked for the k-th time, for the
      minimum raised k times by the size and rounded up, and lies below that. */
  lemma {:induction false} RejectsEach(rejected: seq<nat>, mmap: Mmap, round: int -> int, minAddress: nat, bytes: int,
                                       k: nat)
    requires bytes >= 0 && k < |rejected| && Rejects(rejected, mmap, round, minAddress, bytes)
    ensures rejected[k] == mmap(round(minAddress + k * bytes), bytes, k) < minAddress + k * bytes < ADDRESSES
  {
    RaisedAbove(minAddress, bytes, k);
    if k < |rejected| - 1 { RejectsEach(rejected[..|rejected| - 1], mmap, round, minAddress, bytes, k); }
  }

  lemma OfferIs(mmap: Mmap, round: int -> int, minAddress: nat, bytes: int, k: nat)
    requires bytes >= 0
    ensures Offer(mmap, round, minAddress, bytes, k) == mmap(round(minAddress + k * bytes), bytes, k)
  {
    RaisedAbove(minAddress, bytes, k);
  }

  /** The rounding in use is rounding up: the least multiple of the page size not below the value, as far
      as the mask reaches. */
  lemma RoundingIs(pageSize: nat, v: nat)
    requires PageSize(pageSize) && v <= 0x1_0000_0000 - pageSize
    ensures v <= Rounding(pageSize)(v) < v + pageSize && Rounding(pageSize)(v) % pageSize == 0
  {
    RoundUpExact(v, pageSize);
  }
}
