/**
 The index arithmetic and the byte arithmetic of sqHeapMap.c, in both layouts. Addresses are
 unsigned, so a right shift is a division and a mask of low ones is a remainder.
 */
module HeapMapBits {
  import opened Division

  // ------------------------------------------------------------------------------- one byte

  function Mask(k: nat): bv8
    requires k < 8
  {
    1 << k
  }

  predicate Test(byte: bv8, k: nat)
    requires k < 8
  {
    byte & Mask(k) != 0
  }

  function SetBit(byte: bv8, k: nat): bv8
    requires k < 8
  {
    byte | Mask(k)
  }

  function ClearBit(byte: bv8, k: nat): bv8
    requires k < 8
  {
    byte & (0xFF ^ Mask(k))
  }

  lemma MaskValues()
    ensures Mask(0) == 1 && Mask(1) == 2 && Mask(2) == 4 && Mask(3) == 8
    ensures Mask(4) == 16 && Mask(5) == 32 && Mask(6) == 64 && Mask(7) == 128
  {
  }

  lemma MasksDisjoint(k: nat, j: nat)
    requires k < 8 && j < 8
    ensures Mask(j) != 0
    ensures j != k ==> Mask(j) & Mask(k) == 0
  {
    MaskValues();
  }

  /** The byte after writing `bit` at bit k. */
  function Written(byte: bv8, k: nat, bit: int): bv8
    requires k < 8
  {
    if bit != 0 then SetBit(byte, k) else ClearBit(byte, k)
  }

  /** Writing bit k is seen at bit k and nowhere else. */
  lemma WriteBit(byte: bv8, k: nat, bit: int, j: nat)
    requires k < 8 && j < 8
    ensures Test(Written(byte, k, bit), j) <==> if j == k then bit != 0 else Test(byte, j)
  {
    MasksDisjoint(k, j);
    WriteMask(byte, Mask(k), Mask(j));
  }

  lemma WriteMask(byte: bv8, mk: bv8, mj: bv8)
    ensures mj & mk == 0 ==> (byte | mk) & mj == byte & mj && (byte & (0xFF ^ mk)) & mj == byte & mj
    ensures mj == mk ==> (byte | mk) & mj == mk && (byte & (0xFF ^ mk)) & mj == 0
  {
  }

  // ---------------------------------------------------------------------- the 32-bit layout

  const NUM_PAGES := 256
  const PAGE_SIZE_32 := 1024 * 1024
  const ADDRESSES_32 := 0x1_0000_0000

  predicate Word32(a: nat) { a < ADDRESSES_32 && a % 4 == 0 }

  function PageIndex32(a: nat): nat { a / 0x100_0000 }
  function ByteIndex32(a: nat): nat { (a % 0x100_0000) / 32 }
  function BitIndex32(a: nat): nat { (a / 4) % 8 }

  function Rebuild32(page: nat, byte: nat, bit: nat): nat { page * 0x100_0000 + byte * 32 + bit * 4 }

  /** The indices of a word are in bounds and give the word back. */
  lemma Decompose32(a: nat)
    requires Word32(a)
    ensures PageIndex32(a) < NUM_PAGES && ByteIndex32(a) < PAGE_SIZE_32 / 2 && BitIndex32(a) < 8
    ensures Rebuild32(PageIndex32(a), ByteIndex32(a), BitIndex32(a)) == a
  {
  }

  /** Every triple of indices in bounds is that of exactly one word. */
  lemma Compose32(page: nat, byte: nat, bit: nat)
    requires page < NUM_PAGES && byte < PAGE_SIZE_32 / 2 && bit < 8
    ensures var a := Rebuild32(page, byte, bit);
            Word32(a) && PageIndex32(a) == page && ByteIndex32(a) == byte && BitIndex32(a) == bit
  {
    var a, rest := Rebuild32(page, byte, bit), byte * 32 + bit * 4;
    DivisionUnique(a, 0x100_0000, page, rest);
    DivisionUnique(rest, 32, byte, bit * 4);
    var q := page * 0x8_0000 + byte;
    DivisionUnique(a, 4, q * 8 + bit, 0);
    DivisionUnique(q * 8 + bit, 8, q, bit);
  }

  // ---------------------------------------------------------------------- the 64-bit layout

  const NUM_ROOT_PAGES := 65536
  const DIRECTORY_ENTRIES := 0x8_0000
  const PAGE_SIZE_64 := 8 * 1024 * 1024
  const ADDRESSES_64 := 0x2000_0000_0000_0000   // 2^61: what 65536 directories cover

  predicate Word64(a: nat) { a < ADDRESSES_64 && a % 8 == 0 }

  function DirectoryIndex64(a: nat): nat { a / 0x2000_0000_0000 }
  function PageIndex64(a: nat): nat { (a / 0x400_0000) % DIRECTORY_ENTRIES }
  function ByteIndex64(a: nat): nat { (a % 0x400_0000) / 64 }
  function BitIndex64(a: nat): nat { (a / 8) % 8 }

  function Rebuild64(directory: nat, page: nat, byte: nat, bit: nat): nat {
    directory * 0x2000_0000_0000 + page * 0x400_0000 + byte * 64 + bit * 8
  }

  /** The quotient by 2^45 in two steps. */
  lemma TwoLevels(directory: nat, page: nat, rest: nat)
    requires page < DIRECTORY_ENTRIES && rest < 0x400_0000
    ensures var a := directory * 0x2000_0000_0000 + page * 0x400_0000 + rest;
            DirectoryIndex64(a) == directory && PageIndex64(a) == page && a % 0x400_0000 == rest
  {
    var q := directory * DIRECTORY_ENTRIES + page;
    var a := directory * 0x2000_0000_0000 + page * 0x400_0000 + rest;
    DivisionUnique(q, DIRECTORY_ENTRIES, directory, page);
    DivisionUnique(a, 0x400_0000, q, rest);
    DivisionUnique(a, 0x2000_0000_0000, directory, page * 0x400_0000 + rest);
  }

  /** Byte and bit within a page of 2^26 addresses. */
  lemma WithinPage(a: nat, byte: nat, bit: nat)
    requires a % 0x400_0000 == byte * 64 + bit * 8 && bit < 8
    ensures ByteIndex64(a) == byte && BitIndex64(a) == bit
  {
    var q := a / 0x400_0000;
    var k := q * 0x10_0000 + byte;
    DivisionUnique(byte * 64 + bit * 8, 64, byte, bit * 8);
    DivisionUnique(a, 8, k * 8 + bit, 0);
    DivisionUnique(k * 8 + bit, 8, k, bit);
  }

  /** The indices of a word are in bounds and give the word back. */
  lemma Decompose64(a: nat)
    requires Word64(a)
    ensures DirectoryIndex64(a) < NUM_ROOT_PAGES && PageIndex64(a) < DIRECTORY_ENTRIES
    ensures ByteIndex64(a) < PAGE_SIZE_64 / 8 && BitIndex64(a) < 8
    ensures Rebuild64(DirectoryIndex64(a), PageIndex64(a), ByteIndex64(a), BitIndex64(a)) == a
  {
    var q, rest := a / 0x400_0000, a % 0x400_0000;
    var directory, page := q / DIRECTORY_ENTRIES, q % DIRECTORY_ENTRIES;
    var byte, bit := rest / 64, (rest % 64) / 8;
    assert q == directory * DIRECTORY_ENTRIES + page;
    assert a == directory * 0x2000_0000_0000 + page * 0x400_0000 + rest;
    TwoLevels(directory, page, rest);
    assert rest == byte * 64 + bit * 8 by { RestIsWord(a, rest); }
    WithinPage(a, byte, bit);
    assert directory < NUM_ROOT_PAGES;
  }

  lemma RestIsWord(a: nat, rest: nat)
    requires a % 8 == 0 && rest == a % 0x400_0000
    ensures rest == rest / 64 * 64 + (rest % 64) / 8 * 8
  {
    assert a == a / 0x400_0000 * 0x400_0000 + rest;
  }

  /** Every quadruple of indices in bounds is that of exactly one word. */
  lemma Compose64(directory: nat, page: nat, byte: nat, bit: nat)
    requires directory < NUM_ROOT_PAGES && page < DIRECTORY_ENTRIES
    requires byte < PAGE_SIZE_64 / 8 && bit < 8
    ensures var a := Rebuild64(directory, page, byte, bit);
            && Word64(a) && DirectoryIndex64(a) == directory && PageIndex64(a) == page
            && ByteIndex64(a) == byte && BitIndex64(a) == bit
  {
    var a := Rebuild64(directory, page, byte, bit);
    TwoLevels(directory, page, byte * 64 + bit * 8);
    WithinPage(a, byte, bit);
    DivisionUnique(a, 8, directory * 0x400_0000_0000 + page * 0x80_0000 + byte * 8 + bit, 0);
  }
}
