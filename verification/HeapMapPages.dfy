/** What the two layouts share: the outcomes of an access, and pages of bits. */
module HeapMapPages {
  import opened HeapMapBits

  /** How a write ends: done, refused by error(), or out of memory, which exits. */
  datatype Outcome = Done | Misaligned | OutOfMemory

  datatype Reading = Byte(bits: bv8) | MisalignedRead

  ghost predicate AllZero(page: array<bv8>)
    reads page
  {
    forall j :: 0 <= j < page.Length ==> page[j] == 0
  }

  /** memset(page, 0, size) */
  method ZeroPage(page: array<bv8>)
    modifies page
    ensures AllZero(page)
  {
    forall j | 0 <= j < page.Length {
      page[j] := 0;
    }
  }

  lemma ZeroTests(k: nat)
    requires k < 8
    ensures !Test(0, k)
  {
  }
}
