/** The heap map of a 32-bit image: 256 lazily allocated pages of bits. */
module HeapMap32 {
  import opened HeapMapBits
  import opened HeapMapHistory
  import opened HeapMapPages

  class HeapMap {
    const mapPages: array<array?<bv8>>
    ghost var Repr: set<object>
    /** Every write and clear so far, and the words they leave set. */
    ghost var history: seq<Op>
    ghost var words: set<nat>

    ghost predicate Valid()
      reads this, Repr
    {
      && this in Repr && mapPages in Repr
      && mapPages.Length == NUM_PAGES
      && (forall p :: 0 <= p < NUM_PAGES && mapPages[p] != null ==>
            mapPages[p] in Repr && mapPages[p].Length == PAGE_SIZE_32)
      && (forall p, q :: 0 <= p < q < NUM_PAGES && mapPages[p] != null ==> mapPages[p] != mapPages[q])
      && words == Replay(history)
      && (forall a :: Word32(a) ==> (BitAt(a) <==> a in words))
    }

    ghost predicate BitAt(a: nat)
      requires mapPages.Length == NUM_PAGES && Word32(a)
      requires forall p :: 0 <= p < NUM_PAGES && mapPages[p] != null ==> mapPages[p].Length == PAGE_SIZE_32
      reads mapPages, mapPages[PageIndex32(a)]
    {
      Decompose32(a);
      var page := mapPages[PageIndex32(a)];
      page != null && Test(page[ByteIndex32(a)], BitIndex32(a))
    }

    constructor ()
      ensures Valid() && fresh(Repr) && history == []
    {
      mapPages := new array?<bv8>[NUM_PAGES](_ => null);
      history, words := [], {};
      new;
      Repr := {this, mapPages};
    }

    /** Non-zero iff the last put to the word since the last clear was non-zero. */
    method HeapMapAtWord(address: nat) returns (r: Reading)
      requires Valid() && address < ADDRESSES_32
      ensures r.MisalignedRead? <==> address % 4 != 0
      ensures r.Byte? ==> (r.bits != 0 <==> LastPutIsSet(history, address))
      ensures r.Byte? ==> (r.bits != 0 <==> address in words)
    {
      if address % 4 != 0 {
        return MisalignedRead;
      }
      Decompose32(address);
      ReplayIsLastPut(history, address);
      assert BitAt(address) <==> address in words;
      var page := mapPages[PageIndex32(address)];
      r := Byte(if page != null then page[ByteIndex32(address)] & Mask(BitIndex32(address)) else 0);
    }

    /** Writes `bit` at the word, allocating its page first if need be. */
    method HeapMapAtWordPut(address: nat, bit: int, canAllocate: bool) returns (r: Outcome)
      requires Valid() && address < ADDRESSES_32
      modifies Repr
      ensures Valid() && fresh(Repr - old(Repr))
      ensures r.Misaligned? <==> address % 4 != 0
      ensures r.OutOfMemory? <==> address % 4 == 0 && old(mapPages[address / 0x100_0000]) == null && !canAllocate
      ensures history == old(history) + if r.Done? then [Put(address, bit)] else []
      ensures words == if r.Done? then Apply(old(words), Put(address, bit)) else old(words)
      ensures r.Done? ==> words == if bit != 0 then old(words) + {address} else old(words) - {address}
    {
      if address % 4 != 0 {
        return Misaligned;
      }
      Decompose32(address);
      if mapPages[PageIndex32(address)] == null {
        if !canAllocate {
          return OutOfMemory;
        }
        AllocatePage(PageIndex32(address));
      }
      WriteByte(address, bit);
      r := Done;
    }

    /** malloc and memset of one page: the map reads as before. */
    method AllocatePage(p: nat)
      requires Valid() && p < NUM_PAGES && mapPages[p] == null
      modifies mapPages, this`Repr
      ensures Valid() && fresh(Repr - old(Repr)) && mapPages[p] != null
    {
      var page := new bv8[PAGE_SIZE_32](_ => 0);
      mapPages[p] := page;
      Repr := Repr + {page};
      forall a | Word32(a) ensures BitAt(a) <==> a in words {
        Decompose32(a);
        assert old(BitAt(a)) <==> a in words;
        ZeroTests(BitIndex32(a));
      }
    }

    /** The read-modify-write of one byte. */
    method WriteByte(address: nat, bit: int)
      requires Valid() && Word32(address) && mapPages[PageIndex32(address)] != null
      modifies this`history, this`words, mapPages[PageIndex32(address)]
      ensures Valid()
      ensures history == old(history) + [Put(address, bit)]
      ensures words == Apply(old(words), Put(address, bit))
    {
      Decompose32(address);
      var page, b, k := mapPages[PageIndex32(address)], ByteIndex32(address), BitIndex32(address);
      ghost var before := page[b];
      page[b] := Written(page[b], k, bit);
      ReplayNext(history, Put(address, bit));
      history, words := history + [Put(address, bit)], Apply(words, Put(address, bit));
      forall a | Word32(a) ensures BitAt(a) <==> a in words {
        Decompose32(a);
        assert old(BitAt(a)) <==> a in old(words);
        if PageIndex32(a) == PageIndex32(address) && ByteIndex32(a) == b {
          WriteBit(before, k, bit, BitIndex32(a));
          assert BitIndex32(a) == k ==> a == address;
        } else {
          assert BitAt(a) == old(BitAt(a));
        }
      }
    }

    /** Zeroes every page there is. */
    method ClearHeapMap()
      requires Valid()
      modifies Repr
      ensures Valid() && Repr == old(Repr)
      ensures history == old(history) + [Clear] && words == {}
    {
      var i := 0;
      while i < NUM_PAGES
        invariant 0 <= i <= NUM_PAGES
        invariant Repr == old(Repr) && history == old(history)
        invariant mapPages[..] == old(mapPages[..])
        invariant forall p :: 0 <= p < i && mapPages[p] != null ==> AllZero(mapPages[p])
      {
        if mapPages[i] != null {
          ZeroPage(mapPages[i]);
        }
        i := i + 1;
      }
      ReplayNext(history, Clear);
      history, words := history + [Clear], {};
      forall a | Word32(a) ensures !BitAt(a) {
        Decompose32(a);
        ZeroTests(BitIndex32(a));
      }
    }
  }
}
