/** The heap map of a 64-bit image: lazily allocated directories of lazily allocated pages of bits. */
module HeapMap64 {
  import opened HeapMapBits
  import opened HeapMapHistory
  import opened HeapMapPages

  class HeapMap {
    const mapPages: array<array?<array?<bv8>>>
    ghost var Repr: set<object>
    /** The one place each page is at. */
    ghost var home: map<array<bv8>, (nat, nat)>
    /** Every write and clear so far, and the words they leave set. */
    ghost var history: seq<Op>
    ghost var words: set<nat>

    /** No directory and no page is shared. */
    ghost predicate Shaped()
      reads this, Repr
    {
      && this in Repr && mapPages in Repr
      && mapPages.Length == NUM_ROOT_PAGES
      && (forall d :: 0 <= d < NUM_ROOT_PAGES && mapPages[d] != null ==>
            mapPages[d] in Repr && mapPages[d].Length == DIRECTORY_ENTRIES)
      && (forall d, e :: 0 <= d < e < NUM_ROOT_PAGES && mapPages[d] != null ==> mapPages[d] != mapPages[e])
      && (forall d, p :: 0 <= d < NUM_ROOT_PAGES && mapPages[d] != null && 0 <= p < DIRECTORY_ENTRIES
                         && mapPages[d][p] != null ==>
            && mapPages[d][p] in Repr && mapPages[d][p].Length == PAGE_SIZE_64
            && mapPages[d][p] in home && home[mapPages[d][p]] == (d, p))
    }

    ghost predicate Valid()
      reads this, Repr
    {
      && Shaped()
      && words == Replay(history)
      && (forall a :: Word64(a) ==> (BitAt(a) <==> a in words))
    }

    ghost predicate BitAt(a: nat)
      requires Shaped() && Word64(a)
      reads this, Repr
    {
      Decompose64(a);
      var directory := mapPages[DirectoryIndex64(a)];
      directory != null &&
      var page := directory[PageIndex64(a)];
      page != null && Test(page[ByteIndex64(a)], BitIndex64(a))
    }

    constructor ()
      ensures Valid() && fresh(Repr) && history == []
    {
      mapPages := new array?<array?<bv8>>[NUM_ROOT_PAGES](_ => null);
      history, words, home := [], {}, map[];
      new;
      Repr := {this, mapPages};
    }

    /** Non-zero iff the last put to the word since the last clear was non-zero. */
    method HeapMapAtWord(address: nat) returns (r: Reading)
      requires Valid() && address < ADDRESSES_64
      ensures r.MisalignedRead? <==> address % 8 != 0
      ensures r.Byte? ==> (r.bits != 0 <==> LastPutIsSet(history, address))
      ensures r.Byte? ==> (r.bits != 0 <==> address in words)
    {
      if address % 8 != 0 {
        return MisalignedRead;
      }
      Decompose64(address);
      ReplayIsLastPut(history, address);
      assert BitAt(address) <==> address in words;
      var directory := mapPages[DirectoryIndex64(address)];
      if directory == null {
        return Byte(0);
      }
      var page := directory[PageIndex64(address)];
      r := Byte(if page != null then page[ByteIndex64(address)] & Mask(BitIndex64(address)) else 0);
    }

    /** Writes `bit` at the word, allocating its directory and its page first if need be. */
    method HeapMapAtWordPut(address: nat, bit: int, canAllocateDirectory: bool, canAllocatePage: bool)
      returns (r: Outcome)
      requires Valid() && address < ADDRESSES_64
      modifies Repr
      ensures Valid() && fresh(Repr - old(Repr))
      ensures r.Misaligned? <==> address % 8 != 0
      ensures r.OutOfMemory? <==>
                var directory := old(mapPages[address / 0x2000_0000_0000]);
                && address % 8 == 0
                && ((directory == null && !canAllocateDirectory)
                    || ((directory == null || old(directory[(address / 0x400_0000) % 0x8_0000]) == null)
                        && !canAllocatePage))
      ensures history == old(history) + if r.Done? then [Put(address, bit)] else []
      ensures words == if r.Done? then Apply(old(words), Put(address, bit)) else old(words)
      ensures r.Done? ==> words == if bit != 0 then old(words) + {address} else old(words) - {address}
    {
      if address % 8 != 0 {
        return Misaligned;
      }
      Decompose64(address);
      var d, p := DirectoryIndex64(address), PageIndex64(address);
      if mapPages[d] == null {
        if !canAllocateDirectory {
          return OutOfMemory;
        }
        AllocateDirectory(d);
      }
      if mapPages[d][p] == null {
        if !canAllocatePage {
          return OutOfMemory;
        }
        AllocatePage(d, p);
      }
      WriteByte(address, bit);
      r := Done;
    }

    /** malloc and memset of one directory: the map reads as before. */
    method AllocateDirectory(d: nat)
      requires Valid() && d < NUM_ROOT_PAGES && mapPages[d] == null
      modifies mapPages, this`Repr
      ensures Valid() && fresh(Repr - old(Repr)) && mapPages[d] != null && fresh(mapPages[d])
      ensures mapPages[d].Length == DIRECTORY_ENTRIES
      ensures forall p :: 0 <= p < DIRECTORY_ENTRIES ==> mapPages[d][p] == null
    {
      var directory: array<array?<bv8>> := new array?<bv8>[DIRECTORY_ENTRIES](_ => null);
      mapPages[d] := directory;
      Repr := Repr + {directory};
      forall a | Word64(a) ensures BitAt(a) <==> a in words {
        Decompose64(a);
        assert old(BitAt(a)) <==> a in words;
      }
    }

    /** malloc and memset of one page: the map reads as before. */
    method AllocatePage(d: nat, p: nat)
      requires Valid() && d < NUM_ROOT_PAGES && p < DIRECTORY_ENTRIES
      requires mapPages[d] != null && mapPages[d][p] == null
      modifies mapPages[d], this`Repr, this`home
      ensures Valid() && fresh(Repr - old(Repr)) && mapPages[d][p] != null && fresh(mapPages[d][p])
    {
      var page := new bv8[PAGE_SIZE_64](_ => 0);
      mapPages[d][p] := page;
      Repr := Repr + {page};
      home := home[page := (d, p)];
      forall a | Word64(a) ensures BitAt(a) <==> a in words {
        Decompose64(a);
        assert old(BitAt(a)) <==> a in words;
        ZeroTests(BitIndex64(a));
      }
    }

    /** The read-modify-write of one byte. */
    method WriteByte(address: nat, bit: int)
      requires Valid() && Word64(address) && mapPages[DirectoryIndex64(address)] != null
      requires mapPages[DirectoryIndex64(address)][PageIndex64(address)] != null
      modifies this`history, this`words, mapPages[DirectoryIndex64(address)][PageIndex64(address)]
      ensures Valid()
      ensures history == old(history) + [Put(address, bit)]
      ensures words == Apply(old(words), Put(address, bit))
    {
      ReplayNext(history, Put(address, bit));
      StoreBit(address, bit);
    }

    /** The store itself, which is seen at the word and nowhere else, and its record. */
    method StoreBit(address: nat, bit: int)
      requires Valid() && Word64(address) && mapPages[DirectoryIndex64(address)] != null
      requires mapPages[DirectoryIndex64(address)][PageIndex64(address)] != null
      modifies this`history, this`words, mapPages[DirectoryIndex64(address)][PageIndex64(address)]
      ensures Shaped()
      ensures history == old(history) + [Put(address, bit)] && words == Apply(old(words), Put(address, bit))
      ensures forall a :: Word64(a) ==> (BitAt(a) <==> if a == address then bit != 0 else old(BitAt(a)))
    {
      Decompose64(address);
      var page := mapPages[DirectoryIndex64(address)][PageIndex64(address)];
      var b, k := ByteIndex64(address), BitIndex64(address);
      ghost var before := page[b];
      page[b] := Written(page[b], k, bit);
      history, words := history + [Put(address, bit)], Apply(words, Put(address, bit));
      forall a | Word64(a) ensures BitAt(a) <==> if a == address then bit != 0 else old(BitAt(a)) {
        Decompose64(a);
        if DirectoryIndex64(a) == DirectoryIndex64(address) && PageIndex64(a) == PageIndex64(address)
           && ByteIndex64(a) == b {
          WriteBit(before, k, bit, BitIndex64(a));
          assert BitIndex64(a) == k ==> a == address;
        } else {
          assert BitAt(a) == old(BitAt(a));
        }
      }
    }

    /** Zeroes every page there is. */
    method ClearHeapMap()
      requires Valid()
      modifies Repr
      ensures Valid() && Repr == old(Repr)
      ensures history == old(history) + [Clear] && words == {}
    {
      var i := 0;
      while i < NUM_ROOT_PAGES
        invariant 0 <= i <= NUM_ROOT_PAGES
        invariant Shaped() && Repr == old(Repr) && history == old(history) && words == old(words)
        invariant ClearedUpTo(i, 0)
      {
        if mapPages[i] != null {
          var j := 0;
          while j < DIRECTORY_ENTRIES
            invariant 0 <= j <= DIRECTORY_ENTRIES
            invariant Shaped() && Repr == old(Repr) && history == old(history) && words == old(words)
            invariant mapPages[i] != null && ClearedUpTo(i, j)
          {
            ClearEntry(i, j);
            j := j + 1;
          }
        }
        i := i + 1;
      }
      ReplayNext(history, Clear);
      assert words == Replay(old(history));
      FinishClear();
    }

    /** Zeroes one page, if it exists. */
    method ClearEntry(i: nat, j: nat)
      requires Shaped() && i < NUM_ROOT_PAGES && mapPages[i] != null && j < DIRECTORY_ENTRIES
      requires ClearedUpTo(i, j)
      modifies mapPages[i][j]
      ensures Shaped() && ClearedUpTo(i, j + 1)
    {
      var page := mapPages[i][j];
      if page != null {
        ZeroPage(page);
        forall d, p | 0 <= d < NUM_ROOT_PAGES && mapPages[d] != null && 0 <= p < DIRECTORY_ENTRIES
                      && mapPages[d][p] != null && (d < i || (d == i && p < j + 1))
          ensures AllZero(mapPages[d][p])
        {
          if mapPages[d][p] != page { assert old(AllZero(mapPages[d][p])); }
        }
      }
    }

    /** Records the clear, every page being zero. */
    ghost method FinishClear()
      requires Shaped() && words == Replay(history) && ClearedUpTo(NUM_ROOT_PAGES, 0)
      modifies this`history, this`words
      ensures Valid() && history == old(history) + [Clear] && words == {}
    {
      ReplayNext(history, Clear);
      history, words := history + [Clear], {};
      forall a | Word64(a) ensures !BitAt(a) {
        Decompose64(a);
        ZeroTests(BitIndex64(a));
        if mapPages[DirectoryIndex64(a)] != null && mapPages[DirectoryIndex64(a)][PageIndex64(a)] != null {
          assert AllZero(mapPages[DirectoryIndex64(a)][PageIndex64(a)]);
        }
      }
    }

    /** Every page of the directories below i, and the first j of directory i, hold only zeroes. */
    ghost predicate ClearedUpTo(i: nat, j: nat)
      requires Shaped()
      reads this, Repr
    {
      forall d, p :: 0 <= d < NUM_ROOT_PAGES && mapPages[d] != null && 0 <= p < DIRECTORY_ENTRIES
                     && mapPages[d][p] != null && (d < i || (d == i && p < j)) ==>
        AllZero(mapPages[d][p])
    }
  }
}
