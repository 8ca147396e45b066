/**
 * The heap part of the memory scenario of tests/test_function_tracing.py on
 * a Memory object: two allocations, searches of the heap after each write
 * into the second block, and the contents of the second block after it has
 * been moved by a reallocation.
 */
module HeapFixture {
  import opened Wrappers
  import opened Pages
  import opened Memory
  import Allocator
  import MemoryFixture

  /** Every page of the loaded image ends at or below the heap. */
  ghost predicate ImageBelowHeap(pm: PageMap) {
    forall base :: base in pm ==> base + PAGE_SIZE <= Allocator.HEAP_BASE
  }

  /** The address of the second allocation. */
  const SECOND: nat := Allocator.HEAP_BASE + 10 + Allocator.HEAP_SLACK

  /** s is the fifteen bytes "im in the heap!", byte by byte. */
  predicate IsInHeap(s: seq<Byte>) {
    && |s| == 15
    && s[0] == 0x69 && s[1] == 0x6D && s[2] == 0x20 && s[3] == 0x69 && s[4] == 0x6E
    && s[5] == 0x20 && s[6] == 0x74 && s[7] == 0x68 && s[8] == 0x65 && s[9] == 0x20
    && s[10] == 0x68 && s[11] == 0x65 && s[12] == 0x61 && s[13] == 0x70 && s[14] == 0x21
  }

  /** A written byte is mapped and reads back as written. */
  lemma Written(pm: PageMap, a: nat, data: seq<Byte>, x: nat)
    requires WellFormed(pm) && a <= x < a + |data|
    ensures Mapped(Store(pm, a, data), x) && ByteAt(Store(pm, a, data), x) == data[x - a]
  {
    StoreMapsSpannedPages(pm, a, data);
    assert PageBase(x) in Spanned(a, |data|);
    ByteAtStore(pm, a, data, x);
  }

  /** The heap below base reads as zero. */
  ghost predicate ZeroBelow(pm: PageMap, base: nat)
    requires WellFormed(pm)
  {
    forall x :: Allocator.HEAP_BASE <= x < base ==> ByteAt(pm, x) == 0
  }

  /** An image below the heap leaves the whole heap reading as zero, and a
      write at base keeps the heap below base reading as zero. */
  lemma ZeroBelowImage(pm: PageMap, base: nat, data: seq<Byte>)
    requires WellFormed(pm) && ImageBelowHeap(pm)
    ensures ZeroBelow(pm, base) && ZeroBelow(Store(pm, base, data), base)
  {
    forall x | Allocator.HEAP_BASE <= x < base ensures ByteAt(pm, x) == 0 && ByteAt(Store(pm, base, data), x) == 0 {
      ByteAtStore(pm, base, data, x);
    }
  }

  /** A needle written at offset k of data at base is what find_in_heap
      finds, when the heap below base reads as zero, the needle starts with
      a non-zero byte that occurs nowhere before offset k, and the heap
      extent e covers the match. */
  lemma HeapFind(pm: PageMap, base: nat, data: seq<Byte>, needle: seq<Byte>, k: nat, e: nat)
    requires WellFormed(pm) && Allocator.HEAP_BASE <= base && ZeroBelow(pm, base)
    requires needle != [] && needle[0] != 0 && k + |needle| <= |data| && base + k + |needle| <= e
    requires forall i :: 0 <= i < |needle| ==> needle[i] == data[k + i]
    requires forall j :: 0 <= j < k ==> data[j] != needle[0]
    ensures IsFind(Store(pm, base, data), needle, Some(Allocator.HEAP_BASE), Some(e), base + k)
  {
    var pm', at := Store(pm, base, data), base + k;
    forall i | 0 <= i < |needle| ensures ByteMatches(pm', needle, at, i) {
      Written(pm, base, data, at + i);
    }
    Written(pm, base, data, at);
    assert MatchAt(pm', needle, at);
    forall x: nat | Allocator.HEAP_BASE <= x < base + k ensures !MatchAt(pm', needle, x) {
      ByteAtStore(pm, base, data, x);
      MemoryFixture.MatchAtFirst(pm', needle, x);
      if base <= x {
        assert data[x - base] != needle[0];
      }
    }
  }

  /** The first search of the test: "the heap!", the tail of "im in the
      heap!" from its seventh byte, is found six bytes into the second block. */
  lemma TestFindInHeap(image: PageMap, e: nat, inHeap: seq<Byte>)
    requires WellFormed(image) && ImageBelowHeap(image) && SECOND + 15 <= e && IsInHeap(inHeap)
    ensures IsFind(Store(image, SECOND, inHeap), inHeap[6..], Some(Allocator.HEAP_BASE), Some(e), SECOND + 6)
  {
    ZeroBelowImage(image, SECOND, inHeap);
    forall j | 0 <= j < 6 ensures inHeap[j] != 0x74 {
      assert j == 0 || j == 1 || j == 2 || j == 3 || j == 4 || j == 5;
    }
    HeapFind(image, SECOND, inHeap, inHeap[6..], 6, e);
  }

  /** The second search: once "helloworld" is written over the start of the
      second block, it is found there. */
  lemma TestFindAgain(image: PageMap, e: nat, inHeap: seq<Byte>, hello: seq<Byte>)
    requires WellFormed(image) && ImageBelowHeap(image) && SECOND + 10 <= e && MemoryFixture.IsHello(hello)
    ensures IsFind(Store(Store(image, SECOND, inHeap), SECOND, hello), hello, Some(Allocator.HEAP_BASE), Some(e), SECOND)
  {
    ZeroBelowImage(image, SECOND, inHeap);
    HeapFind(Store(image, SECOND, inHeap), SECOND, hello, hello, 0, e);
  }

  /** A reallocation leaves every range below its result address as it was:
      a block resized in place changes no byte, and a moved block is copied
      only to its new address. */
  lemma ReallocLeaves(pm: PageMap, h: Allocator.Heap, addr: nat, size: nat, x: nat, n: nat)
    requires WellFormed(pm) && ReallocState(pm, h, addr, size).Some?
    requires x + n <= ReallocState(pm, h, addr, size).value.2
    ensures Read(ReallocState(pm, h, addr, size).value.0, x, n) == Read(pm, x, n)
  {
    var (h', a) := Allocator.Realloc(h, addr, size).value;
    var keep := if Allocator.SizeAt(h, addr) < size then Allocator.SizeAt(h, addr) else size;
    if a != addr {
      ReadStoreDisjoint(pm, a, Read(pm, addr, keep), x, n);
    }
  }

  /** The first n of the m bytes read at a are the n bytes read at a. */
  lemma ReadPrefix(pm: PageMap, a: nat, n: nat, m: nat)
    requires WellFormed(pm) && n <= m
    ensures Read(pm, a, m)[..n] == Read(pm, a, n)
  {
  }

  /** Where the first block goes when it is grown to five pages: the heap
      top after the two allocations. */
  const TOP: nat := SECOND + 20 + Allocator.HEAP_SLACK

  /** Where the second block goes when it is grown to six pages. */
  const MOVED: nat := TOP + 0x5000 + Allocator.HEAP_SLACK

  /** The heap after each step of the test. */
  const H2: Allocator.Heap := Allocator.Heap([Allocator.Block(Allocator.HEAP_BASE, 10), Allocator.Block(SECOND, 20)], TOP)
  const H3: Allocator.Heap := Allocator.Heap([Allocator.Block(Allocator.HEAP_BASE, 40), Allocator.Block(SECOND, 20)], TOP)
  const H4: Allocator.Heap := Allocator.Heap([Allocator.Block(SECOND, 20), Allocator.Block(TOP, 0x5000)], MOVED)
  const H5: Allocator.Heap := Allocator.Heap([Allocator.Block(SECOND, 40), Allocator.Block(TOP, 0x5000)], MOVED)

  /** The two allocations: HEAP_BASE, then one block-plus-slack later. */
  lemma AllocSteps()
    ensures Allocator.Alloc(Allocator.EMPTY, 10) == (Allocator.Heap([Allocator.Block(Allocator.HEAP_BASE, 10)], SECOND), Allocator.HEAP_BASE)
    ensures Allocator.Alloc(Allocator.Heap([Allocator.Block(Allocator.HEAP_BASE, 10)], SECOND), 20) == (H2, SECOND)
    ensures Allocator.End(H2) == SECOND + 20
  {
    assert Allocator.EMPTY.blocks + [Allocator.Block(Allocator.HEAP_BASE, 10)] == [Allocator.Block(Allocator.HEAP_BASE, 10)];
    assert [Allocator.Block(Allocator.HEAP_BASE, 10)] + [Allocator.Block(SECOND, 20)] == H2.blocks;
  }

  /** The first block grows in place to 40 bytes, then moves to the heap top
      when grown to five pages. */
  lemma FirstBlockSteps()
    ensures Allocator.Realloc(H2, Allocator.HEAP_BASE, 40) == Some((H3, Allocator.HEAP_BASE))
    ensures Allocator.Realloc(H3, Allocator.HEAP_BASE, 0x5000) == Some((H4, TOP))
  {
    assert Allocator.IndexOf(H2.blocks, Allocator.HEAP_BASE) == Some(0);
    assert H2.blocks[0 := Allocator.Block(Allocator.HEAP_BASE, 40)] == H3.blocks;
    assert Allocator.IndexOf(H3.blocks, Allocator.HEAP_BASE) == Some(0);
    assert H3.blocks[..0] + H3.blocks[1..] + [Allocator.Block(TOP, 0x5000)] == H4.blocks;
  }

  /** The second block grows in place to 40 bytes, then moves to the heap
      top when grown to six pages. */
  lemma SecondBlockSteps()
    ensures Allocator.Realloc(H4, SECOND, 40) == Some((H5, SECOND))
    ensures Allocator.SizeAt(H5, SECOND) == 40
    ensures Allocator.Realloc(H5, SECOND, 0x6000).Some? && Allocator.Realloc(H5, SECOND, 0x6000).value.1 == MOVED
  {
    assert Allocator.IndexOf(H4.blocks, SECOND) == Some(0);
    assert H4.blocks[0 := Allocator.Block(SECOND, 40)] == H5.blocks;
    assert Allocator.IndexOf(H5.blocks, SECOND) == Some(0);
  }

  /** The heap part of the test on a Memory object (inHeap is "im in the
      heap!", hello is "helloworld"): the two blocks sit at HEAP_BASE and one
      block-plus-slack later; the write into the second block reads back;
      find_in_heap finds "the heap!" six bytes into
      the second block and, once it is overwritten, "helloworld" at its
      start; the reallocations then go as Relocations states. */
  method TestHeap(image: PageMap, segments: seq<Segment>, inHeap: seq<Byte>, hello: seq<Byte>)
    returns (first: nat, second: nat, readBack: seq<Byte>, found: int, foundAgain: int, moved: Option<nat>, copied: seq<Byte>)
    requires WellFormed(image) && ImageBelowHeap(image)
    requires IsInHeap(inHeap) && MemoryFixture.IsHello(hello)
    ensures first == Allocator.HEAP_BASE && second == SECOND
    ensures readBack == inHeap && found == second + 6 && foundAgain == second
    ensures moved == Some(MOVED) && moved.value != second && copied == hello
  {
    AllocSteps();
    var m := new Memory(image, segments);
    first := m.Alloc(10);
    second := m.Alloc(20);
    m.Write(second, inHeap);
    ReadStore(image, SECOND, inHeap);
    readBack := m.Read(second, 15);
    TestFindInHeap(image, SECOND + 20, inHeap);
    found := m.FindInHeap(inHeap[6..]);
    IsFindUnique(m.pages, inHeap[6..], Some(Allocator.HEAP_BASE), Some(SECOND + 20), found, SECOND + 6);
    ghost var p1 := m.pages;
    m.Write(second, hello);
    TestFindAgain(image, SECOND + 20, inHeap, hello);
    foundAgain := m.FindInHeap(hello);
    IsFindUnique(m.pages, hello, Some(Allocator.HEAP_BASE), Some(SECOND + 20), foundAgain, SECOND);
    ReadStore(p1, SECOND, hello);
    moved, copied := Relocations(m, hello);
  }

  /** The reallocations of the test, from the heap after the two allocations
      with "helloworld" at the start of the second block: the first block
      grows in place, then moves; the second grows in place, then moves to
      MOVED, where its first ten bytes read back "helloworld". */
  method Relocations(m: Memory, hello: seq<Byte>) returns (moved: Option<nat>, copied: seq<Byte>)
    requires m.Valid() && m.heap == H2 && |hello| == 10 && Pages.Read(m.pages, SECOND, 10) == hello
    modifies m
    ensures moved == Some(MOVED) && copied == hello
  {
    FirstBlockSteps();
    SecondBlockSteps();
    var r := m.Realloc(Allocator.HEAP_BASE, 40);
    ghost var p3 := m.pages;
    r := m.Realloc(Allocator.HEAP_BASE, 0x5000);
    ReallocLeaves(p3, H3, Allocator.HEAP_BASE, 0x5000, SECOND, 10);
    r := m.Realloc(SECOND, 40);
    ghost var p5 := m.pages;
    moved := m.Realloc(SECOND, 0x6000);
    ReallocKeepsContents(p5, H5, SECOND, 0x6000);
    ReadPrefix(m.pages, MOVED, 10, 40);
    ReadPrefix(p5, SECOND, 10, 40);
    copied := m.Read(MOVED, 10);
  }
}
