/**
 * The emulator's heap: a bump allocator above the loaded segments. Every
 * allocation is placed at the heap top, which then moves past the block
 * and a fixed slack gap. A block can grow in place up to the start of the
 * next live block (or up to the heap top for the highest block);
 * otherwise realloc moves it to the heap top and the old block is
 * dropped from the list of live blocks.
 */
module Allocator {
  import opened Wrappers

  /** The first address handed out. The test reads it as a class constant
      without showing its value; this value is the model's choice. */
  const HEAP_BASE: nat := 0x1000_0000

  /** The gap left after every block. The test only implies it is at least 30
      bytes (a ten-byte first block grows in place to forty bytes). */
  const HEAP_SLACK: nat := 0x100

  datatype Block = Block(addr: nat, size: nat)

  /** The live blocks in ascending address order, and the heap top. */
  datatype Heap = Heap(blocks: seq<Block>, top: nat)

  const EMPTY: Heap := Heap([], HEAP_BASE)

  /** How far block i may extend: up to the next live block, or to the heap
      top for the highest block. */
  function Limit(h: Heap, i: nat): nat
    requires i < |h.blocks|
  {
    if i + 1 < |h.blocks| then h.blocks[i + 1].addr else h.top
  }

  /** Blocks start at or above HEAP_BASE, in strictly ascending order, and each
      ends before the next one (or the heap top) begins. */
  ghost predicate Valid(h: Heap) {
    && HEAP_BASE <= h.top
    && forall i :: 0 <= i < |h.blocks| ==>
         HEAP_BASE <= h.blocks[i].addr < Limit(h, i) && h.blocks[i].addr + h.blocks[i].size <= Limit(h, i)
  }

  /** One past the last byte of the highest live block: the heap extent searched
      by find_in_heap (the slack after it is not searched). */
  function End(h: Heap): nat {
    if h.blocks == [] then HEAP_BASE else h.blocks[|h.blocks| - 1].addr + h.blocks[|h.blocks| - 1].size
  }

  /** No two live blocks overlap, and none reaches past the heap top. */
  lemma {:induction false} Disjoint(h: Heap, i: nat, j: nat)
    requires Valid(h)
    requires i < j < |h.blocks|
    ensures h.blocks[i].addr + h.blocks[i].size <= h.blocks[j].addr
    decreases j - i
  {
    if i + 1 < j {
      Disjoint(h, i + 1, j);
    }
  }

  lemma {:induction false} BelowTop(h: Heap, i: nat)
    requires Valid(h)
    requires i < |h.blocks|
    ensures h.blocks[i].addr + h.blocks[i].size <= End(h) <= h.top
  {
    var n := |h.blocks|;
    if i + 1 < n {
      Disjoint(h, i, n - 1);
    }
  }

  /** Memory.alloc: the block goes at the heap top, which moves past the
      block and the slack. */
  function Alloc(h: Heap, size: nat): (r: (Heap, nat))
  {
    (Heap(h.blocks + [Block(h.top, size)], h.top + size + HEAP_SLACK), h.top)
  }

  /** Allocation keeps the heap valid, returns the old heap top, and places
      the new block past every live block. */
  lemma AllocValid(h: Heap, size: nat)
    requires Valid(h)
    ensures Valid(Alloc(h, size).0)
    ensures Alloc(h, size).1 == h.top
    ensures forall i :: 0 <= i < |h.blocks| ==> h.blocks[i].addr + h.blocks[i].size <= Alloc(h, size).1
    ensures Alloc(h, size).0.top == Alloc(h, size).1 + size + HEAP_SLACK
  {
    var h' := Alloc(h, size).0;
    forall i | 0 <= i < |h'.blocks|
      ensures HEAP_BASE <= h'.blocks[i].addr < Limit(h', i) && h'.blocks[i].addr + h'.blocks[i].size <= Limit(h', i)
    {
      if i + 1 < |h'.blocks| {
        assert Limit(h, i) == Limit(h', i);
      }
    }
    forall i | 0 <= i < |h.blocks| ensures h.blocks[i].addr + h.blocks[i].size <= h.top {
      BelowTop(h, i);
    }
  }

  /** The index of the live block that starts at addr. */
  function IndexOf(blocks: seq<Block>, addr: nat): (r: Option<nat>)
    ensures r.Some? ==> r.value < |blocks| && blocks[r.value].addr == addr
    ensures r.None? ==> forall i :: 0 <= i < |blocks| ==> blocks[i].addr != addr
  {
    if blocks == [] then None
    else if blocks[0].addr == addr then Some(0)
    else match IndexOf(blocks[1..], addr)
      case None => None
      case Some(i) => Some(i + 1)
  }

  /** Memory.realloc on the heap: None when no live block starts at addr; the
      same address when the block has room up to the next block; otherwise a
      new block at the heap top, the old block leaving the list. */
  function Realloc(h: Heap, addr: nat, size: nat): (r: Option<(Heap, nat)>)
  {
    match IndexOf(h.blocks, addr)
    case None => None
    case Some(i) =>
      if addr + size <= Limit(h, i) then
        Some((Heap(h.blocks[i := Block(addr, size)], h.top), addr))
      else
        Some((Heap(h.blocks[..i] + h.blocks[i + 1..] + [Block(h.top, size)], h.top + size + HEAP_SLACK), h.top))
  }

  /** The size of the live block at addr, 0 if there is none. */
  function SizeAt(h: Heap, addr: nat): nat {
    match IndexOf(h.blocks, addr)
    case None => 0
    case Some(i) => h.blocks[i].size
  }

  /** Growing or shrinking block i in place, within its limit, keeps the heap valid. */
  lemma ResizeInPlaceValid(h: Heap, i: nat, size: nat)
    requires Valid(h)
    requires i < |h.blocks| && h.blocks[i].addr + size <= Limit(h, i)
    ensures Valid(Heap(h.blocks[i := Block(h.blocks[i].addr, size)], h.top))
  {
    var h' := Heap(h.blocks[i := Block(h.blocks[i].addr, size)], h.top);
    forall j | 0 <= j < |h'.blocks|
      ensures HEAP_BASE <= h'.blocks[j].addr < Limit(h', j) && h'.blocks[j].addr + h'.blocks[j].size <= Limit(h', j)
    {
      assert Limit(h, j) == Limit(h', j);
    }
  }

  /** Dropping block i keeps the heap valid: the block below it may now grow
      into the space it left. */
  lemma {:induction false} RemoveValid(h: Heap, i: nat)
    requires Valid(h)
    requires i < |h.blocks|
    ensures Valid(Heap(h.blocks[..i] + h.blocks[i + 1..], h.top))
  {
    var h' := Heap(h.blocks[..i] + h.blocks[i + 1..], h.top);
    forall j | 0 <= j < |h'.blocks|
      ensures HEAP_BASE <= h'.blocks[j].addr < Limit(h', j) && h'.blocks[j].addr + h'.blocks[j].size <= Limit(h', j)
    {
      if j + 1 < i {
        assert Limit(h', j) == Limit(h, j);
      } else if j + 1 == i {
        assert Limit(h, j) == h.blocks[i].addr <= Limit(h, i) == Limit(h', j);
      } else {
        assert h'.blocks[j] == h.blocks[j + 1];
        assert Limit(h', j) == Limit(h, j + 1);
      }
    }
  }

  /** A successful realloc keeps the address exactly when the new size fits
      before the next live block; a moved block lands at the old heap top,
      past every live block; and the heap stays valid. */
  lemma ReallocValid(h: Heap, addr: nat, size: nat, i: nat)
    requires Valid(h)
    requires IndexOf(h.blocks, addr) == Some(i)
    ensures Realloc(h, addr, size).Some?
    ensures Valid(Realloc(h, addr, size).value.0)
    ensures Realloc(h, addr, size).value.1 == addr <==> addr + size <= Limit(h, i)
    ensures Realloc(h, addr, size).value.1 != addr ==>
      && Realloc(h, addr, size).value.1 == h.top
      && End(h) <= h.top
      && Realloc(h, addr, size).value.0.top == h.top + size + HEAP_SLACK
  {
    if addr + size <= Limit(h, i) {
      ResizeInPlaceValid(h, i, size);
    } else {
      var rest := Heap(h.blocks[..i] + h.blocks[i + 1..], h.top);
      BelowTop(h, |h.blocks| - 1);
      if i + 1 < |h.blocks| { BelowTop(h, i + 1); }
      assert addr < Limit(h, i) <= h.top;
      RemoveValid(h, i);
      AllocValid(rest, size);
      assert Realloc(h, addr, size) == Some(Alloc(rest, size));
    }
  }

  /** The allocation sequence of the memory test: the first block sits at
      HEAP_BASE, the second one block-plus-slack later; growing the first block
      to 40 bytes stays in place, growing it to five pages moves it past the
      second block, after which the second block grows in place to 40 bytes and
      moves when grown to six pages. */
  lemma TestAllocations()
    ensures var (h1, first) := Alloc(EMPTY, 10);
            var (h2, second) := Alloc(h1, 20);
            && first == HEAP_BASE
            && second == HEAP_BASE + 10 + HEAP_SLACK
            && Realloc(h2, first, 40).Some? && Realloc(h2, first, 40).value.1 == first
            && (var h3 := Realloc(h2, first, 40).value.0;
                && Realloc(h3, first, 0x5000).Some? && Realloc(h3, first, 0x5000).value.1 == second + 20 + HEAP_SLACK
                && (var h4 := Realloc(h3, first, 0x5000).value.0;
                    && Realloc(h4, second, 40).Some? && Realloc(h4, second, 40).value.1 == second
                    && (var h5 := Realloc(h4, second, 40).value.0;
                        && SizeAt(h5, second) == 40
                        && Realloc(h5, second, 0x6000).Some? && Realloc(h5, second, 0x6000).value.1 != second)))
  {
    var (h1, first) := Alloc(EMPTY, 10);
    var (h2, second) := Alloc(h1, 20);
    assert h2.blocks == [Block(first, 10), Block(second, 20)];
    assert IndexOf(h2.blocks, first) == Some(0);
    var h3 := Realloc(h2, first, 40).value.0;
    assert h3.blocks == [Block(first, 40), Block(second, 20)];
    assert IndexOf(h3.blocks, first) == Some(0);
    var h4 := Realloc(h3, first, 0x5000).value.0;
    assert h4.blocks == [Block(second, 20), Block(second + 20 + HEAP_SLACK, 0x5000)];
    assert IndexOf(h4.blocks, second) == Some(0);
    var h5 := Realloc(h4, second, 40).value.0;
    assert h5.blocks == [Block(second, 40), Block(second + 20 + HEAP_SLACK, 0x5000)];
    assert IndexOf(h5.blocks, second) == Some(0);
  }
}
