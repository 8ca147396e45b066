/**
 * The emulator's Memory object: the paged byte store of module Pages, the
 * segments of the loaded binary, and the heap of module Allocator. Segment
 * bytes come from the disassembly host; they arrive here as an initial page
 * map (the image) together with each segment's name and address range.
 */
module Memory {
  import opened Wrappers
  import opened Pages
  import Allocator

  datatype Segment = Segment(name: string, start: nat, end: nat)

  /** One row of the memory summary: a run of contiguous mapped pages. */
  datatype Region = Region(start: nat, end: nat)

  /** The needle lies wholly in mapped memory at address x and equals it there. */
  predicate MatchAt(pm: PageMap, needle: seq<Byte>, x: nat)
    requires WellFormed(pm)
  {
    && Mapped(pm, x)
    && forall i :: 0 <= i < |needle| ==> ByteMatches(pm, needle, x, i)
  }

  /** Byte i of the needle is mapped at x + i and equals it there. */
  predicate ByteMatches(pm: PageMap, needle: seq<Byte>, x: nat, i: nat)
    requires WellFormed(pm) && i < |needle|
  {
    Mapped(pm, x + i) && ByteAt(pm, x + i) == needle[i]
  }

  /** x .. x + n - 1 ends before the (exclusive) window end, if there is one. */
  predicate Fits(x: nat, n: nat, end: Option<nat>) {
    end.None? || x + n <= end.value
  }

  /** What Memory.find(needle, start, end) returns: -1 for a degenerate window
      (both bounds given, end <= start) or when no match lies wholly inside
      [start, end); otherwise the lowest such match. An absent start means
      the lowest mapped address and an absent end means no upper bound; as a
      match must lie in mapped memory, the lower default is the same as 0. */
  ghost predicate IsFind(pm: PageMap, needle: seq<Byte>, start: Option<nat>, end: Option<nat>, r: int)
    requires WellFormed(pm)
  {
    var lo := start.GetOr(0);
    if start.Some? && end.Some? && end.value <= start.value then r == -1
    else if r < 0 then
      r == -1 && forall x: nat :: lo <= x && Fits(x, |needle|, end) ==> !MatchAt(pm, needle, x)
    else
      && lo <= r && Fits(r, |needle|, end) && MatchAt(pm, needle, r)
      && forall x: nat :: lo <= x < r ==> !MatchAt(pm, needle, x)
  }

  /** At most one result satisfies IsFind: the lowest match is unique. */
  lemma IsFindUnique(pm: PageMap, needle: seq<Byte>, start: Option<nat>, end: Option<nat>, r1: int, r2: int)
    requires WellFormed(pm)
    requires IsFind(pm, needle, start, end, r1) && IsFind(pm, needle, start, end, r2)
    ensures r1 == r2
  {
  }

  /** The first segment with the given name. */
  function SegmentNamed(segments: seq<Segment>, name: string): (r: Option<Segment>)
    ensures r.Some? ==> r.value in segments && r.value.name == name
    ensures r.None? ==> forall s :: s in segments ==> s.name != name
  {
    if segments == [] then None
    else if segments[0].name == name then Some(segments[0])
    else SegmentNamed(segments[1..], name)
  }

  /** Memory.realloc as a whole: the heap update of Allocator.Realloc and, when
      the block moves, a copy of min(old size, new size) bytes to the new block. */
  function ReallocState(pm: PageMap, h: Allocator.Heap, addr: nat, size: nat): Option<(PageMap, Allocator.Heap, nat)>
    requires WellFormed(pm)
  {
    match Allocator.Realloc(h, addr, size)
    case None => None
    case Some((h', a)) =>
      var keep := if Allocator.SizeAt(h, addr) < size then Allocator.SizeAt(h, addr) else size;
      if a == addr then Some((pm, h', a))
      else Some((Store(pm, a, Read(pm, addr, keep)), h', a))
  }

  /** realloc never loses live data: the first min(old size, new size) bytes of
      the block are found at the returned address, whether or not it moved. */
  lemma ReallocKeepsContents(pm: PageMap, h: Allocator.Heap, addr: nat, size: nat)
    requires WellFormed(pm)
    requires ReallocState(pm, h, addr, size).Some?
    ensures var (pm', h', a) := ReallocState(pm, h, addr, size).value;
            var keep := if Allocator.SizeAt(h, addr) < size then Allocator.SizeAt(h, addr) else size;
            WellFormed(pm') && Read(pm', a, keep) == Read(pm, addr, keep)
  {
    var (h', a) := Allocator.Realloc(h, addr, size).value;
    var keep := if Allocator.SizeAt(h, addr) < size then Allocator.SizeAt(h, addr) else size;
    if a != addr {
      ReadStore(pm, a, Read(pm, addr, keep));
    }
  }

  /** The smallest and largest element of a non-empty set of addresses. */
  method Extremes(keys: set<nat>) returns (lo: nat, hi: nat)
    requires keys != {}
    ensures lo in keys && hi in keys
    ensures forall k :: k in keys ==> lo <= k <= hi
  {
    var k :| k in keys;
    lo, hi := k, k;
    var rest := keys - {k};
    while rest != {}
      invariant rest <= keys && lo in keys && hi in keys
      invariant forall j :: j in keys && j !in rest ==> lo <= j <= hi
      decreases rest
    {
      var y :| y in rest;
      if y < lo { lo := y; }
      if y > hi { hi := y; }
      rest := rest - {y};
    }
  }

  /** The byte-by-byte write loop of Memory.write, on the page map alone. */
  method WriteBytes(pm: PageMap, a: nat, data: seq<Byte>) returns (r: PageMap)
    requires WellFormed(pm)
    ensures WellFormed(r) && r == Store(pm, a, data)
  {
    r := pm;
    var i := 0;
    while i < |data|
      invariant 0 <= i <= |data| && WellFormed(r)
      invariant Store(r, a + i, data[i..]) == Store(pm, a, data)
    {
      StoreStep(r, a, data, i);
      r := StoreByte(r, a + i, data[i]);
      i := i + 1;
    }
  }

  /** A match lies below the end of the highest mapped page. */
  lemma MatchBelow(pm: PageMap, needle: seq<Byte>, y: nat, high: nat)
    requires WellFormed(pm) && forall k :: k in pm ==> k <= high
    ensures MatchAt(pm, needle, y) ==> y + |needle| <= high + PAGE_SIZE
  {
    if MatchAt(pm, needle, y) && |needle| > 0 {
      var i := |needle| - 1;
      assert MatchAt(pm, needle, y);
      assert ByteMatches(pm, needle, y, i);
      assert PageBase(y + i) in pm;
      assert PageBase(y + i) <= high;
    }
  }

  /** Address a lies inside one of the regions. */
  ghost predicate Covered(rs: seq<Region>, a: nat) {
    exists i :: 0 <= i < |rs| && rs[i].start <= a < rs[i].end
  }

  class Memory {
    var pages: PageMap
    var heap: Allocator.Heap
    const segments: seq<Segment>

    ghost predicate Valid()
      reads this
    {
      WellFormed(pages) && Allocator.Valid(heap)
    }

    /** A fresh memory: the segment pages of the loaded image and an empty heap. */
    constructor (image: PageMap, segments: seq<Segment>)
      requires WellFormed(image)
      ensures Valid()
      ensures pages == image && heap == Allocator.EMPTY && this.segments == segments
    {
      pages := image;
      heap := Allocator.EMPTY;
      this.segments := segments;
    }

    /** Memory.read: size bytes from address a; unmapped bytes are zero. */
    function Read(a: nat, size: nat): (r: seq<Byte>)
      reads this
      requires Valid()
      ensures |r| == size
      ensures forall i :: 0 <= i < size && !Mapped(pages, a + i) ==> r[i] == 0
    {
      Pages.Read(pages, a, size)
    }

    /** Memory.write: the bytes land at a .. a + |data| - 1, mapping pages as needed. */
    method Write(a: nat, data: seq<Byte>)
      requires Valid()
      modifies this
      ensures Valid()
      ensures pages == Store(old(pages), a, data)
      ensures heap == old(heap)
    {
      pages := WriteBytes(pages, a, data);
    }

    /** Memory.find: the lowest address in [start, end) at which the whole
        needle lies in mapped memory, or -1. */
    method Find(needle: seq<Byte>, start: Option<nat>, end: Option<nat>) returns (r: int)
      requires Valid()
      ensures IsFind(pages, needle, start, end, r)
    {
      if start.Some? && end.Some? && end.value <= start.value {
        return -1;
      }
      if pages.Keys == {} {
        return -1;
      }
      var low, high := Extremes(pages.Keys);
      var lo: nat := if start.Some? then start.value else low;
      var hi: nat := if end.Some? then end.value else high + PAGE_SIZE;
      assert forall y: nat :: start.GetOr(0) <= y < lo ==> !MatchAt(pages, needle, y);
      var x := lo;
      while x + |needle| <= hi
        invariant lo <= x
        invariant forall y: nat :: start.GetOr(0) <= y < x ==> !MatchAt(pages, needle, y)
        decreases hi - x
      {
        if MatchAt(pages, needle, x) {
          return x;
        }
        x := x + 1;
      }
      forall y: nat | x <= y && Fits(y, |needle|, end) ensures !MatchAt(pages, needle, y) {
        MatchBelow(pages, needle, y, high);
      }
      return -1;
    }

    /** Memory.find_in_segment: find restricted to the named segment's range;
        -1 when no segment has that name. */
    method FindInSegment(needle: seq<Byte>, name: string) returns (r: int)
      requires Valid()
      ensures SegmentNamed(segments, name).None? ==> r == -1
      ensures SegmentNamed(segments, name).Some? ==>
        var s := SegmentNamed(segments, name).value;
        IsFind(pages, needle, Some(s.start), Some(s.end), r)
    {
      match SegmentNamed(segments, name)
      case None =>
        r := -1;
      case Some(s) =>
        r := Find(needle, Some(s.start), Some(s.end));
    }

    /** Memory.find_in_heap: find restricted to [HEAP_BASE, end of the highest
        live block); the slack after it is not searched. */
    method FindInHeap(needle: seq<Byte>) returns (r: int)
      requires Valid()
      ensures IsFind(pages, needle, Some(Allocator.HEAP_BASE), Some(Allocator.End(heap)), r)
    {
      r := Find(needle, Some(Allocator.HEAP_BASE), Some(Allocator.End(heap)));
    }

    /** Memory.alloc: a new block at the heap top. */
    method Alloc(size: nat) returns (a: nat)
      requires Valid()
      modifies this
      ensures Valid()
      ensures (heap, a) == Allocator.Alloc(old(heap), size)
      ensures pages == old(pages)
    {
      Allocator.AllocValid(heap, size);
      var (h, addr) := Allocator.Alloc(heap, size);
      heap := h;
      a := addr;
    }

    /** Memory.realloc: None, with nothing changed, when no live block starts
        at addr; otherwise the new state of ReallocState. */
    method Realloc(addr: nat, size: nat) returns (r: Option<nat>)
      requires Valid()
      modifies this
      ensures Valid()
      ensures ReallocState(old(pages), old(heap), addr, size).None? ==>
        r.None? && pages == old(pages) && heap == old(heap)
      ensures ReallocState(old(pages), old(heap), addr, size).Some? ==>
        var (pm, h, a) := ReallocState(old(pages), old(heap), addr, size).value;
        r == Some(a) && pages == pm && heap == h
    {
      match Allocator.IndexOf(heap.blocks, addr)
      case None =>
        r := None;
      case Some(i) =>
        Allocator.ReallocValid(heap, addr, size, i);
        var (h, a) := Allocator.Realloc(heap, addr, size).value;
        if a != addr {
          var old_size := heap.blocks[i].size;
          var keep := if old_size < size then old_size else size;
          var data := Read(addr, keep);
          Write(a, data);
        }
        heap := h;
        r := Some(a);
    }

    /** The memory summary: the mapped pages as runs of contiguous pages, in
        ascending order, one row per run (base, start - end, size = end - start).
        Runs are separated by at least one unmapped page, so each is maximal. */
    method Regions() returns (rs: seq<Region>)
      requires Valid()
      ensures forall i :: 0 <= i < |rs| ==>
        rs[i].start % PAGE_SIZE == 0 && rs[i].end % PAGE_SIZE == 0 && rs[i].start < rs[i].end
      ensures forall i, j :: 0 <= i < j < |rs| ==> rs[i].end < rs[j].start
      ensures forall k: nat :: k % PAGE_SIZE == 0 ==> (k in pages <==> Covered(rs, k))
    {
      rs := [];
      var left := pages.Keys;
      while left != {}
        invariant SummaryInv(pages, rs, left)
        decreases left
      {
        var lo, _ := Extremes(left);
        ghost var before := left;
        var hi;
        hi, left := ExtendRun(left, lo);
        SummaryStep(pages, rs, before, lo, hi, left);
        rs := rs + [Region(lo, hi)];
      }
    }
  }

  /** From the lowest remaining page lo, the end of the run of contiguous
      remaining pages, and what remains once that run is taken out. */
  method ExtendRun(before: set<nat>, lo: nat) returns (hi: nat, left: set<nat>)
    requires lo in before && forall k :: k in before ==> k % PAGE_SIZE == 0
    ensures lo < hi && hi % PAGE_SIZE == 0 && hi !in left && left <= before
    ensures forall k :: k in before ==> (k in left <==> !(lo <= k < hi))
    ensures forall k: nat :: lo <= k < hi && k % PAGE_SIZE == 0 ==> k in before
  {
    hi := lo + PAGE_SIZE;
    left := before - {lo};
    while hi in left
      invariant lo < hi && hi % PAGE_SIZE == 0
      invariant left <= before
      invariant forall k :: k in before ==> (k in left <==> !(lo <= k < hi))
      invariant forall k: nat :: lo <= k < hi && k % PAGE_SIZE == 0 ==> k in before
      decreases left
    {
      left := left - {hi};
      hi := hi + PAGE_SIZE;
    }
  }

  /** The loop invariant of Regions: the runs found so far are aligned,
      ascending and separated, they cover exactly the mapped pages not left
      to do, and every page left to do lies above the last run. */
  ghost predicate SummaryInv(pages: PageMap, rs: seq<Region>, left: set<nat>) {
    && left <= pages.Keys
    && (forall i :: 0 <= i < |rs| ==>
          rs[i].start % PAGE_SIZE == 0 && rs[i].end % PAGE_SIZE == 0 && rs[i].start < rs[i].end)
    && (forall i, j :: 0 <= i < j < |rs| ==> rs[i].end < rs[j].start)
    && (forall k: nat :: k % PAGE_SIZE == 0 ==> (k in pages && k !in left <==> Covered(rs, k)))
    && (forall k :: k in left ==> |rs| == 0 || rs[|rs| - 1].end < k)
  }

  /** An address is covered by the regions with one more appended exactly
      when the old ones or the new one cover it. */
  lemma CoveredAppend(rs: seq<Region>, r: Region, a: nat)
    ensures Covered(rs + [r], a) <==> Covered(rs, a) || r.start <= a < r.end
  {
    var rs' := rs + [r];
    if Covered(rs', a) {
      var i :| 0 <= i < |rs'| && rs'[i].start <= a < rs'[i].end;
      if i < |rs| { assert rs[i] == rs'[i]; }
    }
    if Covered(rs, a) {
      var i :| 0 <= i < |rs| && rs[i].start <= a < rs[i].end;
      assert rs'[i] == rs[i];
    }
    if r.start <= a < r.end {
      assert rs'[|rs|] == r;
    }
  }

  /** Taking the lowest remaining page and the run of mapped pages above it as
      one more region keeps the invariant. */
  lemma SummaryStep(pages: PageMap, rs: seq<Region>, before: set<nat>, lo: nat, hi: nat, left: set<nat>)
    requires WellFormed(pages)
    requires SummaryInv(pages, rs, before)
    requires lo in before && forall k :: k in before ==> lo <= k
    requires lo < hi && hi % PAGE_SIZE == 0 && hi !in left && left <= before
    requires forall k :: k in before ==> (k in left <==> !(lo <= k < hi))
    requires forall k: nat :: lo <= k < hi && k % PAGE_SIZE == 0 ==> k in before
    ensures SummaryInv(pages, rs + [Region(lo, hi)], left)
  {
    SummaryCovers(pages, rs, before, lo, hi, left);
    SummaryOrdered(rs, before, lo, hi);
    forall k | k in left ensures (rs + [Region(lo, hi)])[|rs|].end < k {
      assert k in before && !(lo <= k < hi);
    }
  }

  /** The coverage part of SummaryStep. */
  lemma SummaryCovers(pages: PageMap, rs: seq<Region>, before: set<nat>, lo: nat, hi: nat, left: set<nat>)
    requires forall k: nat :: k % PAGE_SIZE == 0 ==> (k in pages && k !in before <==> Covered(rs, k))
    requires left <= before && before <= pages.Keys
    requires forall k :: k in before ==> (k in left <==> !(lo <= k < hi))
    requires forall k: nat :: lo <= k < hi && k % PAGE_SIZE == 0 ==> k in before
    ensures forall k: nat :: k % PAGE_SIZE == 0 ==> (k in pages && k !in left <==> Covered(rs + [Region(lo, hi)], k))
  {
    forall k: nat | k % PAGE_SIZE == 0
      ensures k in pages && k !in left <==> Covered(rs + [Region(lo, hi)], k)
    {
      CoveredAppend(rs, Region(lo, hi), k);
    }
  }

  /** The ordering part of SummaryStep: the new region starts above every
      earlier one. */
  lemma SummaryOrdered(rs: seq<Region>, before: set<nat>, lo: nat, hi: nat)
    requires forall i :: 0 <= i < |rs| ==> rs[i].start < rs[i].end
    requires forall i, j :: 0 <= i < j < |rs| ==> rs[i].end < rs[j].start
    requires lo in before && forall k :: k in before ==> |rs| == 0 || rs[|rs| - 1].end < k
    requires lo % PAGE_SIZE == 0 && hi % PAGE_SIZE == 0 && lo < hi
    ensures forall i, j :: 0 <= i < j < |rs| + 1 ==> (rs + [Region(lo, hi)])[i].end < (rs + [Region(lo, hi)])[j].start
  {
    var rs' := rs + [Region(lo, hi)];
    forall i, j | 0 <= i < j < |rs'| ensures rs'[i].end < rs'[j].start {
      if j == |rs| && i < |rs| {
        assert rs[|rs| - 1].end < lo;
        if i < |rs| - 1 { assert rs[i].end < rs[|rs| - 1].start; }
      }
    }
  }
}
