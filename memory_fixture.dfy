/**
 * The memory scenario of tests/test_function_tracing.py, stated on the pure
 * page-map functions and, for the region summary, on a Memory object: ten bytes "helloworld" written at 0x00121FFB, across
 * the edge between the pages 0x00121000 and 0x00122000, into a memory whose
 * loaded segments all lie at or above 0x00401000.
 */
module MemoryFixture {
  import opened Wrappers
  import opened Pages
  import opened Memory

  const AT: nat := 0x0012_1FFB

  /** s is the ten bytes "helloworld", byte by byte. */
  predicate IsHello(s: seq<Byte>) {
    && |s| == 10
    && s[0] == 0x68 && s[1] == 0x65 && s[2] == 0x6C && s[3] == 0x6C && s[4] == 0x6F
    && s[5] == 0x77 && s[6] == 0x6F && s[7] == 0x72 && s[8] == 0x6C && s[9] == 0x64
  }

  /** Every page of the loaded image lies at or above the first segment. */
  ghost predicate ImageAbove(pm: PageMap) {
    forall base :: base in pm ==> 0x0040_1000 <= base
  }

  /** A match starts with the needle's first byte. */
  lemma MatchAtFirst(pm: PageMap, needle: seq<Byte>, x: nat)
    requires WellFormed(pm) && needle != []
    ensures MatchAt(pm, needle, x) ==> ByteAt(pm, x) == needle[0]
  {
    if MatchAt(pm, needle, x) {
      assert ByteMatches(pm, needle, x, 0);
    }
  }

  /** Every written byte lies on one of the two pages. */
  lemma OnWrittenPages(x: nat)
    requires AT <= x < AT + 10
    ensures PageBase(x) == 0x0012_1000 || PageBase(x) == 0x0012_2000
  {
    if x < 0x0012_2000 {
      PageBaseOf(x, 0x0012_1000);
    } else {
      PageBaseOf(x, 0x0012_2000);
    }
  }

  /** The write crosses one page edge and so maps exactly two pages. */
  lemma HelloPages(pm: PageMap, data: seq<Byte>)
    requires WellFormed(pm) && |data| == 10
    ensures Store(pm, AT, data).Keys == pm.Keys + {0x0012_1000, 0x0012_2000}
  {
    StoreMapsSpannedPages(pm, AT, data);
    PageBaseOf(AT, 0x0012_1000);
    PageBaseOf(AT + 5, 0x0012_2000);
    forall p | p in Spanned(AT, 10) ensures p == 0x0012_1000 || p == 0x0012_2000 {
      var x :| AT <= x < AT + 10 && p == PageBase(x);
      OnWrittenPages(x);
    }
  }

  /** Below the write there is either no mapped page or a zero byte, so no
      needle that starts with a non-zero byte matches there. */
  lemma NoMatchBelow(pm: PageMap, data: seq<Byte>, needle: seq<Byte>, x: nat)
    requires WellFormed(pm) && ImageAbove(pm) && |data| == 10
    requires needle != [] && needle[0] != 0 && x < AT
    ensures !MatchAt(Store(pm, AT, data), needle, x)
  {
    var pm' := Store(pm, AT, data);
    HelloPages(pm, data);
    ByteAtStore(pm, AT, data, x);
    assert PageBase(x) < 0x0040_1000;
    assert ByteAt(pm', x) == 0;
    MatchAtFirst(pm', needle, x);
  }

  /** Each written byte is mapped and reads back as written. */
  lemma WrittenByte(pm: PageMap, data: seq<Byte>, x: nat)
    requires WellFormed(pm) && |data| == 10 && AT <= x < AT + 10
    ensures Mapped(Store(pm, AT, data), x) && ByteAt(Store(pm, AT, data), x) == data[x - AT]
  {
    HelloPages(pm, data);
    ByteAtStore(pm, AT, data, x);
    OnWrittenPages(x);
    assert PageBase(x) in Store(pm, AT, data).Keys;
  }

  /** The written bytes are all mapped and read back, so the write matches at AT. */
  lemma MatchAtWrite(pm: PageMap, data: seq<Byte>, k: nat, needle: seq<Byte>)
    requires WellFormed(pm) && |data| == 10
    requires needle != [] && k + |needle| <= |data|
    requires forall i :: 0 <= i < |needle| ==> needle[i] == data[k + i]
    ensures MatchAt(Store(pm, AT, data), needle, AT + k)
  {
    MatchInWrite(pm, data, AT + k, needle);
  }

  /** The same, for a match at any address x inside the write. */
  lemma MatchInWrite(pm: PageMap, data: seq<Byte>, x: nat, needle: seq<Byte>)
    requires WellFormed(pm) && |data| == 10
    requires needle != [] && AT <= x && x + |needle| <= AT + 10
    requires forall i :: 0 <= i < |needle| ==> needle[i] == data[x - AT + i]
    ensures MatchAt(Store(pm, AT, data), needle, x)
  {
    var pm' := Store(pm, AT, data);
    WrittenByte(pm, data, x);
    forall i | 0 <= i < |needle| ensures ByteMatches(pm', needle, x, i) {
      WrittenByte(pm, data, x + i);
      assert data[x + i - AT] == data[x - AT + i] == needle[i];
    }
    assert MatchAt(pm', needle, x);
  }

  /** A never-written page of the heap-free range reads as zeros. */
  lemma ReadFresh(pm: PageMap)
    requires WellFormed(pm) && ImageAbove(pm)
    ensures Read(pm, 0x0012_1000, 10) == Zeros(10)
  {
    forall y | 0x0012_1000 <= y < 0x0012_1000 + 10 ensures !Mapped(pm, y) {
      assert PageBase(y) < 0x0040_1000;
    }
    ReadUnmapped(pm, 0x0012_1000, 10);
  }

  /** The ten bytes after the write were never written and read as zeros. */
  lemma ReadAfter(pm: PageMap, data: seq<Byte>)
    requires WellFormed(pm) && ImageAbove(pm) && |data| == 10
    ensures Read(Store(pm, AT, data), AT + 10, 10) == Zeros(10)
  {
    ReadStoreDisjoint(pm, AT, data, AT + 10, 10);
    forall y | AT + 10 <= y < AT + 20 ensures !Mapped(pm, y) {
      assert PageBase(y) < 0x0040_1000;
    }
    ReadUnmapped(pm, AT + 10, 10);
  }

  /** A read from the middle of the write: its last five bytes, then zeros. */
  lemma ReadStraddling(pm: PageMap, data: seq<Byte>)
    requires WellFormed(pm) && ImageAbove(pm) && |data| == 10
    ensures Read(Store(pm, AT, data), AT + 5, 10) == data[5..] + Zeros(5)
  {
    ReadStoreTail(pm, AT, data, 5, 10);
    forall y | AT + 10 <= y < AT + 15 ensures !Mapped(pm, y) {
      assert PageBase(y) < 0x0040_1000;
    }
    ReadUnmapped(pm, AT + 10, 5);
  }

  /** The reads of the test (hello is the ten bytes "helloworld"): zeros on a
      never-written page, the data back across the page edge, zeros after
      it, and "world" followed by zeros for a read straddling its end. */
  lemma TestReads(pm: PageMap, hello: seq<Byte>)
    requires WellFormed(pm) && ImageAbove(pm) && IsHello(hello)
    ensures Read(pm, 0x0012_1000, 10) == Zeros(10)
    ensures Read(Store(pm, AT, hello), AT, 10) == hello
    ensures Read(Store(pm, AT, hello), AT + 10, 10) == Zeros(10)
    ensures Read(Store(pm, AT, hello), AT + 5, 10) == [0x77, 0x6F, 0x72, 0x6C, 0x64] + Zeros(5)
  {
    ReadFresh(pm);
    ReadStore(pm, AT, hello);
    ReadAfter(pm, hello);
    ReadStraddling(pm, hello);
    assert hello[5..] == [0x77, 0x6F, 0x72, 0x6C, 0x64];
  }

  /** The searches of the test for the whole write: found at AT from any
      start below it, and not found in windows that end before its last byte. */
  lemma TestFindWrite(pm: PageMap, hello: seq<Byte>)
    requires WellFormed(pm) && ImageAbove(pm) && IsHello(hello)
    ensures IsFind(Store(pm, AT, hello), hello, Some(0x0001_1050), None, AT)
    ensures IsFind(Store(pm, AT, hello), hello, None, None, AT)
    ensures IsFind(Store(pm, AT, hello), hello, None, Some(0x10), -1)
    ensures IsFind(Store(pm, AT, hello), hello, Some(0x0001_1050), Some(AT), -1)
    ensures IsFind(Store(pm, AT, hello), hello, Some(0x0001_1050), Some(0x0012_2000), -1)
    ensures IsFind(Store(pm, AT, hello), hello, Some(0x0001_1050), Some(0x0012_2100), AT)
  {
    var pm' := Store(pm, AT, hello);
    MatchAtWrite(pm, hello, 0, hello);
    forall x: nat | x < AT ensures !MatchAt(pm', hello, x) {
      NoMatchBelow(pm, hello, hello, x);
    }
  }

  /** The single-byte searches of the test: "h" is the first written byte,
      and "o" is first found four bytes further on. */
  lemma TestFindByte(pm: PageMap, hello: seq<Byte>)
    requires WellFormed(pm) && ImageAbove(pm) && IsHello(hello)
    ensures IsFind(Store(pm, AT, hello), [0x68], Some(0x0001_1050), None, AT)
    ensures IsFind(Store(pm, AT, hello), [0x68], Some(0x0001_1050), Some(AT), -1)
    ensures IsFind(Store(pm, AT, hello), [0x68], Some(0x0001_1050), Some(AT + 1), AT)
    ensures IsFind(Store(pm, AT, hello), [0x6F], Some(0x0001_1050), None, AT + 4)
  {
    var pm' := Store(pm, AT, hello);
    MatchAtWrite(pm, hello, 0, [0x68]);
    MatchAtWrite(pm, hello, 4, [0x6F]);
    forall x: nat | x < AT ensures !MatchAt(pm', [0x68], x) && !MatchAt(pm', [0x6F], x) {
      NoMatchBelow(pm, hello, [0x68], x);
      NoMatchBelow(pm, hello, [0x6F], x);
    }
    forall x: nat | AT <= x < AT + 4 ensures !MatchAt(pm', [0x6F], x) {
      ByteAtStore(pm, AT, hello, x);
      var j := x - AT;
      assert j == 0 || j == 1 || j == 2 || j == 3;
      assert ByteAt(pm', x) == hello[j] != 0x6F;
      MatchAtFirst(pm', [0x6F], x);
    }
  }

  /** Two page-aligned addresses: the lower one is a full page below. */
  lemma NextPage(lo: nat, hi: nat)
    requires lo % PAGE_SIZE == 0 && hi % PAGE_SIZE == 0 && lo < hi
    ensures lo + PAGE_SIZE <= hi
  {
    var p, q := lo / PAGE_SIZE, hi / PAGE_SIZE;
    assert lo == p * PAGE_SIZE && hi == q * PAGE_SIZE;
  }

  /** Any region summary of pages 0x00121000 and 0x00122000 over an image
      lying at or above 0x00401000 opens with the row 0x00121000 - 0x00123000. */
  lemma FirstRow(pm: PageMap, rs: seq<Region>)
    requires 0x0012_1000 in pm && 0x0012_2000 in pm
    requires forall base :: base in pm ==> base == 0x0012_1000 || base == 0x0012_2000 || 0x0040_1000 <= base
    requires forall i :: 0 <= i < |rs| ==>
               rs[i].start % PAGE_SIZE == 0 && rs[i].end % PAGE_SIZE == 0 && rs[i].start < rs[i].end
    requires forall i, j :: 0 <= i < j < |rs| ==> rs[i].end < rs[j].start
    requires forall k: nat :: k % PAGE_SIZE == 0 ==> (k in pm <==> Covered(rs, k))
    ensures |rs| > 0 && rs[0] == Region(0x0012_1000, 0x0012_3000)
  {
    forall j | 0 <= j < |rs| ensures 0x0012_1000 <= rs[j].start {
      assert Covered(rs, rs[j].start);
    }
    assert Covered(rs, 0x0012_1000);
    var i :| 0 <= i < |rs| && rs[i].start <= 0x0012_1000 < rs[i].end;
    forall j | 0 < j < |rs| ensures rs[0].end < rs[j].start && 0x0012_1000 < rs[j].start {
      assert rs[0].start < rs[0].end;
    }
    assert i == 0;
    NextPage(rs[0].start, rs[0].end);
    assert Covered(rs, 0x0012_2000);
    var j :| 0 <= j < |rs| && rs[j].start <= 0x0012_2000 < rs[j].end;
    assert j == 0;
    NextPage(0x0012_2000, rs[0].end);
    assert !Covered(rs, 0x0012_3000);
  }

  /** The scenario on a Memory object (hello is the ten bytes "helloworld"):
      after the write at 0x00121FFB, the first row of the region summary is
      0x00121000 - 0x00123000, eight kilobytes. */
  method TestSummary(image: PageMap, segments: seq<Segment>, hello: seq<Byte>) returns (first: Region)
    requires WellFormed(image) && ImageAbove(image) && IsHello(hello)
    ensures first == Region(0x0012_1000, 0x0012_3000) && first.end - first.start == 8192
  {
    var m := new Memory(image, segments);
    m.Write(AT, hello);
    HelloPages(image, hello);
    var rs := m.Regions();
    FirstRow(m.pages, rs);
    first := rs[0];
  }
}
