/**
 * The byte store under the emulator's Memory: a sparse map from page base
 * address to one page of bytes. A page comes into existence zero-filled the
 * first time a byte in it is written; a byte whose page was never mapped
 * reads as zero. Everything here is a pure function of the page map, so the
 * Memory class can state each of its updates as one of these functions.
 */
module Pages {
  type Byte = bv8

  /** Size of one page; the region summary of the test (0x00121000 - 0x00123000
      after a ten-byte write at 0x00121FFB) fixes it to 0x1000. */
  const PAGE_SIZE: nat := 0x1000

  type PageMap = map<nat, seq<Byte>>

  /** Every key is page aligned and every page holds exactly PAGE_SIZE bytes. */
  ghost predicate WellFormed(pm: PageMap) {
    forall base :: base in pm ==> base % PAGE_SIZE == 0 && |pm[base]| == PAGE_SIZE
  }

  function Zeros(n: nat): (z: seq<Byte>)
    ensures |z| == n && forall i :: 0 <= i < n ==> z[i] == 0
  {
    seq(n, _ => 0)
  }

  /** The base address of the page holding address a (a & ~(PAGE_SIZE - 1)). */
  function PageBase(a: nat): (b: nat)
    ensures b % PAGE_SIZE == 0 && b <= a < b + PAGE_SIZE
  {
    a - a % PAGE_SIZE
  }

  /** The page base of an address inside the page starting at b is b. */
  lemma PageBaseOf(a: nat, b: nat)
    requires b % PAGE_SIZE == 0 && b <= a < b + PAGE_SIZE
    ensures PageBase(a) == b
  {
    var q := b / PAGE_SIZE;
    assert b == q * PAGE_SIZE;
  }

  predicate Mapped(pm: PageMap, a: nat) {
    PageBase(a) in pm
  }

  /** The byte at address a: taken from its page, or zero when unmapped. */
  function ByteAt(pm: PageMap, a: nat): Byte
    requires WellFormed(pm)
  {
    var base := PageBase(a);
    if base in pm then pm[base][a - base] else 0
  }

  /** Memory.read: exactly size bytes starting at a, stitched across pages. */
  function Read(pm: PageMap, a: nat, size: nat): (r: seq<Byte>)
    requires WellFormed(pm)
    ensures |r| == size
    ensures forall i :: 0 <= i < size ==> r[i] == ByteAt(pm, a + i)
  {
    seq(size, i requires 0 <= i < size => ByteAt(pm, a + i))
  }

  /** One byte written: the page is created zero-filled if it was unmapped. */
  function StoreByte(pm: PageMap, a: nat, b: Byte): (r: PageMap)
    requires WellFormed(pm)
    ensures WellFormed(r)
  {
    var base := PageBase(a);
    var page := if base in pm then pm[base] else Zeros(PAGE_SIZE);
    pm[base := page[a - base := b]]
  }

  /** A one-byte write maps the byte's page, sets that byte and no other. */
  lemma StoreByteFacts(pm: PageMap, a: nat, b: Byte)
    requires WellFormed(pm)
    ensures StoreByte(pm, a, b).Keys == pm.Keys + {PageBase(a)}
    ensures ByteAt(StoreByte(pm, a, b), a) == b
    ensures forall x :: x != a ==> ByteAt(StoreByte(pm, a, b), x) == ByteAt(pm, x)
  {
  }

  /** Memory.write: data written byte after byte from address a on. */
  function Store(pm: PageMap, a: nat, data: seq<Byte>): (r: PageMap)
    requires WellFormed(pm)
    ensures WellFormed(r)
    decreases |data|
  {
    if data == [] then pm else Store(StoreByte(pm, a, data[0]), a + 1, data[1..])
  }

  /** Store unfolded at position i of the data: writing data[i..] from a + i
      is writing data[i] and then data[i + 1..] from the next address. */
  lemma StoreStep(pm: PageMap, a: nat, data: seq<Byte>, i: nat)
    requires WellFormed(pm) && i < |data|
    ensures Store(pm, a + i, data[i..]) == Store(StoreByte(pm, a + i, data[i]), a + i + 1, data[i + 1..])
  {
    assert data[i..][1..] == data[i + 1..];
  }

  /** The pages a write of n bytes at a touches. */
  ghost function Spanned(a: nat, n: nat): set<nat> {
    set x | a <= x < a + n :: PageBase(x)
  }

  /** A write maps exactly the pages it touches and no others. */
  lemma {:induction false} StoreMapsSpannedPages(pm: PageMap, a: nat, data: seq<Byte>)
    requires WellFormed(pm)
    ensures Store(pm, a, data).Keys == pm.Keys + Spanned(a, |data|)
    decreases |data|
  {
    if data == [] {
      assert Spanned(a, 0) == {};
    } else {
      var pm' := StoreByte(pm, a, data[0]);
      StoreByteFacts(pm, a, data[0]);
      StoreMapsSpannedPages(pm', a + 1, data[1..]);
      SpannedStep(a, |data| - 1);
    }
  }

  /** The pages of an (n + 1)-byte range are the first byte's page and the
      pages of the n bytes after it. */
  lemma SpannedStep(a: nat, n: nat)
    ensures Spanned(a, n + 1) == {PageBase(a)} + Spanned(a + 1, n)
  {
    var whole, rest := Spanned(a, n + 1), Spanned(a + 1, n);
    forall p | p in whole ensures p in {PageBase(a)} + rest {
      var x :| a <= x < a + n + 1 && p == PageBase(x);
      if x > a { assert a + 1 <= x < a + 1 + n; }
    }
    forall p | p in rest ensures p in whole {
      var x :| a + 1 <= x < a + 1 + n && p == PageBase(x);
      assert a <= x < a + n + 1;
    }
  }

  /** After a write, each byte of the written range holds the written value and
      every other byte is unchanged, whichever pages the range crosses. */
  lemma {:induction false} ByteAtStore(pm: PageMap, a: nat, data: seq<Byte>, x: nat)
    requires WellFormed(pm)
    ensures ByteAt(Store(pm, a, data), x) == if a <= x < a + |data| then data[x - a] else ByteAt(pm, x)
    decreases |data|
  {
    if data != [] {
      StoreByteFacts(pm, a, data[0]);
      ByteAtStore(StoreByte(pm, a, data[0]), a + 1, data[1..], x);
    }
  }

  /** Write/read round trip: reading back the written range returns the data. */
  lemma ReadStore(pm: PageMap, a: nat, data: seq<Byte>)
    requires WellFormed(pm)
    ensures Read(Store(pm, a, data), a, |data|) == data
  {
    forall i | 0 <= i < |data| ensures Read(Store(pm, a, data), a, |data|)[i] == data[i] {
      ByteAtStore(pm, a, data, a + i);
    }
  }

  /** A read of a range the write does not touch sees the old bytes. */
  lemma ReadStoreDisjoint(pm: PageMap, a: nat, data: seq<Byte>, x: nat, n: nat)
    requires WellFormed(pm)
    requires x + n <= a || a + |data| <= x
    ensures Read(Store(pm, a, data), x, n) == Read(pm, x, n)
  {
    forall i | 0 <= i < n ensures Read(Store(pm, a, data), x, n)[i] == Read(pm, x, n)[i] {
      ByteAtStore(pm, a, data, x + i);
    }
  }

  /** A read that starts inside a write returns the written tail followed by
      whatever was there before. */
  lemma ReadStoreTail(pm: PageMap, a: nat, data: seq<Byte>, k: nat, n: nat)
    requires WellFormed(pm)
    requires k <= |data| <= k + n
    ensures Read(Store(pm, a, data), a + k, n) == data[k..] + Read(pm, a + |data|, n - (|data| - k))
  {
    var r := Read(Store(pm, a, data), a + k, n);
    var t := data[k..] + Read(pm, a + |data|, n - (|data| - k));
    forall i | 0 <= i < n ensures r[i] == t[i] {
      ByteAtStore(pm, a, data, a + k + i);
    }
  }

  /** Reads of never-mapped memory return zero bytes. */
  lemma ReadUnmapped(pm: PageMap, x: nat, n: nat)
    requires WellFormed(pm)
    requires forall y :: x <= y < x + n ==> !Mapped(pm, y)
    ensures Read(pm, x, n) == Zeros(n)
  {
    forall i | 0 <= i < n ensures Read(pm, x, n)[i] == 0 {
      assert !Mapped(pm, x + i);
    }
  }

  /** Reading n + m bytes is reading n bytes and then the following m bytes:
      the stitching at page edges loses and duplicates nothing. */
  lemma ReadSplit(pm: PageMap, a: nat, n: nat, m: nat)
    requires WellFormed(pm)
    ensures Read(pm, a, n + m) == Read(pm, a, n) + Read(pm, a + n, m)
  {
    var l := Read(pm, a, n + m);
    var r := Read(pm, a, n) + Read(pm, a + n, m);
    forall i | 0 <= i < n + m ensures l[i] == r[i] {
      if i >= n { assert r[i] == Read(pm, a + n, m)[i - n]; }
    }
  }

  /** The greatest mapped page base plus one page: every byte at or above it is zero. */
  ghost function Ceiling(pm: PageMap): (c: nat)
    ensures forall base :: base in pm ==> base + PAGE_SIZE <= c
    decreases |pm.Keys|
  {
    if pm == map[] then 0
    else
      var k :| k in pm;
      var rest := Ceiling(pm - {k});
      assert forall base :: base in pm ==> base == k || base in pm - {k};
      if k + PAGE_SIZE > rest then k + PAGE_SIZE else rest
  }

  lemma ZeroAboveCeiling(pm: PageMap, x: nat)
    requires WellFormed(pm)
    requires Ceiling(pm) <= x
    ensures !Mapped(pm, x) && ByteAt(pm, x) == 0
  {
  }
}
