/**
 * The emulated C string routines. Each works on the emulated memory of a
 * context: it reads its string arguments from memory, writes its result
 * back through Memory.write and returns what the C function returns.
 *
 * A string is a run of units ending at the first unit whose bytes are all
 * zero. Narrow routines (str...) use 1-byte units, wide ones (wcs...) use
 * 2-byte units; since only the all-zero unit matters, the wide routines
 * behave the same for either byte order.
 */
module Builtins {
  import opened Pages
  import Allocator
  import Memory

  // ---- units ----

  /** The width of one character unit in bytes. */
  type Width = u: nat | u == 1 || u == 2 witness 1

  /** The unit width a routine works in: 2 bytes for the wcs... names. */
  function UnitSize(name: string): (u: Width)
    ensures u == 2 <==> |name| >= 3 && name[..3] == "wcs"
  {
    if |name| >= 3 && name[..3] == "wcs" then 2 else 1
  }

  /** The number of bytes in n units. */
  function Bytes(n: nat, u: Width): nat {
    if u == 1 then n else n + n
  }

  /** Byte offset j falls on a unit boundary. */
  predicate Aligned(j: nat, u: Width) {
    u == 1 || j % 2 == 0
  }

  /** The first unit of s is the nul unit: all its bytes are zero. */
  predicate IsNulUnit(s: seq<Byte>, u: Width)
    requires |s| >= u
  {
    s[0] == 0 && (u == 2 ==> s[1] == 0)
  }

  /** s is a whole number of units, none of them the nul unit. */
  ghost predicate NoNulUnits(s: seq<Byte>, u: Width)
    decreases |s|
  {
    s == [] || (|s| >= u && !IsNulUnit(s, u) && NoNulUnits(s[u..], u))
  }

  // ---- bytes in a page map ----

  /** Memory holds the bytes s from address p on. */
  ghost predicate Holds(pm: PageMap, p: nat, s: seq<Byte>)
    requires WellFormed(pm)
  {
    forall i :: 0 <= i < |s| ==> ByteAt(pm, p + i) == s[i]
  }

  /** The unit at p. */
  function UnitAt(pm: PageMap, p: nat, u: Width): (r: seq<Byte>)
    requires WellFormed(pm)
    ensures |r| == u
  {
    if u == 1 then [ByteAt(pm, p)] else [ByteAt(pm, p), ByteAt(pm, p + 1)]
  }

  /** Memory holds the unit at p. */
  lemma UnitHeld(pm: PageMap, p: nat, u: Width)
    requires WellFormed(pm)
    ensures Holds(pm, p, UnitAt(pm, p, u))
  {
  }

  /** The unit at p is the nul unit. */
  predicate NulAt(pm: PageMap, p: nat, u: Width)
    requires WellFormed(pm)
  {
    ByteAt(pm, p) == 0 && (u == 2 ==> ByteAt(pm, p + 1) == 0)
  }

  /** Memory.read of one unit gives the unit at p. */
  lemma ReadUnit(pm: PageMap, p: nat, u: Width)
    requires WellFormed(pm)
    ensures Read(pm, p, u) == UnitAt(pm, p, u)
  {
    assert Read(pm, p, u)[0] == ByteAt(pm, p + 0);
  }

  /** Bytes held at p are, in two parts, held at p and at q, right after
      the first part. */
  lemma HoldsSplit(pm: PageMap, p: nat, a: seq<Byte>, b: seq<Byte>, q: nat)
    requires WellFormed(pm) && q == p + |a|
    ensures Holds(pm, p, a + b) <==> Holds(pm, p, a) && Holds(pm, q, b)
  {
    if Holds(pm, p, a) && Holds(pm, q, b) {
      forall i | 0 <= i < |a + b| ensures ByteAt(pm, p + i) == (a + b)[i] {
        if i >= |a| {
          assert ByteAt(pm, p + |a| + (i - |a|)) == b[i - |a|];
        }
      }
    }
    if Holds(pm, p, a + b) {
      forall i | 0 <= i < |a| ensures ByteAt(pm, p + i) == a[i] {
        assert ByteAt(pm, p + i) == (a + b)[i];
      }
      forall i | 0 <= i < |b| ensures ByteAt(pm, p + |a| + i) == b[i] {
        assert ByteAt(pm, p + (|a| + i)) == (a + b)[|a| + i];
      }
    }
  }

  /** Bytes held at p hold their suffix from offset k at q = p + k. */
  lemma HoldsSuffix(pm: PageMap, p: nat, s: seq<Byte>, k: nat, q: nat)
    requires WellFormed(pm) && Holds(pm, p, s) && k <= |s| && q == p + k
    ensures Holds(pm, q, s[k..])
  {
    forall i | 0 <= i < |s| - k ensures ByteAt(pm, q + i) == s[k..][i] {
      assert ByteAt(pm, p + (k + i)) == s[k + i];
    }
  }

  /** A write holds its bytes. */
  lemma HoldsStore(pm: PageMap, a: nat, data: seq<Byte>)
    requires WellFormed(pm)
    ensures Holds(Store(pm, a, data), a, data)
  {
    forall i | 0 <= i < |data| ensures ByteAt(Store(pm, a, data), a + i) == data[i] {
      ByteAtStore(pm, a, data, a + i);
    }
  }

  /** A write leaves bytes held outside it where they were. */
  lemma HoldsStoreDisjoint(pm: PageMap, a: nat, data: seq<Byte>, x: nat, s: seq<Byte>)
    requires WellFormed(pm) && Holds(pm, x, s)
    requires x + |s| <= a || a + |data| <= x
    ensures Holds(Store(pm, a, data), x, s)
  {
    forall i | 0 <= i < |s| ensures ByteAt(Store(pm, a, data), x + i) == s[i] {
      ByteAtStore(pm, a, data, x + i);
    }
  }

  /** A write leaves a nul unit outside it in place. */
  lemma NulAtStoreDisjoint(pm: PageMap, a: nat, data: seq<Byte>, x: nat, u: Width)
    requires WellFormed(pm) && NulAt(pm, x, u)
    requires x + u <= a || a + |data| <= x
    ensures NulAt(Store(pm, a, data), x, u)
  {
    ByteAtStore(pm, a, data, x);
    ByteAtStore(pm, a, data, x + 1);
  }

  /** Bytes held at p whose first unit is the nul unit put the nul unit at p. */
  lemma NulAtHeld(pm: PageMap, p: nat, s: seq<Byte>, u: Width)
    requires WellFormed(pm) && Holds(pm, p, s) && |s| >= u && IsNulUnit(s, u)
    ensures NulAt(pm, p, u)
  {
    assert ByteAt(pm, p + 0) == s[0];
    if u == 2 {
      assert ByteAt(pm, p + 1) == s[1];
    }
  }

  // ---- strings ----

  /** A unit that is not the nul unit lies below the highest mapped page. */
  lemma NonZeroBelowCeiling(pm: PageMap, p: nat, u: Width)
    requires WellFormed(pm)
    ensures !NulAt(pm, p, u) ==> p < Ceiling(pm)
  {
    if Ceiling(pm) <= p {
      ZeroAboveCeiling(pm, p);
      ZeroAboveCeiling(pm, p + 1);
    }
  }

  /** The string at p: the bytes of the units before the first nul unit. */
  ghost function Str(pm: PageMap, p: nat, u: Width): seq<Byte>
    requires WellFormed(pm)
    decreases Ceiling(pm) + u - p
  {
    if NulAt(pm, p, u) then []
    else
      NonZeroBelowCeiling(pm, p, u);
      UnitAt(pm, p, u) + Str(pm, p + u, u)
  }

  /** The string at p is whole non-nul units. */
  lemma {:induction false} StrNoNul(pm: PageMap, p: nat, u: Width)
    requires WellFormed(pm)
    ensures NoNulUnits(Str(pm, p, u), u)
    decreases |Str(pm, p, u)|
  {
    if !NulAt(pm, p, u) {
      StrNoNul(pm, p + u, u);
      var unit, rest := UnitAt(pm, p, u), Str(pm, p + u, u);
      assert (unit + rest)[u..] == rest;
    }
  }

  /** Memory holds the string at p. */
  lemma {:induction false} StrHeld(pm: PageMap, p: nat, u: Width)
    requires WellFormed(pm)
    ensures Holds(pm, p, Str(pm, p, u))
    decreases |Str(pm, p, u)|
  {
    if !NulAt(pm, p, u) {
      StrHeld(pm, p + u, u);
      UnitHeld(pm, p, u);
      HoldsSplit(pm, p, UnitAt(pm, p, u), Str(pm, p + u, u), p + u);
    }
  }

  /** A nul unit follows the string at p. */
  lemma {:induction false} StrEnd(pm: PageMap, p: nat, u: Width)
    requires WellFormed(pm)
    ensures NulAt(pm, p + |Str(pm, p, u)|, u)
    decreases |Str(pm, p, u)|
  {
    if !NulAt(pm, p, u) {
      StrEnd(pm, p + u, u);
      assert p + |Str(pm, p, u)| == p + u + |Str(pm, p + u, u)|;
    }
  }

  /** Memory holds the string at p from its k-th byte on at p + k, and the
      nul unit follows. */
  lemma StrSuffix(pm: PageMap, p: nat, u: Width, k: nat)
    requires WellFormed(pm) && k <= |Str(pm, p, u)|
    ensures Holds(pm, p + k, Str(pm, p, u)[k..]) && NulAt(pm, p + |Str(pm, p, u)|, u)
  {
    StrHeld(pm, p, u);
    StrEnd(pm, p, u);
    HoldsSuffix(pm, p, Str(pm, p, u), k, p + k);
  }

  /** The string at p is determined by that description: bytes s held at p
      that are whole non-nul units, followed by a nul unit, are the string. */
  lemma {:induction false} StrOf(pm: PageMap, p: nat, u: Width, s: seq<Byte>, e: nat)
    requires WellFormed(pm) && e == p + |s|
    requires Holds(pm, p, s) && NoNulUnits(s, u) && NulAt(pm, e, u)
    ensures Str(pm, p, u) == s
    decreases |s|
  {
    if s != [] {
      var unit, rest := s[..u], s[u..];
      FirstUnit(pm, p, s, u);
      HoldsSuffix(pm, p, s, u, p + u);
      StrOf(pm, p + u, u, rest, e);
      StrStep(pm, p, u);
      assert s == unit + rest;
    }
  }

  /** The first unit of bytes held at p is the unit at p, and it is the nul
      unit exactly when the unit at p is. */
  lemma FirstUnit(pm: PageMap, p: nat, s: seq<Byte>, u: Width)
    requires WellFormed(pm) && Holds(pm, p, s) && |s| >= u
    ensures UnitAt(pm, p, u) == s[..u]
    ensures NulAt(pm, p, u) <==> IsNulUnit(s, u)
  {
    assert ByteAt(pm, p + 0) == s[0];
    if u == 2 {
      assert ByteAt(pm, p + 1) == s[1];
    }
  }

  /** One step of reading a string: a nul unit ends it, any other unit is
      its first unit. */
  lemma StrStep(pm: PageMap, p: nat, u: Width)
    requires WellFormed(pm)
    ensures NulAt(pm, p, u) ==> Str(pm, p, u) == []
    ensures !NulAt(pm, p, u) ==> Str(pm, p, u) == UnitAt(pm, p, u) + Str(pm, p + u, u)
  {
  }

  lemma {:induction false} NoNulAppend(a: seq<Byte>, b: seq<Byte>, u: Width)
    requires NoNulUnits(a, u) && NoNulUnits(b, u)
    ensures NoNulUnits(a + b, u)
    decreases |a|
  {
    if a != [] {
      assert (a + b)[u..] == a[u..] + b;
      NoNulAppend(a[u..], b, u);
    } else {
      assert a + b == b;
    }
  }

  /** Cutting a string k units in leaves strings on both sides. */
  lemma {:induction false} NoNulSplit(s: seq<Byte>, u: Width, k: nat)
    requires NoNulUnits(s, u) && Bytes(k, u) <= |s|
    ensures NoNulUnits(s[..Bytes(k, u)], u) && NoNulUnits(s[Bytes(k, u)..], u)
    decreases k
  {
    if k > 0 {
      var j, j' := Bytes(k, u), Bytes(k - 1, u);
      assert j == u + j';
      NoNulSplit(s[u..], u, k - 1);
      assert s[u..][..j'] == s[u..j];
      assert s[..j][u..] == s[u..j];
      assert s[u..][j'..] == s[j..];
    } else {
      assert s[..0] == [] && s[0..] == s;
    }
  }

  lemma {:induction false} NoNulLength(s: seq<Byte>, u: Width)
    requires NoNulUnits(s, u)
    ensures Aligned(|s|, u)
    decreases |s|
  {
    if s != [] {
      NoNulLength(s[u..], u);
      assert |s| == |s[u..]| + u;
    }
  }

  /** The first n units of a string (all of it when it is shorter). */
  function TakeUnits(s: seq<Byte>, n: nat, u: Width): (r: seq<Byte>)
    ensures |r| <= |s| && r == s[..|r|]
    decreases n
  {
    if n == 0 || |s| < u then [] else s[..u] + TakeUnits(s[u..], n - 1, u)
  }

  lemma {:induction false} TakeUnitsOf(s: seq<Byte>, n: nat, u: Width)
    requires NoNulUnits(s, u)
    ensures NoNulUnits(TakeUnits(s, n, u), u)
    ensures TakeUnits(s, n, u) == s[..if Bytes(n, u) <= |s| then Bytes(n, u) else |s|]
    decreases n
  {
    if n > 0 && |s| >= u {
      TakeUnitsOf(s[u..], n - 1, u);
      var r := TakeUnits(s, n, u);
      assert r[..u] == s[..u] && r[u..] == TakeUnits(s[u..], n - 1, u);
      assert Bytes(n, u) == u + Bytes(n - 1, u);
    } else if n > 0 {
      assert s == [];
    }
  }

  /** A string written with its nul unit is read back as that string. */
  lemma StoreStr(pm: PageMap, p: nat, u: Width, s: seq<Byte>)
    requires WellFormed(pm) && NoNulUnits(s, u)
    ensures Str(Store(pm, p, s + Zeros(u)), p, u) == s
  {
    var pm' := Store(pm, p, s + Zeros(u));
    HoldsStore(pm, p, s + Zeros(u));
    HoldsSplit(pm', p, s, Zeros(u), p + |s|);
    NulAtHeld(pm', p + |s|, Zeros(u), u);
    StrOf(pm', p, u, s, p + |s|);
  }

  /** Memory holding the string d, then bytes t of whole non-nul units, then
      a nul unit, holds the string d + t. */
  lemma StrAppended(pm: PageMap, p: nat, u: Width, d: seq<Byte>, t: seq<Byte>, q: nat, e: nat)
    requires WellFormed(pm) && NoNulUnits(d, u) && NoNulUnits(t, u)
    requires q == p + |d| && e == q + |t|
    requires Holds(pm, p, d) && Holds(pm, q, t) && NulAt(pm, e, u)
    ensures Str(pm, p, u) == d + t
  {
    HoldsSplit(pm, p, d, t, q);
    NoNulAppend(d, t, u);
    StrOf(pm, p, u, d + t, e);
  }

  /** Writing t and a nul unit right after the string d at p leaves the
      string d + t at p. */
  lemma AppendStr(pm: PageMap, p: nat, u: Width, d: seq<Byte>, t: seq<Byte>)
    requires WellFormed(pm) && NoNulUnits(t, u) && d == Str(pm, p, u)
    ensures Str(Store(pm, p + |d|, t + Zeros(u)), p, u) == d + t
  {
    StrNoNul(pm, p, u);
    StrHeld(pm, p, u);
    AppendHeld(pm, p, u, d, t, p + |d|);
  }

  /** The same, for any bytes d of whole non-nul units held at p. */
  lemma AppendHeld(pm: PageMap, p: nat, u: Width, d: seq<Byte>, t: seq<Byte>, q: nat)
    requires WellFormed(pm) && NoNulUnits(d, u) && NoNulUnits(t, u)
    requires Holds(pm, p, d) && q == p + |d|
    ensures Str(Store(pm, q, t + Zeros(u)), p, u) == d + t
  {
    var pm' := Store(pm, q, t + Zeros(u));
    HoldsStoreDisjoint(pm, q, t + Zeros(u), p, d);
    HoldsStore(pm, q, t + Zeros(u));
    HoldsSplit(pm', q, t, Zeros(u), q + |t|);
    NulAtHeld(pm', q + |t|, Zeros(u), u);
    StrAppended(pm', p, u, d, t, q, q + |t|);
  }

  // ---- the routines ----

  /** Taking in one more non-nul unit keeps what has been read a prefix of
      the string, and what is left to read shrinks. */
  lemma ReadStringStep(pm: PageMap, q: nat, u: Width, s: seq<Byte>, whole: seq<Byte>)
    requires WellFormed(pm)
    requires whole == s + Str(pm, q, u) && !NulAt(pm, q, u)
    ensures whole == (s + UnitAt(pm, q, u)) + Str(pm, q + u, u)
    ensures |Str(pm, q + u, u)| < |Str(pm, q, u)|
  {
    StrStep(pm, q, u);
    var unit, rest := UnitAt(pm, q, u), Str(pm, q + u, u);
    assert s + (unit + rest) == (s + unit) + rest;
  }

  /** Reads the string at p, one unit at a time, up to its nul unit. */
  method ReadString(m: Memory.Memory, p: nat, u: Width) returns (s: seq<Byte>)
    requires m.Valid()
    ensures s == Str(m.pages, p, u)
  {
    s := [];
    var q: nat := p;
    var unit := m.Read(q, u);
    ReadUnit(m.pages, q, u);
    assert Str(m.pages, p, u) == s + Str(m.pages, q, u);
    while !IsNulUnit(unit, u)
      invariant Str(m.pages, p, u) == s + Str(m.pages, q, u)
      invariant unit == UnitAt(m.pages, q, u)
      decreases |Str(m.pages, q, u)|
    {
      ReadStringStep(m.pages, q, u, s, Str(m.pages, p, u));
      s := s + unit;
      q := q + u;
      unit := m.Read(q, u);
      ReadUnit(m.pages, q, u);
    }
    StrStep(m.pages, q, u);
    assert s + [] == s;
  }

  /** strlen / wcslen: the number of units before the nul unit. */
  method Strlen(m: Memory.Memory, name: string, p: nat) returns (n: nat)
    requires m.Valid()
    ensures Bytes(n, UnitSize(name)) == |Str(m.pages, p, UnitSize(name))|
  {
    var u := UnitSize(name);
    var s := ReadString(m, p, u);
    StrNoNul(m.pages, p, u);
    NoNulLength(s, u);
    n := if u == 1 then |s| else |s| / 2;
  }

  /** The memory strcat leaves: src's string and a nul unit written over
      dst's nul unit. */
  ghost function StrcatPages(pm: PageMap, u: Width, dst: nat, src: nat): PageMap
    requires WellFormed(pm)
  {
    Store(pm, dst + |Str(pm, dst, u)|, Str(pm, src, u) + Zeros(u))
  }

  /** The memory strncat leaves: at most n units of src's string, then a nul
      unit (C11 section 7.24.3.2 always appends the nul), written over dst's
      nul unit. */
  ghost function StrncatPages(pm: PageMap, u: Width, dst: nat, src: nat, n: nat): PageMap
    requires WellFormed(pm)
  {
    Store(pm, dst + |Str(pm, dst, u)|, TakeUnits(Str(pm, src, u), n, u) + Zeros(u))
  }

  /** The memory strcpy leaves: src's string and its nul unit written at dst. */
  ghost function StrcpyPages(pm: PageMap, u: Width, dst: nat, src: nat): PageMap
    requires WellFormed(pm)
  {
    Store(pm, dst, Str(pm, src, u) + Zeros(u))
  }

  /** The n units strncpy writes: the first n units of s, padded with nul
      bytes when s is shorter. No terminator is added when s has n or more units. */
  function Padded(s: seq<Byte>, n: nat, u: Width): (r: seq<Byte>)
    ensures |r| == Bytes(n, u)
    ensures Bytes(n, u) <= |s| ==> r == s[..Bytes(n, u)]
    ensures Bytes(n, u) > |s| ==> r == s + Zeros(Bytes(n, u) - |s|)
  {
    var j := Bytes(n, u);
    if j <= |s| then s[..j] else s + Zeros(j - |s|)
  }

  /** The memory strncpy leaves: exactly n units written at dst, the bytes
      after them untouched. */
  ghost function StrncpyPages(pm: PageMap, u: Width, dst: nat, src: nat, n: nat): PageMap
    requires WellFormed(pm)
  {
    Store(pm, dst, Padded(Str(pm, src, u), n, u))
  }

  /** strcat / wcscat; dst is returned. */
  method Strcat(m: Memory.Memory, name: string, dst: nat, src: nat) returns (r: nat)
    requires m.Valid()
    modifies m
    ensures m.Valid() && m.heap == old(m.heap) && r == dst
    ensures m.pages == StrcatPages(old(m.pages), UnitSize(name), dst, src)
  {
    var u := UnitSize(name);
    var d := ReadString(m, dst, u);
    var s := ReadString(m, src, u);
    var q := dst + |d|;
    m.Write(q, s + Zeros(u));
    r := dst;
  }

  /** strncat / wcsncat; dst is returned. */
  method Strncat(m: Memory.Memory, name: string, dst: nat, src: nat, n: nat) returns (r: nat)
    requires m.Valid()
    modifies m
    ensures m.Valid() && m.heap == old(m.heap) && r == dst
    ensures m.pages == StrncatPages(old(m.pages), UnitSize(name), dst, src, n)
  {
    var u := UnitSize(name);
    var d := ReadString(m, dst, u);
    var s := ReadString(m, src, u);
    m.Write(dst + |d|, TakeUnits(s, n, u) + Zeros(u));
    r := dst;
  }

  /** strcpy / wcscpy; dst is returned. */
  method Strcpy(m: Memory.Memory, name: string, dst: nat, src: nat) returns (r: nat)
    requires m.Valid()
    modifies m
    ensures m.Valid() && m.heap == old(m.heap) && r == dst
    ensures m.pages == StrcpyPages(old(m.pages), UnitSize(name), dst, src)
  {
    var u := UnitSize(name);
    var s := ReadString(m, src, u);
    m.Write(dst, s + Zeros(u));
    r := dst;
  }

  /** strncpy / wcsncpy; dst is returned. */
  method Strncpy(m: Memory.Memory, name: string, dst: nat, src: nat, n: nat) returns (r: nat)
    requires m.Valid()
    modifies m
    ensures m.Valid() && m.heap == old(m.heap) && r == dst
    ensures m.pages == StrncpyPages(old(m.pages), UnitSize(name), dst, src, n)
  {
    var u := UnitSize(name);
    var s := ReadString(m, src, u);
    m.Write(dst, Padded(s, n, u));
    r := dst;
  }

  /** strdup: a new heap block of the string's length plus one, holding the
      string and its nul; the block's address is returned. */
  method Strdup(m: Memory.Memory, src: nat) returns (r: nat)
    requires m.Valid()
    modifies m
    ensures m.Valid()
    ensures var s := Str(old(m.pages), src, 1);
            && (m.heap, r) == Allocator.Alloc(old(m.heap), |s| + 1)
            && m.pages == Store(old(m.pages), r, s + Zeros(1))
  {
    var s := ReadString(m, src, 1);
    r := m.Alloc(|s| + 1);
    m.Write(r, s + Zeros(1));
  }

  /** strndup: as strdup, for at most the first n bytes of the string. */
  method Strndup(m: Memory.Memory, src: nat, n: nat) returns (r: nat)
    requires m.Valid()
    modifies m
    ensures m.Valid()
    ensures var s := TakeUnits(Str(old(m.pages), src, 1), n, 1);
            && (m.heap, r) == Allocator.Alloc(old(m.heap), |s| + 1)
            && m.pages == Store(old(m.pages), r, s + Zeros(1))
  {
    var s := ReadString(m, src, 1);
    var t := TakeUnits(s, n, 1);
    r := m.Alloc(|t| + 1);
    m.Write(r, t + Zeros(1));
  }

  // ---- what the routines leave in memory ----

  /** After strcat the string at dst is dst's old string followed by src's. */
  lemma StrcatResult(pm: PageMap, u: Width, dst: nat, src: nat)
    requires WellFormed(pm)
    ensures Str(StrcatPages(pm, u, dst, src), dst, u) == Str(pm, dst, u) + Str(pm, src, u)
  {
    StrNoNul(pm, src, u);
    AppendStr(pm, dst, u, Str(pm, dst, u), Str(pm, src, u));
  }

  /** After strncat the string at dst is dst's old string followed by the
      first n units of src's string (TakeUnitsOf: all of it when it is
      shorter). */
  lemma StrncatResult(pm: PageMap, u: Width, dst: nat, src: nat, n: nat)
    requires WellFormed(pm)
    ensures Str(StrncatPages(pm, u, dst, src, n), dst, u) == Str(pm, dst, u) + TakeUnits(Str(pm, src, u), n, u)
  {
    TakenNoNul(pm, src, u, n);
    AppendStr(pm, dst, u, Str(pm, dst, u), TakeUnits(Str(pm, src, u), n, u));
  }

  /** The first n units of a string hold no nul unit. */
  lemma TakenNoNul(pm: PageMap, src: nat, u: Width, n: nat)
    requires WellFormed(pm)
    ensures NoNulUnits(TakeUnits(Str(pm, src, u), n, u), u)
  {
    StrNoNul(pm, src, u);
    TakeUnitsOf(Str(pm, src, u), n, u);
  }

  /** After strcpy the string at dst is src's string. */
  lemma StrcpyResult(pm: PageMap, u: Width, dst: nat, src: nat)
    requires WellFormed(pm)
    ensures Str(StrcpyPages(pm, u, dst, src), dst, u) == Str(pm, src, u)
  {
    StrNoNul(pm, src, u);
    StoreStr(pm, dst, u, Str(pm, src, u));
  }

  /** A whole number of units shorter than n units is at least one unit shorter. */
  lemma UnitGap(len: nat, n: nat, u: Width)
    requires Aligned(len, u) && len < Bytes(n, u)
    ensures len + u <= Bytes(n, u)
  {
  }

  /** A string shorter than n units is padded with at least one nul unit. */
  lemma ShortPadding(s: seq<Byte>, n: nat, u: Width)
    requires NoNulUnits(s, u) && |s| < Bytes(n, u)
    ensures u <= Bytes(n, u) - |s| && Padded(s, n, u) == s + Zeros(Bytes(n, u) - |s|)
  {
    NoNulLength(s, u);
    UnitGap(|s|, n, u);
  }

  /** A string written followed by at least one nul unit of padding is
      read back as that string. */
  lemma StorePaddedStr(pm: PageMap, dst: nat, u: Width, s: seq<Byte>, w: seq<Byte>, k: nat)
    requires WellFormed(pm) && NoNulUnits(s, u) && u <= k && w == s + Zeros(k)
    ensures Str(Store(pm, dst, w), dst, u) == s
  {
    var pm' := Store(pm, dst, w);
    HoldsStore(pm, dst, w);
    HoldsSplit(pm', dst, s, Zeros(k), dst + |s|);
    NulAtHeld(pm', dst + |s|, Zeros(k), u);
    StrOf(pm', dst, u, s, dst + |s|);
  }

  /** strncpy when src is shorter than n units: the string at dst is src's
      string, since the padding supplies the nul. */
  lemma StrncpyShort(pm: PageMap, u: Width, dst: nat, src: nat, n: nat)
    requires WellFormed(pm)
    requires |Str(pm, src, u)| < Bytes(n, u)
    ensures Str(StrncpyPages(pm, u, dst, src, n), dst, u) == Str(pm, src, u)
  {
    var s := Str(pm, src, u);
    StrNoNul(pm, src, u);
    ShortPadding(s, n, u);
    StorePaddedStr(pm, dst, u, s, Padded(s, n, u), Bytes(n, u) - |s|);
  }

  /** Writing the first k bytes of s over the string d at dst, at least k
      bytes long, when both are cut at a unit boundary, leaves s[..k] + d[k..]. */
  lemma OverwriteStr(pm: PageMap, dst: nat, u: Width, s: seq<Byte>, k: nat)
    requires WellFormed(pm) && k <= |s| && k <= |Str(pm, dst, u)|
    requires NoNulUnits(s[..k], u) && NoNulUnits(Str(pm, dst, u)[k..], u)
    ensures Str(Store(pm, dst, s[..k]), dst, u) == s[..k] + Str(pm, dst, u)[k..]
  {
    var d := Str(pm, dst, u);
    StrSuffix(pm, dst, u, k);
    OverwriteHeld(pm, dst, u, s[..k], d[k..], dst + k, dst + |d|);
  }

  /** Writing bytes w at dst, right before bytes t held at q and followed
      by a nul unit, leaves the string w + t at dst. */
  lemma OverwriteHeld(pm: PageMap, dst: nat, u: Width, w: seq<Byte>, t: seq<Byte>, q: nat, e: nat)
    requires WellFormed(pm) && q == dst + |w| && e == q + |t|
    requires Holds(pm, q, t) && NulAt(pm, e, u)
    requires NoNulUnits(w, u) && NoNulUnits(t, u)
    ensures Str(Store(pm, dst, w), dst, u) == w + t
  {
    var pm' := Store(pm, dst, w);
    HoldsStore(pm, dst, w);
    HoldsStoreDisjoint(pm, dst, w, q, t);
    NulAtStoreDisjoint(pm, dst, w, e, u);
    StrAppended(pm', dst, u, w, t, q, e);
  }

  /** strncpy when src has at least n units and dst's old string at least
      n units: the first n units of src replace those of dst, no nul is
      written, and the rest of dst's old string stays (strncpy(dst, "world",
      2) over "hello!!!" leaves "wollo!!!"). */
  lemma StrncpyLong(pm: PageMap, u: Width, dst: nat, src: nat, n: nat)
    requires WellFormed(pm)
    requires Bytes(n, u) <= |Str(pm, src, u)| && Bytes(n, u) <= |Str(pm, dst, u)|
    ensures var s, d := Str(pm, src, u), Str(pm, dst, u);
            Str(StrncpyPages(pm, u, dst, src, n), dst, u) == s[..Bytes(n, u)] + d[Bytes(n, u)..]
  {
    var s, d := Str(pm, src, u), Str(pm, dst, u);
    StrNoNul(pm, src, u);
    StrNoNul(pm, dst, u);
    NoNulSplit(s, u, n);
    NoNulSplit(d, u, n);
    OverwriteStr(pm, dst, u, s, Bytes(n, u));
  }

  /** After strdup or strndup the new block holds the copied string, and on
      a fresh heap the block is at HEAP_BASE. */
  lemma StrdupResult(pm: PageMap, h: Allocator.Heap, t: seq<Byte>)
    requires WellFormed(pm) && NoNulUnits(t, 1)
    ensures var (h', a) := Allocator.Alloc(h, |t| + 1);
            && Str(Store(pm, a, t + Zeros(1)), a, 1) == t
            && (h == Allocator.EMPTY ==> a == Allocator.HEAP_BASE)
  {
    var (h', a) := Allocator.Alloc(h, |t| + 1);
    StoreStr(pm, a, 1, t);
  }

  /** strndup copies the first n bytes of a string, which are a string. */
  lemma StrndupCopy(pm: PageMap, src: nat, n: nat)
    requires WellFormed(pm)
    ensures var t := TakeUnits(Str(pm, src, 1), n, 1);
            && NoNulUnits(t, 1)
            && |t| == (if n <= |Str(pm, src, 1)| then n else |Str(pm, src, 1)|)
  {
    StrNoNul(pm, src, 1);
    TakeUnitsOf(Str(pm, src, 1), n, 1);
  }
}
