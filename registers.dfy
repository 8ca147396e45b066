/**
 * One aliased register: several names over one backing store of 8 * size
 * bits. Each name is given as a bit mask over the store (al = 0xFF,
 * ah = 0xFF00, ax = 0xFFFF, ...); a name reads the masked bits shifted down
 * by the position of the mask's lowest set bit, and writing a name replaces
 * only the masked bits, with the value shifted up by that position and cut
 * to the mask. The store is modelled as a little-endian sequence of bits,
 * so that reading and writing a name are plain sequence operations.
 */
module Registers {
  import opened Wrappers

  type Bits = seq<bool>

  function Pow2(n: nat): (p: nat)
    ensures p >= 1
  {
    if n == 0 then 1 else 2 * Pow2(n - 1)
  }

  /** The number a little-endian bit sequence stands for. */
  function ToNat(b: Bits): nat {
    if b == [] then 0 else (if b[0] then 1 else 0) + 2 * ToNat(b[1..])
  }

  /** Bit k of x (bit 0 is the least significant). */
  function Bit(x: nat, k: nat): bool {
    if k == 0 then x % 2 == 1 else Bit(x / 2, k - 1)
  }

  /** The n low bits of x, least significant first. */
  function FromNat(x: nat, n: nat): (b: Bits)
    ensures |b| == n
  {
    seq(n, k requires 0 <= k => Bit(x, k))
  }

  function AllClear(n: nat): (b: Bits)
    ensures |b| == n && forall i :: 0 <= i < n ==> !b[i]
  {
    seq(n, _ => false)
  }

  /** Position of the lowest set bit: the shift of a name's mask. */
  function LowBit(m: Bits): (s: nat)
    requires true in m
    ensures s < |m| && m[s] && forall j :: 0 <= j < s ==> !m[j]
  {
    if m[0] then 0 else LowBit(m[1..]) + 1
  }

  /** (store & mask) >> s, as bits. */
  function Masked(b: Bits, m: Bits, s: nat): (r: Bits)
    requires |m| == |b| && s <= |b|
    ensures |r| == |b| - s && forall j :: 0 <= j < |r| ==> r[j] == (b[s + j] && m[s + j])
  {
    seq(|b| - s, j requires 0 <= j < |b| - s => b[s + j] && m[s + j])
  }

  /** Reading through mask m: (store & mask) >> shift. */
  function GetBits(b: Bits, m: Bits): nat
    requires |m| == |b| && true in m
  {
    ToNat(Masked(b, m, LowBit(m)))
  }

  /** Writing x through mask m: (store & ~mask) | ((x << shift) & mask).
      Bits of x that fall outside the mask are dropped, not rejected. */
  function SetBits(b: Bits, m: Bits, x: nat): (r: Bits)
    requires |m| == |b| && true in m
    ensures |r| == |b|
    ensures forall i :: 0 <= i < |b| && !m[i] ==> r[i] == b[i]
    ensures forall i :: 0 <= i < |b| && m[i] ==> r[i] == Bit(x, i - LowBit(m))
  {
    var s := LowBit(m);
    seq(|b|, i requires 0 <= i < |b| => if m[i] then Bit(x, i - s) else b[i])
  }

  /** The mask is the contiguous run of w set bits starting at bit s. */
  ghost predicate Contiguous(m: Bits, s: nat, w: nat) {
    0 < w && s + w <= |m| && forall i :: 0 <= i < |m| ==> (m[i] <==> s <= i < s + w)
  }

  // ---- arithmetic on bit sequences ----

  lemma DivModUnique(x: nat, d: nat, q: nat, r: nat)
    requires 0 < d && x == d * q + r && r < d
    ensures x % d == r && x / d == q
  {
    var k: int := x / d - q;
    var di: int := d;
    assert di * k == r - x % d;
    assert k >= 1 ==> di * k >= di;
    assert k <= -1 ==> di * k <= 0 - di;
  }

  /** x mod 2p, from x mod 2 and (x / 2) mod p. */
  lemma ModDouble(x: nat, p: nat)
    requires p >= 1
    ensures x % (2 * p) == x % 2 + 2 * ((x / 2) % p)
  {
    var q, r := x / 2, x % 2;
    var t, u := q / p, q % p;
    assert q == p * t + u;
    assert x == 2 * q + r;
    assert 2 * (p * t) == (2 * p) * t;
    DivModUnique(x, 2 * p, t, 2 * u + r);
  }

  /** The n-bit encoding keeps x modulo 2^n. */
  lemma {:induction false} ToNatFromNat(x: nat, n: nat)
    ensures ToNat(FromNat(x, n)) == x % Pow2(n)
    decreases n
  {
    if n > 0 {
      var b := FromNat(x, n);
      assert b[1..] == FromNat(x / 2, n - 1);
      ToNatFromNat(x / 2, n - 1);
      assert ToNat(b) == x % 2 + 2 * ((x / 2) % Pow2(n - 1));
      ModDouble(x, Pow2(n - 1));
    }
  }

  /** Concatenation: the high part is weighted by 2^|low part|. */
  lemma {:induction false} ToNatAppend(a: Bits, b: Bits)
    ensures ToNat(a + b) == ToNat(a) + Pow2(|a|) * ToNat(b)
    decreases |a|
  {
    if a == [] {
      assert a + b == b;
    } else {
      assert (a + b)[0] == a[0] && (a + b)[1..] == a[1..] + b;
      ToNatAppend(a[1..], b);
      var c := if a[0] then 1 else 0;
      var h, p, t := ToNat(a[1..]), Pow2(|a| - 1), ToNat(b);
      assert ToNat(a + b) == c + 2 * ToNat(a[1..] + b);
      assert ToNat(a[1..] + b) == h + p * t;
      Regroup(c, h, p, t);
    }
  }

  lemma Regroup(c: nat, h: nat, p: nat, t: nat)
    ensures c + 2 * (h + p * t) == (c + 2 * h) + (2 * p) * t
  {
  }

  lemma {:induction false} ToNatAllClear(b: Bits)
    requires forall i :: 0 <= i < |b| ==> !b[i]
    ensures ToNat(b) == 0
    decreases |b|
  {
    if b != [] {
      ToNatAllClear(b[1..]);
    }
  }

  /** Splitting a slice of the store at j. */
  lemma ToNatSplit(b: Bits, i: nat, j: nat, k: nat)
    requires i <= j <= k <= |b|
    ensures ToNat(b[i..k]) == ToNat(b[i..j]) + Pow2(j - i) * ToNat(b[j..k])
  {
    assert b[i..k] == b[i..j] + b[j..k];
    ToNatAppend(b[i..j], b[j..k]);
  }

  // ---- the register's contract ----

  /** Through a contiguous mask a name reads exactly its own slice of the store. */
  lemma GetContiguous(b: Bits, m: Bits, s: nat, w: nat)
    requires |m| == |b| && Contiguous(m, s, w)
    ensures true in m && LowBit(m) == s
    ensures GetBits(b, m) == ToNat(b[s..s + w])
  {
    LowBitContiguous(m, s, w);
    MaskedContiguous(b, m, s, w);
    ToNatAppend(b[s..s + w], AllClear(|b| - s - w));
    ToNatAllClear(AllClear(|b| - s - w));
  }

  /** The shift of a contiguous mask is where its run starts. */
  lemma LowBitContiguous(m: Bits, s: nat, w: nat)
    requires Contiguous(m, s, w)
    ensures true in m && LowBit(m) == s
  {
    assert m[s];
  }

  /** Under a contiguous mask the masked store is the run's slice, then zeros. */
  lemma MaskedContiguous(b: Bits, m: Bits, s: nat, w: nat)
    requires |m| == |b| && Contiguous(m, s, w)
    ensures Masked(b, m, s) == b[s..s + w] + AllClear(|b| - s - w)
  {
    var l, r := Masked(b, m, s), b[s..s + w] + AllClear(|b| - s - w);
    forall j | 0 <= j < |l| ensures l[j] == r[j] {
      if j < w {
        assert r[j] == b[s + j];
      } else {
        assert r[j] == AllClear(|b| - s - w)[j - w];
      }
    }
  }

  /** A name reads back what was written through it, cut to its width. */
  lemma GetSetSame(b: Bits, m: Bits, s: nat, w: nat, x: nat)
    requires |m| == |b| && Contiguous(m, s, w)
    ensures true in m && GetBits(SetBits(b, m, x), m) == x % Pow2(w)
  {
    GetContiguous(b, m, s, w);
    var b' := SetBits(b, m, x);
    GetContiguous(b', m, s, w);
    assert b'[s..s + w] == FromNat(x, w);
    ToNatFromNat(x, w);
  }

  /** Writing one name leaves every name whose mask shares no bit with it
      unchanged (al and ah, for instance). */
  lemma GetSetDisjoint(b: Bits, m1: Bits, m2: Bits, x: nat)
    requires |m1| == |b| && |m2| == |b| && true in m1 && true in m2
    requires forall i :: 0 <= i < |b| ==> !(m1[i] && m2[i])
    ensures GetBits(SetBits(b, m1, x), m2) == GetBits(b, m2)
  {
    var s := LowBit(m2);
    assert Masked(SetBits(b, m1, x), m2, s) == Masked(b, m2, s);
  }

  /** A fresh store reads zero through every name. */
  lemma GetClear(n: nat, m: Bits)
    requires |m| == n && true in m
    ensures GetBits(AllClear(n), m) == 0
  {
    var s := LowBit(m);
    var masked := Masked(AllClear(n), m, s);
    forall j | 0 <= j < n - s ensures !masked[j] {
      assert !AllClear(n)[s + j];
    }
    ToNatAllClear(masked);
  }

  /** A mask written as an integer, (2^w - 1) << s, is contiguous. */
  lemma {:induction false} MaskContiguous(s: nat, w: nat, n: nat)
    requires 0 < w && s + w <= n
    ensures Contiguous(FromNat((Pow2(w) - 1) * Pow2(s), n), s, w)
  {
    var x := (Pow2(w) - 1) * Pow2(s);
    forall i | 0 <= i < n ensures Bit(x, i) <==> s <= i < s + w {
      MaskBit(s, w, i);
    }
  }

  lemma {:induction false} MaskBit(s: nat, w: nat, i: nat)
    ensures Bit((Pow2(w) - 1) * Pow2(s), i) <==> s <= i < s + w
    decreases s + w
  {
    if s > 0 {
      var y := (Pow2(w) - 1) * Pow2(s - 1);
      MulDouble(Pow2(w) - 1, Pow2(s - 1));
      BitDouble(y, i);
      if i > 0 {
        MaskBit(s - 1, w, i - 1);
      }
    } else if w > 0 {
      var y := Pow2(w - 1) - 1;
      assert (Pow2(w) - 1) * Pow2(0) == 2 * y + 1;
      BitDoubleOne(y, i);
      if i > 0 {
        assert y * Pow2(0) == y;
        MaskBit(0, w - 1, i - 1);
      }
    } else {
      assert (Pow2(0) - 1) * Pow2(0) == 0;
      BitZero(i);
    }
  }

  lemma MulDouble(a: nat, p: nat)
    ensures a * (2 * p) == 2 * (a * p)
  {
  }

  /** Doubling shifts the bits up by one and clears bit 0. */
  lemma BitDouble(y: nat, i: nat)
    ensures Bit(2 * y, i) <==> i > 0 && Bit(y, i - 1)
  {
    if i > 0 {
      assert (2 * y) / 2 == y;
    }
  }

  /** Doubling and adding one shifts the bits up by one and sets bit 0. */
  lemma BitDoubleOne(y: nat, i: nat)
    ensures Bit(2 * y + 1, i) <==> i == 0 || Bit(y, i - 1)
  {
    if i > 0 {
      assert (2 * y + 1) / 2 == y;
    }
  }

  lemma {:induction false} BitZero(i: nat)
    ensures !Bit(0, i)
  {
    if i > 0 {
      BitZero(i - 1);
    }
  }

  /** One register: a size in bytes, a mask per name, and the backing store. */
  class Register<N(==, !new)> {
    const size: nat
    const masks: map<N, Bits>
    var bits: Bits

    ghost predicate Valid()
      reads this
    {
      && |bits| == 8 * size
      && forall name :: name in masks ==> |masks[name]| == 8 * size && true in masks[name]
    }

    /** Register(size, name=mask, ...): every name reads zero. Each mask must
        be a non-zero number of at most 8 * size bits. */
    constructor (size: nat, masks: map<N, nat>)
      requires forall name :: name in masks ==> 0 < masks[name] < Pow2(8 * size)
      ensures Valid()
      ensures this.size == size && bits == AllClear(8 * size)
      ensures masks.Keys == this.masks.Keys
      ensures forall name :: name in masks ==> this.masks[name] == FromNat(masks[name], 8 * size)
    {
      this.size := size;
      this.masks := map name | name in masks :: FromNat(masks[name], 8 * size);
      bits := AllClear(8 * size);
      new;
      forall name | name in masks ensures true in this.masks[name] {
        NonZeroHasBit(masks[name], 8 * size);
      }
    }

    /** The register's names. */
    function Names(): (r: set<N>)
      reads this
      ensures forall name :: name in r <==> name in masks
    {
      masks.Keys
    }

    /** reg.name: the bits under the name's mask, shifted down; None for a
        name the register does not have. */
    function Get(name: N): (r: Option<nat>)
      reads this
      requires Valid()
      ensures r.Some? <==> name in masks
      ensures r.Some? ==> r.value == GetBits(bits, masks[name]) && r.value < Pow2(8 * size)
    {
      if name in masks then
        var m := masks[name];
        GetBitsBound(bits, m);
        Some(GetBits(bits, m))
      else None
    }

    /** reg.name = x: replaces the bits under the name's mask with x shifted
        up and cut to the mask; refused, with nothing changed, for an
        unknown name. */
    method Set(name: N, x: nat) returns (ok: bool)
      requires Valid()
      modifies this
      ensures Valid()
      ensures ok <==> name in masks
      ensures ok ==> bits == SetBits(old(bits), masks[name], x)
      ensures !ok ==> bits == old(bits)
    {
      if name in masks {
        bits := SetBits(bits, masks[name], x);
        ok := true;
      } else {
        ok := false;
      }
    }
  }

  /** A read fits in the store: it is below 2^(number of bits). */
  lemma GetBitsBound(b: Bits, m: Bits)
    requires |m| == |b| && true in m
    ensures GetBits(b, m) < Pow2(|b|)
  {
    var s := LowBit(m);
    var masked := Masked(b, m, s);
    ToNatBound(masked);
    PowMonotone(|b| - s, |b|);
  }

  lemma {:induction false} ToNatBound(b: Bits)
    ensures ToNat(b) < Pow2(|b|)
    decreases |b|
  {
    if b != [] {
      ToNatBound(b[1..]);
    }
  }

  lemma {:induction false} PowMonotone(i: nat, j: nat)
    requires i <= j
    ensures Pow2(i) <= Pow2(j)
    decreases j
  {
    if i < j {
      PowMonotone(i, j - 1);
    }
  }

  lemma {:induction false} Pow2Add(a: nat, b: nat)
    ensures Pow2(a + b) == Pow2(a) * Pow2(b)
    decreases a
  {
    if a > 0 {
      Pow2Add(a - 1, b);
      var p, q := Pow2(a - 1), Pow2(b);
      assert 2 * (p * q) == (2 * p) * q;
    }
  }

  /** A non-zero mask of at most n bits has a set bit among them. */
  lemma {:induction false} NonZeroHasBit(x: nat, n: nat)
    requires 0 < x < Pow2(n)
    ensures true in FromNat(x, n)
    decreases n
  {
    var b := FromNat(x, n);
    if x % 2 == 1 {
      assert b[0];
    } else {
      assert b[1..] == FromNat(x / 2, n - 1);
      NonZeroHasBit(x / 2, n - 1);
      var k :| 0 <= k < n - 1 && b[1..][k];
      assert b[k + 1];
    }
  }

  // ---- the register of the test: rax, eax, ax, al, ah over 8 bytes ----

  lemma Pow2Byte()
    ensures Pow2(8) == 0x100
  {
  }

  lemma Pow2Values()
    ensures Pow2(8) == 0x100 && Pow2(16) == 0x1_0000 && Pow2(32) == 0x1_0000_0000
    ensures Pow2(64) == 0x1_0000_0000_0000_0000
  {
    assert Pow2(8) == 0x100;
    Pow2Add(8, 8);
    Pow2Add(16, 16);
    Pow2Add(32, 32);
  }

  /** The masks the test passes (rax = 0xFFFFFFFFFFFFFFFF, eax = 0xFFFFFFFF,
      ax = 0xFFFF, al = 0xFF, ah = 0xFF00) are the runs of bits 0-63, 0-31,
      0-15, 0-7 and 8-15 of the 64-bit store. */
  lemma TestMasks()
    ensures Contiguous(FromNat(0xFFFF_FFFF_FFFF_FFFF, 64), 0, 64)
    ensures Contiguous(FromNat(0xFFFF_FFFF, 64), 0, 32)
    ensures Contiguous(FromNat(0xFFFF, 64), 0, 16)
    ensures Contiguous(FromNat(0xFF, 64), 0, 8)
    ensures Contiguous(FromNat(0xFF00, 64), 8, 8)
  {
    Pow2Values();
    MaskContiguous(0, 64, 64);
    MaskContiguous(0, 32, 64);
    MaskContiguous(0, 16, 64);
    MaskContiguous(0, 8, 64);
    MaskContiguous(8, 8, 64);
  }

  /** Writing ah = 0x23 into a fresh store sets bits 8-15 to 0x23 and
      leaves every other bit clear. */
  lemma HighWrite(b0: Bits, ah: Bits)
    requires |b0| == 64 && forall i :: 0 <= i < 64 ==> !b0[i]
    requires |ah| == 64 && Contiguous(ah, 8, 8)
    ensures true in ah
    ensures var b1 := SetBits(b0, ah, 0x23);
            && GetBits(b1, ah) == 0x23 && ToNat(b1[8..16]) == 0x23
            && forall i :: 0 <= i < 64 && !(8 <= i < 16) ==> !b1[i]
  {
    GetSetSame(b0, ah, 8, 8, 0x23);
    GetContiguous(SetBits(b0, ah, 0x23), ah, 8, 8);
    Pow2Byte();
  }

  /** With 0x23 in bits 8-15 and every other bit clear, al reads 0 and ax
      and eax read 0x2300. */
  lemma HighReads(b1: Bits, eax: Bits, ax: Bits, al: Bits)
    requires |b1| == 64 && ToNat(b1[8..16]) == 0x23
    requires forall i :: 0 <= i < 64 && !(8 <= i < 16) ==> !b1[i]
    requires |eax| == |ax| == |al| == 64
    requires Contiguous(eax, 0, 32) && Contiguous(ax, 0, 16) && Contiguous(al, 0, 8)
    ensures true in eax && true in ax && true in al
    ensures GetBits(b1, al) == 0 && GetBits(b1, ax) == 0x2300 && GetBits(b1, eax) == 0x2300
  {
    GetContiguous(b1, al, 0, 8);
    GetContiguous(b1, ax, 0, 16);
    GetContiguous(b1, eax, 0, 32);
    HighSlices(b1);
  }

  /** The numbers in bits 0-7, 0-15 and 0-31 of that store. */
  lemma HighSlices(b1: Bits)
    requires |b1| == 64 && ToNat(b1[8..16]) == 0x23
    requires forall i :: 0 <= i < 64 && !(8 <= i < 16) ==> !b1[i]
    ensures ToNat(b1[0..8]) == 0 && ToNat(b1[0..16]) == 0x2300 && ToNat(b1[0..32]) == 0x2300
  {
    ToNatAllClear(b1[0..8]);
    ToNatAllClear(b1[16..32]);
    ToNatSplit(b1, 0, 8, 16);
    ToNatSplit(b1, 0, 16, 32);
    Pow2Byte();
  }

  /** Writing ah = 0x23 into a fresh store: ah reads 0x23, al stays 0, and
      ax and eax read 0x2300. */
  lemma TestWriteHigh(b0: Bits, eax: Bits, ax: Bits, al: Bits, ah: Bits)
    requires |b0| == 64 && forall i :: 0 <= i < 64 ==> !b0[i]
    requires |eax| == |ax| == |al| == |ah| == 64
    requires Contiguous(eax, 0, 32) && Contiguous(ax, 0, 16) && Contiguous(al, 0, 8) && Contiguous(ah, 8, 8)
    ensures true in eax && true in ax && true in al && true in ah
    ensures var b1 := SetBits(b0, ah, 0x23);
            && GetBits(b1, ah) == 0x23 && GetBits(b1, al) == 0
            && GetBits(b1, ax) == 0x2300 && GetBits(b1, eax) == 0x2300
            && forall i :: 16 <= i < 64 ==> !b1[i]
  {
    HighWrite(b0, ah);
    HighReads(SetBits(b0, ah, 0x23), eax, ax, al);
  }

  /** Writing eax = 0x123 over a store whose bits 32-63 are clear leaves
      0x123 in bits 0-31 and those bits clear. */
  lemma WideWrite(b1: Bits, eax: Bits)
    requires |b1| == 64 && forall i :: 32 <= i < 64 ==> !b1[i]
    requires |eax| == 64 && Contiguous(eax, 0, 32)
    ensures true in eax
    ensures var b2 := SetBits(b1, eax, 0x123);
            && ToNat(b2[0..32]) == 0x123 && forall i :: 32 <= i < 64 ==> !b2[i]
  {
    GetSetSame(b1, eax, 0, 32, 0x123);
    GetContiguous(SetBits(b1, eax, 0x123), eax, 0, 32);
    Pow2Values();
  }

  /** With 0x123 in bits 0-31 and bits 32-63 clear, rax reads 0x123. */
  lemma WideRax(b2: Bits, rax: Bits)
    requires |b2| == 64 && ToNat(b2[0..32]) == 0x123 && forall i :: 32 <= i < 64 ==> !b2[i]
    requires |rax| == 64 && Contiguous(rax, 0, 64)
    ensures true in rax && GetBits(b2, rax) == 0x123
  {
    GetContiguous(b2, rax, 0, 64);
    ToNatAllClear(b2[32..64]);
    ToNatSplit(b2, 0, 32, 64);
    assert b2[0..64] == b2;
  }

  /** With 0x123 in bits 0-31, bits 0-7 hold 0x23 and bits 8-15 hold 1. */
  lemma WideBytes(b2: Bits)
    requires |b2| == 64 && ToNat(b2[0..32]) == 0x123
    ensures ToNat(b2[0..8]) == 0x23 && ToNat(b2[8..16]) == 1
  {
    ToNatSplit(b2, 0, 8, 32);
    ToNatSplit(b2, 8, 16, 32);
    ToNatBound(b2[0..8]);
    ToNatBound(b2[8..16]);
    Pow2Byte();
    DivModUnique(0x123, 0x100, ToNat(b2[8..32]), ToNat(b2[0..8]));
    DivModUnique(1, 0x100, ToNat(b2[16..32]), ToNat(b2[8..16]));
  }

  /** Then writing eax = 0x123 is seen through ah (1), al (0x23) and rax (0x123). */
  lemma TestWriteWide(b1: Bits, rax: Bits, eax: Bits, al: Bits, ah: Bits)
    requires |b1| == 64 && forall i :: 32 <= i < 64 ==> !b1[i]
    requires |rax| == |eax| == |al| == |ah| == 64
    requires Contiguous(rax, 0, 64) && Contiguous(eax, 0, 32) && Contiguous(al, 0, 8) && Contiguous(ah, 8, 8)
    ensures true in rax && true in eax && true in al && true in ah
    ensures var b2 := SetBits(b1, eax, 0x123);
            GetBits(b2, ah) == 1 && GetBits(b2, al) == 0x23 && GetBits(b2, rax) == 0x123
  {
    WideWrite(b1, eax);
    var b2 := SetBits(b1, eax, 0x123);
    WideRax(b2, rax);
    WideBytes(b2);
    GetContiguous(b2, al, 0, 8);
    GetContiguous(b2, ah, 8, 8);
  }

  /** The names of the test's register. */
  datatype TestName = Rax | Eax | Ax | Al | Ah

  /** Their masks. */
  const TEST_MASKS: map<TestName, nat> :=
    map[Rax := 0xFFFF_FFFF_FFFF_FFFF, Eax := 0xFFFF_FFFF, Ax := 0xFFFF, Al := 0xFF, Ah := 0xFF00]

  /** Each of them is a non-zero mask of at most 64 bits. */
  lemma TestMasksFit()
    ensures forall name :: name in TEST_MASKS ==> 0 < TEST_MASKS[name] < Pow2(64)
  {
    Pow2Values();
  }

  /** The test run on a Register object: Register(8, rax=..., eax=...,
      ax=..., al=..., ah=...), read rax and ax, write ah = 0x23 and read ah,
      al, ax and eax, write eax = 0x123 and read ah, al and rax. */
  method RegisterScenario() returns (seen: seq<Option<nat>>)
    ensures seen == [Some(0), Some(0), Some(0x23), Some(0), Some(0x2300), Some(0x2300), Some(1), Some(0x23), Some(0x123)]
  {
    TestMasksFit();
    var reg := new Register(8, TEST_MASKS);
    TestMasks();
    var rax, eax, ax, al, ah := reg.masks[Rax], reg.masks[Eax], reg.masks[Ax], reg.masks[Al], reg.masks[Ah];
    GetClear(64, rax);
    GetClear(64, ax);
    var rax0, ax0 := reg.Get(Rax), reg.Get(Ax);
    assert rax0 == Some(0) && ax0 == Some(0);
    TestWriteHigh(reg.bits, eax, ax, al, ah);
    var _ := reg.Set(Ah, 0x23);
    var ah1, al1, ax1, eax1 := reg.Get(Ah), reg.Get(Al), reg.Get(Ax), reg.Get(Eax);
    assert ah1 == Some(0x23) && al1 == Some(0) && ax1 == Some(0x2300) && eax1 == Some(0x2300);
    TestWriteWide(reg.bits, rax, eax, al, ah);
    var _ := reg.Set(Eax, 0x123);
    var ah2, al2, rax2 := reg.Get(Ah), reg.Get(Al), reg.Get(Rax);
    assert ah2 == Some(1) && al2 == Some(0x23) && rax2 == Some(0x123);
    seen := [rax0, ax0, ah1, al1, ax1, eax1, ah2, al2, rax2];
  }
}
