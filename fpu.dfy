/**
 * The x87 register stack: eight physical slots and a top-of-stack index.
 * st0 is the slot at top, st1 the next one, and so on, wrapping modulo 8.
 * push moves top down by one (modulo 8) and fills the new top slot; pop
 * reads st0, marks its slot empty and moves top up. Slot values are opaque
 * (the type parameter V); an empty slot reads as None.
 */
module Fpu {
  import opened Wrappers

  const DEPTH: nat := 8

  /** The logical stack st0 .. st7 after a push of v: v on top, everything
      else one place down, and what was st7 pushed out. */
  function PushView<V>(s: seq<Option<V>>, v: V): (r: seq<Option<V>>)
    requires |s| == DEPTH
    ensures |r| == DEPTH && r[0] == Some(v)
    ensures forall i :: 1 <= i < DEPTH ==> r[i] == s[i - 1]
  {
    [Some(v)] + s[..DEPTH - 1]
  }

  /** The logical stack after a pop, and the value popped: st0 comes off,
      everything else moves one place up, and st7 becomes empty. */
  function PopView<V>(s: seq<Option<V>>): (r: (Option<V>, seq<Option<V>>))
    requires |s| == DEPTH
    ensures r.0 == s[0] && |r.1| == DEPTH && r.1[DEPTH - 1] == None
    ensures forall i :: 0 <= i < DEPTH - 1 ==> r.1[i] == s[i + 1]
  {
    (s[0], s[1..] + [None])
  }

  /** A pop right after a push gives back the pushed value and, when the
      stack was not full, exactly the stack before the push. */
  lemma PushThenPop<V>(s: seq<Option<V>>, v: V)
    requires |s| == DEPTH && s[DEPTH - 1] == None
    ensures PopView(PushView(s, v)) == (Some(v), s)
  {
    var (x, t) := PopView(PushView(s, v));
    assert t == s by {
      forall i | 0 <= i < DEPTH ensures t[i] == s[i] {
        if i == DEPTH - 1 {
          assert t[i] == None;
        }
      }
    }
  }

  /** Number of occupied slots. */
  function Depth<V>(s: seq<Option<V>>): (d: nat)
    ensures d <= |s|
  {
    if s == [] then 0 else (if s[0].Some? then 1 else 0) + Depth(s[1..])
  }

  lemma {:induction false} DepthPrefix<V>(s: seq<Option<V>>, k: nat)
    requires k <= |s|
    requires forall i :: 0 <= i < k ==> s[i].Some?
    requires forall i :: k <= i < |s| ==> s[i].None?
    ensures Depth(s) == k
    decreases |s|
  {
    if s != [] {
      if k == 0 {
        DepthPrefix(s[1..], 0);
      } else {
        DepthPrefix(s[1..], k - 1);
      }
    }
  }

  /** On a packed stack that is not full, a push adds one to the depth and
      a pop of a non-empty stack takes one away. */
  lemma PushPopDepth<V>(s: seq<Option<V>>, v: V, k: nat)
    requires |s| == DEPTH && k < DEPTH
    requires forall i :: 0 <= i < k ==> s[i].Some?
    requires forall i :: k <= i < DEPTH ==> s[i].None?
    ensures Depth(s) == k && Depth(PushView(s, v)) == k + 1
    ensures k > 0 ==> Depth(PopView(s).1) == k - 1
  {
    DepthPrefix(s, k);
    PushPacked(s, v, k);
    if k > 0 {
      PopPacked(s, k);
    }
  }

  lemma PushPacked<V>(s: seq<Option<V>>, v: V, k: nat)
    requires |s| == DEPTH && k < DEPTH
    requires forall i :: 0 <= i < k ==> s[i].Some?
    requires forall i :: k <= i < DEPTH ==> s[i].None?
    ensures Depth(PushView(s, v)) == k + 1
  {
    var t := PushView(s, v);
    assert forall i :: 0 <= i < k + 1 ==> t[i].Some? by {
      forall i | 0 <= i < k + 1 ensures t[i].Some? {
        if i > 0 { assert t[i] == s[i - 1]; }
      }
    }
    DepthPrefix(t, k + 1);
  }

  lemma PopPacked<V>(s: seq<Option<V>>, k: nat)
    requires |s| == DEPTH && 0 < k < DEPTH
    requires forall i :: 0 <= i < k ==> s[i].Some?
    requires forall i :: k <= i < DEPTH ==> s[i].None?
    ensures Depth(PopView(s).1) == k - 1
  {
    var t := PopView(s).1;
    assert forall i :: k - 1 <= i < DEPTH ==> t[i].None? by {
      forall i | k - 1 <= i < DEPTH ensures t[i].None? {
        if i < DEPTH - 1 { assert t[i] == s[i + 1]; }
      }
    }
    DepthPrefix(t, k - 1);
  }

  /** The logical stack read off physical slots a with st0 at index t:
      a[t], a[t + 1], ..., wrapping round to a[t - 1]. */
  function Rotate<V>(a: seq<Option<V>>, t: nat): (s: seq<Option<V>>)
    requires t < |a|
    ensures |s| == |a|
    ensures forall i :: 0 <= i < |a| ==> s[i] == a[(t + i) % |a|]
  {
    var s := a[t..] + a[..t];
    assert forall i :: 0 <= i < |a| ==> s[i] == a[(t + i) % |a|] by {
      forall i | 0 <= i < |a| ensures s[i] == a[(t + i) % |a|] {
        if t + i < |a| {
          ModBelow(t + i, |a|);
          assert s[i] == a[t + i];
        } else {
          ModWrap(t + i, |a|);
          assert s[i] == a[t + i - |a|];
        }
      }
    }
    s
  }

  lemma ModBelow(x: nat, n: nat)
    requires x < n
    ensures x % n == x
  {
  }

  lemma ModWrap(x: nat, n: nat)
    requires n <= x < 2 * n
    ensures x % n == x - n
  {
    assert x == n * 1 + (x - n);
  }

  /** Index arithmetic on the ring of slots: t + i wraps round at most once. */
  lemma RingIndex(t: nat, i: nat)
    requires t < DEPTH && i < DEPTH
    ensures (t + i) % DEPTH == if t + i < DEPTH then t + i else t + i - DEPTH
  {
    if t + i < DEPTH {
      ModBelow(t + i, DEPTH);
    } else {
      ModWrap(t + i, DEPTH);
    }
  }

  /** Moving top down by one and filling the new top slot is a push on the
      logical stack. */
  lemma PushRotate<V>(a: seq<Option<V>>, t: nat, v: V)
    requires |a| == DEPTH && t < DEPTH
    ensures var t' := (t + DEPTH - 1) % DEPTH;
            Rotate(a[t' := Some(v)], t') == PushView(Rotate(a, t), v)
  {
    var t' := (t + DEPTH - 1) % DEPTH;
    RingIndex(t, DEPTH - 1);
    var l := Rotate(a[t' := Some(v)], t');
    var r := PushView(Rotate(a, t), v);
    forall i | 0 <= i < DEPTH ensures l[i] == r[i] {
      RingIndex(t', i);
      if i > 0 {
        RingIndex(t, i - 1);
      }
    }
  }

  /** Emptying the top slot and moving top up by one is a pop on the
      logical stack. */
  lemma PopRotate<V>(a: seq<Option<V>>, t: nat)
    requires |a| == DEPTH && t < DEPTH
    ensures PopView(Rotate(a, t)).1 == Rotate(a[t := None], (t + 1) % DEPTH)
  {
    var t' := (t + 1) % DEPTH;
    RingIndex(t, 1);
    var l := PopView(Rotate(a, t)).1;
    var r := Rotate(a[t := None], t');
    forall i | 0 <= i < DEPTH ensures l[i] == r[i] {
      RingIndex(t', i);
      if i < DEPTH - 1 {
        RingIndex(t, i + 1);
      }
    }
  }

  class Fpu<V> {
    /** The eight physical slots. */
    var slots: array<Option<V>>
    /** The physical index of st0. */
    var top: nat

    ghost predicate Valid()
      reads this
    {
      slots.Length == DEPTH && top < DEPTH
    }

    /** st0 .. st7 in order. */
    function View(): (s: seq<Option<V>>)
      reads this, slots
      requires Valid()
      ensures |s| == DEPTH
    {
      Rotate(slots[..], top)
    }

    /** The reset state: every slot empty. */
    constructor ()
      ensures Valid() && fresh(slots)
      ensures forall i :: 0 <= i < DEPTH ==> View()[i] == None
    {
      slots := new Option<V>[DEPTH](_ => None);
      top := 0;
    }

    /** st<i>: None when that slot is empty. */
    function St(i: nat): (r: Option<V>)
      reads this, slots
      requires Valid() && i < DEPTH
      ensures r == View()[i]
    {
      slots[(top + i) % DEPTH]
    }

    /** push(v): v becomes st0 and the old st0 .. st6 become st1 .. st7. */
    method Push(v: V)
      requires Valid()
      modifies this, slots
      ensures Valid() && slots == old(slots)
      ensures View() == PushView(old(View()), v)
    {
      PushRotate(slots[..], top, v);
      top := (top + DEPTH - 1) % DEPTH;
      slots[top] := Some(v);
    }

    /** pop(): the value of st0, whose slot is then empty; st1 .. st7 move up. */
    method Pop() returns (r: Option<V>)
      requires Valid()
      modifies this, slots
      ensures Valid() && slots == old(slots)
      ensures (r, View()) == PopView(old(View()))
    {
      PopRotate(slots[..], top);
      r := slots[top];
      slots[top] := None;
      top := (top + 1) % DEPTH;
    }
  }

  /** The stack sequence of the test, on the logical view: from an empty
      stack, push a (st0 = a, st1 empty), push b (st0 = b, st1 = a), pop
      (st0 = a, st1 empty again), push c (st0 = c, st1 = a). */
  lemma TestStack<V>(a: V, b: V, c: V)
    ensures var s0 := seq(DEPTH, _ => None);
            var s1 := PushView(s0, a);
            var s2 := PushView(s1, b);
            var s3 := PopView(s2).1;
            var s4 := PushView(s3, c);
            && s0[0] == None
            && s1[0] == Some(a) && s1[1] == None
            && s2[0] == Some(b) && s2[1] == Some(a)
            && PopView(s2).0 == Some(b) && s3 == s1 && s3[0] == Some(a) && s3[1] == None
            && s4[0] == Some(c) && s4[1] == Some(a)
  {
    var s0: seq<Option<V>> := seq(DEPTH, _ => None);
    var s1 := PushView(s0, a);
    PushThenPop(s1, b);
  }

  /** The same sequence run on an Fpu object: st0 of the fresh stack, then
      st0 and st1 after each of push a, push b, pop and push c. */
  method StackScenario<V>(a: V, b: V, c: V) returns (seen: seq<Option<V>>)
    ensures seen == [None, Some(a), None, Some(b), Some(a), Some(a), None, Some(c), Some(a)]
  {
    var f := new Fpu<V>();
    var x0 := f.St(0);
    f.Push(a);
    var x1, x2 := f.St(0), f.St(1);
    f.Push(b);
    var x3, x4 := f.St(0), f.St(1);
    var _ := f.Pop();
    var x5, x6 := f.St(0), f.St(1);
    f.Push(c);
    var x7, x8 := f.St(0), f.St(1);
    seen := [x0, x1, x2, x3, x4, x5, x6, x7, x8];
  }
}
