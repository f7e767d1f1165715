/**
 * The data movement of harp_variable_resize_dimension on a buffer viewed as
 * G groups x D blocks x B elements: every group is truncated to its first L
 * blocks, or extended to L blocks with the type's fill value.
 */
module Resize {
  import opened HarpTypes
  import opened Layout
  import opened Blocks
  import opened Rearrange

  /**
   * The buffer with its middle axis resized from D to L: block t of every
   * group is block t of the input when t < D, and all fill otherwise.
   */
  function Resized<T>(s: seq<T>, G: nat, D: nat, B: nat, L: nat, fill: T): (r: seq<T>)
    requires |s| == G * D * B
    ensures |r| == G * L * B
    ensures forall g, t, e :: 0 <= g < G && 0 <= t < L && 0 <= e < B ==>
      r[Pos(G, L, B, g, t, e)] == if t < D then s[Pos(G, D, B, g, t, e)] else fill
  {
    var r := seq(G * L * B, p requires 0 <= p < G * L * B => ResizedAt(s, G, D, B, L, fill, p));
    assert forall g, t, e :: 0 <= g < G && 0 <= t < L && 0 <= e < B ==>
      r[Pos(G, L, B, g, t, e)] == if t < D then s[Pos(G, D, B, g, t, e)] else fill
    by {
      forall g, t, e | 0 <= g < G && 0 <= t < L && 0 <= e < B
        ensures r[Pos(G, L, B, g, t, e)] == if t < D then s[Pos(G, D, B, g, t, e)] else fill
      {
        PosSplit(G, L, B, g, t, e);
      }
    }
    r
  }

  /** The element Resized puts at flat index p. */
  function ResizedAt<T>(s: seq<T>, G: nat, D: nat, B: nat, L: nat, fill: T, p: int): T
    requires |s| == G * D * B && 0 <= p < G * L * B
  {
    ProductZeroFactor(G, L, B);
    PosCover(G, L, B, p);
    var g, t, e := p / B / L, p / B % L, p % B;
    if t < D then s[Pos(G, D, B, g, t, e)] else fill
  }

  /** Resizing to the current length changes nothing. */
  lemma ResizedSame<T>(s: seq<T>, G: nat, D: nat, B: nat, fill: T)
    requires |s| == G * D * B
    ensures Resized(s, G, D, B, D, fill) == s
  {
    EqualByPos(Resized(s, G, D, B, D, fill), s, G, D, B);
  }

  /** Truncating keeps the first L blocks of every group: a gather of slots 0 .. L-1. */
  lemma ResizedShrink<T>(s: seq<T>, G: nat, D: nat, B: nat, L: nat, fill: T)
    requires |s| == G * D * B && L <= D
    ensures IdsIn(Iota(L), D)
    ensures Resized(s, G, D, B, L, fill) == Gather(s, G, D, B, Iota(L))
  {
    EqualByPos(Resized(s, G, D, B, L, fill), Gather(s, G, D, B, Iota(L)), G, L, B);
  }

  /** Extending and then truncating back to the old length restores the buffer. */
  lemma ResizedRoundTrip<T>(s: seq<T>, G: nat, D: nat, B: nat, L: nat, fill: T)
    requires |s| == G * D * B && D <= L
    ensures Resized(Resized(s, G, D, B, L, fill), G, L, B, D, fill) == s
  {
    EqualByPos(Resized(Resized(s, G, D, B, L, fill), G, L, B, D, fill), s, G, D, B);
  }

  /**
   * A string of a buffer without shared strings is still referenced after the
   * resize exactly when its block is among the first L; resizing shares no string.
   */
  lemma ResizeReleases(s: seq<Elem>, G: nat, D: nat, B: nat, L: nat, fill: Elem, g: int, j: int, e: int)
    requires |s| == G * D * B && Unique(s) && !Owns(fill)
    requires 0 <= g < G && 0 <= j < D && 0 <= e < B && Owns(s[Pos(G, D, B, g, j, e)])
    ensures s[Pos(G, D, B, g, j, e)] in Resized(s, G, D, B, L, fill) <==> j < L
  {
    var r, x := Resized(s, G, D, B, L, fill), s[Pos(G, D, B, g, j, e)];
    if j < L {
      assert r[Pos(G, L, B, g, j, e)] == x;
    }
    if x in r {
      var p :| 0 <= p < |r| && r[p] == x;
      ProductZeroFactor(G, L, B);
      PosCover(G, L, B, p);
      var g', t, e' := p / B / L, p / B % L, p % B;
      PosInjective(G, D, B, g, j, e, g', t, e');
    }
  }

  /** Resizing a buffer without shared strings, with a fill value owning no string, shares no string. */
  lemma ResizedUnique(s: seq<Elem>, G: nat, D: nat, B: nat, L: nat, fill: Elem)
    requires |s| == G * D * B && Unique(s) && !Owns(fill)
    ensures Unique(Resized(s, G, D, B, L, fill))
  {
    var r := Resized(s, G, D, B, L, fill);
    forall p, q | 0 <= p < |r| && 0 <= q < |r| && p != q && Owns(r[p])
      ensures r[p] != r[q]
    {
      ProductZeroFactor(G, L, B);
      PosCover(G, L, B, p);
      PosCover(G, L, B, q);
      var g, t, e := p / B / L, p / B % L, p % B;
      var g', t', e' := q / B / L, q / B % L, q % B;
      if t < D && t' < D && Pos(G, D, B, g, t, e) == Pos(G, D, B, g', t', e') {
        PosInjective(G, D, B, g, t, e, g', t', e');
      }
    }
  }

  /** Offset e of slot t of group g is offset t*B + e of the group's region. */
  lemma PosOffset(G: int, n: int, B: int, g: int, t: int, e: int)
    requires 0 <= g < G && 0 <= t < n && 0 <= e < B
    ensures Pos(G, n, B, g, t, e) == g * n * B + (t * B + e) && 0 <= t * B + e < n * B
  {
    Distrib(g * n, t, B);
    MulLe(t + 1, n, B);
    MulNonNegative(t, B);
  }

  /** The shrinking step for group i: memmove its first L blocks to their new place (group 0 stays put). */
  method ShrinkGroup(a: array<Elem>, G: int, D: int, B: int, L: int, i: int)
    requires 0 <= i < G && 0 < L < D && 0 < B && a.Length == G * D * B && G * L * B <= a.Length
    modifies a
    ensures forall t, e :: 0 <= t < L && 0 <= e < B ==> a[Pos(G, L, B, i, t, e)] == old(a[Pos(G, D, B, i, t, e)])
    ensures forall p :: 0 <= p < a.Length && !(i * L * B <= p < i * L * B + L * B) ==> a[p] == old(a[p])
  {
    WindowFits(G, D, L, B, D, i);
    MulLe(L, D, B);
    var dst, src := i * L * B, i * D * B;
    if i > 0 {
      MemMove(a, dst, src, L * B);
    }
    forall t, e | 0 <= t < L && 0 <= e < B
      ensures a[Pos(G, L, B, i, t, e)] == old(a[Pos(G, D, B, i, t, e)])
    {
      PosOffset(G, L, B, i, t, e);
      PosOffset(G, D, B, i, t, e);
      if i > 0 {
        assert a[dst + (t * B + e)] == a[dst .. dst + L * B][t * B + e];
      }
    }
  }

  /** The shrinking loop: group by group, forwards, every group keeps its first L blocks. */
  method ShrinkLoop(a: array<Elem>, G: int, D: int, B: int, L: int)
    requires 0 <= G && 0 < L < D && 0 <= B && a.Length == G * D * B && G * L * B <= a.Length
    modifies a
    ensures forall g, t, e :: 0 <= g < G && 0 <= t < L && 0 <= e < B ==>
      a[Pos(G, L, B, g, t, e)] == old(a[Pos(G, D, B, g, t, e)])
  {
    ghost var s0 := a[..];
    MiddleLe(L, D, G, B);
    var i := 0;
    while i < G
      invariant 0 <= i <= G
      invariant forall h, t, e :: 0 <= h < i && 0 <= t < L && 0 <= e < B ==> a[Pos(G, L, B, h, t, e)] == s0[Pos(G, D, B, h, t, e)]
      invariant forall h, t, e :: i <= h < G && 0 <= t < D && 0 <= e < B ==> a[Pos(G, D, B, h, t, e)] == s0[Pos(G, D, B, h, t, e)]
    {
      if B > 0 {
        ghost var before := a[..];
        ShrinkGroup(a, G, D, B, L, i);
        ShrinkStep(before, a[..], s0, G, D, B, L, i);
      }
      i := i + 1;
    }
  }

  /** The groups other than i keep their state across a shrinking step. */
  lemma ShrinkStep(s: seq<Elem>, s': seq<Elem>, s0: seq<Elem>, G: int, D: int, B: int, L: int, i: int)
    requires 0 <= i < G && 0 < L < D && 0 < B && |s| == |s'| == |s0| == G * D * B && G * L * B <= |s|
    requires forall h, t, e :: 0 <= h < i && 0 <= t < L && 0 <= e < B ==> s[Pos(G, L, B, h, t, e)] == s0[Pos(G, D, B, h, t, e)]
    requires forall h, t, e :: i <= h < G && 0 <= t < D && 0 <= e < B ==> s[Pos(G, D, B, h, t, e)] == s0[Pos(G, D, B, h, t, e)]
    requires forall t, e :: 0 <= t < L && 0 <= e < B ==> s'[Pos(G, L, B, i, t, e)] == s[Pos(G, D, B, i, t, e)]
    requires forall p :: 0 <= p < |s| && !(i * L * B <= p < i * L * B + L * B) ==> s'[p] == s[p]
    ensures forall h, t, e :: 0 <= h < i + 1 && 0 <= t < L && 0 <= e < B ==> s'[Pos(G, L, B, h, t, e)] == s0[Pos(G, D, B, h, t, e)]
    ensures forall h, t, e :: i + 1 <= h < G && 0 <= t < D && 0 <= e < B ==> s'[Pos(G, D, B, h, t, e)] == s0[Pos(G, D, B, h, t, e)]
  {
    MulLe(L, D, B);
    forall h, t, e | 0 <= h < i && 0 <= t < L && 0 <= e < B
      ensures s'[Pos(G, L, B, h, t, e)] == s[Pos(G, L, B, h, t, e)]
    {
      OutsideWindow(G, D, L, B, D, 1, i, h, t, e);
    }
    forall h, t, e | i + 1 <= h < G && 0 <= t < D && 0 <= e < B
      ensures s'[Pos(G, D, B, h, t, e)] == s[Pos(G, D, B, h, t, e)]
    {
      OutsideWindow(G, D, L, B, D, 1, i, h, t, e);
    }
  }

  /**
   * The extending step for group i: memmove its D blocks to their new place
   * (group 0 stays put), then set blocks D .. L-1 to the fill value.
   */
  method GrowGroup(a: array<Elem>, G: int, D: int, B: int, L: int, i: int, fill: Elem)
    requires 0 <= i < G && 0 <= D < L && 0 < B && a.Length == G * L * B && G * D * B <= a.Length
    modifies a
    ensures forall t, e :: 0 <= t < L && 0 <= e < B ==>
      a[Pos(G, L, B, i, t, e)] == if t < D then old(a[Pos(G, D, B, i, t, e)]) else fill
    ensures forall p :: 0 <= p < a.Length && !(i * L * B <= p < i * L * B + L * B) ==> a[p] == old(a[p])
  {
    WindowIn(G, L, B, L, i);
    WindowIn(G, D, B, L, i);
    MulLe(D, L, B);
    MiddleLe(D, L, G, B);
    var dst, src := i * L * B, i * D * B;
    if i > 0 {
      MemMove(a, dst, src, D * B);
    }
    ghost var moved := a[..];
    FillRange(a, dst + D * B, dst + L * B, fill);
    forall t, e | 0 <= t < L && 0 <= e < B
      ensures a[Pos(G, L, B, i, t, e)] == if t < D then old(a[Pos(G, D, B, i, t, e)]) else fill
    {
      PosOffset(G, L, B, i, t, e);
      if t < D {
        PosOffset(G, D, B, i, t, e);
        MulLe(t + 1, D, B);
        if i > 0 {
          assert moved[dst + (t * B + e)] == moved[dst .. dst + D * B][t * B + e];
        }
      } else {
        MulLe(D, t, B);
      }
    }
  }

  /** The extending loop: group by group, backwards, every group is extended to L blocks. */
  method GrowLoop(a: array<Elem>, G: int, D: int, B: int, L: int, fill: Elem, ghost s0: seq<Elem>)
    requires 0 <= G && 0 <= D < L && 0 <= B && a.Length == G * L * B && |s0| == G * D * B
    requires forall p :: 0 <= p < |s0| ==> a[p] == s0[p]
    modifies a
    ensures a[..] == Resized(s0, G, D, B, L, fill)
  {
    MiddleLe(D, L, G, B);
    var i := G - 1;
    while i >= 0
      invariant -1 <= i < G
      invariant forall h, t, e :: i < h < G && 0 <= t < L && 0 <= e < B ==>
        a[Pos(G, L, B, h, t, e)] == if t < D then s0[Pos(G, D, B, h, t, e)] else fill
      invariant forall h, t, e :: 0 <= h <= i && 0 <= t < D && 0 <= e < B ==> a[Pos(G, D, B, h, t, e)] == s0[Pos(G, D, B, h, t, e)]
    {
      if B > 0 {
        ghost var before := a[..];
        GrowGroup(a, G, D, B, L, i, fill);
        GrowStep(before, a[..], s0, G, D, B, L, i, fill);
      }
      i := i - 1;
    }
    EqualByPos(a[..], Resized(s0, G, D, B, L, fill), G, L, B);
  }

  /** The groups other than i keep their state across an extending step. */
  lemma GrowStep(s: seq<Elem>, s': seq<Elem>, s0: seq<Elem>, G: int, D: int, B: int, L: int, i: int, fill: Elem)
    requires 0 <= i < G && 0 <= D < L && 0 < B && |s| == |s'| == G * L * B && |s0| == G * D * B && G * D * B <= |s|
    requires forall h, t, e :: i < h < G && 0 <= t < L && 0 <= e < B ==>
      s[Pos(G, L, B, h, t, e)] == if t < D then s0[Pos(G, D, B, h, t, e)] else fill
    requires forall h, t, e :: 0 <= h <= i && 0 <= t < D && 0 <= e < B ==> s[Pos(G, D, B, h, t, e)] == s0[Pos(G, D, B, h, t, e)]
    requires forall t, e :: 0 <= t < L && 0 <= e < B ==>
      s'[Pos(G, L, B, i, t, e)] == if t < D then s[Pos(G, D, B, i, t, e)] else fill
    requires forall p :: 0 <= p < |s| && !(i * L * B <= p < i * L * B + L * B) ==> s'[p] == s[p]
    ensures forall h, t, e :: i - 1 < h < G && 0 <= t < L && 0 <= e < B ==>
      s'[Pos(G, L, B, h, t, e)] == if t < D then s0[Pos(G, D, B, h, t, e)] else fill
    ensures forall h, t, e :: 0 <= h <= i - 1 && 0 <= t < D && 0 <= e < B ==> s'[Pos(G, D, B, h, t, e)] == s0[Pos(G, D, B, h, t, e)]
  {
    MiddleLe(D, L, G, B);
    forall h, t, e | i < h < G && 0 <= t < L && 0 <= e < B
      ensures s'[Pos(G, L, B, h, t, e)] == s[Pos(G, L, B, h, t, e)]
    {
      OutsideWindow(G, D, L, B, L, -1, i, h, t, e);
    }
    forall h, t, e | 0 <= h <= i - 1 && 0 <= t < D && 0 <= e < B
      ensures s'[Pos(G, D, B, h, t, e)] == s[Pos(G, D, B, h, t, e)]
    {
      OutsideWindow(G, D, L, B, L, -1, i, h, t, e);
    }
  }

  /**
   * The data movement of harp_variable_resize_dimension: truncate every group
   * when the axis shrinks, reallocate, and extend every group with the fill
   * value when it grows.
   */
  method ResizeData(a: array<Elem>, G: nat, D: nat, B: nat, L: nat, fill: Elem) returns (r: array<Elem>)
    requires 0 < L && a.Length == G * D * B
    modifies a
    ensures r[..] == Resized(old(a[..]), G, D, B, L, fill)
  {
    ghost var s0 := a[..];
    if L < D {
      MiddleLe(L, D, G, B);
      ShrinkLoop(a, G, D, B, L);
    }
    ghost var shrunk := a[..];
    MiddleLe(if L < D then L else D, if L < D then D else L, G, B);
    r := Realloc(a, G * L * B);
    if L > D {
      GrowLoop(r, G, D, B, L, fill, s0);
    } else {
      forall g, t, e | 0 <= g < G && 0 <= t < L && 0 <= e < B
        ensures r[Pos(G, L, B, g, t, e)] == s0[Pos(G, D, B, g, t, e)]
      {
        if L == D {
          assert shrunk == s0;
        }
      }
      EqualByPos(r[..], Resized(s0, G, D, B, L, fill), G, L, B);
    }
  }
}
