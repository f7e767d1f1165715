/**
 * The data movement of harp_variable_add_dimension on a buffer viewed as G
 * blocks of B elements: every block is replicated L times, in place, from
 * the last block to the first. The first copy of each block keeps its very
 * strings; every other copy gets freshly duplicated ones.
 */
module Replicate {
  import opened HarpTypes
  import opened Layout
  import opened Blocks
  import opened Reorder
  import opened Rearrange

  /** The slot list of a replication: every one of the L new slots takes the one old slot. */
  function Zeros(L: nat): (ids: seq<int>)
    ensures |ids| == L && IdsIn(ids, 1)
    ensures forall t :: 0 <= t < L ==> ids[t] == 0
  {
    seq(L, t => 0)
  }

  /** Only the first copy of a replicated block is a first use. */
  lemma ZerosFirstUse(L: nat, t: int)
    requires 0 <= t < L
    ensures IsFirstUse(Zeros(L), t) <==> t == 0
  {
    if t > 0 {
      assert Zeros(L)[0] == Zeros(L)[t];
    }
  }

  /** Position p is live: inside the finished copies [lo, hi), or inside the source block while it is still needed. */
  predicate InLive(p: int, lo: int, hi: int, src: int, B: int, withSrc: bool)
  {
    (lo <= p < hi) || (withSrc && src <= p < src + B)
  }

  /** No string is pointed to by two live positions. */
  ghost predicate LiveUnique(s: seq<Elem>, lo: int, hi: int, src: int, B: int, withSrc: bool)
  {
    forall p, q ::
      (0 <= p < |s| && 0 <= q < |s| && InLive(p, lo, hi, src, B, withSrc) && InLive(q, lo, hi, src, B, withSrc) &&
       p != q && Owns(s[p]))
      ==> s[p] != s[q]
  }

  /** No live position holds a string. */
  ghost predicate LiveBare(s: seq<Elem>, lo: int, hi: int, src: int, B: int, withSrc: bool)
  {
    forall p :: 0 <= p < |s| && InLive(p, lo, hi, src, B, withSrc) ==> !Owns(s[p])
  }

  /**
   * The state of the copy loop of one block, with copies j+1 .. L-1 made: the
   * source block is intact while copy 0 is still to come, every copy made has
   * the source's contents, copy 0 is the source itself once made, and no
   * string is shared (nor present, for a type other than string).
   */
  ghost predicate RepInv(s: seq<Elem>, dst: int, src: int, L: int, B: int, j: int, src0: seq<Elem>, isString: bool)
    requires 0 <= dst && 0 <= src && 0 < B && 0 < L && -1 <= j < L && dst + L * B <= |s| && src + B <= |s|
  {
    (j >= 0 ==> s[src .. src + B] == src0) &&
    (forall k :: j < k < L ==> Contents(Slot(s, dst, L, B, k)) == Contents(src0)) &&
    (j < 0 ==> Slot(s, dst, L, B, 0) == src0) &&
    LiveUnique(s, dst + (j + 1) * B, dst + L * B, src, B, j >= 0) &&
    (!isString ==> LiveBare(s, dst + (j + 1) * B, dst + L * B, src, B, j >= 0))
  }

  /** Copy j of block i never overlaps the source block, except copy 0 when it is the source block itself. */
  lemma SourceApart(i: int, L: int, B: int, j: int)
    requires 0 <= i && 0 < L && 0 < B && 0 <= j < L
    ensures 0 <= i * B && 0 <= i * L * B
    ensures i * B + B <= i * L * B + j * B || (j == 0 && i * B == i * L * B)
  {
    MulLe(i, i * L, B);
    MulNonNegative(i, B);
    MulLe(1, L, i);
    if j > 0 {
      MulLe(i + 1, i * L + j, B);
      Distrib(i * L, j, B);
      Distrib(i, 1, B);
    } else if i * L != i {
      MulLe(i + 1, i * L, B);
      Distrib(i, 1, B);
    }
  }

  /** Duplicating the strings of copy j (j > 0) adds it to the live part without sharing any string. */
  lemma DupUnique(s: seq<Elem>, m: seq<Elem>, s': seq<Elem>, w: int, hi: int, src: int, B: int)
    requires |s| == |m| == |s'| && 0 <= src && src + B <= w && 0 < B && w + B <= hi <= |s|
    requires LiveUnique(s, w + B, hi, src, B, true)
    requires forall p :: 0 <= p < |s| && !(w <= p < w + B) ==> m[p] == s[p] && s'[p] == m[p]
    requires forall p, q :: w <= p < w + B && 0 <= q < |m| && Owns(s'[p]) ==> s'[p] != m[q]
    requires forall p, q :: w <= p < w + B && w <= q < w + B && p != q && Owns(s'[p]) ==> s'[p] != s'[q]
    ensures LiveUnique(s', w, hi, src, B, true)
  {
    forall p, q |
      0 <= p < |s'| && 0 <= q < |s'| && InLive(p, w, hi, src, B, true) && InLive(q, w, hi, src, B, true) &&
      p != q && Owns(s'[p])
      ensures s'[p] != s'[q]
    {
      if w <= p < w + B {
      } else if w <= q < w + B {
        if Owns(s'[q]) {
          assert s'[q] != m[p];
        }
      } else {
        assert InLive(p, w + B, hi, src, B, true) && InLive(q, w + B, hi, src, B, true);
      }
    }
  }

  /** Copying the source block into copy j (j > 0) of a type without strings keeps the live part string-free. */
  lemma BareCopy(s: seq<Elem>, m: seq<Elem>, w: int, hi: int, src: int, B: int)
    requires |s| == |m| && 0 <= src && src + B <= w && 0 < B && w + B <= hi <= |s|
    requires LiveBare(s, w + B, hi, src, B, true)
    requires forall p :: 0 <= p < |s| && !(w <= p < w + B) ==> m[p] == s[p]
    requires m[w .. w + B] == s[src .. src + B]
    ensures LiveBare(m, w, hi, src, B, true) && LiveUnique(m, w, hi, src, B, true)
  {
    forall p | 0 <= p < |m| && InLive(p, w, hi, src, B, true)
      ensures !Owns(m[p])
    {
      if w <= p < w + B {
        assert m[p] == m[w .. w + B][p - w] == s[src + (p - w)];
        assert InLive(src + (p - w), w + B, hi, src, B, true);
      } else {
        assert InLive(p, w + B, hi, src, B, true);
      }
    }
  }

  /**
   * Copy 0 takes the source block's own elements: the live part becomes the
   * finished copies alone, and stays as it was (or string-free).
   */
  lemma FirstCopy(s: seq<Elem>, s': seq<Elem>, dst: int, hi: int, src: int, B: int, isString: bool)
    requires |s| == |s'| && 0 <= src && 0 < B && 0 <= dst && dst + B <= hi <= |s| && src + B <= |s|
    requires src + B <= dst || src == dst
    requires forall p :: 0 <= p < |s| && !(dst <= p < dst + B) ==> s'[p] == s[p]
    requires s'[dst .. dst + B] == s[src .. src + B]
    requires LiveUnique(s, dst + B, hi, src, B, true)
    requires !isString ==> LiveBare(s, dst + B, hi, src, B, true)
    ensures LiveUnique(s', dst, hi, src, B, false)
    ensures !isString ==> LiveBare(s', dst, hi, src, B, false)
  {
    // where a live position's element came from
    forall p | dst <= p < dst + B
      ensures s'[p] == s[src + (p - dst)] && InLive(src + (p - dst), dst + B, hi, src, B, true)
    {
      assert s'[p] == s'[dst .. dst + B][p - dst];
    }
    forall p | dst + B <= p < hi
      ensures s'[p] == s[p] && InLive(p, dst + B, hi, src, B, true)
    {
    }
  }

  /** The first state of the copy loop: only the source block is live. */
  lemma InitialRep(s: seq<Elem>, G: int, L: int, B: int, i: int, isString: bool)
    requires 0 <= i < G && 0 < L && 0 < B && |s| == G * L * B && G * 1 * B <= |s|
    requires 0 <= i * L * B && i * L * B + L * B <= |s| && 0 <= i * B && i * B + B <= |s|
    requires GroupUnique(s, G, 1, B, i)
    requires !isString ==> forall e :: 0 <= e < B ==> !Owns(s[Pos(G, 1, B, i, 0, e)])
    ensures RepInv(s, i * L * B, i * B, L, B, L - 1, s[i * B .. i * B + B], isString)
  {
    var src := i * B;
    forall p, q | src <= p < src + B && src <= q < src + B && p != q && Owns(s[p])
      ensures s[p] != s[q]
    {
      assert p == Pos(G, 1, B, i, 0, p - src) && q == Pos(G, 1, B, i, 0, q - src);
    }
    forall p | src <= p < src + B && !isString
      ensures !Owns(s[p])
    {
      assert p == Pos(G, 1, B, i, 0, p - src);
    }
  }

  /**
   * Copy j of the source block: memmove it into place and, for strings and
   * every copy but the first, duplicate its strings.
   */
  method ReplicateSlot(a: array<Elem>, dst: int, src: int, L: int, B: int, j: int, isString: bool,
                       ghost src0: seq<Elem>)
    requires 0 <= dst && 0 <= src && 0 < B && 0 <= j < L && dst + L * B <= a.Length && src + B <= a.Length
    requires 0 <= j * B && j * B + B <= L * B
    requires src + B <= dst + j * B || (j == 0 && src == dst)
    requires RepInv(a[..], dst, src, L, B, j, src0, isString)
    modifies a
    ensures RepInv(a[..], dst, src, L, B, j - 1, src0, isString)
    ensures forall p :: dst + j * B <= p < dst + j * B + B && j > 0 && Owns(a[p]) ==> fresh(a[p].s)
    ensures forall p :: 0 <= p < a.Length && !(dst + j * B <= p < dst + j * B + B) ==> a[p] == old(a[p])
  {
    var w := dst + j * B;
    ghost var s := a[..];
    if isString && j != 0 {
      MulLe(j + 1, L, B);
      DupCopy(a, dst, src, L, B, j);
    } else {
      MemMove(a, w, src, B);
      if j != 0 {
        MulLe(j + 1, L, B);
        BareCopy(s, a[..], w, dst + L * B, src, B);
      } else {
        FirstCopy(s, a[..], dst, dst + L * B, src, B, isString);
      }
    }
    RepStep(s, a[..], dst, src, L, B, j, src0, isString);
  }

  /** Copy j (j > 0) of a block of strings: memmove the source into place, then duplicate its strings. */
  method DupCopy(a: array<Elem>, dst: int, src: int, L: int, B: int, j: int)
    requires 0 <= dst && 0 <= src && 0 < B && 0 < j < L && dst + L * B <= a.Length && src + B <= dst + j * B
    requires dst + j * B + B <= dst + L * B
    requires LiveUnique(a[..], dst + j * B + B, dst + L * B, src, B, true)
    modifies a
    ensures Contents(a[dst + j * B .. dst + j * B + B]) == old(Contents(a[src .. src + B]))
    ensures LiveUnique(a[..], dst + j * B, dst + L * B, src, B, true)
    ensures forall p :: dst + j * B <= p < dst + j * B + B && Owns(a[p]) ==> fresh(a[p].s)
    ensures forall p :: 0 <= p < a.Length && !(dst + j * B <= p < dst + j * B + B) ==> a[p] == old(a[p])
  {
    var w := dst + j * B;
    ghost var s := a[..];
    MemMove(a, w, src, B);
    ghost var m := a[..];
    DupRange(a, w, w + B);
    DupUnique(s, m, a[..], w, dst + L * B, src, B);
  }

  /** Copy j made, with its contents and without shared strings, the copy loop's state moves on to j - 1. */
  lemma RepStep(s: seq<Elem>, s': seq<Elem>, dst: int, src: int, L: int, B: int, j: int, src0: seq<Elem>, isString: bool)
    requires 0 <= dst && 0 <= src && 0 < B && 0 <= j < L && dst + L * B <= |s| == |s'| && src + B <= |s|
    requires 0 <= j * B && j * B + B <= L * B
    requires src + B <= dst + j * B || (j == 0 && src == dst)
    requires RepInv(s, dst, src, L, B, j, src0, isString)
    requires forall p :: 0 <= p < |s| && !(dst + j * B <= p < dst + j * B + B) ==> s'[p] == s[p]
    requires Contents(s'[dst + j * B .. dst + j * B + B]) == Contents(src0)
    requires j == 0 ==> s'[dst .. dst + B] == src0
    requires LiveUnique(s', dst + j * B, dst + L * B, src, B, j > 0)
    requires !isString ==> LiveBare(s', dst + j * B, dst + L * B, src, B, j > 0)
    ensures RepInv(s', dst, src, L, B, j - 1, src0, isString)
  {
    SlotFrame(s, s', dst, L, B, j);
    if j > 0 {
      assert s'[src .. src + B] == s[src .. src + B];
    }
    forall k | j - 1 < k < L
      ensures Contents(Slot(s', dst, L, B, k)) == Contents(src0)
    {
      if k == j {
        assert Slot(s', dst, L, B, k) == s'[dst + j * B .. dst + j * B + B];
      }
    }
    assert (j - 1 + 1) * B == j * B;
  }

  /** The finished copy loop, restated as group i of the replicated buffer. */
  lemma ReplicateResult(s0: seq<Elem>, s: seq<Elem>, G: int, L: int, B: int, i: int, src0: seq<Elem>, isString: bool)
    requires 0 <= i < G && 0 < L && 0 < B && |s| == |s0| == G * L * B && G * 1 * B <= |s0|
    requires 0 <= i * L * B && i * L * B + L * B <= |s| && 0 <= i * B && i * B + B <= |s0|
    requires src0 == s0[i * B .. i * B + B]
    requires RepInv(s, i * L * B, i * B, L, B, -1, src0, isString)
    ensures GroupPlaced(s, s0, G, 1, B, Zeros(L), i)
  {
    var dst := i * L * B;
    forall t, e | 0 <= t < L && 0 <= e < B
      ensures Content(s[Pos(G, L, B, i, t, e)]) == Content(s0[Pos(G, 1, B, i, 0, e)])
      ensures t == 0 ==> s[Pos(G, L, B, i, t, e)] == s0[Pos(G, 1, B, i, 0, e)]
    {
      SlotAtPos(s, G, L, B, L, i, t, e);
      assert Contents(Slot(s, dst, L, B, t))[e] == Contents(src0)[e];
      assert src0[e] == s0[i * B + e];
    }
    forall t | 0 <= t < L
      ensures IsFirstUse(Zeros(L), t) <==> t == 0
    {
      ZerosFirstUse(L, t);
    }
    forall t, e, u, f |
      0 <= t < L && 0 <= e < B && 0 <= u < L && 0 <= f < B && (t != u || e != f) && Owns(s[Pos(G, L, B, i, t, e)])
      ensures s[Pos(G, L, B, i, t, e)] != s[Pos(G, L, B, i, u, f)]
    {
      PosRange(G, L, B, i, t, e);
      PosRange(G, L, B, i, u, f);
      if Pos(G, L, B, i, t, e) == Pos(G, L, B, i, u, f) {
        PosInjective(G, L, B, i, t, e, i, u, f);
      }
      assert InLive(Pos(G, L, B, i, t, e), dst, dst + L * B, i * B, B, false);
      assert InLive(Pos(G, L, B, i, u, f), dst, dst + L * B, i * B, B, false);
    }
  }

  /** The copy loop of block i: copies L-1 down to 0, each a memmove of the source block. */
  method CopyLoop(a: array<Elem>, i: int, L: int, B: int, isString: bool, ghost src0: seq<Elem>)
    requires 0 <= i && 0 < L && 0 < B && i * L * B + L * B <= a.Length && 0 <= i * L * B
    requires 0 <= i * B && i * B + B <= a.Length
    requires RepInv(a[..], i * L * B, i * B, L, B, L - 1, src0, isString)
    modifies a
    ensures RepInv(a[..], i * L * B, i * B, L, B, -1, src0, isString)
    ensures forall p :: i * L * B + B <= p < i * L * B + L * B && Owns(a[p]) ==> fresh(a[p].s)
    ensures forall p :: 0 <= p < a.Length && !(i * L * B <= p < i * L * B + L * B) ==> a[p] == old(a[p])
  {
    var dst, src := i * L * B, i * B;
    var j := L - 1;
    ghost var w := dst + j * B;
    while j >= 0
      invariant -1 <= j < L && w == dst + j * B
      invariant RepInv(a[..], dst, src, L, B, j, src0, isString)
      invariant forall p :: w + B <= p < dst + L * B && dst + B <= p && Owns(a[p]) ==> fresh(a[p].s)
      invariant forall p :: 0 <= p < a.Length && !(dst <= p < dst + L * B) ==> a[p] == old(a[p])
    {
      SourceApart(i, L, B, j);
      SlotFits(L, B, j);
      ReplicateSlot(a, dst, src, L, B, j, isString, src0);
      Distrib(j - 1, 1, B);
      j, w := j - 1, w - B;
    }
  }

  /** The replication of block i into copies 0 .. L-1, from the last copy to the first. */
  method ReplicateGroup(a: array<Elem>, G: int, L: int, B: int, i: int, isString: bool)
    requires 0 <= i < G && 0 < L && 0 < B && a.Length == G * L * B && G * 1 * B <= a.Length
    requires GroupUnique(a[..], G, 1, B, i)
    requires !isString ==> forall e :: 0 <= e < B ==> !Owns(a[Pos(G, 1, B, i, 0, e)])
    modifies a
    ensures GroupPlaced(a[..], old(a[..]), G, 1, B, Zeros(L), i)
    ensures forall t, e :: 0 < t < L && 0 <= e < B && Owns(a[Pos(G, L, B, i, t, e)]) ==> fresh(a[Pos(G, L, B, i, t, e)].s)
    ensures forall p :: 0 <= p < a.Length && !(i * L * B <= p < i * L * B + L * B) ==> a[p] == old(a[p])
  {
    WindowIn(G, L, B, L, i);
    WindowIn(G, 1, B, L, i);
    var dst, src := i * L * B, i * B;
    ghost var src0 := a[src .. src + B];
    InitialRep(a[..], G, L, B, i, isString);
    CopyLoop(a, i, L, B, isString, src0);
    ReplicateResult(old(a[..]), a[..], G, L, B, i, src0, isString);
    forall t, e | 0 < t < L && 0 <= e < B && Owns(a[Pos(G, L, B, i, t, e)])
      ensures fresh(a[Pos(G, L, B, i, t, e)].s)
    {
      LaterCopy(G, L, B, i, t, e);
    }
  }

  /** An element of copy t > 0 of block i lies past copy 0 and inside the group. */
  lemma LaterCopy(G: int, L: int, B: int, i: int, t: int, e: int)
    requires 0 <= i < G && 0 < t < L && 0 <= e < B
    ensures i * L * B + B <= Pos(G, L, B, i, t, e) < i * L * B + L * B
  {
    PosRange(G, L, B, i, t, e);
    Distrib(i * L, t, B);
    MulLe(1, t, B);
  }

  /** One pass of the block loop of add_dimension, keeping the loop's state. */
  method ReplicatePass(b: array<Elem>, G: int, L: int, B: int, i: int, isString: bool, ghost s0: seq<Elem>)
    requires 0 <= i < G && 0 < L && 0 < B && b.Length == G * L * B && |s0| == G * 1 * B && G * 1 * B <= b.Length
    requires GroupsInv(b[..], s0, G, 1, B, Zeros(L), -1, i) && Unique(s0)
    requires !isString ==> forall p :: 0 <= p < |s0| ==> !Owns(s0[p])
    modifies b
    ensures GroupsInv(b[..], s0, G, 1, B, Zeros(L), -1, i - 1)
    ensures forall t, e :: 0 < t < L && 0 <= e < B && Owns(b[Pos(G, L, B, i, t, e)]) ==> fresh(b[Pos(G, L, B, i, t, e)].s)
    ensures forall h, t, e :: i < h < G && 0 <= t < L && 0 <= e < B ==>
      b[Pos(G, L, B, h, t, e)] == old(b[Pos(G, L, B, h, t, e)])
  {
    ReadyGroup(b[..], s0, G, 1, B, Zeros(L), -1, i, isString);
    ghost var before := b[..];
    ReplicateGroup(b, G, L, B, i, isString);
    forall t, e | 0 <= t < L && 0 <= e < B && !IsFirstUse(Zeros(L), t) && Owns(b[Pos(G, L, B, i, t, e)])
      ensures forall p :: 0 <= p < |before| ==> before[p] != b[Pos(G, L, B, i, t, e)]
    {
      ZerosFirstUse(L, t);
    }
    StepGroups(before, b[..], s0, G, 1, B, Zeros(L), L, -1, i);
    forall h, t, e | i < h < G && 0 <= t < L && 0 <= e < B
      ensures b[Pos(G, L, B, h, t, e)] == old(b[Pos(G, L, B, h, t, e)])
    {
      OutsideWindow(G, 1, L, B, L, -1, i, h, t, e);
    }
  }

  /** The block loop, from the last block to the first. */
  method ReplicateBlocks(b: array<Elem>, G: int, L: int, B: int, isString: bool, ghost s0: seq<Elem>)
    requires 0 < G && 0 < L && 0 < B && b.Length == G * L * B && |s0| == G * 1 * B && G * 1 * B <= b.Length
    requires GroupsInv(b[..], s0, G, 1, B, Zeros(L), -1, G - 1) && Unique(s0)
    requires !isString ==> forall p :: 0 <= p < |s0| ==> !Owns(s0[p])
    modifies b
    ensures GroupsInv(b[..], s0, G, 1, B, Zeros(L), -1, -1)
    ensures forall h, t, e :: 0 <= h < G && 0 < t < L && 0 <= e < B && Owns(b[Pos(G, L, B, h, t, e)]) ==>
      fresh(b[Pos(G, L, B, h, t, e)].s)
  {
    var i := G - 1;
    while i >= 0
      invariant -1 <= i < G
      invariant GroupsInv(b[..], s0, G, 1, B, Zeros(L), -1, i)
      invariant forall h, t, e :: i < h < G && 0 < t < L && 0 <= e < B && Owns(b[Pos(G, L, B, h, t, e)]) ==>
        fresh(b[Pos(G, L, B, h, t, e)].s)
    {
      ReplicatePass(b, G, L, B, i, isString, s0);
      i := i - 1;
    }
  }

  /**
   * The data movement of harp_variable_add_dimension: a buffer of G blocks
   * becomes G groups of L copies of the block. Copy 0 of each block receives
   * its very elements, every other copy freshly duplicated strings, and no
   * string ends up shared.
   */
  method ReplicateData(a: array<Elem>, G: int, L: int, B: int, isString: bool) returns (r: array<Elem>)
    requires 0 < G && 0 < L && 0 < B && a.Length == G * B && Unique(a[..])
    requires !isString ==> forall p :: 0 <= p < a.Length ==> !Owns(a[p])
    ensures r.Length == G * L * B && fresh(r)
    ensures Contents(r[..]) == Gather(Contents(a[..]), G, 1, B, Zeros(L))
    ensures forall g, e :: 0 <= g < G && 0 <= e < B ==> r[Pos(G, L, B, g, 0, e)] == a[Pos(G, 1, B, g, 0, e)]
    ensures forall g, t, e :: 0 <= g < G && 0 < t < L && 0 <= e < B && Owns(r[Pos(G, L, B, g, t, e)]) ==>
      fresh(r[Pos(G, L, B, g, t, e)].s)
    ensures Unique(r[..])
  {
    ghost var s0 := a[..];
    MiddleLe(1, L, G, B);
    r := Realloc(a, G * L * B);
    InitialGroups(r[..], s0, G, 1, B, Zeros(L), -1, G - 1);
    ReplicateBlocks(r, G, L, B, isString, s0);
    FinalGroups(r[..], s0, G, 1, B, Zeros(L), -1, -1, r[..]);
    forall g, e | 0 <= g < G && 0 <= e < B
      ensures r[Pos(G, L, B, g, 0, e)] == a[Pos(G, 1, B, g, 0, e)]
    {
      ZerosFirstUse(L, 0);
    }
  }
}
