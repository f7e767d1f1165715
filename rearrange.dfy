/**
 * The data movement of harp_variable_rearrange_dimension on a buffer viewed
 * as G groups x D slots x B elements: every group is first memmoved to its
 * new place (backwards through the groups when the buffer grows, forwards
 * when it shrinks) and then reordered in place, so that slot t of every
 * group ends up holding slot ids[t] of that group.
 */
module Rearrange {
  import opened HarpTypes
  import opened Layout
  import opened Blocks
  import opened Reorder

  /** Offset e of slot t of group g is the same element seen as a slot or as a flat position. */
  lemma SlotAtPos<T>(s: seq<T>, G: int, n: int, B: int, M: int, g: int, t: int, e: int)
    requires 0 <= g < G && 0 <= t < n && t < M && 0 <= e < B
    requires 0 <= g * n * B && g * n * B + M * B <= |s| && G * n * B <= |s|
    ensures Slot(s, g * n * B, M, B, t)[e] == s[Pos(G, n, B, g, t, e)]
  {
    SlotIndex(s, g * n * B, M, B, t, e);
    Distrib(g * n, t, B);
    assert Pos(G, n, B, g, t, e) == g * n * B + t * B + e;
  }

  /** Growing the middle factor of a product grows the product. */
  lemma MiddleLe(x: int, y: int, G: int, B: int)
    requires 0 <= x <= y && 0 <= G && 0 <= B
    ensures 0 <= G * x * B <= G * y * B
  {
    MulLe(x, y, G);
    MulNonNegative(G, x);
    MulLe(G * x, G * y, B);
    MulNonNegative(G * x, B);
  }

  /** Slots [g*n, g*n + M) of a buffer of G groups of M slots (n <= M) lie inside it. */
  lemma WindowIn(G: int, n: int, B: int, M: int, g: int)
    requires 0 <= g < G && 0 <= n <= M && 0 <= B
    ensures 0 <= g * n * B && g * n * B + M * B <= G * M * B
  {
    MiddleLe(n, M, g, B);
    Distrib(g * M, M, B);
    Distrib(g, 1, M);
    MulLe(g + 1, G, M);
    MulLe((g + 1) * M, G * M, B);
  }

  /** The memmove window of group g lies inside the buffer. */
  lemma WindowFits(G: int, D: int, N: int, B: int, M: int, g: int)
    requires 0 <= g < G && 0 < D && 0 < N && 0 < B && M == (if N > D then N else D)
    ensures 0 <= g * N * B && g * N * B + M * B <= G * M * B
    ensures 0 <= g * D * B && g * D * B + D * B <= G * M * B
    ensures G * D * B <= G * M * B && G * N * B <= G * M * B
  {
    WindowIn(G, N, B, M, g);
    WindowIn(G, D, B, M, g);
    MulLe(D, M, B);
    MiddleLe(D, M, G, B);
    MiddleLe(N, M, G, B);
  }

  /** No string is pointed to by two elements of group g of a G x D x B buffer. */
  ghost predicate GroupUnique(s: seq<Elem>, G: int, D: int, B: int, g: int)
    requires 0 <= g < G && G * D * B <= |s|
  {
    forall j, e, j', e' ::
      (0 <= j < D && 0 <= e < B && 0 <= j' < D && 0 <= e' < B && (j != j' || e != e') &&
       Owns(s[Pos(G, D, B, g, j, e)]))
      ==> s[Pos(G, D, B, g, j, e)] != s[Pos(G, D, B, g, j', e')]
  }

  /**
   * Group g of s (a G x |ids| x B buffer) holds group g of s0 (a G x D x B
   * buffer) gathered by `ids`: the same contents, the very same elements at
   * the first use of each source slot, and no string shared within the group.
   */
  ghost predicate GroupPlaced(s: seq<Elem>, s0: seq<Elem>, G: int, D: int, B: int, ids: seq<int>, g: int)
    requires 0 <= g < G && G * |ids| * B <= |s| && G * D * B <= |s0| && IdsIn(ids, D)
  {
    (forall t, e :: 0 <= t < |ids| && 0 <= e < B ==>
      Content(s[Pos(G, |ids|, B, g, t, e)]) == Content(s0[Pos(G, D, B, g, ids[t], e)])) &&
    (forall t, e :: 0 <= t < |ids| && 0 <= e < B && IsFirstUse(ids, t) ==>
      s[Pos(G, |ids|, B, g, t, e)] == s0[Pos(G, D, B, g, ids[t], e)]) &&
    (forall t, e, u, f ::
      (0 <= t < |ids| && 0 <= e < B && 0 <= u < |ids| && 0 <= f < B && (t != u || e != f) &&
       Owns(s[Pos(G, |ids|, B, g, t, e)]))
      ==> s[Pos(G, |ids|, B, g, t, e)] != s[Pos(G, |ids|, B, g, u, f)])
  }

  /**
   * One pass of the group loop: memmove group g from its old place (g*D*B) to
   * its new place (g*N*B), then reorder its blocks there.
   */
  method RearrangeGroup(a: array<Elem>, G: int, D: int, B: int, ids: seq<int>, M: int, g: int,
                        moveToId: array<int>, moved: array<bool>, buffer: array<Elem>, isString: bool)
    requires 0 <= g < G && 0 < D && 0 < |ids| && 0 < B && M == (if |ids| > D then |ids| else D)
    requires a.Length == G * M * B
    requires FirstTable(moveToId[..], ids, D) && moved.Length == D && buffer.Length == B && buffer != a
    requires G * D * B <= a.Length && GroupUnique(a[..], G, D, B, g)
    requires !isString ==> forall j, e :: 0 <= j < D && 0 <= e < B ==> !Owns(a[Pos(G, D, B, g, j, e)])
    modifies a, moved, buffer
    ensures G * |ids| * B <= a.Length && G * D * B <= a.Length
    ensures GroupPlaced(a[..], old(a[..]), G, D, B, ids, g)
    ensures forall t, e ::
      (0 <= t < |ids| && 0 <= e < B && !IsFirstUse(ids, t) && Owns(a[Pos(G, |ids|, B, g, t, e)]))
      ==> fresh(a[Pos(G, |ids|, B, g, t, e)].s)
    ensures forall p :: 0 <= p < a.Length && !(g * |ids| * B <= p < g * |ids| * B + M * B) ==> a[p] == old(a[p])
  {
    var N := |ids|;
    WindowFits(G, D, N, B, M, g);
    var dst, src := g * N * B, g * D * B;
    ghost var s0 := a[..];
    MoveGroup(a, dst, src, M, D, B);
    ghost var orig := seq(D, j requires 0 <= j < D => Slot(s0, src, D, B, j));
    ghost var c := Region(dst, M, B, D, ids, moveToId[..], orig);
    SourceSlots(s0, G, D, B, g, orig, isString);
    ReorderBlocks(a, dst, M, B, D, ids, moveToId, moved, buffer, isString, c);
    GroupResult(s0, a[..], G, D, B, M, g, c);
    MulLe(N, M, B);
    forall t, e | 0 <= t < N && 0 <= e < B && !IsFirstUse(ids, t) && Owns(a[Pos(G, N, B, g, t, e)])
      ensures fresh(a[Pos(G, N, B, g, t, e)].s)
    {
      FirstTableFirstUse(moveToId[..], ids, D, t);
      SlotAtPos(a[..], G, N, B, M, g, t, e);
    }
  }

  /** The memmove of a group's D blocks from `src` to `dst`, skipped when they coincide. */
  method MoveGroup(a: array<Elem>, dst: int, src: int, M: int, D: int, B: int)
    requires 0 <= dst && 0 <= src && 0 <= B && 0 <= D <= M
    requires dst + M * B <= a.Length && src + D * B <= a.Length
    modifies a
    ensures forall j :: 0 <= j < D ==> Slot(a[..], dst, M, B, j) == Slot(old(a[..]), src, D, B, j)
    ensures forall p :: 0 <= p < a.Length && !(dst <= p < dst + M * B) ==> a[p] == old(a[p])
  {
    MulLe(D, M, B);
    if dst != src {
      MemMove(a, dst, src, D * B);
    }
    MovedSlots(old(a[..]), a[..], dst, src, M, D, B);
  }

  /** The source blocks of group g, read as slots, keep the group's uniqueness and ownership facts. */
  lemma SourceSlots(s0: seq<Elem>, G: int, D: int, B: int, g: int, orig: seq<seq<Elem>>, isString: bool)
    requires 0 <= g < G && 0 < D && 0 < B && G * D * B <= |s0| && 0 <= g * D * B && g * D * B + D * B <= |s0|
    requires |orig| == D && forall j :: 0 <= j < D ==> |orig[j]| == B
    requires forall j :: 0 <= j < D ==> orig[j] == Slot(s0, g * D * B, D, B, j)
    requires GroupUnique(s0, G, D, B, g)
    requires !isString ==> forall j, e :: 0 <= j < D && 0 <= e < B ==> !Owns(s0[Pos(G, D, B, g, j, e)])
    ensures forall j, e :: 0 <= j < D && 0 <= e < B ==> orig[j][e] == s0[Pos(G, D, B, g, j, e)]
    ensures forall j, b, j', b' ::
        (0 <= j < |orig| && 0 <= b < |orig[j]| && 0 <= j' < |orig| && 0 <= b' < |orig[j']| &&
         (j != j' || b != b') && Owns(orig[j][b]))
        ==> orig[j][b] != orig[j'][b']
    ensures !isString ==> forall j, e :: 0 <= j < D && 0 <= e < B ==> !Owns(orig[j][e])
  {
    forall j, e | 0 <= j < D && 0 <= e < B
      ensures orig[j][e] == s0[Pos(G, D, B, g, j, e)]
    {
      SlotAtPos(s0, G, D, B, D, g, j, e);
    }
  }

  /** ReorderBlocks' slot-level result, restated at flat positions. */
  lemma GroupResult(s0: seq<Elem>, s: seq<Elem>, G: int, D: int, B: int, M: int, g: int, c: Region)
    requires 0 <= g < G && 0 < D && 0 < B && |c.ids| > 0 && M == (if |c.ids| > D then |c.ids| else D)
    requires |s| == |s0| == G * M * B && G * D * B <= |s0| && G * |c.ids| * B <= |s|
    requires c.base == g * |c.ids| * B && c.M == M && c.B == B && c.D == D && c.Valid(|s|)
    requires |c.orig| == D && forall j, e :: 0 <= j < D && 0 <= e < B ==> c.orig[j][e] == s0[Pos(G, D, B, g, j, e)]
    requires forall t :: 0 <= t < |c.ids| ==> Contents(c.At(s, t)) == Contents(c.orig[c.ids[t]])
    requires forall t :: 0 <= t < |c.ids| && c.first[c.ids[t]] == t ==> c.At(s, t) == c.orig[c.ids[t]]
    requires forall t, b, u, e ::
      (0 <= t < |c.ids| && 0 <= u < |c.ids| && 0 <= b < B && 0 <= e < B && (t != u || b != e) && Owns(c.At(s, t)[b]))
      ==> c.At(s, t)[b] != c.At(s, u)[e]
    ensures GroupPlaced(s, s0, G, D, B, c.ids, g)
  {
    var N := |c.ids|;
    forall t, e | 0 <= t < N && 0 <= e < B
      ensures Content(s[Pos(G, N, B, g, t, e)]) == Content(s0[Pos(G, D, B, g, c.ids[t], e)])
      ensures IsFirstUse(c.ids, t) ==> s[Pos(G, N, B, g, t, e)] == s0[Pos(G, D, B, g, c.ids[t], e)]
    {
      SlotAtPos(s, G, N, B, M, g, t, e);
      FirstTableFirstUse(c.first, c.ids, D, t);
      assert Contents(c.At(s, t))[e] == Contents(c.orig[c.ids[t]])[e];
    }
    forall t, e, u, f |
      0 <= t < N && 0 <= e < B && 0 <= u < N && 0 <= f < B && (t != u || e != f) && Owns(s[Pos(G, N, B, g, t, e)])
      ensures s[Pos(G, N, B, g, t, e)] != s[Pos(G, N, B, g, u, f)]
    {
      SlotAtPos(s, G, N, B, M, g, t, e);
      SlotAtPos(s, G, N, B, M, g, u, f);
    }
  }

  /** Offset e of slot t of group h lies inside group h. */
  lemma PosRange(G: int, n: int, B: int, h: int, t: int, e: int)
    requires 0 <= h < G && 0 <= t < n && 0 <= e < B
    ensures h * n * B <= Pos(G, n, B, h, t, e) < h * n * B + n * B
  {
    Distrib(h * n, t, B);
    MulNonNegative(t, B);
    MulLe(t + 1, n, B);
    Distrib(t, 1, B);
  }

  /**
   * The group loop runs forwards (inc = 1) when groups do not grow and
   * backwards (inc = -1) when they do not shrink, so a group is never moved
   * over one that is still to be read.
   */
  predicate Direction(inc: int, D: int, N: int)
  {
    (inc == 1 && N <= D) || (inc == -1 && N >= D)
  }

  /** With the group loop at group i going in direction inc, group h has already been processed. */
  predicate Done(inc: int, i: int, h: int)
  {
    if inc == 1 then h < i else h > i
  }

  /** Slots per group: processed groups have the new length, the others the old one. */
  function Width(D: int, N: int, inc: int, i: int, h: int): int
  {
    if Done(inc, i, h) then N else D
  }

  /** Where offset e of slot t of group h currently lives. */
  ghost function LivePos(G: int, D: int, N: int, B: int, inc: int, i: int, h: int, t: int, e: int): int
    requires 0 <= h < G && 0 <= t < Width(D, N, inc, i, h) && 0 <= e < B
  {
    if Done(inc, i, h) then Pos(G, N, B, h, t, e) else Pos(G, D, B, h, t, e)
  }

  /** No two groups share a string, each group read where it currently lives. */
  ghost predicate LiveApart(s: seq<Elem>, G: int, D: int, N: int, B: int, inc: int, i: int)
    requires 0 <= D && 0 <= N && G * D * B <= |s| && G * N * B <= |s|
  {
    forall h, t, e, h', t', e' ::
      (0 <= h < G && 0 <= t < Width(D, N, inc, i, h) && 0 <= e < B &&
       0 <= h' < G && 0 <= t' < Width(D, N, inc, i, h') && 0 <= e' < B && h != h' &&
       Owns(s[LivePos(G, D, N, B, inc, i, h, t, e)]))
      ==> s[LivePos(G, D, N, B, inc, i, h, t, e)] != s[LivePos(G, D, N, B, inc, i, h', t', e')]
  }

  /**
   * The state of the group loop: processed groups hold their gathered blocks,
   * unprocessed groups are where they were, and no string is shared.
   */
  ghost predicate GroupsInv(s: seq<Elem>, s0: seq<Elem>, G: int, D: int, B: int, ids: seq<int>, inc: int, i: int)
    requires 0 <= D && G * D * B <= |s| && G * |ids| * B <= |s| && |s0| == G * D * B && IdsIn(ids, D)
  {
    (forall h :: 0 <= h < G && Done(inc, i, h) ==> GroupPlaced(s, s0, G, D, B, ids, h)) &&
    (forall h, t, e :: 0 <= h < G && !Done(inc, i, h) && 0 <= t < D && 0 <= e < B ==>
      s[Pos(G, D, B, h, t, e)] == s0[Pos(G, D, B, h, t, e)]) &&
    LiveApart(s, G, D, |ids|, B, inc, i)
  }

  /** The groups other than i live outside the memmove window of group i. */
  lemma OutsideWindow(G: int, D: int, N: int, B: int, M: int, inc: int, i: int, h: int, t: int, e: int)
    requires 0 <= i < G && 0 <= D && 0 < N && 0 < B && M == (if N > D then N else D)
    requires Direction(inc, D, N)
    requires 0 <= h < G && h != i && 0 <= t < Width(D, N, inc, i, h) && 0 <= e < B
    ensures !(i * N * B <= LivePos(G, D, N, B, inc, i, h, t, e) < i * N * B + M * B)
  {
    if Done(inc, i, h) {
      PosRange(G, N, B, h, t, e);
      if inc == 1 {
        MiddleLe(h + 1, i, N, B);
        Distrib(h, 1, N);
        Distrib(h * N, N, B);
        assert N * (h + 1) * B == (h + 1) * N * B;
      } else {
        MiddleLe(i + 1, h, N, B);
        Distrib(i, 1, N);
        Distrib(i * N, N, B);
        assert N * (i + 1) * B == (i + 1) * N * B;
      }
    } else {
      PosRange(G, D, B, h, t, e);
      if inc == 1 {
        MiddleLe(i + 1, h, D, B);
        Distrib(i, 1, D);
        Distrib(i * D, D, B);
        assert D * (i + 1) * B == (i + 1) * D * B;
        MiddleLe(N, D, i, B);
      } else {
        MiddleLe(h + 1, i, D, B);
        Distrib(h, 1, D);
        Distrib(h * D, D, B);
        assert D * (h + 1) * B == (h + 1) * D * B;
        MiddleLe(D, N, i, B);
      }
    }
  }

  /**
   * What one pass of the group loop leaves behind: group i placed, its new
   * strings absent from the buffer before the pass, and nothing outside the
   * memmove window touched.
   */
  ghost predicate PassDone(s: seq<Elem>, s': seq<Elem>, G: int, D: int, B: int, ids: seq<int>, M: int, i: int)
    requires 0 <= i < G && 0 <= D && |s| == |s'| && G * D * B <= |s| && G * |ids| * B <= |s| && IdsIn(ids, D)
  {
    GroupPlaced(s', s, G, D, B, ids, i) &&
    (forall t, e ::
      (0 <= t < |ids| && 0 <= e < B && !IsFirstUse(ids, t) && Owns(s'[Pos(G, |ids|, B, i, t, e)]))
      ==> forall p :: 0 <= p < |s| ==> s[p] != s'[Pos(G, |ids|, B, i, t, e)]) &&
    (forall p :: 0 <= p < |s| && !(i * |ids| * B <= p < i * |ids| * B + M * B) ==> s'[p] == s[p])
  }

  /** A pass over group i preserves the group loop's state, one group further. */
  lemma StepGroups(s: seq<Elem>, s': seq<Elem>, s0: seq<Elem>, G: int, D: int, B: int, ids: seq<int>,
                   M: int, inc: int, i: int)
    requires 0 <= i < G && 0 < D && 0 < |ids| && 0 < B && M == (if |ids| > D then |ids| else D)
    requires Direction(inc, D, |ids|)
    requires |s| == |s'| == G * M * B && G * D * B <= |s| && G * |ids| * B <= |s| && |s0| == G * D * B
    requires IdsIn(ids, D) && GroupsInv(s, s0, G, D, B, ids, inc, i)
    requires PassDone(s, s', G, D, B, ids, M, i)
    ensures GroupsInv(s', s0, G, D, B, ids, inc, i + inc)
  {
    StepPlaced(s, s', s0, G, D, B, ids, M, inc, i);
    StepUndone(s, s', s0, G, D, B, ids, M, inc, i);
    StepApart(s, s', s0, G, D, B, ids, M, inc, i);
  }

  lemma StepPlaced(s: seq<Elem>, s': seq<Elem>, s0: seq<Elem>, G: int, D: int, B: int, ids: seq<int>,
                   M: int, inc: int, i: int)
    requires 0 <= i < G && 0 < D && 0 < |ids| && 0 < B && M == (if |ids| > D then |ids| else D)
    requires Direction(inc, D, |ids|)
    requires |s| == |s'| == G * M * B && G * D * B <= |s| && G * |ids| * B <= |s| && |s0| == G * D * B
    requires IdsIn(ids, D) && GroupsInv(s, s0, G, D, B, ids, inc, i)
    requires PassDone(s, s', G, D, B, ids, M, i)
    ensures forall h :: 0 <= h < G && Done(inc, i + inc, h) ==> GroupPlaced(s', s0, G, D, B, ids, h)
  {
    var N := |ids|;
    forall h | 0 <= h < G && Done(inc, i + inc, h)
      ensures GroupPlaced(s', s0, G, D, B, ids, h)
    {
      if h == i {
        assert forall t, e :: 0 <= t < N && 0 <= e < B ==> s[Pos(G, D, B, i, ids[t], e)] == s0[Pos(G, D, B, i, ids[t], e)];
      } else {
        assert GroupPlaced(s, s0, G, D, B, ids, h);
        forall t, e | 0 <= t < N && 0 <= e < B
          ensures s'[Pos(G, N, B, h, t, e)] == s[Pos(G, N, B, h, t, e)]
        {
          OutsideWindow(G, D, N, B, M, inc, i, h, t, e);
        }
      }
    }
  }

  lemma StepUndone(s: seq<Elem>, s': seq<Elem>, s0: seq<Elem>, G: int, D: int, B: int, ids: seq<int>,
                   M: int, inc: int, i: int)
    requires 0 <= i < G && 0 < D && 0 < |ids| && 0 < B && M == (if |ids| > D then |ids| else D)
    requires Direction(inc, D, |ids|)
    requires |s| == |s'| == G * M * B && G * D * B <= |s| && G * |ids| * B <= |s| && |s0| == G * D * B
    requires IdsIn(ids, D) && GroupsInv(s, s0, G, D, B, ids, inc, i)
    requires PassDone(s, s', G, D, B, ids, M, i)
    ensures forall h, t, e :: 0 <= h < G && !Done(inc, i + inc, h) && 0 <= t < D && 0 <= e < B ==>
      s'[Pos(G, D, B, h, t, e)] == s0[Pos(G, D, B, h, t, e)]
  {
    forall h, t, e | 0 <= h < G && !Done(inc, i + inc, h) && 0 <= t < D && 0 <= e < B
      ensures s'[Pos(G, D, B, h, t, e)] == s0[Pos(G, D, B, h, t, e)]
    {
      OutsideWindow(G, D, |ids|, B, M, inc, i, h, t, e);
    }
  }

  lemma StepApart(s: seq<Elem>, s': seq<Elem>, s0: seq<Elem>, G: int, D: int, B: int, ids: seq<int>,
                  M: int, inc: int, i: int)
    requires 0 <= i < G && 0 < D && 0 < |ids| && 0 < B && M == (if |ids| > D then |ids| else D)
    requires Direction(inc, D, |ids|)
    requires |s| == |s'| == G * M * B && G * D * B <= |s| && G * |ids| * B <= |s| && |s0| == G * D * B
    requires IdsIn(ids, D) && GroupsInv(s, s0, G, D, B, ids, inc, i)
    requires PassDone(s, s', G, D, B, ids, M, i)
    ensures LiveApart(s', G, D, |ids|, B, inc, i + inc)
  {
    var N, next := |ids|, i + inc;
    forall h, t, e, h', t', e' |
      0 <= h < G && 0 <= t < Width(D, N, inc, next, h) && 0 <= e < B &&
      0 <= h' < G && 0 <= t' < Width(D, N, inc, next, h') && 0 <= e' < B && h != h' &&
      Owns(s'[LivePos(G, D, N, B, inc, next, h, t, e)])
      ensures s'[LivePos(G, D, N, B, inc, next, h, t, e)] != s'[LivePos(G, D, N, B, inc, next, h', t', e')]
    {
      if h == i {
        OutsideWindow(G, D, N, B, M, inc, i, h', t', e');
        if IsFirstUse(ids, t) {
          assert s'[Pos(G, N, B, i, t, e)] == s[LivePos(G, D, N, B, inc, i, i, ids[t], e)];
        }
      } else if h' == i {
        OutsideWindow(G, D, N, B, M, inc, i, h, t, e);
        if IsFirstUse(ids, t') {
          assert s'[Pos(G, N, B, i, t', e')] == s[LivePos(G, D, N, B, inc, i, i, ids[t'], e')];
        }
      } else {
        OutsideWindow(G, D, N, B, M, inc, i, h, t, e);
        OutsideWindow(G, D, N, B, M, inc, i, h', t', e');
      }
    }
  }

  /** An unprocessed group is still intact: its strings are unshared, and absent unless the type is string. */
  lemma ReadyGroup(s: seq<Elem>, s0: seq<Elem>, G: int, D: int, B: int, ids: seq<int>, inc: int, i: int,
                   isString: bool)
    requires 0 <= i < G && 0 < D && 0 < B && (inc == 1 || inc == -1)
    requires G * D * B <= |s| && G * |ids| * B <= |s| && |s0| == G * D * B && IdsIn(ids, D)
    requires GroupsInv(s, s0, G, D, B, ids, inc, i) && Unique(s0)
    requires !isString ==> forall p :: 0 <= p < |s0| ==> !Owns(s0[p])
    ensures GroupUnique(s, G, D, B, i)
    ensures !isString ==> forall j, e :: 0 <= j < D && 0 <= e < B ==> !Owns(s[Pos(G, D, B, i, j, e)])
  {
    forall j, e, j', e' |
      0 <= j < D && 0 <= e < B && 0 <= j' < D && 0 <= e' < B && (j != j' || e != e') &&
      Owns(s[Pos(G, D, B, i, j, e)])
      ensures s[Pos(G, D, B, i, j, e)] != s[Pos(G, D, B, i, j', e')]
    {
      if Pos(G, D, B, i, j, e) == Pos(G, D, B, i, j', e') {
        PosInjective(G, D, B, i, j, e, i, j', e');
      }
    }
  }

  /** Before the first pass no group is processed, and the buffer still holds the original groups. */
  lemma InitialGroups(s: seq<Elem>, s0: seq<Elem>, G: int, D: int, B: int, ids: seq<int>, inc: int, i: int)
    requires 0 < G && 0 < D && 0 < B && (inc == 1 || inc == -1) && i == (if inc == 1 then 0 else G - 1)
    requires G * D * B <= |s| && G * |ids| * B <= |s| && |s0| == G * D * B && IdsIn(ids, D)
    requires forall p :: 0 <= p < |s0| ==> s[p] == s0[p]
    requires Unique(s0)
    ensures GroupsInv(s, s0, G, D, B, ids, inc, i)
  {
    var N := |ids|;
    forall h, t, e, h', t', e' |
      0 <= h < G && 0 <= t < Width(D, N, inc, i, h) && 0 <= e < B &&
      0 <= h' < G && 0 <= t' < Width(D, N, inc, i, h') && 0 <= e' < B && h != h' &&
      Owns(s[LivePos(G, D, N, B, inc, i, h, t, e)])
      ensures s[LivePos(G, D, N, B, inc, i, h, t, e)] != s[LivePos(G, D, N, B, inc, i, h', t', e')]
    {
      if Pos(G, D, B, h, t, e) == Pos(G, D, B, h', t', e') {
        PosInjective(G, D, B, h, t, e, h', t', e');
      }
    }
  }

  /**
   * After the last pass every group is processed: the first G*|ids|*B
   * elements are the gathered buffer, and no string is shared among them.
   */
  lemma FinalGroups(s: seq<Elem>, s0: seq<Elem>, G: int, D: int, B: int, ids: seq<int>, inc: int, i: int,
                    r: seq<Elem>)
    requires 0 < G && 0 < D && 0 < B && 0 < |ids| && (inc == 1 || inc == -1) && i == (if inc == 1 then G else -1)
    requires G * D * B <= |s| && G * |ids| * B <= |s| && |s0| == G * D * B && IdsIn(ids, D)
    requires GroupsInv(s, s0, G, D, B, ids, inc, i)
    requires r == s[..G * |ids| * B]
    ensures Contents(r) == Gather(Contents(s0), G, D, B, ids)
    ensures forall g, t, e :: 0 <= g < G && 0 <= t < |ids| && 0 <= e < B && IsFirstUse(ids, t) ==>
      r[Pos(G, |ids|, B, g, t, e)] == s0[Pos(G, D, B, g, ids[t], e)]
    ensures Unique(r)
  {
    var N := |ids|;
    assert forall h :: 0 <= h < G ==> Done(inc, i, h);
    forall g, t, e | 0 <= g < G && 0 <= t < N && 0 <= e < B
      ensures Contents(r)[Pos(G, N, B, g, t, e)] == Gather(Contents(s0), G, D, B, ids)[Pos(G, N, B, g, t, e)]
    {
      assert GroupPlaced(s, s0, G, D, B, ids, g);
    }
    EqualByPos(Contents(r), Gather(Contents(s0), G, D, B, ids), G, N, B);
    forall p, q | 0 <= p < |r| && 0 <= q < |r| && p != q && Owns(r[p])
      ensures r[p] != r[q]
    {
      PosCover(G, N, B, p);
      PosCover(G, N, B, q);
      var h, t, e := p / B / N, p / B % N, p % B;
      var h', t', e' := q / B / N, q / B % N, q % B;
      if h == h' {
        assert GroupPlaced(s, s0, G, D, B, ids, h);
      } else {
        assert LivePos(G, D, N, B, inc, i, h, t, e) == p && LivePos(G, D, N, B, inc, i, h', t', e') == q;
      }
    }
  }

  /** One pass of the group loop over group i, keeping the loop's state. */
  method GroupPass(b: array<Elem>, G: int, D: int, B: int, ids: seq<int>, M: int, inc: int, i: int,
                   moveToId: array<int>, moved: array<bool>, buffer: array<Elem>, isString: bool,
                   ghost s0: seq<Elem>)
    requires 0 <= i < G && 0 < D && 0 < |ids| && 0 < B && IdsIn(ids, D) && M == (if |ids| > D then |ids| else D)
    requires Direction(inc, D, |ids|)
    requires b.Length == G * M * B && |s0| == G * D * B && G * D * B <= b.Length && G * |ids| * B <= b.Length
    requires FirstTable(moveToId[..], ids, D) && moved.Length == D && buffer.Length == B && buffer != b
    requires GroupsInv(b[..], s0, G, D, B, ids, inc, i) && Unique(s0)
    requires !isString ==> forall p :: 0 <= p < |s0| ==> !Owns(s0[p])
    modifies b, moved, buffer
    ensures GroupsInv(b[..], s0, G, D, B, ids, inc, i + inc)
    ensures forall t, e ::
      (0 <= t < |ids| && 0 <= e < B && !IsFirstUse(ids, t) && Owns(b[Pos(G, |ids|, B, i, t, e)]))
      ==> fresh(b[Pos(G, |ids|, B, i, t, e)].s)
    ensures forall h, t, e :: 0 <= h < G && h != i && Done(inc, i, h) && 0 <= t < |ids| && 0 <= e < B ==>
      b[Pos(G, |ids|, B, h, t, e)] == old(b[Pos(G, |ids|, B, h, t, e)])
  {
    var N := |ids|;
    ReadyGroup(b[..], s0, G, D, B, ids, inc, i, isString);
    ghost var before := b[..];
    RearrangeGroup(b, G, D, B, ids, M, i, moveToId, moved, buffer, isString);
    forall t, e | 0 <= t < N && 0 <= e < B && !IsFirstUse(ids, t) && Owns(b[Pos(G, N, B, i, t, e)])
      ensures forall p :: 0 <= p < |before| ==> before[p] != b[Pos(G, N, B, i, t, e)]
    {
    }
    StepGroups(before, b[..], s0, G, D, B, ids, M, inc, i);
    forall h, t, e | 0 <= h < G && h != i && Done(inc, i, h) && 0 <= t < N && 0 <= e < B
      ensures b[Pos(G, N, B, h, t, e)] == old(b[Pos(G, N, B, h, t, e)])
    {
      OutsideWindow(G, D, N, B, M, inc, i, h, t, e);
    }
  }

  /** The later copies of every processed group hold strings allocated since the previous state. */
  twostate predicate CopiesFresh(b: array<Elem>, G: int, N: int, B: int, ids: seq<int>, inc: int, i: int)
    requires 0 < B && N == |ids| && G * N * B <= b.Length
    reads b
  {
    forall h, t, e ::
      (0 <= h < G && Done(inc, i, h) && 0 <= t < N && 0 <= e < B && !IsFirstUse(ids, t) &&
       Owns(b[Pos(G, N, B, h, t, e)]))
      ==> fresh(b[Pos(G, N, B, h, t, e)].s)
  }

  /** The group loop: one pass per group, in the direction `inc`, starting from group i. */
  method RunGroups(b: array<Elem>, G: int, D: int, B: int, ids: seq<int>, M: int, inc: int, i0: int,
                   moveToId: array<int>, moved: array<bool>, buffer: array<Elem>, isString: bool,
                   ghost s0: seq<Elem>) returns (i: int)
    requires 0 < G && 0 < D && 0 < |ids| && 0 < B && IdsIn(ids, D) && M == (if |ids| > D then |ids| else D)
    requires Direction(inc, D, |ids|) && (inc == 1 || inc == -1) && i0 == (if inc == 1 then 0 else G - 1)
    requires b.Length == G * M * B && |s0| == G * D * B && G * D * B <= b.Length && G * |ids| * B <= b.Length
    requires FirstTable(moveToId[..], ids, D) && moved.Length == D && buffer.Length == B && buffer != b
    requires GroupsInv(b[..], s0, G, D, B, ids, inc, i0) && Unique(s0)
    requires !isString ==> forall p :: 0 <= p < |s0| ==> !Owns(s0[p])
    modifies b, moved, buffer
    ensures i == (if inc == 1 then G else -1)
    ensures GroupsInv(b[..], s0, G, D, B, ids, inc, i)
    ensures forall h, t, e ::
      (0 <= h < G && 0 <= t < |ids| && 0 <= e < B && !IsFirstUse(ids, t) && Owns(b[Pos(G, |ids|, B, h, t, e)]))
      ==> fresh(b[Pos(G, |ids|, B, h, t, e)].s)
  {
    var N := |ids|;
    i := i0;
    while 0 <= i < G
      invariant -1 <= i <= G && (i == -1 ==> inc == -1) && (i == G ==> inc == 1)
      invariant FirstTable(moveToId[..], ids, D)
      invariant GroupsInv(b[..], s0, G, D, B, ids, inc, i)
      invariant CopiesFresh(b, G, N, B, ids, inc, i)
      decreases if inc == 1 then G - i else i + 1
    {
      ghost var pre := b[..];
      GroupPass(b, G, D, B, ids, M, inc, i, moveToId, moved, buffer, isString, s0);
      forall h, t, e | 0 <= h < G && Done(inc, i + inc, h) && 0 <= t < N && 0 <= e < B && !IsFirstUse(ids, t) &&
        Owns(b[Pos(G, N, B, h, t, e)])
        ensures fresh(b[Pos(G, N, B, h, t, e)].s)
      {
        if h != i {
          assert b[Pos(G, N, B, h, t, e)] == pre[Pos(G, N, B, h, t, e)];
        }
      }
      i := i + inc;
    }
  }

  /**
   * The data movement of harp_variable_rearrange_dimension: the buffer of G
   * groups of D blocks of B elements becomes G groups of |ids| blocks, block t
   * of each group a copy of block ids[t] of that group. The first block that
   * takes a source block receives its very elements; every later copy gets
   * freshly duplicated strings; and no string ends up shared.
   */
  method RearrangeData(a: array<Elem>, G: int, D: int, B: int, ids: seq<int>, isString: bool)
    returns (r: array<Elem>)
    requires 0 < G && 0 < D && 0 < B && 0 < |ids| && IdsIn(ids, D)
    requires a.Length == G * D * B && Unique(a[..])
    requires !isString ==> forall p :: 0 <= p < a.Length ==> !Owns(a[p])
    modifies a
    ensures r.Length == G * |ids| * B
    ensures Contents(r[..]) == Gather(Contents(old(a[..])), G, D, B, ids)
    ensures forall g, t, e :: 0 <= g < G && 0 <= t < |ids| && 0 <= e < B && IsFirstUse(ids, t) ==>
      r[Pos(G, |ids|, B, g, t, e)] == old(a[Pos(G, D, B, g, ids[t], e)])
    ensures forall g, t, e ::
      (0 <= g < G && 0 <= t < |ids| && 0 <= e < B && !IsFirstUse(ids, t) && Owns(r[Pos(G, |ids|, B, g, t, e)]))
      ==> fresh(r[Pos(G, |ids|, B, g, t, e)].s)
    ensures Unique(r[..])
  {
    var N := |ids|;
    var M := if N > D then N else D;
    ghost var s0 := a[..];
    WindowFits(G, D, N, B, M, 0);
    var b := a;
    if N > D {
      b := Realloc(a, G * N * B);
    }
    var moveToId := BuildMoveToId(ids, D);
    var buffer := new Elem[B];
    var moved := new bool[D];
    // backwards through the groups when the buffer grows, forwards otherwise
    var inc, i := 1, 0;
    if N > D {
      inc, i := -1, G - 1;
    }
    InitialGroups(b[..], s0, G, D, B, ids, inc, i);
    i := RunGroups(b, G, D, B, ids, M, inc, i, moveToId, moved, buffer, isString, s0);
    ghost var last := b[..];
    if N < D {
      b := Realloc(b, G * N * B);
    }
    assert b[..] == last[..G * N * B];
    FinalGroups(last, s0, G, D, B, ids, inc, i, b[..]);
    r := b;
  }

  /**
   * A string of a buffer without shared strings is still referenced by a
   * gather of it exactly when its block is one of the gathered slots.
   */
  lemma GatherKeeps(s: seq<Elem>, G: nat, D: nat, B: nat, ids: seq<int>, g: int, j: int, e: int)
    requires |s| == G * D * B && IdsIn(ids, D) && Unique(s)
    requires 0 <= g < G && 0 <= j < D && 0 <= e < B && Owns(s[Pos(G, D, B, g, j, e)])
    ensures s[Pos(G, D, B, g, j, e)] in Gather(s, G, D, B, ids) <==> j in ids
  {
    var r, N := Gather(s, G, D, B, ids), |ids|;
    var x := s[Pos(G, D, B, g, j, e)];
    if j in ids {
      var t :| 0 <= t < N && ids[t] == j;
      assert r[Pos(G, N, B, g, t, e)] == x;
    }
    if x in r {
      var p :| 0 <= p < |r| && r[p] == x;
      PosCover(G, N, B, p);
      var g', t, e' := p / B / N, p / B % N, p % B;
      assert r[p] == s[Pos(G, D, B, g', ids[t], e')];
      PosInjective(G, D, B, g, j, e, g', ids[t], e');
    }
  }

  /** Every slot used is used a first time, at or before any later use. */
  lemma {:induction false} FirstUseOf(ids: seq<int>, t: int) returns (u: int)
    requires 0 <= t < |ids|
    ensures 0 <= u <= t && ids[u] == ids[t] && IsFirstUse(ids, u)
    decreases t
  {
    if IsFirstUse(ids, t) {
      u := t;
    } else {
      var v :| 0 <= v < t && ids[v] == ids[t];
      u := FirstUseOf(ids, v);
    }
  }

  /**
   * After a rearrangement whose first uses hold the very elements gathered
   * and whose other strings are new, an old string is still in the buffer
   * exactly when its slot is one of those asked for: the strings of every
   * other slot have been released.
   */
  lemma RearrangeReleases(s0: seq<Elem>, s: seq<Elem>, G: nat, D: nat, B: nat, ids: seq<int>, g: int, j: int, e: int)
    requires |s0| == G * D * B && IdsIn(ids, D) && Unique(s0) && |s| == G * |ids| * B
    requires forall g, t, e :: 0 <= g < G && 0 <= t < |ids| && 0 <= e < B && IsFirstUse(ids, t) ==>
      s[Pos(G, |ids|, B, g, t, e)] == s0[Pos(G, D, B, g, ids[t], e)]
    requires forall g, t, e ::
      (0 <= g < G && 0 <= t < |ids| && 0 <= e < B && !IsFirstUse(ids, t) && Owns(s[Pos(G, |ids|, B, g, t, e)]))
      ==> s[Pos(G, |ids|, B, g, t, e)] !in s0
    requires 0 <= g < G && 0 <= j < D && 0 <= e < B && Owns(s0[Pos(G, D, B, g, j, e)])
    ensures s0[Pos(G, D, B, g, j, e)] in s <==> j in ids
  {
    var N := |ids|;
    var x := s0[Pos(G, D, B, g, j, e)];
    if j in ids {
      var t :| 0 <= t < N && ids[t] == j;
      var u := FirstUseOf(ids, t);
      assert s[Pos(G, N, B, g, u, e)] == x;
    }
    if x in s {
      var p :| 0 <= p < |s| && s[p] == x;
      ProductZeroFactor(G, N, B);
      PosCover(G, N, B, p);
      var g', t, e' := p / B / N, p / B % N, p % B;
      if IsFirstUse(ids, t) {
        PosInjective(G, D, B, g, j, e, g', ids[t], e');
      }
    }
  }
}
