/**
 * The data movement of harp_variable_filter_dimension on a buffer viewed as
 * G groups x D blocks x B elements: in every group the blocks whose mask
 * entry is set are moved, in their original order, to the front of the
 * group's new place; the others are dropped.
 */
module Filter {
  import opened HarpTypes
  import opened Layout
  import opened Blocks
  import opened Reorder
  import opened Rearrange

  /** The number of set entries of a mask. */
  function Count(mask: seq<bool>): (n: nat)
    ensures n <= |mask|
  {
    if |mask| == 0 then 0 else Count(mask[..|mask| - 1]) + (if mask[|mask| - 1] then 1 else 0)
  }

  /** The indices of the set entries of a mask, in increasing order. */
  function Kept(mask: seq<bool>): (r: seq<int>)
    ensures |r| == Count(mask)
    ensures forall k :: 0 <= k < |r| ==> 0 <= r[k] < |mask| && mask[r[k]]
    ensures forall k, l :: 0 <= k < l < |r| ==> r[k] < r[l]
  {
    if |mask| == 0 then []
    else Kept(mask[..|mask| - 1]) + (if mask[|mask| - 1] then [|mask| - 1] else [])
  }

  /** The indices kept from a prefix of the mask are a prefix of those kept from the whole mask. */
  lemma {:induction false} KeptPrefix(mask: seq<bool>, n: int)
    requires 0 <= n <= |mask|
    ensures Count(mask[..n]) <= Count(mask)
    ensures Kept(mask[..n]) == Kept(mask)[..Count(mask[..n])]
    decreases |mask| - n
  {
    if n == |mask| {
      assert mask[..n] == mask;
    } else {
      KeptPrefix(mask, n + 1);
      var m := mask[..n + 1];
      assert m[..|m| - 1] == mask[..n];
    }
  }

  /** A set entry j is kept, right after the set entries before it. */
  lemma KeptAt(mask: seq<bool>, j: int)
    requires 0 <= j < |mask| && mask[j]
    ensures Count(mask[..j]) < Count(mask) && Kept(mask)[Count(mask[..j])] == j
  {
    KeptPrefix(mask, j + 1);
    var m := mask[..j + 1];
    assert m[..|m| - 1] == mask[..j];
  }

  /** An index is kept exactly when its mask entry is set. */
  lemma KeptExactly(mask: seq<bool>, j: int)
    requires 0 <= j < |mask|
    ensures j in Kept(mask) <==> mask[j]
  {
    if mask[j] {
      KeptAt(mask, j);
    }
  }

  /** The count is the length exactly when every entry is set, and 0 exactly when none is. */
  lemma {:induction false} CountBounds(mask: seq<bool>)
    ensures Count(mask) == |mask| <==> forall j :: 0 <= j < |mask| ==> mask[j]
    ensures Count(mask) == 0 <==> forall j :: 0 <= j < |mask| ==> !mask[j]
  {
    if |mask| > 0 {
      var m := mask[..|mask| - 1];
      CountBounds(m);
      assert forall j :: 0 <= j < |m| ==> m[j] == mask[j];
    }
  }

  /** A mask with every entry set keeps every index, in order, so filtering changes nothing. */
  lemma KeptAll(mask: seq<bool>)
    requires Count(mask) == |mask|
    ensures Kept(mask) == Iota(|mask|)
  {
    CountBounds(mask);
    forall j | 0 <= j < |mask|
      ensures Kept(mask)[j] == j
    {
      KeptAt(mask, j);
      CountBounds(mask[..j]);
    }
  }

  /** Every kept index is the first use of its block. */
  lemma KeptFirstUses(mask: seq<bool>)
    ensures forall t :: 0 <= t < |Kept(mask)| ==> IsFirstUse(Kept(mask), t)
  {
  }

  /** Slot t of a region is untouched by writes outside it. */
  lemma SlotUnchanged<T>(s: seq<T>, s': seq<T>, base: int, M: int, B: int, t: int, lo: int, hi: int)
    requires 0 <= base && 0 <= t < M && 0 <= B && base + M * B <= |s| == |s'|
    requires forall p :: 0 <= p < |s| && !(lo <= p < hi) ==> s'[p] == s[p]
    requires hi <= base + t * B || base + t * B + B <= lo
    ensures Slot(s', base, M, B, t) == Slot(s, base, M, B, t)
  {
    SlotFits(M, B, t);
  }

  /**
   * Keep one block: memmove block `from` of the source region onto block `to`
   * of the destination region, skipped when they coincide. The destination
   * region never starts after the source region, so the blocks already kept
   * and the blocks still to be read are left alone.
   */
  method KeepBlock(a: array<Elem>, dst: int, src: int, D: int, B: int, to: int, from: int)
    requires 0 <= dst <= src && 0 < B && 0 <= to <= from < D
    requires src + D * B <= a.Length && dst + D * B <= a.Length
    modifies a
    ensures Slot(a[..], dst, D, B, to) == old(Slot(a[..], src, D, B, from))
    ensures forall k :: 0 <= k < to ==> Slot(a[..], dst, D, B, k) == old(Slot(a[..], dst, D, B, k))
    ensures forall j :: from < j < D ==> Slot(a[..], src, D, B, j) == old(Slot(a[..], src, D, B, j))
    ensures forall p :: 0 <= p < a.Length && !(dst <= p < dst + D * B) ==> a[p] == old(a[p])
  {
    SlotFits(D, B, to);
    SlotFits(D, B, from);
    MulLe(to, from, B);
    var d, s := dst + to * B, src + from * B;
    if d != s {
      MemMove(a, d, s, B);
    }
    KeepFrame(old(a[..]), a[..], dst, src, D, B, to, from);
  }

  /** A write to block `to` of the destination leaves its earlier blocks and the later source blocks alone. */
  lemma KeepFrame(s: seq<Elem>, s': seq<Elem>, dst: int, src: int, D: int, B: int, to: int, from: int)
    requires 0 <= dst <= src && 0 < B && 0 <= to <= from < D
    requires src + D * B <= |s| == |s'| && dst + D * B <= |s|
    requires 0 <= to * B <= from * B
    requires forall p :: 0 <= p < |s| && !(dst + to * B <= p < dst + to * B + B) ==> s'[p] == s[p]
    ensures forall k :: 0 <= k < to ==> Slot(s', dst, D, B, k) == Slot(s, dst, D, B, k)
    ensures forall j :: from < j < D ==> Slot(s', src, D, B, j) == Slot(s, src, D, B, j)
  {
    var d := dst + to * B;
    forall k | 0 <= k < to
      ensures Slot(s', dst, D, B, k) == Slot(s, dst, D, B, k)
    {
      MulLe(k + 1, to, B);
      SlotUnchanged(s, s', dst, D, B, k, d, d + B);
    }
    forall j | from < j < D
      ensures Slot(s', src, D, B, j) == Slot(s, src, D, B, j)
    {
      MulLe(from + 1, j, B);
      SlotUnchanged(s, s', src, D, B, j, d, d + B);
    }
  }

  /**
   * The compaction loop over one group: the source region holds D blocks, and
   * the blocks whose mask entry is set are moved, in order, to the front of
   * the destination region.
   */
  method Compact(a: array<Elem>, dst: int, src: int, D: int, B: int, mask: seq<bool>)
    requires 0 <= dst <= src && 0 < B && 0 < D == |mask|
    requires src + D * B <= a.Length && dst + D * B <= a.Length
    modifies a
    ensures forall k :: 0 <= k < Count(mask) ==> Slot(a[..], dst, D, B, k) == old(Slot(a[..], src, D, B, Kept(mask)[k]))
    ensures forall p :: 0 <= p < a.Length && !(dst <= p < dst + D * B) ==> a[p] == old(a[p])
  {
    ghost var kept := Kept(mask);
    ghost var s0 := a[..];
    var to, from := 0, 0;
    while from < D
      invariant 0 <= from <= D && to == Count(mask[..from]) && to <= Count(mask)
      invariant Compacted(a[..], s0, dst, src, D, B, kept, to, from)
    {
      to := CompactStep(a, dst, src, D, B, mask, kept, s0, to, from);
      from := from + 1;
    }
    assert mask[..D] == mask;
  }

  /**
   * One pass of the compaction loop: a kept source block `from` moves to
   * destination block `to`, which advances; any other block is passed over.
   */
  method CompactStep(a: array<Elem>, dst: int, src: int, D: int, B: int, mask: seq<bool>,
                     ghost kept: seq<int>, ghost s0: seq<Elem>, to: int, from: int) returns (to': int)
    requires 0 <= dst <= src && 0 < B && 0 < D == |mask| && kept == Kept(mask)
    requires src + D * B <= a.Length && dst + D * B <= a.Length && |s0| == a.Length
    requires 0 <= from < D && to == Count(mask[..from])
    requires Compacted(a[..], s0, dst, src, D, B, kept, to, from)
    modifies a
    ensures to' == Count(mask[..from + 1]) && to' <= Count(mask)
    ensures Compacted(a[..], s0, dst, src, D, B, kept, to', from + 1)
  {
    CountStep(mask, from);
    if mask[from] {
      KeptAt(mask, from);
      ghost var before := a[..];
      KeepBlock(a, dst, src, D, B, to, from);
      KeptStep(before, a[..], s0, dst, src, D, B, kept, to, from);
      to' := to + 1;
    } else {
      SkipStep(a[..], s0, dst, src, D, B, kept, to, from);
      to' := to;
    }
  }

  /** Taking one more mask entry counts it when it is set. */
  lemma CountStep(mask: seq<bool>, j: int)
    requires 0 <= j < |mask|
    ensures Count(mask[..j + 1]) == Count(mask[..j]) + (if mask[j] then 1 else 0)
    ensures Count(mask[..j + 1]) <= Count(mask)
  {
    assert mask[..j + 1][..j] == mask[..j];
    KeptPrefix(mask, j + 1);
  }

  /**
   * The state of the compaction loop: the first `to` destination blocks hold
   * the kept source blocks, the source blocks from `from` on are untouched,
   * and nothing outside the destination region has changed.
   */
  ghost predicate Compacted(s: seq<Elem>, s0: seq<Elem>, dst: int, src: int, D: int, B: int, kept: seq<int>,
                            to: int, from: int)
    requires 0 <= dst && 0 <= src && 0 < B && 0 < D && |s| == |s0|
    requires src + D * B <= |s| && dst + D * B <= |s|
  {
    && 0 <= to <= |kept| && to <= D && 0 <= from <= D
    && (forall k :: 0 <= k < to ==> 0 <= kept[k] < D && Slot(s, dst, D, B, k) == Slot(s0, src, D, B, kept[k]))
    && (forall j :: from <= j < D ==> Slot(s, src, D, B, j) == Slot(s0, src, D, B, j))
    && (forall p :: 0 <= p < |s| && !(dst <= p < dst + D * B) ==> s[p] == s0[p])
  }

  /** Keeping source block `from` as destination block `to` extends the compaction by one block. */
  lemma KeptStep(s: seq<Elem>, s': seq<Elem>, s0: seq<Elem>, dst: int, src: int, D: int, B: int, kept: seq<int>,
                 to: int, from: int)
    requires 0 <= dst && 0 <= src && 0 < B && 0 < D && |s| == |s0| == |s'|
    requires src + D * B <= |s| && dst + D * B <= |s|
    requires Compacted(s, s0, dst, src, D, B, kept, to, from) && 0 <= to <= from < D
    requires to < |kept| && kept[to] == from
    requires Slot(s', dst, D, B, to) == Slot(s, src, D, B, from)
    requires forall k :: 0 <= k < to ==> Slot(s', dst, D, B, k) == Slot(s, dst, D, B, k)
    requires forall j :: from < j < D ==> Slot(s', src, D, B, j) == Slot(s, src, D, B, j)
    requires forall p :: 0 <= p < |s| && !(dst <= p < dst + D * B) ==> s'[p] == s[p]
    ensures Compacted(s', s0, dst, src, D, B, kept, to + 1, from + 1)
  {
  }

  /** Passing over a source block that is not kept leaves the compaction as it is. */
  lemma SkipStep(s: seq<Elem>, s0: seq<Elem>, dst: int, src: int, D: int, B: int, kept: seq<int>, to: int, from: int)
    requires 0 <= dst && 0 <= src && 0 < B && 0 < D && |s| == |s0|
    requires src + D * B <= |s| && dst + D * B <= |s|
    requires Compacted(s, s0, dst, src, D, B, kept, to, from) && from < D
    ensures Compacted(s, s0, dst, src, D, B, kept, to, from + 1)
  {
  }

  /** The compaction of group i: the blocks of the group whose mask entry is set, in order. */
  method FilterGroup(a: array<Elem>, G: int, D: int, B: int, mask: seq<bool>, i: int)
    requires 0 <= i < G && 0 < D == |mask| && 0 < Count(mask) && 0 < B && a.Length == G * D * B
    requires GroupUnique(a[..], G, D, B, i)
    modifies a
    ensures G * Count(mask) * B <= a.Length
    ensures GroupPlaced(a[..], old(a[..]), G, D, B, Kept(mask), i)
    ensures forall p :: 0 <= p < a.Length && !(i * Count(mask) * B <= p < i * Count(mask) * B + D * B) ==>
      a[p] == old(a[p])
  {
    var K := Count(mask);
    WindowFits(G, D, K, B, D, i);
    MiddleLe(K, D, i, B);
    Compact(a, i * K * B, i * D * B, D, B, mask);
    FilterResult(old(a[..]), a[..], G, D, B, mask, i);
  }

  /** The slot-level result of FilterGroup, restated at flat positions. */
  lemma FilterResult(s0: seq<Elem>, s: seq<Elem>, G: int, D: int, B: int, mask: seq<bool>, i: int)
    requires 0 <= i < G && 0 < D == |mask| && 0 < B && |s| == |s0| == G * D * B
    requires Count(mask) <= D && G * Count(mask) * B <= |s|
    requires 0 <= i * Count(mask) * B && i * Count(mask) * B + D * B <= |s|
    requires 0 <= i * D * B && i * D * B + D * B <= |s0|
    requires GroupUnique(s0, G, D, B, i)
    requires forall k :: 0 <= k < Count(mask) ==>
      Slot(s, i * Count(mask) * B, D, B, k) == Slot(s0, i * D * B, D, B, Kept(mask)[k])
    ensures GroupPlaced(s, s0, G, D, B, Kept(mask), i)
  {
    var K, kept := Count(mask), Kept(mask);
    forall t, e | 0 <= t < K && 0 <= e < B
      ensures s[Pos(G, K, B, i, t, e)] == s0[Pos(G, D, B, i, kept[t], e)]
    {
      SlotAtPos(s, G, K, B, D, i, t, e);
      SlotAtPos(s0, G, D, B, D, i, kept[t], e);
    }
    forall t, e, u, f |
      0 <= t < K && 0 <= e < B && 0 <= u < K && 0 <= f < B && (t != u || e != f) && Owns(s[Pos(G, K, B, i, t, e)])
      ensures s[Pos(G, K, B, i, t, e)] != s[Pos(G, K, B, i, u, f)]
    {
      assert kept[t] != kept[u] || e != f;
    }
  }

  /** One pass of the group loop of the filter, keeping the loop's state. */
  method FilterPass(b: array<Elem>, G: int, D: int, B: int, mask: seq<bool>, i: int, ghost s0: seq<Elem>)
    requires 0 <= i < G && 0 < D == |mask| && 0 < Count(mask) && 0 < B
    requires b.Length == G * D * B && |s0| == G * D * B && G * Count(mask) * B <= b.Length
    requires GroupsInv(b[..], s0, G, D, B, Kept(mask), 1, i) && Unique(s0)
    modifies b
    ensures GroupsInv(b[..], s0, G, D, B, Kept(mask), 1, i + 1)
  {
    ReadyGroup(b[..], s0, G, D, B, Kept(mask), 1, i, true);
    ghost var before := b[..];
    FilterGroup(b, G, D, B, mask, i);
    KeptFirstUses(mask);
    StepGroups(before, b[..], s0, G, D, B, Kept(mask), D, 1, i);
  }

  /**
   * The data movement of harp_variable_filter_dimension: the buffer becomes
   * G groups of Count(mask) blocks, holding in order the very blocks whose
   * mask entry is set; no string ends up shared.
   */
  method FilterData(a: array<Elem>, G: int, D: int, B: int, mask: seq<bool>) returns (r: array<Elem>)
    requires 0 < G && 0 < D == |mask| && 0 < Count(mask) && 0 < B
    requires a.Length == G * D * B && Unique(a[..])
    modifies a
    ensures r[..] == Gather(old(a[..]), G, D, B, Kept(mask))
    ensures Unique(r[..])
  {
    var K := Count(mask);
    ghost var kept := Kept(mask);
    ghost var s0 := a[..];
    MiddleLe(K, D, G, B);
    InitialGroups(a[..], s0, G, D, B, kept, 1, 0);
    var i := 0;
    while i < G
      invariant 0 <= i <= G
      invariant GroupsInv(a[..], s0, G, D, B, kept, 1, i)
    {
      FilterPass(a, G, D, B, mask, i, s0);
      i := i + 1;
    }
    ghost var last := a[..];
    r := Realloc(a, G * K * B);
    assert r[..] == last[..G * K * B];
    FinalGroups(last, s0, G, D, B, kept, 1, G, r[..]);
    KeptFirstUses(mask);
    EqualByPos(r[..], Gather(s0, G, D, B, kept), G, K, B);
  }

  /**
   * A string of the buffer is still referenced after filtering exactly when
   * the mask keeps its block; the strings of dropped blocks are released.
   */
  lemma FilterReleases(s: seq<Elem>, G: nat, D: nat, B: nat, mask: seq<bool>, g: int, j: int, e: int)
    requires |s| == G * D * B && D == |mask| && Unique(s)
    requires 0 <= g < G && 0 <= j < D && 0 <= e < B && Owns(s[Pos(G, D, B, g, j, e)])
    ensures s[Pos(G, D, B, g, j, e)] in Gather(s, G, D, B, Kept(mask)) <==> mask[j]
  {
    GatherKeeps(s, G, D, B, Kept(mask), g, j, e);
    KeptExactly(mask, j);
  }
}
