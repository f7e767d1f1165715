/**
 * Block-level primitives on a flat buffer: a region starting at `base` is a
 * row of `M` slots of `B` elements each. These are the memcpy/memmove/strdup
 * steps the HARP reshaping primitives are built from.
 */
module Blocks {
  import opened HarpTypes
  import opened Layout

  lemma SlotFits(M: int, B: int, t: int)
    requires 0 <= t < M && 0 <= B
    ensures 0 <= t * B && t * B + B <= M * B
  {
    MulLe(t + 1, M, B);
    MulNonNegative(t, B);
  }

  /** Slot t of the region of M slots of B elements starting at `base`. */
  function Slot<T>(s: seq<T>, base: int, M: int, B: int, t: int): (r: seq<T>)
    requires 0 <= base && 0 <= t < M && 0 <= B && base + M * B <= |s|
    ensures |r| == B
  {
    SlotFits(M, B, t);
    s[base + t * B .. base + t * B + B]
  }

  /** Distinct slots occupy disjoint index ranges. */
  lemma SlotsDisjoint(M: int, B: int, t: int, u: int, i: int)
    requires 0 <= t < M && 0 <= u < M && t != u && 0 <= B
    requires u * B <= i < u * B + B
    ensures !(t * B <= i < t * B + B)
  {
    if t < u {
      MulLe(t + 1, u, B);
    } else {
      MulLe(u + 1, t, B);
    }
  }

  /** Offset b of a slot is the element at base + t*B + b. */
  lemma SlotIndex<T>(s: seq<T>, base: int, M: int, B: int, t: int, b: int)
    requires 0 <= base && 0 <= t < M && 0 <= B && base + M * B <= |s| && 0 <= b < B
    ensures 0 <= base + t * B + b < |s| && Slot(s, base, M, B, t)[b] == s[base + t * B + b]
  {
    SlotFits(M, B, t);
    var i := base + t * B;
    assert s[i .. i + B][b] == s[i + b];
  }

  /** Writing inside slot `dst` leaves every other slot as it was. */
  lemma SlotFrame<T>(s: seq<T>, s': seq<T>, base: int, M: int, B: int, dst: int)
    requires 0 <= base && 0 <= dst < M && 0 <= B && base + M * B <= |s| == |s'|
    requires forall i :: 0 <= i < |s| && !(base + dst * B <= i < base + dst * B + B) ==> s'[i] == s[i]
    ensures forall t :: 0 <= t < M && t != dst ==> Slot(s', base, M, B, t) == Slot(s, base, M, B, t)
  {
    forall t | 0 <= t < M && t != dst
      ensures Slot(s', base, M, B, t) == Slot(s, base, M, B, t)
    {
      SlotFits(M, B, t);
      forall i | base + t * B <= i < base + t * B + B
        ensures s'[i] == s[i]
      {
        if base + dst * B <= i < base + dst * B + B {
          SlotsDisjoint(M, B, dst, t, i - base);
        }
      }
    }
  }

  /** memcpy of one slot onto another slot of the same region. */
  method CopySlot<T>(a: array<T>, base: int, M: int, B: int, dst: int, src: int)
    requires 0 <= base && 0 <= B && base + M * B <= a.Length
    requires 0 <= dst < M && 0 <= src < M && dst != src
    modifies a
    ensures Slot(a[..], base, M, B, dst) == old(Slot(a[..], base, M, B, src))
    ensures forall t :: 0 <= t < M && t != dst ==> Slot(a[..], base, M, B, t) == old(Slot(a[..], base, M, B, t))
    ensures forall i :: 0 <= i < a.Length && !(base + dst * B <= i < base + dst * B + B) ==> a[i] == old(a[i])
  {
    SlotFits(M, B, dst);
    SlotFits(M, B, src);
    MemMove(a, base + dst * B, base + src * B, B);
    SlotFrame(old(a[..]), a[..], base, M, B, dst);
  }

  /** memcpy of one slot into a separate block-sized buffer. */
  method SaveSlot<T>(a: array<T>, base: int, M: int, B: int, src: int, buffer: array<T>)
    requires 0 <= base && 0 <= B && base + M * B <= a.Length && 0 <= src < M
    requires buffer.Length == B && buffer != a
    modifies buffer
    ensures buffer[..] == Slot(a[..], base, M, B, src)
  {
    SlotFits(M, B, src);
    var k := 0;
    while k < B
      invariant 0 <= k <= B
      invariant forall i :: 0 <= i < k ==> buffer[i] == a[..][base + src * B + i]
    {
      buffer[k] := a[base + src * B + k];
      k := k + 1;
    }
  }

  /** memcpy of a block-sized buffer onto one slot. */
  method RestoreSlot<T>(a: array<T>, base: int, M: int, B: int, dst: int, buffer: array<T>)
    requires 0 <= base && 0 <= B && base + M * B <= a.Length && 0 <= dst < M
    requires buffer.Length == B && buffer != a
    modifies a
    ensures Slot(a[..], base, M, B, dst) == buffer[..]
    ensures forall t :: 0 <= t < M && t != dst ==> Slot(a[..], base, M, B, t) == old(Slot(a[..], base, M, B, t))
    ensures forall i :: 0 <= i < a.Length && !(base + dst * B <= i < base + dst * B + B) ==> a[i] == old(a[i])
  {
    SlotFits(M, B, dst);
    var d := base + dst * B;
    var k := 0;
    while k < B
      invariant 0 <= k <= B
      invariant forall i :: d <= i < d + k ==> a[i] == buffer[i - d]
      invariant forall i :: 0 <= i < a.Length && !(d <= i < d + k) ==> a[i] == old(a[i])
    {
      a[d + k] := buffer[k];
      k := k + 1;
    }
    SlotFrame(old(a[..]), a[..], base, M, B, dst);
  }

  /** Sets a[lo .. hi] to `fill`, element by element. */
  method FillRange<T>(a: array<T>, lo: int, hi: int, fill: T)
    requires 0 <= lo <= hi <= a.Length
    modifies a
    ensures forall i :: lo <= i < hi ==> a[i] == fill
    ensures forall i :: 0 <= i < a.Length && !(lo <= i < hi) ==> a[i] == old(a[i])
  {
    var j := lo;
    while j < hi
      invariant lo <= j <= hi
      invariant forall i :: lo <= i < j ==> a[i] == fill
      invariant forall i :: 0 <= i < a.Length && !(lo <= i < j) ==> a[i] == old(a[i])
    {
      a[j] := fill;
      j := j + 1;
    }
  }

  /** memmove: copies `len` elements from `src` to `dst`; the ranges may overlap. */
  method MemMove<T>(a: array<T>, dst: int, src: int, len: int)
    requires 0 <= dst && 0 <= src && 0 <= len
    requires dst + len <= a.Length && src + len <= a.Length
    modifies a
    ensures a[dst..dst + len] == old(a[src..src + len])
    ensures forall i :: 0 <= i < a.Length && !(dst <= i < dst + len) ==> a[i] == old(a[i])
  {
    if dst <= src {
      var k := 0;
      while k < len
        invariant 0 <= k <= len
        invariant forall i :: dst <= i < dst + k ==> a[i] == old(a[i - dst + src])
        invariant forall i :: src + k <= i < src + len ==> a[i] == old(a[i])
        invariant forall i :: 0 <= i < a.Length && !(dst <= i < dst + k) ==> a[i] == old(a[i])
      {
        a[dst + k] := a[src + k];
        k := k + 1;
      }
    } else {
      var k := len;
      while k > 0
        invariant 0 <= k <= len
        invariant forall i :: dst + k <= i < dst + len ==> a[i] == old(a[i - dst + src])
        invariant forall i :: src <= i < src + k ==> a[i] == old(a[i])
        invariant forall i :: 0 <= i < a.Length && !(dst + k <= i < dst + len) ==> a[i] == old(a[i])
      {
        k := k - 1;
        a[dst + k] := a[src + k];
      }
    }
  }

  /**
   * strdup of every non-NULL string of one slot: each becomes a new allocation
   * with the same text, so the slot shares no string with any other element.
   */
  method DupSlot(a: array<Elem>, base: int, M: int, B: int, t: int)
    requires 0 <= base && 0 <= B && base + M * B <= a.Length && 0 <= t < M
    modifies a
    ensures Contents(Slot(a[..], base, M, B, t)) == old(Contents(Slot(a[..], base, M, B, t)))
    ensures forall b :: 0 <= b < B && Owns(Slot(a[..], base, M, B, t)[b]) ==> fresh(Slot(a[..], base, M, B, t)[b].s)
    ensures forall b :: 0 <= b < B && !old(Slot(a[..], base, M, B, t)[b]).StrElem? ==>
      Slot(a[..], base, M, B, t)[b] == old(Slot(a[..], base, M, B, t)[b])
    ensures forall b, c :: 0 <= b < B && 0 <= c < B && b != c && Owns(Slot(a[..], base, M, B, t)[b]) ==>
      Slot(a[..], base, M, B, t)[b] != Slot(a[..], base, M, B, t)[c]
    ensures forall u :: 0 <= u < M && u != t ==> Slot(a[..], base, M, B, u) == old(Slot(a[..], base, M, B, u))
    ensures forall i :: 0 <= i < a.Length && !(base + t * B <= i < base + t * B + B) ==> a[i] == old(a[i])
  {
    SlotFits(M, B, t);
    DupRange(a, base + t * B, base + t * B + B);
    SlotFrame(old(a[..]), a[..], base, M, B, t);
  }

  /** strdup of every non-NULL string in a[lo .. hi]. */
  method DupRange(a: array<Elem>, lo: int, hi: int)
    requires 0 <= lo <= hi <= a.Length
    modifies a
    ensures forall i :: lo <= i < hi ==> Content(a[i]) == old(Content(a[i]))
    ensures forall i :: lo <= i < hi && !old(a[i]).StrElem? ==> a[i] == old(a[i])
    ensures forall i :: lo <= i < hi && Owns(a[i]) ==> fresh(a[i].s)
    ensures forall i, j :: lo <= i < hi && lo <= j < hi && i != j && Owns(a[i]) ==> a[i] != a[j]
    ensures forall i :: 0 <= i < a.Length && !(lo <= i < hi) ==> a[i] == old(a[i])
  {
    var k := lo;
    while k < hi
      invariant lo <= k <= hi
      invariant forall i :: lo <= i < hi ==> Content(a[i]) == old(Content(a[i]))
      invariant forall i :: lo <= i < hi && !old(a[i]).StrElem? ==> a[i] == old(a[i])
      invariant forall i :: lo <= i < k && Owns(a[i]) ==> fresh(a[i].s)
      invariant forall i :: k <= i < hi ==> a[i] == old(a[i])
      invariant forall i, j :: lo <= i < k && lo <= j < hi && i != j && Owns(a[i]) ==> a[i] != a[j]
      invariant forall i :: 0 <= i < a.Length && !(lo <= i < hi) ==> a[i] == old(a[i])
    {
      if Owns(a[k]) {
        var copy := new CString(a[k].s.text);
        a[k] := StrElem(copy);
      }
      k := k + 1;
    }
  }

  /**
   * After a memmove of D slots from `src` to `dst`, slot j at `dst` holds what
   * slot j at `src` held.
   */
  lemma MovedSlots<T>(s: seq<T>, s': seq<T>, dst: int, src: int, M: int, D: int, B: int)
    requires 0 <= dst && 0 <= src && 0 <= B && 0 <= D <= M
    requires dst + M * B <= |s'| && src + D * B <= |s|
    requires s'[dst .. dst + D * B] == s[src .. src + D * B]
    ensures forall j :: 0 <= j < D ==> Slot(s', dst, M, B, j) == Slot(s, src, D, B, j)
  {
    MulLe(D, M, B);
    forall j | 0 <= j < D
      ensures Slot(s', dst, M, B, j) == Slot(s, src, D, B, j)
    {
      SlotFits(D, B, j);
      forall e | 0 <= e < B
        ensures Slot(s', dst, M, B, j)[e] == Slot(s, src, D, B, j)[e]
      {
        SlotIndex(s', dst, M, B, j, e);
        SlotIndex(s, src, D, B, j, e);
        assert s'[dst + j * B + e] == s'[dst .. dst + D * B][j * B + e];
      }
    }
  }

  /**
   * realloc: a buffer of n elements that starts with the first min(n, |a|)
   * elements of `a`; any further elements are unspecified until written.
   */
  method Realloc<T(0)>(a: array<T>, n: int) returns (b: array<T>)
    requires 0 <= n
    ensures fresh(b) && b.Length == n
    ensures forall i :: 0 <= i < n && i < a.Length ==> b[i] == a[i]
  {
    b := new T[n];
    var k := 0;
    while k < n && k < a.Length
      invariant 0 <= k <= n
      invariant forall i :: 0 <= i < k && i < a.Length ==> b[i] == a[i]
    {
      b[k] := a[k];
      k := k + 1;
    }
  }
}
