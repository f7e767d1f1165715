/**
 * A HARP variable: a name, a data type, up to MaxNumDims typed dimensions,
 * the flat row-major data buffer they shape, and the attributes the library
 * keeps with it. The reshaping primitives check their arguments in the order
 * the library does, leave the variable untouched when a check fails, and
 * otherwise move the data as the buffer-level models specify.
 */
module Variables {
  import opened Wrappers
  import opened HarpTypes
  import opened Layout
  import opened Reorder
  import opened Rearrange
  import opened Filter
  import opened Resize
  import opened Replicate
  import opened Utils
  import opened Conversion

  /** What a HARP call that returns 0, or -1 with harp_errno set, returns. */
  type Status = Result<(), ErrorCode>

  /** The number of set entries of a mask, counted as the library's loop does. */
  method CountMask(mask: seq<bool>) returns (n: int)
    ensures n == Count(mask)
  {
    n := 0;
    var i := 0;
    while i < |mask|
      invariant 0 <= i <= |mask| && n == Count(mask[..i])
    {
      assert mask[..i + 1][..i] == mask[..i];
      n := n + (if mask[i] then 1 else 0);
      i := i + 1;
    }
    assert mask[..|mask|] == mask;
  }

  /** Shift entries k .. n-1 of a fixed-size array one place up and store x at k. */
  method InsertAt<T>(s: seq<T>, n: int, k: int, x: T) returns (r: seq<T>)
    requires 0 <= k <= n < |s|
    ensures r == s[..k] + [x] + s[k..n] + s[n + 1..]
  {
    r := s;
    var i := n;
    while i > k
      invariant k <= i <= n && |r| == |s|
      invariant forall p :: 0 <= p < |s| && (p <= i || n < p) ==> r[p] == s[p]
      invariant forall p :: i < p <= n ==> r[p] == s[p - 1]
    {
      r := r[i := r[i - 1]];
      i := i - 1;
    }
    r := r[k := x];
  }

  /** Shift entries k+1 .. n-1 of a fixed-size array one place down; entry n-1 keeps its value. */
  method RemoveAt<T>(s: seq<T>, n: int, k: int) returns (r: seq<T>)
    requires 0 <= k < n <= |s|
    ensures r == s[..k] + s[k + 1..n] + s[n - 1..]
  {
    r := s;
    var i := k;
    while i < n - 1
      invariant k <= i <= n - 1 && |r| == |s|
      invariant forall p :: k <= p < i ==> r[p] == s[p + 1]
      invariant forall p :: 0 <= p < |s| && (p < k || i <= p) ==> r[p] == s[p]
    {
      r := r[i := r[i + 1]];
      i := i + 1;
    }
  }

  /** A buffer of a type other than string holds no string. */
  lemma NoStrings(t: DataType, s: seq<Elem>)
    requires AllFit(t, s)
    ensures t != String ==> forall p :: 0 <= p < |s| ==> !Owns(s[p])
  {
    forall p | 0 <= p < |s| && t != String
      ensures !Owns(s[p])
    {
      assert Fits(t, s[p]);
    }
  }

  /** Values of type t gathered are values of type t. */
  lemma GatherFits(t: DataType, s: seq<Elem>, r: seq<Elem>, G: nat, D: nat, B: nat, ids: seq<int>)
    requires |s| == G * D * B && IdsIn(ids, D) && AllFit(t, s)
    requires Contents(r) == Gather(Contents(s), G, D, B, ids)
    ensures AllFit(t, r)
  {
    GatherPreserves(Contents(s), G, D, B, ids, v => ValueFits(t, v));
    forall p | 0 <= p < |r|
      ensures Fits(t, r[p])
    {
      assert Contents(r)[p] == Content(r[p]);
    }
  }

  /**
   * Lengths that are not negative and multiply to a positive count are all
   * positive, and so are the products before and after any axis.
   */
  lemma SplitPositive(dims: seq<int>, k: int)
    requires 0 <= k < |dims| && Product(dims) > 0
    requires forall i :: 0 <= i < |dims| ==> 0 <= dims[i]
    ensures Product(dims[..k]) > 0 && dims[k] > 0 && Product(dims[k + 1..]) > 0
    ensures Product(dims) == Product(dims[..k]) * dims[k] * Product(dims[k + 1..])
  {
    ProductSplit(dims, k);
    ProductNonNegative(dims[..k]);
    ProductNonNegative(dims[k + 1..]);
    ProductZeroFactor(Product(dims[..k]), dims[k], Product(dims[k + 1..]));
  }

  /** Replacing the length of axis k replaces its factor in the element count. */
  lemma ReplaceLength(dims: seq<int>, n: int, k: int, L: int)
    requires 0 <= k < n <= |dims|
    ensures Product(dims[k := L][..n]) == Product(dims[..k]) * L * Product(dims[k + 1..n])
    ensures Product(dims[..n]) == Product(dims[..k]) * dims[k] * Product(dims[k + 1..n])
  {
    var d' := dims[k := L][..n];
    ProductSplit(d', k);
    assert d'[..k] == dims[..k] && d'[k + 1..] == dims[k + 1..n];
    ProductSplit(dims[..n], k);
    assert dims[..n][..k] == dims[..k] && dims[..n][k + 1..] == dims[k + 1..n];
  }

  /** The element count splits around axis k into positive factors, and dividing out the outer two leaves the inner one. */
  lemma SplitCount(dims: seq<int>, n: int, k: int)
    requires 0 <= k < n <= |dims| && Product(dims[..n]) > 0
    requires forall i :: 0 <= i < n ==> 0 <= dims[i]
    ensures Product(dims[..k]) > 0 && dims[k] > 0 && Product(dims[k + 1..n]) > 0
    ensures Product(dims[..n]) == Product(dims[..k]) * dims[k] * Product(dims[k + 1..n])
    ensures Product(dims[..n]) / (Product(dims[..k]) * dims[k]) == Product(dims[k + 1..n])
  {
    var G, D, B := Product(dims[..k]), dims[k], Product(dims[k + 1..n]);
    SplitPositive(dims[..n], k);
    assert dims[..n][..k] == dims[..k];
    assert dims[..n][k + 1..] == dims[k + 1..n];
    MulAssoc(G, D, B);
    assert G * D * B == B * (G * D);
    DivExact(B, G * D);
  }

  /** The range check of the slot ids, in the order the library makes it. */
  method CheckIds(ids: seq<int>, D: int) returns (ok: bool)
    ensures ok <==> IdsIn(ids, D)
  {
    var i := 0;
    while i < |ids|
      invariant 0 <= i <= |ids| && IdsIn(ids[..i], D)
    {
      if ids[i] < 0 || ids[i] >= D {
        return false;
      }
      i := i + 1;
      assert ids[..i] == ids[..i - 1] + [ids[i - 1]];
    }
    assert ids[..i] == ids;
    return true;
  }

  /** Where a slot is used for the first time, the result holds the very element of the source. */
  ghost predicate KeepsFirstUses(s0: seq<Elem>, s: seq<Elem>, G: nat, D: nat, B: nat, ids: seq<int>)
    requires |s0| == G * D * B && |s| == G * |ids| * B && IdsIn(ids, D)
  {
    forall g, t, e :: 0 <= g < G && 0 <= t < |ids| && 0 <= e < B && IsFirstUse(ids, t) ==>
      s[Pos(G, |ids|, B, g, t, e)] == s0[Pos(G, D, B, g, ids[t], e)]
  }

  /**
   * s is the rearrangement of s0 along the middle axis that ids asks for:
   * the values are gathered, first uses keep the very elements, and the
   * strings of the slots left out are no longer referenced.
   */
  ghost predicate Rearranged(s0: seq<Elem>, s: seq<Elem>, G: nat, D: nat, B: nat, ids: seq<int>)
  {
    |s0| == G * D * B && IdsIn(ids, D) && |s| == G * |ids| * B &&
    Contents(s) == Gather(Contents(s0), G, D, B, ids) &&
    KeepsFirstUses(s0, s, G, D, B, ids) && ReleasesUnused(s0, s, G, D, B, ids)
  }

  /**
   * s is s0 with a new middle axis of L slots, each a copy of the data: the
   * values repeat, and the first copy holds the very elements of s0.
   */
  ghost predicate Replicated(s0: seq<Elem>, s: seq<Elem>, G: nat, L: nat, B: nat)
  {
    0 < L && |s0| == G * 1 * B && |s| == G * L * B &&
    Contents(s) == Gather(Contents(s0), G, 1, B, Zeros(L)) &&
    forall g, e :: 0 <= g < G && 0 <= e < B ==> s[Pos(G, L, B, g, 0, e)] == s0[Pos(G, 1, B, g, 0, e)]
  }

  /** A string of the source is still referenced exactly when its slot is among the ids. */
  ghost predicate ReleasesUnused(s0: seq<Elem>, s: seq<Elem>, G: nat, D: nat, B: nat, ids: seq<int>)
    requires |s0| == G * D * B
  {
    forall g, j, e :: 0 <= g < G && 0 <= j < D && 0 <= e < B && Owns(s0[Pos(G, D, B, g, j, e)]) ==>
      (s0[Pos(G, D, B, g, j, e)] in s <==> j in ids)
  }

  /**
   * What the buffer-level rearrangement guarantees makes a valid variable
   * again, and releases the strings of exactly the slots left out.
   */
  lemma RearrangeOutcome(t: DataType, s0: seq<Elem>, s: seq<Elem>, G: nat, D: nat, B: nat, ids: seq<int>)
    requires |s0| == G * D * B && IdsIn(ids, D) && Unique(s0) && AllFit(t, s0) && |s| == G * |ids| * B
    requires Contents(s) == Gather(Contents(s0), G, D, B, ids)
    requires KeepsFirstUses(s0, s, G, D, B, ids)
    requires forall g, t, e ::
      (0 <= g < G && 0 <= t < |ids| && 0 <= e < B && !IsFirstUse(ids, t) && Owns(s[Pos(G, |ids|, B, g, t, e)]))
      ==> s[Pos(G, |ids|, B, g, t, e)] !in s0
    ensures AllFit(t, s) && Rearranged(s0, s, G, D, B, ids)
  {
    GatherFits(t, s0, s, G, D, B, ids);
    forall g, j, e | 0 <= g < G && 0 <= j < D && 0 <= e < B && Owns(s0[Pos(G, D, B, g, j, e)])
      ensures s0[Pos(G, D, B, g, j, e)] in s <==> j in ids
    {
      RearrangeReleases(s0, s, G, D, B, ids, g, j, e);
    }
  }

  /** Filtering keeps a valid buffer valid, and releases the strings of exactly the slots masked out. */
  lemma FilterOutcome(t: DataType, s0: seq<Elem>, s: seq<Elem>, G: nat, D: nat, B: nat, mask: seq<bool>)
    requires |s0| == G * D * B && D == |mask| && Unique(s0) && AllFit(t, s0)
    requires s == Gather(s0, G, D, B, Kept(mask))
    ensures AllFit(t, s)
    ensures forall g, j, e :: 0 <= g < G && 0 <= j < D && 0 <= e < B && Owns(s0[Pos(G, D, B, g, j, e)]) ==>
      (s0[Pos(G, D, B, g, j, e)] in s <==> mask[j])
  {
    GatherPreserves(s0, G, D, B, Kept(mask), x => Fits(t, x));
    forall g, j, e | 0 <= g < G && 0 <= j < D && 0 <= e < B && Owns(s0[Pos(G, D, B, g, j, e)])
      ensures s0[Pos(G, D, B, g, j, e)] in s <==> mask[j]
    {
      FilterReleases(s0, G, D, B, mask, g, j, e);
    }
  }

  /** Resizing keeps a valid buffer valid, and releases the strings of exactly the slots cut off. */
  lemma ResizeOutcome(t: DataType, s0: seq<Elem>, s: seq<Elem>, G: nat, D: nat, B: nat, L: nat)
    requires |s0| == G * D * B && Unique(s0) && AllFit(t, s0)
    requires s == Resized(s0, G, D, B, L, FillElem(t))
    ensures AllFit(t, s) && Unique(s)
    ensures forall g, j, e :: 0 <= g < G && 0 <= j < D && 0 <= e < B && Owns(s0[Pos(G, D, B, g, j, e)]) ==>
      (s0[Pos(G, D, B, g, j, e)] in s <==> j < L)
  {
    ResizedUnique(s0, G, D, B, L, FillElem(t));
    forall p | 0 <= p < |s|
      ensures Fits(t, s[p])
    {
      ProductZeroFactor(G, L, B);
      PosCover(G, L, B, p);
      var g, j, e := p / B / L, p / B % L, p % B;
      if j < D {
        assert s[p] == s0[Pos(G, D, B, g, j, e)];
      }
    }
    forall g, j, e | 0 <= g < G && 0 <= j < D && 0 <= e < B && Owns(s0[Pos(G, D, B, g, j, e)])
      ensures s0[Pos(G, D, B, g, j, e)] in s <==> j < L
    {
      ResizeReleases(s0, G, D, B, L, FillElem(t), g, j, e);
    }
  }

  /** Whether an axis of type t among the first n has a length other than L. */
  predicate LengthConflict(types: seq<DimType>, dims: seq<int>, n: int, t: DimType, L: int)
    requires 0 <= n <= |types| && n <= |dims|
  {
    exists i :: 0 <= i < n && types[i] == t && dims[i] != L
  }

  /** The library's scan for an axis of the same type with a different length. */
  method FindLengthConflict(types: seq<DimType>, dims: seq<int>, n: int, t: DimType, L: int) returns (b: bool)
    requires 0 <= n <= |types| && n <= |dims|
    ensures b <==> LengthConflict(types, dims, n, t, L)
  {
    var i := 0;
    while i < n
      invariant 0 <= i <= n && forall j :: 0 <= j < i ==> !(types[j] == t && dims[j] != L)
    {
      if types[i] == t && dims[i] != L {
        return true;
      }
      i := i + 1;
    }
    return false;
  }

  /**
   * Inserting an axis of length L at k: the lengths from k on form the block,
   * dividing it out of the count leaves the outer groups, and the new count
   * is groups * L * block.
   */
  lemma InsertCount(dims: seq<int>, n: int, k: int, L: int)
    requires 0 <= k <= n <= |dims| && Product(dims[..n]) > 0
    requires forall i :: 0 <= i < n ==> 0 <= dims[i]
    ensures Product(dims[..k]) > 0 && Product(dims[k..n]) > 0
    ensures Product(dims[..n]) == Product(dims[..k]) * 1 * Product(dims[k..n])
    ensures Product(dims[..n]) / Product(dims[k..n]) == Product(dims[..k])
    ensures Product(dims[..k] + [L] + dims[k..n]) == Product(dims[..k]) * L * Product(dims[k..n])
  {
    var G, B := Product(dims[..k]), Product(dims[k..n]);
    assert dims[..n] == dims[..k] + dims[k..n];
    ProductAppend(dims[..k], dims[k..n]);
    ProductNonNegative(dims[..k]);
    ProductNonNegative(dims[k..n]);
    ProductZeroFactor(G, 1, B);
    DivExact(G, B);
    ProductAppend(dims[..k] + [L], dims[k..n]);
    assert (dims[..k] + [L])[..k] == dims[..k];
  }

  /** Dropping axis k of length 1 keeps the element count. */
  lemma RemoveCount(dims: seq<int>, n: int, k: int)
    requires 0 <= k < n <= |dims| && dims[k] == 1
    ensures Product(dims[..k] + dims[k + 1..n]) == Product(dims[..n])
  {
    assert dims[..n] == dims[..k] + [1] + dims[k + 1..n];
    ProductAppend(dims[..k] + [1], dims[k + 1..n]);
    ProductAppend(dims[..k], dims[k + 1..n]);
    assert (dims[..k] + [1])[..k] == dims[..k];
  }

  /** Dropping axis k of length 1 keeps the structure, with the same count and buffer. */
  lemma RemoveConsistent(n: int, dims: seq<int>, count: int, t: DataType, s: seq<Elem>, k: int, dims': seq<int>)
    requires Consistent(n, dims, count, t, s) && 0 <= k < n && dims[k] == 1
    requires dims' == dims[..k] + dims[k + 1..n] + dims[n - 1..]
    ensures Consistent(n - 1, dims', count / dims[k], t, s)
  {
    assert dims'[..n - 1] == dims[..k] + dims[k + 1..n];
    RemoveCount(dims, n, k);
  }

  /**
   * The structure every library call keeps: a number of dimensions in
   * range, lengths that are not negative and multiply to the element count,
   * a buffer of that many values of the data type, and no string owned twice.
   */
  ghost predicate Consistent(n: int, dims: seq<int>, count: int, t: DataType, s: seq<Elem>)
  {
    |dims| == MaxNumDims && 0 <= n <= MaxNumDims &&
    (forall i :: 0 <= i < n ==> 0 <= dims[i]) &&
    count == Product(dims[..n]) && |s| == count && AllFit(t, s) && Unique(s)
  }

  /** Inserting an axis of length L at k, with the data replicated along it, keeps the structure. */
  lemma InsertConsistent(n: int, dims: seq<int>, k: int, L: int, t: DataType, s0: seq<Elem>, s: seq<Elem>,
                         G: nat, B: nat, dims': seq<int>)
    requires Consistent(n, dims, G * 1 * B, t, s0) && n < MaxNumDims && 0 <= k <= n && 0 < L && 0 < G && 0 < B
    requires G == Product(dims[..k]) && B == Product(dims[k..n])
    requires dims' == dims[..k] + [L] + dims[k..n] + dims[n + 1..]
    requires |s| == G * L * B && Unique(s) && Contents(s) == Gather(Contents(s0), G, 1, B, Zeros(L))
    ensures Consistent(n + 1, dims', G * L * B, t, s)
  {
    assert dims'[..n + 1] == dims[..k] + [L] + dims[k..n];
    MulPositive(G, B);
    InsertCount(dims, n, k, L);
    GatherFits(t, s0, s, G, 1, B, Zeros(L));
  }

  /**
   * The data movement of harp_variable_rearrange_dimension: the groups are
   * the lengths before axis k, the block is the count divided by the groups
   * and the axis length, and the slots are gathered as ids asks.
   */
  method RearrangeAxis(a: array<Elem>, t: DataType, n: int, dims: seq<int>, k: int, ids: seq<int>)
    returns (r: array<Elem>, G: int, D: int, B: int)
    requires Consistent(n, dims, a.Length, t, a[..]) && 0 <= k < n && 0 < a.Length
    requires 0 < |ids| && IdsIn(ids, dims[k])
    modifies a
    ensures G == Product(dims[..k]) && D == dims[k] && B == Product(dims[k + 1..n]) && 0 < G && 0 < D && 0 < B
    ensures Rearranged(old(a[..]), r[..], G, D, B, ids)
    ensures Consistent(n, dims[k := |ids|], G * |ids| * B, t, r[..])
    ensures forall g, u, e ::
      (0 <= g < G && 0 <= u < |ids| && 0 <= e < B && !IsFirstUse(ids, u) && Owns(r[Pos(G, |ids|, B, g, u, e)]))
      ==> fresh(r[Pos(G, |ids|, B, g, u, e)].s)
  {
    G := MultiplyLengths(dims, 0, k);
    D := dims[k];
    assert dims[0..k] == dims[..k];
    SplitCount(dims, n, k);
    B := a.Length / (G * D);
    ReplaceLength(dims, n, k, |ids|);
    ghost var s0 := a[..];
    NoStrings(t, s0);
    r := RearrangeData(a, G, D, B, ids, t == String);
    RearrangeOutcome(t, s0, r[..], G, D, B, ids);
    assert dims[k := |ids|][..n] == dims[..n][k := |ids|];
  }

  /**
   * The data movement of harp_variable_add_dimension: the block is the
   * lengths from axis k on, the groups are the count divided by the block,
   * and every block is repeated L times in a new buffer.
   */
  method ReplicateAxis(a: array<Elem>, t: DataType, n: int, dims: seq<int>, k: int, L: int)
    returns (r: array<Elem>, G: int, B: int)
    requires Consistent(n, dims, a.Length, t, a[..]) && 0 <= k <= n < MaxNumDims && 0 < L && 0 < a.Length
    ensures G == Product(dims[..k]) && B == Product(dims[k..n]) && 0 < G && 0 < B
    ensures fresh(r) && Replicated(a[..], r[..], G, L, B)
    ensures Consistent(n + 1, dims[..k] + [L] + dims[k..n] + dims[n + 1..], G * L * B, t, r[..])
    ensures forall g, u, e :: 0 <= g < G && 0 < u < L && 0 <= e < B && Owns(r[Pos(G, L, B, g, u, e)]) ==>
      fresh(r[Pos(G, L, B, g, u, e)].s)
  {
    B := MultiplyLengths(dims, k, n);
    InsertCount(dims, n, k, L);
    G := a.Length / B;
    NoStrings(t, a[..]);
    r := ReplicateData(a, G, L, B, t == String);
    InsertConsistent(n, dims, k, L, t, a[..], r[..], G, B, dims[..k] + [L] + dims[k..n] + dims[n + 1..]);
  }

  /** Whether one of the first n axes has type t. */
  predicate HasType(types: seq<DimType>, n: int, t: DimType)
    requires 0 <= n <= |types|
  {
    exists i :: 0 <= i < n && types[i] == t
  }

  /** After an axis of type t' is inserted, an axis of type t is present exactly when t is t' or was present before. */
  lemma HasTypeInsert(types: seq<DimType>, n: int, k: int, t': DimType, t: DimType)
    requires 0 <= k <= n < |types|
    ensures HasType(types[..k] + [t'] + types[k..n] + types[n + 1..], n + 1, t) <==> t == t' || HasType(types, n, t)
  {
    var types' := types[..k] + [t'] + types[k..n] + types[n + 1..];
    if HasType(types, n, t) {
      var i :| 0 <= i < n && types[i] == t;
      if i < k {
        assert types'[i] == t;
      } else {
        assert types'[i + 1] == t;
      }
    }
    if t == t' {
      assert types'[k] == t;
    }
    if HasType(types', n + 1, t) {
      var i :| 0 <= i < n + 1 && types'[i] == t;
      if i < k {
        assert types[i] == t;
      } else if k < i {
        assert types[i - 1] == t;
      }
    }
  }

  /**
   * The axis lists harp_variable_new refuses: a time axis other than the
   * first, or two axes of the same named type with different lengths.
   */
  predicate NewRejects(types: seq<DimType>, dims: seq<int>, n: int)
    requires 0 <= n <= |types| && n <= |dims|
  {
    exists i :: 0 <= i < n && types[i] != Independent &&
      ((types[i] == Time && i != 0) || exists j :: 0 <= j < i && types[j] == types[i] && dims[j] != dims[i])
  }

  /** The axis checks of harp_variable_new, remembering the first length seen for each named type. */
  method CheckNewAxes(types: seq<DimType>, dims: seq<int>, n: int) returns (ok: bool)
    requires 0 <= n <= |types| && n <= |dims|
    ensures ok <==> !NewRejects(types, dims, n)
  {
    var seen: map<DimType, int> := map[];
    var i := 0;
    while i < n
      invariant 0 <= i <= n && !NewRejects(types, dims, i)
      invariant forall j :: 0 <= j < i && types[j] != Independent ==> types[j] in seen && seen[types[j]] == dims[j]
      invariant forall t :: t in seen ==> exists j :: 0 <= j < i && types[j] == t
    {
      var t := types[i];
      if t != Independent {
        if t == Time && i != 0 {
          assert types[i] != Independent && types[i] == Time && i != 0;
          return false;
        }
        if t !in seen {
          seen := seen[t := dims[i]];
        } else if seen[t] != dims[i] {
          var j :| 0 <= j < i && types[j] == t;
          assert types[i] != Independent && types[j] == types[i] && dims[j] != dims[i];
          return false;
        }
      }
      i := i + 1;
    }
    return true;
  }

  /** The element-by-element cast loop of harp_variable_convert_data_type, into a new buffer. */
  method ConvertBuffer(a: array<Elem>, from: DataType, to: DataType, casts: FloatCasts) returns (b: array<Elem>)
    requires from != String && to != String
    ensures fresh(b) && b[..] == ConvertAll(a[..], from, to, casts)
  {
    b := new Elem[a.Length](_ => ZeroElem(to));
    var i := 0;
    while i < a.Length
      invariant 0 <= i <= a.Length && b[..i] == ConvertAll(a[..], from, to, casts)[..i]
    {
      b[i] := Cast(a[i], from, to, casts);
      i := i + 1;
    }
  }

  /**
   * The string loop of harp_variable_copy, corrected: a non-NULL string is
   * duplicated into a new allocation and a NULL string stays NULL. Other
   * elements are copied as they are.
   */
  method DuplicateStrings(a: array<Elem>) returns (b: array<Elem>)
    ensures fresh(b) && Contents(b[..]) == Contents(a[..]) && Unique(b[..])
    ensures forall i :: 0 <= i < b.Length && Owns(b[i]) ==> fresh(b[i].s)
    ensures forall i :: 0 <= i < b.Length && !a[i].StrElem? ==> b[i] == a[i]
  {
    b := new Elem[a.Length](_ => StrElem(null));
    var i := 0;
    while i < a.Length
      invariant 0 <= i <= a.Length && Unique(b[..])
      invariant forall j :: 0 <= j < i ==> Content(b[j]) == Content(a[j])
      invariant forall j :: 0 <= j < i && !a[j].StrElem? ==> b[j] == a[j]
      invariant forall j :: 0 <= j < b.Length && Owns(b[j]) ==> fresh(b[j].s)
      invariant forall j :: i <= j < b.Length ==> b[j] == StrElem(null)
    {
      match a[i] {
        case StrElem(p) =>
          if p != null {
            var c := new CString(p.text);
            b[i] := StrElem(c);
          }
        case _ =>
          b[i] := a[i];
      }
      i := i + 1;
    }
  }

  /**
   * The string loop of harp_variable_copy as written: every element goes
   * through strdup, and strdup of a NULL string is undefined behaviour, so
   * the copy is defined (Some) only when no string is NULL.
   */
  function CopyAsWritten(s: seq<Elem>): (r: Option<seq<Value>>)
    ensures r.Some? ==> r.value == Contents(s)
    ensures r.None? <==> exists i :: 0 <= i < |s| && s[i] == StrElem(null)
  {
    if exists i :: 0 <= i < |s| && s[i] == StrElem(null) then None else Some(Contents(s))
  }

  /**
   * A string variable that was resized to a longer axis holds NULL strings
   * in the new slots, so copying it as written reaches strdup(NULL).
   */
  lemma CopyAsWrittenFaults(s: seq<Elem>, G: nat, D: nat, B: nat, L: nat)
    requires |s| == G * D * B && 0 < G && 0 < B && D < L
    ensures CopyAsWritten(Resized(s, G, D, B, L, FillElem(String))).None?
  {
    var r := Resized(s, G, D, B, L, FillElem(String));
    assert r[Pos(G, L, B, 0, D, 0)] == StrElem(null);
  }

  /**
   * Why a variable fails harp_variable_verify; each reason carries the axis
   * index where the library reports one.
   */
  datatype Violation =
    | NameUndefined
    | BadNumDimensions
    | TimeNotOutermost(index: int)
    | BadLength(index: int)
    | LengthMismatch(index: int)
    | BadNumElements
    | ElementCountMismatch
    | NoData
    | BadUnit
    | NaNValidMin
    | NaNValidMax

  /** What is wrong with axis i, given that the axes before it passed. */
  function AxisViolation(types: seq<DimType>, dims: seq<int>, i: int): Option<Violation>
    requires 0 <= i < |types| && i < |dims|
  {
    if types[i] == Time && types[0] != Time then Some(TimeNotOutermost(i))
    else if dims[i] <= 0 then Some(BadLength(i))
    else if types[i] != Independent && exists j :: 0 <= j < i && types[j] == types[i] && dims[j] != dims[i] then
      Some(LengthMismatch(i))
    else None
  }

  /** The first axis among the first n that fails, in the order the library checks them. */
  function FirstBadAxis(types: seq<DimType>, dims: seq<int>, n: int): (r: Option<Violation>)
    requires 0 <= n <= |types| && n <= |dims|
    ensures r.Some? ==> exists i :: 0 <= i < n && r == AxisViolation(types, dims, i)
  {
    if n == 0 then None
    else
      var prev := FirstBadAxis(types, dims, n - 1);
      if prev.Some? then prev else AxisViolation(types, dims, n - 1)
  }

  /**
   * The axis rules of a conforming variable: time only when the first axis
   * is time, positive lengths, and one length per named axis type.
   */
  predicate AxesConform(types: seq<DimType>, dims: seq<int>, n: int)
    requires 0 <= n <= |types| && n <= |dims|
  {
    (forall i :: 0 <= i < n && types[i] == Time ==> types[0] == Time) &&
    (forall i :: 0 <= i < n ==> dims[i] > 0) &&
    (forall i, j :: 0 <= j < i < n && types[i] == types[j] && types[i] != Independent ==> dims[i] == dims[j])
  }

  /** No axis fails the library's scan exactly when the axes conform. */
  lemma {:induction false} FirstBadAxisNone(types: seq<DimType>, dims: seq<int>, n: int)
    requires 0 <= n <= |types| && n <= |dims|
    ensures FirstBadAxis(types, dims, n).None? <==> AxesConform(types, dims, n)
  {
    if n > 0 {
      FirstBadAxisNone(types, dims, n - 1);
      var k := n - 1;
      if FirstBadAxis(types, dims, n).None? {
        assert AxisViolation(types, dims, k).None?;
        forall j | 0 <= j < k && types[k] == types[j] && types[k] != Independent
          ensures dims[k] == dims[j]
        {
        }
      }
      if AxesConform(types, dims, n) {
        assert AxesConform(types, dims, k);
        assert types[k] == Time ==> types[0] == Time;
        assert AxisViolation(types, dims, k).None?;
      }
    }
  }

  /** Once an axis fails, the scan over any longer prefix reports that axis. */
  lemma {:induction false} FirstBadAxisStops(types: seq<DimType>, dims: seq<int>, i: int, n: int)
    requires 0 <= i < n <= |types| && n <= |dims|
    requires FirstBadAxis(types, dims, i).None? && AxisViolation(types, dims, i).Some?
    ensures FirstBadAxis(types, dims, n) == AxisViolation(types, dims, i)
  {
    if n > i + 1 {
      FirstBadAxisStops(types, dims, i, n - 1);
    }
  }

  /** The axis loop of harp_variable_verify, remembering the first length seen for each named type. */
  method ScanAxes(types: seq<DimType>, dims: seq<int>, n: int) returns (r: Option<Violation>)
    requires 0 <= n <= |types| && n <= |dims|
    ensures r == FirstBadAxis(types, dims, n)
  {
    var seen: map<DimType, int> := map[];
    var i := 0;
    while i < n
      invariant 0 <= i <= n && FirstBadAxis(types, dims, i).None?
      invariant forall j :: 0 <= j < i && types[j] != Independent ==> types[j] in seen && seen[types[j]] == dims[j]
      invariant forall t :: t in seen ==> exists j :: 0 <= j < i && types[j] == t
    {
      var t := types[i];
      if t == Time && types[0] != Time {
        r := Some(TimeNotOutermost(i));
        FirstBadAxisStops(types, dims, i, n);
        return;
      }
      if dims[i] <= 0 {
        r := Some(BadLength(i));
        FirstBadAxisStops(types, dims, i, n);
        return;
      }
      if t != Independent {
        if t !in seen {
          seen := seen[t := dims[i]];
        } else if dims[i] != seen[t] {
          var j :| 0 <= j < i && types[j] == t;
          assert types[j] == types[i] && dims[j] != dims[i];
          r := Some(LengthMismatch(i));
          FirstBadAxisStops(types, dims, i, n);
          return;
        }
      }
      i := i + 1;
    }
    r := None;
  }

  /**
   * The axes harp_variable_new accepts conform once their lengths are
   * positive: its time rule is stricter than the one harp_variable_verify applies.
   */
  lemma NewAxesConform(types: seq<DimType>, dims: seq<int>, n: int)
    requires 0 <= n <= |types| && n <= |dims|
    requires !NewRejects(types, dims, n) && forall i :: 0 <= i < n ==> dims[i] > 0
    ensures AxesConform(types, dims, n)
  {
    forall i, j | 0 <= j < i < n && types[i] == types[j] && types[i] != Independent
      ensures dims[i] == dims[j]
    {
      assert !(exists j' :: 0 <= j' < i && types[j'] == types[i] && dims[j'] != dims[i]);
    }
  }

  /**
   * The shape loop of harp_variable_new: the axis types (independent when
   * none are given) and lengths of the first n axes, and their product.
   */
  method ShapeAxes(n: int, types: Option<seq<DimType>>, dims: seq<int>)
    returns (axisTypes: seq<DimType>, lengths: seq<int>, count: int)
    requires 0 <= n <= MaxNumDims && n <= |dims| && (types.Some? ==> n <= |types.value|)
    ensures |axisTypes| == MaxNumDims && |lengths| == MaxNumDims
    ensures lengths[..n] == dims[..n] && count == Product(dims[..n])
    ensures forall i :: 0 <= i < n ==> axisTypes[i] == if types.Some? then types.value[i] else Independent
  {
    axisTypes := seq(MaxNumDims, _ => Independent);
    lengths := seq(MaxNumDims, _ => 0);
    count := 1;
    var i := 0;
    while i < n
      invariant 0 <= i <= n && |axisTypes| == MaxNumDims && |lengths| == MaxNumDims
      invariant lengths[..i] == dims[..i] && count == Product(dims[..i])
      invariant forall j :: 0 <= j < i ==> axisTypes[j] == if types.Some? then types.value[j] else Independent
    {
      axisTypes := axisTypes[i := if types.Some? then types.value[i] else Independent];
      lengths := lengths[i := dims[i]];
      assert dims[..i + 1][..i] == dims[..i];
      count := count * dims[i];
      i := i + 1;
    }
  }

  /** A NaN floating-point value. */
  predicate IsNaN(e: Elem)
  {
    e.FloatElem? && e.f.NaN?
  }

  /**
   * A harp_variable. The dimension arrays have the fixed size MaxNumDims;
   * only the first numDimensions entries count.
   */
  class Variable {
    var name: Option<string>
    var dataType: DataType
    var numDimensions: int
    var dimensionType: seq<DimType>
    var dimension: seq<int>
    var numElements: int
    var data: array?<Elem>
    var description: Option<string>
    var unit: Option<string>
    var validMin: Elem
    var validMax: Elem

    /** A freshly allocated harp_variable struct with the given fields. */
    constructor Init(name: Option<string>, dataType: DataType, numDimensions: int, dimensionType: seq<DimType>,
                     dimension: seq<int>, numElements: int, data: array?<Elem>, description: Option<string>,
                     unit: Option<string>, validMin: Elem, validMax: Elem)
      ensures this.name == name && this.dataType == dataType && this.numDimensions == numDimensions
      ensures this.dimensionType == dimensionType && this.dimension == dimension
      ensures this.numElements == numElements && this.data == data && this.description == description
      ensures this.unit == unit && this.validMin == validMin && this.validMax == validMax
    {
      this.name := name;
      this.dataType := dataType;
      this.numDimensions := numDimensions;
      this.dimensionType := dimensionType;
      this.dimension := dimension;
      this.numElements := numElements;
      this.data := data;
      this.description := description;
      this.unit := unit;
      this.validMin := validMin;
      this.validMax := validMax;
    }

    /** The fixed-size dimension arrays of the C struct. */
    predicate Shaped()
      reads this
    {
      |dimensionType| == MaxNumDims && |dimension| == MaxNumDims
    }

    /**
     * The structure every library call keeps: a number of dimensions in
     * range, lengths that are not negative and multiply to the element count,
     * a buffer of that many values of the data type, and no string owned twice.
     */
    ghost predicate Valid()
      reads this, data
    {
      |dimensionType| == MaxNumDims && data != null &&
      Consistent(numDimensions, dimension, numElements, dataType, data[..])
    }

    /**
     * The split of the buffer around axis k that the reshaping calls compute:
     * G groups of the outer axes, the D slots of axis k, and blocks of B
     * elements of the inner axes; all three are positive when the variable has elements.
     */
    method SplitAt(k: int) returns (G: int, D: int, B: int)
      requires Valid() && 0 <= k < numDimensions && numElements > 0
      ensures G == Product(dimension[..k]) && D == dimension[k] && B == Product(dimension[k + 1..numDimensions])
      ensures 0 < G && 0 < D && 0 < B && numElements == G * D * B
    {
      G := MultiplyLengths(dimension, 0, k);
      D := dimension[k];
      assert dimension[0..k] == dimension[..k];
      SplitCount(dimension, numDimensions, k);
      B := numElements / (G * D);
    }

    /**
     * harp_variable_rearrange_dimension: slot t of axis dimIndex becomes old
     * slot ids[t], in every group; the first copy of a slot keeps its strings,
     * later copies get new ones, and the strings of slots no id names are released.
     */
    method RearrangeDimension(dimIndex: int, ids: seq<int>) returns (r: Status)
      requires Valid()
      modifies this, data
      ensures Valid()
      ensures name == old(name) && dataType == old(dataType) && numDimensions == old(numDimensions)
      ensures dimensionType == old(dimensionType) && unit == old(unit) && description == old(description)
      ensures validMin == old(validMin) && validMax == old(validMax)
      ensures r.Failure? <==>
        (|ids| == 0 || !(0 <= dimIndex < old(numDimensions)) || old(numElements) == 0 ||
         !IdsIn(ids, old(dimension)[dimIndex]))
      ensures r.Failure? ==>
        (r.error == InvalidArgument && data == old(data) && data[..] == old(data[..]) &&
         dimension == old(dimension) && numElements == old(numElements))
      ensures r.Success? ==>
        var G, D, B := Product(old(dimension)[..dimIndex]), old(dimension)[dimIndex],
                       Product(old(dimension)[dimIndex + 1..old(numDimensions)]);
        0 < G && 0 < D && 0 < B &&
        dimension == old(dimension)[dimIndex := |ids|] && numElements == G * |ids| * B &&
        Rearranged(old(data[..]), data[..], G, D, B, ids) &&
        (forall g, t, e ::
          (0 <= g < G && 0 <= t < |ids| && 0 <= e < B && !IsFirstUse(ids, t) && Owns(data[Pos(G, |ids|, B, g, t, e)]))
          ==> fresh(data[Pos(G, |ids|, B, g, t, e)].s))
    {
      if |ids| <= 0 {
        return Failure(InvalidArgument);
      }
      if dimIndex < 0 || dimIndex >= numDimensions {
        return Failure(InvalidArgument);
      }
      if numElements == 0 {
        return Failure(InvalidArgument);
      }
      var ok := CheckIds(ids, dimension[dimIndex]);
      if !ok {
        return Failure(InvalidArgument);
      }
      var newData, G, D, B := RearrangeAxis(data, dataType, numDimensions, dimension, dimIndex, ids);
      data, numElements, dimension := newData, G * |ids| * B, dimension[dimIndex := |ids|];
      return Success(());
    }

    /**
     * harp_variable_filter_dimension: keep the slots of axis dimIndex whose
     * mask entry is set, in order, in every group; the strings of the others
     * are released. A mask that keeps everything leaves the buffer as it is.
     */
    method FilterDimension(dimIndex: int, mask: seq<bool>) returns (r: Status)
      requires Valid()
      requires 0 <= dimIndex < numDimensions ==> |mask| == dimension[dimIndex]
      modifies this, data
      ensures Valid()
      ensures name == old(name) && dataType == old(dataType) && numDimensions == old(numDimensions)
      ensures dimensionType == old(dimensionType) && unit == old(unit) && description == old(description)
      ensures validMin == old(validMin) && validMax == old(validMax)
      ensures r.Failure? <==> (!(0 <= dimIndex < old(numDimensions)) || old(numElements) == 0 || Count(mask) == 0)
      ensures r.Failure? ==>
        (r.error == InvalidArgument && data == old(data) && data[..] == old(data[..]) &&
         dimension == old(dimension) && numElements == old(numElements))
      ensures r.Success? ==>
        var G, D, B := Product(old(dimension)[..dimIndex]), old(dimension)[dimIndex],
                       Product(old(dimension)[dimIndex + 1..old(numDimensions)]);
        0 < G && 0 < D && 0 < B && old(data).Length == G * D * B && D == |mask| &&
        dimension == old(dimension)[dimIndex := Count(mask)] && numElements == G * Count(mask) * B &&
        data[..] == Gather(old(data[..]), G, D, B, Kept(mask)) &&
        (forall g, j, e :: 0 <= g < G && 0 <= j < D && 0 <= e < B && Owns(old(data[..])[Pos(G, D, B, g, j, e)]) ==>
          (old(data[..])[Pos(G, D, B, g, j, e)] in data[..] <==> mask[j]))
    {
      if dimIndex < 0 || dimIndex >= numDimensions {
        return Failure(InvalidArgument);
      }
      if numElements == 0 {
        return Failure(InvalidArgument);
      }
      var K := CountMask(mask);
      if K == 0 {
        return Failure(InvalidArgument);
      }
      var G, D, B := SplitAt(dimIndex);
      ghost var s0 := data[..];
      if K == D {
        KeptAll(mask);
        GatherIdentity(s0, G, D, B);
        assert dimension[dimIndex := K] == dimension;
        FilterOutcome(dataType, s0, s0, G, D, B, mask);
        return Success(());
      }
      ReplaceLength(dimension, numDimensions, dimIndex, K);
      var newData := FilterData(data, G, D, B, mask);
      data := newData;
      numElements := G * K * B;
      dimension := dimension[dimIndex := K];
      FilterOutcome(dataType, s0, data[..], G, D, B, mask);
      return Success(());
    }

    /**
     * harp_variable_resize_dimension: axis dimIndex gets the new length; a
     * shorter axis loses its trailing slots and their strings, a longer one
     * gets trailing slots holding the fill value of the type (0, NaN or no string).
     */
    method ResizeDimension(dimIndex: int, length: int) returns (r: Status)
      requires Valid()
      modifies this, data
      ensures Valid()
      ensures name == old(name) && dataType == old(dataType) && numDimensions == old(numDimensions)
      ensures dimensionType == old(dimensionType) && unit == old(unit) && description == old(description)
      ensures validMin == old(validMin) && validMax == old(validMax)
      ensures r.Failure? <==> (!(0 <= dimIndex < old(numDimensions)) || length <= 0)
      ensures r.Failure? ==>
        (r.error == InvalidArgument && data == old(data) && data[..] == old(data[..]) &&
         dimension == old(dimension) && numElements == old(numElements))
      ensures r.Success? ==>
        var G, D, B := Product(old(dimension)[..dimIndex]), old(dimension)[dimIndex],
                       Product(old(dimension)[dimIndex + 1..old(numDimensions)]);
        0 <= G && 0 <= D && 0 <= B && old(data).Length == G * D * B &&
        dimension == old(dimension)[dimIndex := length] && numElements == G * length * B &&
        data[..] == Resized(old(data[..]), G, D, B, length, FillElem(dataType)) &&
        (forall g, j, e :: 0 <= g < G && 0 <= j < D && 0 <= e < B && Owns(old(data[..])[Pos(G, D, B, g, j, e)]) ==>
          (old(data[..])[Pos(G, D, B, g, j, e)] in data[..] <==> j < length))
    {
      if dimIndex < 0 || dimIndex >= numDimensions {
        return Failure(InvalidArgument);
      }
      if length <= 0 {
        return Failure(InvalidArgument);
      }
      var G := MultiplyLengths(dimension, 0, dimIndex);
      var D := dimension[dimIndex];
      var B := MultiplyLengths(dimension, dimIndex + 1, numDimensions);
      assert dimension[0..dimIndex] == dimension[..dimIndex];
      ReplaceLength(dimension, numDimensions, dimIndex, length);
      ProductNonNegative(dimension[..dimIndex]);
      ProductNonNegative(dimension[dimIndex + 1..numDimensions]);
      ghost var s0 := data[..];
      if length == D {
        ResizedSame(s0, G, D, B, FillElem(dataType));
        assert dimension[dimIndex := length] == dimension;
        ResizeOutcome(dataType, s0, s0, G, D, B, length);
        return Success(());
      }
      var newData := ResizeData(data, G, D, B, length, FillElem(dataType));
      data := newData;
      numElements := G * length * B;
      dimension := dimension[dimIndex := length];
      ResizeOutcome(dataType, s0, data[..], G, D, B, length);
      return Success(());
    }

    /**
     * harp_variable_add_dimension: insert an axis of the given type and
     * length at dimIndex, every slot a copy of the data below it. The first
     * copy keeps the strings, the others hold new strings with the same text.
     * A time axis can only become the first axis, and an axis of a type the
     * variable already has must agree with that axis's length.
     */
    method AddDimension(dimIndex: int, dimType: DimType, length: int) returns (r: Status)
      requires Valid()
      modifies this, data
      ensures Valid()
      ensures name == old(name) && dataType == old(dataType)
      ensures unit == old(unit) && description == old(description)
      ensures validMin == old(validMin) && validMax == old(validMax)
      ensures r.Failure? <==>
        (!(0 <= dimIndex <= old(numDimensions)) || length <= 0 || old(numDimensions) == MaxNumDims ||
         old(numElements) == 0 ||
         (dimType == Time && (dimIndex != 0 || (old(numDimensions) >= 1 && old(dimensionType)[0] == Time))) ||
         (dimType != Independent && LengthConflict(old(dimensionType), old(dimension), old(numDimensions), dimType, length)))
      ensures r.Failure? ==>
        (r.error == InvalidArgument && data == old(data) && data[..] == old(data[..]) && numDimensions == old(numDimensions) &&
         dimension == old(dimension) && dimensionType == old(dimensionType) && numElements == old(numElements))
      ensures r.Success? ==>
        var n := old(numDimensions);
        var G, B := Product(old(dimension)[..dimIndex]), Product(old(dimension)[dimIndex..n]);
        0 < G && 0 < B &&
        numDimensions == n + 1 &&
        dimension == old(dimension)[..dimIndex] + [length] + old(dimension)[dimIndex..n] + old(dimension)[n + 1..] &&
        dimensionType == old(dimensionType)[..dimIndex] + [dimType] + old(dimensionType)[dimIndex..n] + old(dimensionType)[n + 1..] &&
        numElements == G * length * B && fresh(data) &&
        Replicated(old(data[..]), data[..], G, length, B) &&
        (forall g, t, e :: 0 <= g < G && 0 < t < length && 0 <= e < B && Owns(data[Pos(G, length, B, g, t, e)]) ==>
          fresh(data[Pos(G, length, B, g, t, e)].s))
    {
      if dimIndex < 0 || dimIndex > numDimensions {
        return Failure(InvalidArgument);
      }
      if length <= 0 {
        return Failure(InvalidArgument);
      }
      if numDimensions == MaxNumDims {
        return Failure(InvalidArgument);
      }
      if numElements == 0 {
        return Failure(InvalidArgument);
      }
      if dimType == Time {
        if dimIndex != 0 {
          return Failure(InvalidArgument);
        }
        if numDimensions >= 1 && dimensionType[0] == Time {
          return Failure(InvalidArgument);
        }
      }
      if dimType != Independent {
        var conflict := FindLengthConflict(dimensionType, dimension, numDimensions, dimType, length);
        if conflict {
          return Failure(InvalidArgument);
        }
      }
      InsertAxis(dimIndex, dimType, length);
      return Success(());
    }

    /** The data movement and the axis bookkeeping of AddDimension, once its checks have passed. */
    method InsertAxis(dimIndex: int, dimType: DimType, length: int)
      requires Valid() && 0 <= dimIndex <= numDimensions < MaxNumDims && 0 < length && 0 < numElements
      modifies this, data
      ensures Valid()
      ensures name == old(name) && dataType == old(dataType)
      ensures unit == old(unit) && description == old(description)
      ensures validMin == old(validMin) && validMax == old(validMax)
      ensures
        var n := old(numDimensions);
        var G, B := Product(old(dimension)[..dimIndex]), Product(old(dimension)[dimIndex..n]);
        0 < G && 0 < B &&
        numDimensions == n + 1 &&
        dimension == old(dimension)[..dimIndex] + [length] + old(dimension)[dimIndex..n] + old(dimension)[n + 1..] &&
        dimensionType == old(dimensionType)[..dimIndex] + [dimType] + old(dimensionType)[dimIndex..n] + old(dimensionType)[n + 1..] &&
        numElements == G * length * B && fresh(data) &&
        Replicated(old(data[..]), data[..], G, length, B) &&
        (forall g, t, e :: 0 <= g < G && 0 < t < length && 0 <= e < B && Owns(data[Pos(G, length, B, g, t, e)]) ==>
          fresh(data[Pos(G, length, B, g, t, e)].s))
    {
      var n := numDimensions;
      var newData, G, B := ReplicateAxis(data, dataType, n, dimension, dimIndex, length);
      var types := InsertAt(dimensionType, n, dimIndex, dimType);
      var dims := InsertAt(dimension, n, dimIndex, length);
      data, numElements, dimensionType, dimension, numDimensions := newData, G * length * B, types, dims, n + 1;
    }

    /**
     * harp_variable_remove_dimension: keep slot index of axis dimIndex,
     * releasing the strings of every other slot, and drop the axis.
     */
    method RemoveDimension(dimIndex: int, index: int) returns (r: Status)
      requires Valid()
      modifies this, data
      ensures Valid()
      ensures name == old(name) && dataType == old(dataType)
      ensures unit == old(unit) && description == old(description)
      ensures validMin == old(validMin) && validMax == old(validMax)
      ensures r.Failure? <==>
        (!(0 <= dimIndex < old(numDimensions)) || old(numElements) == 0 || !(0 <= index < old(dimension)[dimIndex]))
      ensures r.Failure? ==>
        (r.error == InvalidArgument && data == old(data) && data[..] == old(data[..]) && numDimensions == old(numDimensions) &&
         dimension == old(dimension) && dimensionType == old(dimensionType) && numElements == old(numElements))
      ensures r.Success? ==>
        var n := old(numDimensions);
        var G, D, B := Product(old(dimension)[..dimIndex]), old(dimension)[dimIndex], Product(old(dimension)[dimIndex + 1..n]);
        0 < G && 0 < D && 0 < B &&
        numDimensions == n - 1 && numElements == G * B &&
        dimension[..n - 1] == old(dimension)[..dimIndex] + old(dimension)[dimIndex + 1..n] &&
        dimension[n - 1..] == old(dimension)[dimIndex := 1][n - 1..] &&
        dimensionType == old(dimensionType)[..dimIndex] + old(dimensionType)[dimIndex + 1..n] + old(dimensionType)[n - 1..] &&
        Rearranged(old(data[..]), data[..], G, D, B, [index])
    {
      assert [index][0] == index;
      r := RearrangeDimension(dimIndex, [index]);
      if r.Failure? {
        return r;
      }
      CollapseAxis(dimIndex);
    }

    /** The bookkeeping of RemoveDimension once the axis has length 1: the axes after it move down one place. */
    method CollapseAxis(dimIndex: int)
      requires Valid() && 0 <= dimIndex < numDimensions && dimension[dimIndex] == 1
      modifies this
      ensures Valid()
      ensures name == old(name) && dataType == old(dataType) && data == old(data)
      ensures unit == old(unit) && description == old(description)
      ensures validMin == old(validMin) && validMax == old(validMax)
      ensures numDimensions == old(numDimensions) - 1 && numElements == old(numElements)
      ensures dimension == old(dimension)[..dimIndex] + old(dimension)[dimIndex + 1..old(numDimensions)] + old(dimension)[old(numDimensions) - 1..]
      ensures dimensionType ==
        old(dimensionType)[..dimIndex] + old(dimensionType)[dimIndex + 1..old(numDimensions)] + old(dimensionType)[old(numDimensions) - 1..]
    {
      var n := numDimensions;
      var dims := RemoveAt(dimension, n, dimIndex);
      var types := RemoveAt(dimensionType, n, dimIndex);
      RemoveConsistent(n, dimension, numElements, dataType, data[..], dimIndex, dims);
      numElements, dimension, dimensionType, numDimensions := numElements / dimension[dimIndex], dims, types, n - 1;
    }

    /**
     * harp_variable_new: a variable of the given shape whose elements are all
     * zero (NULL strings for string data), with the type's full range as
     * valid range. Refused when an axis list is given that puts time after
     * the first axis or gives one named type two lengths.
     */
    static method New(name: string, dataType: DataType, n: int, types: Option<seq<DimType>>, dims: seq<int>)
      returns (r: Result<Variable, ErrorCode>)
      requires 0 <= n <= MaxNumDims && n <= |dims| && (types.Some? ==> n <= |types.value|)
      requires forall i :: 0 <= i < n ==> 0 <= dims[i]
      ensures r.Failure? <==> types.Some? && NewRejects(types.value, dims, n)
      ensures r.Failure? ==> r.error == InvalidArgument
      ensures r.Success? ==>
        var v := r.value;
        fresh(v) && fresh(v.data) && v.Valid() && v.name == Some(name) && v.dataType == dataType &&
        v.numDimensions == n && v.dimension[..n] == dims[..n] && v.numElements == Product(dims[..n]) &&
        (forall i :: 0 <= i < n ==> v.dimensionType[i] == if types.Some? then types.value[i] else Independent) &&
        (forall i :: 0 <= i < v.data.Length ==> v.data[i] == ZeroElem(dataType)) &&
        v.description.None? && v.unit.None? &&
        (dataType != String ==> v.validMin == ValidMinFor(dataType) && v.validMax == ValidMaxFor(dataType))
    {
      if types.Some? {
        var ok := CheckNewAxes(types.value, dims, n);
        if !ok {
          return Failure(InvalidArgument);
        }
      }
      var axisTypes, lengths, count := ShapeAxes(n, types, dims);
      ProductNonNegative(dims[..n]);
      var data := new Elem[count](_ => ZeroElem(dataType));
      var validMin := if dataType != String then ValidMinFor(dataType) else ZeroElem(String);
      var validMax := if dataType != String then ValidMaxFor(dataType) else ZeroElem(String);
      var v := new Variable.Init(Some(name), dataType, n, axisTypes, lengths, count, data, None, None, validMin, validMax);
      assert data[..] == seq(count, _ => ZeroElem(dataType));
      return Success(v);
    }

    /**
     * harp_variable_copy, with the string loop corrected: a deep copy whose
     * strings are new allocations holding the same text, NULL strings staying NULL.
     */
    method Copy() returns (v: Variable)
      requires Valid() && name.Some?
      ensures fresh(v) && fresh(v.data) && v.Valid()
      ensures v.name == name && v.dataType == dataType && v.numDimensions == numDimensions
      ensures v.dimensionType == dimensionType && v.dimension == dimension && v.numElements == numElements
      ensures v.description == description && v.unit == unit && v.validMin == validMin && v.validMax == validMax
      ensures Contents(v.data[..]) == Contents(data[..])
      ensures dataType != String ==> v.data[..] == data[..]
      ensures forall i :: 0 <= i < v.data.Length && Owns(v.data[i]) ==> fresh(v.data[i].s)
    {
      var copy: array<Elem>;
      if dataType == String {
        copy := DuplicateStrings(data);
      } else {
        var source := data;
        copy := new Elem[source.Length](i reads source requires 0 <= i < source.Length => source[i]);
        assert copy[..] == data[..];
      }
      assert Contents(copy[..]) == Contents(data[..]);
      forall i | 0 <= i < copy.Length
        ensures Fits(dataType, copy[i])
      {
        assert Contents(copy[..])[i] == Contents(data[..])[i];
        assert Fits(dataType, data[..][i]);
      }
      v := new Variable.Init(name, dataType, numDimensions, dimensionType, dimension, numElements, copy, description,
                             unit, validMin, validMax);
    }

    /**
     * harp_variable_convert_data_type: numeric data is cast element by
     * element into a new buffer of the target type, and so are the valid
     * range bounds; conversion to or from strings is refused.
     */
    method ConvertDataType(target: DataType, casts: FloatCasts) returns (r: Status)
      requires Valid()
      modifies this
      ensures Valid() && name == old(name) && numDimensions == old(numDimensions)
      ensures dimensionType == old(dimensionType) && dimension == old(dimension) && numElements == old(numElements)
      ensures description == old(description) && unit == old(unit)
      ensures r.Failure? <==> old(dataType) != target && (old(dataType) == String || target == String)
      ensures r.Failure? ==> r.error == InvalidArgument
      ensures r.Success? ==> dataType == target
      ensures r.Failure? || old(dataType) == target || old(numElements) == 0 ==>
        dataType == (if r.Success? then target else old(dataType)) && data == old(data) &&
        validMin == old(validMin) && validMax == old(validMax)
      ensures r.Success? && old(dataType) != target && old(numElements) > 0 ==>
        fresh(data) && data[..] == ConvertAll(old(data[..]), old(dataType), target, casts) &&
        validMin == Cast(old(validMin), old(dataType), target, casts) &&
        validMax == Cast(old(validMax), old(dataType), target, casts)
    {
      if dataType == target {
        return Success(());
      }
      if dataType == String || target == String {
        return Failure(InvalidArgument);
      }
      if numElements == 0 {
        dataType := target;
        return Success(());
      }
      var converted := ConvertBuffer(data, dataType, target, casts);
      data, dataType, validMin, validMax := converted, target, Cast(validMin, dataType, target, casts),
                                           Cast(validMax, dataType, target, casts);
      return Success(());
    }

    /** harp_variable_has_dimension_type: whether some axis has type t. */
    method HasDimensionType(t: DimType) returns (b: bool)
      requires Shaped() && 0 <= numDimensions <= MaxNumDims
      ensures b <==> HasType(dimensionType, numDimensions, t)
    {
      var i := 0;
      while i < numDimensions
        invariant 0 <= i <= numDimensions && !HasType(dimensionType, i, t)
      {
        if dimensionType[i] == t {
          return true;
        }
        i := i + 1;
      }
      return false;
    }

    /** harp_variable_has_dimension_types: whether the axes are exactly n axes of the given types, in order. */
    method HasDimensionTypes(n: int, types: seq<DimType>) returns (b: bool)
      requires Shaped() && 0 <= numDimensions <= MaxNumDims && (n == numDimensions ==> n <= |types|)
      ensures b <==> n == numDimensions && types[..n] == dimensionType[..n]
    {
      if numDimensions != n {
        return false;
      }
      var i := 0;
      while i < n
        invariant 0 <= i <= n && types[..i] == dimensionType[..i]
      {
        if dimensionType[i] != types[i] {
          assert types[..n][i] != dimensionType[..n][i];
          return false;
        }
        assert types[..i + 1] == types[..i] + [types[i]];
        assert dimensionType[..i + 1] == dimensionType[..i] + [dimensionType[i]];
        i := i + 1;
      }
      return true;
    }

    /**
     * The outcome of harp_variable_verify: the first rule the variable
     * breaks, in the order the library checks them, or None.
     */
    function Verdict(unitValid: string -> bool): Option<Violation>
      reads this
      requires Shaped()
    {
      if name.None? then Some(NameUndefined)
      else if numDimensions < 0 || numDimensions > MaxNumDims then Some(BadNumDimensions)
      else if FirstBadAxis(dimensionType, dimension, numDimensions).Some? then FirstBadAxis(dimensionType, dimension, numDimensions)
      else if numElements < 0 then Some(BadNumElements)
      else if numElements != Product(dimension[..numDimensions]) then Some(ElementCountMismatch)
      else if numElements > 0 && data == null then Some(NoData)
      else if unit.Some? && !unitValid(unit.value) then Some(BadUnit)
      else if dataType.IsFloating() && IsNaN(validMin) then Some(NaNValidMin)
      else if dataType.IsFloating() && IsNaN(validMax) then Some(NaNValidMax)
      else None
    }

    /**
     * The conventions a verified variable follows: a name, at most eight
     * axes that conform, an element count that is the product of the
     * lengths, data when there are elements, a valid unit, and a valid
     * range without NaN bounds.
     */
    predicate Conforms(unitValid: string -> bool)
      reads this
      requires Shaped()
    {
      name.Some? && 0 <= numDimensions <= MaxNumDims && AxesConform(dimensionType, dimension, numDimensions) &&
      numElements == Product(dimension[..numDimensions]) && (numElements > 0 ==> data != null) &&
      (unit.Some? ==> unitValid(unit.value)) && (dataType.IsFloating() ==> !IsNaN(validMin) && !IsNaN(validMax))
    }

    /** The ordered checks of harp_variable_verify all pass exactly when the variable conforms. */
    lemma VerdictConforms(unitValid: string -> bool)
      requires Shaped()
      ensures Verdict(unitValid).None? <==> Conforms(unitValid)
    {
      if 0 <= numDimensions <= MaxNumDims {
        FirstBadAxisNone(dimensionType, dimension, numDimensions);
        if AxesConform(dimensionType, dimension, numDimensions) {
          assert AllPositive(dimension[..numDimensions]);
          ProductPositive(dimension[..numDimensions]);
        }
      }
    }

    /**
     * harp_variable_verify: succeeds exactly when the variable conforms, and
     * otherwise reports the first rule it breaks.
     */
    method Verify(unitValid: string -> bool) returns (r: Result<(), Violation>)
      requires Shaped()
      ensures r.Success? <==> Conforms(unitValid)
      ensures r.Failure? ==> Verdict(unitValid) == Some(r.error)
    {
      VerdictConforms(unitValid);
      if name.None? {
        return Failure(NameUndefined);
      }
      if numDimensions < 0 || numDimensions > MaxNumDims {
        return Failure(BadNumDimensions);
      }
      var bad := ScanAxes(dimensionType, dimension, numDimensions);
      if bad.Some? {
        return Failure(bad.value);
      }
      if numElements < 0 {
        return Failure(BadNumElements);
      }
      var count := GetNumElements(numDimensions, dimension);
      if numElements != count {
        return Failure(ElementCountMismatch);
      }
      if numElements > 0 && data == null {
        return Failure(NoData);
      }
      if unit.Some? && !unitValid(unit.value) {
        return Failure(BadUnit);
      }
      if dataType.IsFloating() && IsNaN(validMin) {
        return Failure(NaNValidMin);
      }
      if dataType.IsFloating() && IsNaN(validMax) {
        return Failure(NaNValidMax);
      }
      return Success(());
    }
  }
}
