/**
 * harp_array_transpose: permuting the dimensions of a row-major array.
 *
 * A position in an array with dimension lengths `dims` is a digit sequence
 * (one index per dimension); its offset in the flat buffer is the row-major
 * number with those digits. Permuting the dimensions by `order` (source
 * dimension a becomes destination dimension order[a]) moves the element at
 * source digits d to the destination position whose digit order[a] is d[a].
 */
module Transpose {
  import opened Wrappers
  import opened HarpTypes
  import opened Layout
  import Utils

  // ---------------------------------------------------------------------
  // Row-major offsets (mixed radix numbers)
  // ---------------------------------------------------------------------

  /** The row-major offset of the digits d in an array with lengths r. */
  function Flat(d: seq<int>, r: seq<int>): int
    requires |d| == |r|
    decreases |d|
  {
    if |d| == 0 then 0 else Flat(d[..|d| - 1], r[..|r| - 1]) * r[|r| - 1] + d[|d| - 1]
  }

  /** Every digit indexes into its dimension. */
  predicate InRange(d: seq<int>, r: seq<int>)
  {
    |d| == |r| && forall a :: 0 <= a < |d| ==> 0 <= d[a] < r[a]
  }

  /** The digits of offset q in an array with lengths r (the inverse of Flat). */
  function Digits(q: int, r: seq<int>): (d: seq<int>)
    requires AllPositive(r)
    ensures |d| == |r|
    decreases |r|
  {
    if |r| == 0 then [] else Digits(q / r[|r| - 1], r[..|r| - 1]) + [q % r[|r| - 1]]
  }

  /** An offset of in-range digits lies inside the array. */
  lemma {:induction false} FlatBounds(d: seq<int>, r: seq<int>)
    requires InRange(d, r)
    ensures 0 <= Flat(d, r) < Product(r)
  {
    if |d| > 0 {
      var m := |d| - 1;
      FlatBounds(d[..m], r[..m]);
      var f := Flat(d[..m], r[..m]);
      MulNonNegative(f, r[m]);
      MulLe(f, Product(r[..m]) - 1, r[m]);
    }
  }

  /** The digits of an offset inside the array are in range and give the offset back. */
  lemma {:induction false} FlatDigits(q: int, r: seq<int>)
    requires AllPositive(r) && 0 <= q < Product(r)
    ensures InRange(Digits(q, r), r) && Flat(Digits(q, r), r) == q
    decreases |r|
  {
    if |r| > 0 {
      var m := |r| - 1;
      var h := q / r[m];
      DivBelow(q, r[m], Product(r[..m]));
      FlatDigits(h, r[..m]);
      var e := Digits(h, r[..m]);
      var d := e + [q % r[m]];
      assert d == Digits(q, r);
      assert d[..m] == e;
      assert Flat(d, r) == h * r[m] + q % r[m];
      assert InRange(d, r) by {
        forall a | 0 <= a < |d|
          ensures 0 <= d[a] < r[a]
        {
          if a < m {
            assert d[a] == e[a] && r[..m][a] == r[a];
          }
        }
      }
    }
  }

  /** Digits gives back the digits of an offset. */
  lemma {:induction false} DigitsFlat(d: seq<int>, r: seq<int>)
    requires AllPositive(r) && InRange(d, r)
    ensures Digits(Flat(d, r), r) == d
  {
    if |d| > 0 {
      var m := |d| - 1;
      DivModOf(Flat(d, r), Flat(d[..m], r[..m]), d[m], r[m]);
      DigitsFlat(d[..m], r[..m]);
      assert d == d[..m] + [d[m]];
    }
  }

  /** Changing digit k to v moves the offset by (v - d[k]) times the weight of dimension k. */
  lemma {:induction false} FlatBump(d: seq<int>, r: seq<int>, k: int, v: int)
    requires |d| == |r| && 0 <= k < |d|
    ensures Flat(d[k := v], r) == Flat(d, r) + (v - d[k]) * Product(r[k + 1..])
  {
    var m := |d| - 1;
    if k == m {
      assert d[k := v][..m] == d[..m];
      assert r[k + 1..] == [];
    } else {
      assert d[k := v][..m] == d[..m][k := v];
      FlatBump(d[..m], r[..m], k, v);
      assert r[..m][k + 1..] == r[k + 1..][..|r[k + 1..]| - 1];
      var w := Product(r[..m][k + 1..]);
      assert Product(r[k + 1..]) == w * r[m];
      MulAssoc(v - d[k], w, r[m]);
    }
  }

  /** The weight of the slowest dimension times its length is the whole array. */
  lemma ProductFront(r: seq<int>)
    requires |r| > 0
    ensures Product(r) == r[0] * Product(r[1..])
  {
    ProductAppend([r[0]], r[1..]);
    assert [r[0]] + r[1..] == r;
    assert [r[0]][..0] == [];
  }

  // ---------------------------------------------------------------------
  // Permutations of dimension indices
  // ---------------------------------------------------------------------

  /** p lists each of 0 .. n-1 exactly once. */
  predicate IsPermutation(p: seq<int>, n: int)
  {
    |p| == n &&
    (forall i :: 0 <= i < n ==> 0 <= p[i] < n) &&
    (forall i, j :: 0 <= i < j < n ==> p[i] != p[j])
  }

  /** p and q are permutations of 0 .. n-1 that undo each other. */
  predicate Inverses(p: seq<int>, q: seq<int>, n: int)
  {
    IsPermutation(p, n) && IsPermutation(q, n) &&
    (forall i {:trigger q[p[i]]} :: 0 <= i < n ==> q[p[i]] == i) &&
    (forall k {:trigger p[q[k]]} :: 0 <= k < n ==> p[q[k]] == k)
  }

  /** Distinct values below m number at most m. */
  lemma {:induction false} Pigeonhole(p: seq<int>, m: int)
    requires 0 <= m
    requires forall i :: 0 <= i < |p| ==> 0 <= p[i] < m
    requires forall i, j :: 0 <= i < j < |p| ==> p[i] != p[j]
    ensures |p| <= m
    decreases |p|
  {
    if |p| > 0 {
      var x := p[|p| - 1];
      var q := seq(|p| - 1, i requires 0 <= i < |p| - 1 => if p[i] < x then p[i] else p[i] - 1);
      Pigeonhole(q, m - 1);
    }
  }

  /** n distinct values below n take every value below n. */
  lemma MissingValue(p: seq<int>, n: int, k: int)
    requires IsPermutation(p, n) && 0 <= k < n
    ensures k in p
  {
    if k !in p {
      var q := seq(n, i requires 0 <= i < n => if p[i] < k then p[i] else p[i] - 1);
      Pigeonhole(q, n - 1);
    }
  }

  /** The position of k in p, or |p| when k does not occur. */
  function IndexOf(p: seq<int>, k: int): (i: int)
    ensures 0 <= i <= |p|
    ensures i < |p| ==> p[i] == k
    ensures i == |p| <==> k !in p
  {
    if |p| == 0 then 0 else if p[0] == k then 0 else 1 + IndexOf(p[1..], k)
  }

  /** The inverse permutation: entry k is the index holding k. */
  function Inverse(p: seq<int>, n: int): (q: seq<int>)
    requires IsPermutation(p, n)
    ensures Inverses(p, q, n)
  {
    assert forall k :: 0 <= k < n ==> IndexOf(p, k) < n by {
      forall k | 0 <= k < n
        ensures IndexOf(p, k) < n
      {
        MissingValue(p, n, k);
      }
    }
    var q := seq(n, k requires 0 <= k < n => IndexOf(p, k));
    forall i | 0 <= i < n
      ensures q[p[i]] == i
    {
      var j := q[p[i]];
      assert p[j] == p[i];
    }
    forall i, j | 0 <= i < j < n
      ensures q[i] != q[j]
    {
      assert p[q[i]] == i && p[q[j]] == j;
    }
    q
  }

  /** The relation is symmetric. */
  lemma InversesSymmetric(p: seq<int>, q: seq<int>, n: int)
    requires Inverses(p, q, n)
    ensures Inverses(q, p, n)
  {
  }

  /** A permutation determines its inverse. */
  lemma InverseUnique(p: seq<int>, q: seq<int>, n: int)
    requires Inverses(p, q, n)
    ensures Inverse(p, n) == q
  {
    var q' := Inverse(p, n);
    forall k | 0 <= k < n
      ensures q'[k] == q[k]
    {
      assert p[q[k]] == k && q'[p[q[k]]] == q[k];
    }
  }

  /** Reversing the dimensions is a permutation that is its own inverse. */
  lemma ReversalInverse(n: nat)
    ensures Inverses(Utils.Reversal(n), Utils.Reversal(n), n)
  {
  }

  /** s read through the index map p: entry k is s[p[k]]. */
  function Permute(s: seq<int>, p: seq<int>): (r: seq<int>)
    requires forall k :: 0 <= k < |p| ==> 0 <= p[k] < |s|
    ensures |r| == |p| && forall k :: 0 <= k < |p| ==> r[k] == s[p[k]]
  {
    seq(|p|, k requires 0 <= k < |p| => s[p[k]])
  }

  /** Reading through p and then through its inverse q gives the sequence back. */
  lemma PermuteBack(d: seq<int>, p: seq<int>, q: seq<int>)
    requires Inverses(q, p, |d|)
    ensures Permute(Permute(d, p), q) == d
  {
    var e := Permute(d, p);
    forall a | 0 <= a < |d|
      ensures Permute(e, q)[a] == d[a]
    {
      assert Permute(e, q)[a] == e[q[a]] == d[p[q[a]]];
    }
  }

  /** Permuting digits and lengths alike keeps every digit in range. */
  lemma PermuteInRange(d: seq<int>, r: seq<int>, p: seq<int>)
    requires InRange(d, r) && IsPermutation(p, |r|)
    ensures InRange(Permute(d, p), Permute(r, p))
  {
  }

  // ---------------------------------------------------------------------
  // Where each element goes
  // ---------------------------------------------------------------------

  /**
   * The offset at which the element at offset x of an array with lengths r
   * lands when destination dimension k is source dimension p[k].
   */
  function Moved(x: int, r: seq<int>, p: seq<int>): int
    requires AllPositive(r) && IsPermutation(p, |r|)
  {
    Flat(Permute(Digits(x, r), p), Permute(r, p))
  }

  /** Moving by p and then by its inverse q puts every element back. */
  lemma MovedBack(x: int, r: seq<int>, p: seq<int>, q: seq<int>)
    requires AllPositive(r) && Inverses(q, p, |r|) && 0 <= x < Product(r)
    ensures AllPositive(Permute(r, p)) && Permute(Permute(r, p), q) == r
    ensures 0 <= Moved(x, r, p) < Product(Permute(r, p))
    ensures Moved(Moved(x, r, p), Permute(r, p), q) == x
  {
    var r' := Permute(r, p);
    var d := Digits(x, r);
    FlatDigits(x, r);
    var e := Permute(d, p);
    PermuteInRange(d, r, p);
    assert AllPositive(r');
    FlatBounds(e, r');
    DigitsFlat(e, r');
    PermuteBack(d, p, q);
    PermuteBack(r, p, q);
    var y := Moved(x, r, p);
    assert y == Flat(e, r');
    assert Digits(y, r') == e;
    assert Moved(y, r', q) == Flat(Permute(e, q), Permute(r', q));
  }

  /** Distinct offsets move to distinct offsets. */
  lemma MovedInjective(x: int, y: int, r: seq<int>, p: seq<int>, q: seq<int>)
    requires AllPositive(r) && Inverses(q, p, |r|)
    requires 0 <= x < Product(r) && 0 <= y < Product(r) && x != y
    ensures Moved(x, r, p) != Moved(y, r, p)
  {
    MovedBack(x, r, p, q);
    MovedBack(y, r, p, q);
  }

  /** Moving is one-to-one, so the destination has room for every element. */
  lemma MovedCount(r: seq<int>, p: seq<int>, q: seq<int>)
    requires AllPositive(r) && Inverses(q, p, |r|)
    ensures Product(r) <= Product(Permute(r, p))
  {
    var N := Product(r);
    var N' := Product(Permute(r, p));
    ProductPositive(r);
    ProductPositive(Permute(r, p));
    var there := MovedAll(N, r, p);
    forall x | 0 <= x < N
      ensures 0 <= there[x] < N'
    {
      MovedBack(x, r, p, q);
    }
    forall x, y | 0 <= x < y < N
      ensures there[x] != there[y]
    {
      MovedInjective(x, y, r, p, q);
    }
    Pigeonhole(there, N');
  }

  /** Where each of the first N offsets moves, in offset order. */
  function MovedAll(N: nat, r: seq<int>, p: seq<int>): (there: seq<int>)
    requires AllPositive(r) && IsPermutation(p, |r|)
    ensures |there| == N && forall x :: 0 <= x < N ==> there[x] == Moved(x, r, p)
  {
    seq(N, x requires 0 <= x < N => Moved(x, r, p))
  }

  /** Permuting the dimensions keeps the number of elements. */
  lemma ProductPermuted(r: seq<int>, p: seq<int>, q: seq<int>)
    requires AllPositive(r) && Inverses(q, p, |r|)
    ensures AllPositive(Permute(r, p)) && Product(Permute(r, p)) == Product(r)
  {
    MovedCount(r, p, q);
    MovedCount(Permute(r, p), q, p);
    PermuteBack(r, p, q);
  }

  /**
   * The source offset whose element lands at destination offset y when the
   * dimensions of an array with lengths dims are permuted by order, whose
   * inverse is iorder (destination dimension k is source dimension iorder[k]).
   */
  function Source(y: int, dims: seq<int>, order: seq<int>, iorder: seq<int>): (x: int)
    requires AllPositive(dims) && Inverses(order, iorder, |dims|) && 0 <= y < Product(dims)
    ensures 0 <= x < Product(dims)
    ensures Moved(x, dims, iorder) == y
  {
    var ddims := Permute(dims, iorder);
    ProductPermuted(dims, iorder, order);
    MovedBack(y, ddims, order, iorder);
    PermuteBack(dims, iorder, order);
    Moved(y, ddims, order)
  }

  /**
   * The array s with lengths dims after its dimensions are permuted by order
   * (source dimension a becomes destination dimension order[a]); iorder is
   * the inverse of order.
   */
  function Transposed<T>(s: seq<T>, dims: seq<int>, order: seq<int>, iorder: seq<int>): (t: seq<T>)
    requires AllPositive(dims) && Inverses(order, iorder, |dims|) && |s| == Product(dims)
    ensures |t| == |s|
  {
    seq(|s|, y requires 0 <= y < |s| => s[Source(y, dims, order, iorder)])
  }

  /** Looking up the source twice, through order and back through its inverse, is the identity. */
  lemma SourceBack(x: int, dims: seq<int>, order: seq<int>, iorder: seq<int>)
    requires AllPositive(dims) && Inverses(order, iorder, |dims|) && 0 <= x < Product(dims)
    ensures var ddims := Permute(dims, iorder);
      AllPositive(ddims) && Product(ddims) == Product(dims) &&
      Source(Source(x, ddims, iorder, order), dims, order, iorder) == x
  {
    var ddims := Permute(dims, iorder);
    ProductPermuted(dims, iorder, order);
    PermuteBack(dims, iorder, order);
    var z := Source(x, ddims, iorder, order);
    var w := Source(z, dims, order, iorder);
    MovedBack(w, dims, iorder, order);
  }

  /** Permuting back with the inverse order restores each element. */
  lemma TransposeBackAt<T>(s: seq<T>, dims: seq<int>, order: seq<int>, iorder: seq<int>, x: int)
    requires AllPositive(dims) && Inverses(order, iorder, |dims|) && |s| == Product(dims)
    requires 0 <= x < |s|
    ensures var ddims := Permute(dims, iorder);
      AllPositive(ddims) && |s| == Product(ddims) &&
      Transposed(Transposed(s, dims, order, iorder), ddims, iorder, order)[x] == s[x]
  {
    var ddims := Permute(dims, iorder);
    InversesSymmetric(order, iorder, |dims|);
    SourceBack(x, dims, order, iorder);
    var t := Transposed(s, dims, order, iorder);
    var z := Source(x, ddims, iorder, order);
    assert Transposed(t, ddims, iorder, order)[x] == t[z];
  }

  /** Permuting back with the inverse order restores the array. */
  lemma TransposeBack<T>(s: seq<T>, dims: seq<int>, order: seq<int>, iorder: seq<int>)
    requires AllPositive(dims) && Inverses(order, iorder, |dims|) && |s| == Product(dims)
    ensures var ddims := Permute(dims, iorder);
      AllPositive(ddims) && |s| == Product(ddims) &&
      Transposed(Transposed(s, dims, order, iorder), ddims, iorder, order) == s
  {
    var ddims := Permute(dims, iorder);
    ProductPermuted(dims, iorder, order);
    var u := Transposed(Transposed(s, dims, order, iorder), ddims, iorder, order);
    forall x | 0 <= x < |s|
      ensures u[x] == s[x]
    {
      TransposeBackAt(s, dims, order, iorder, x);
    }
  }

  // ---------------------------------------------------------------------
  // The order check
  // ---------------------------------------------------------------------

  /**
   * The order check as the source writes it: iorder starts out all zero and
   * an entry that is still zero counts as unused. The dimension that order[0]
   * names is recorded with the value 0, so a repeat of it goes through.
   */
  function AcceptedAsWritten(order: seq<int>, n: int, i: int, iorder: seq<int>): bool
    requires |order| == n && |iorder| == n && 0 <= i <= n
    decreases n - i
  {
    if i == n then true
    else if order[i] < 0 || order[i] >= n then false
    else if iorder[order[i]] != 0 then false
    else AcceptedAsWritten(order, n, i + 1, iorder[order[i] := i])
  }

  /** The order [0, 0] passes the check as written although it is no permutation. */
  lemma RepeatedFirstAccepted()
    ensures AcceptedAsWritten([0, 0], 2, 0, [0, 0])
    ensures !IsPermutation([0, 0], 2)
  {
    assert AcceptedAsWritten([0, 0], 2, 2, [1, 0]);
    assert AcceptedAsWritten([0, 0], 2, 1, [0, 0]);
  }

  /**
   * The order check with the unused marker corrected to -1: it succeeds
   * exactly for a permutation of the n dimension indices and then returns
   * the inverse of order.
   */
  method InvertOrder(order: seq<int>, n: int) returns (r: Option<seq<int>>)
    requires |order| == n
    ensures r.Some? <==> IsPermutation(order, n)
    ensures r.Some? ==> Inverses(order, r.value, n)
  {
    var iorder := seq(n, _ => -1);
    var i := 0;
    while i < n
      invariant 0 <= i <= n && |iorder| == n
      invariant forall j :: 0 <= j < i ==> 0 <= order[j] < n && iorder[order[j]] == j
      invariant forall k :: 0 <= k < n ==> iorder[k] == -1 || (0 <= iorder[k] < i && order[iorder[k]] == k)
    {
      if order[i] < 0 || order[i] >= n {
        return None;
      }
      if iorder[order[i]] != -1 {
        assert order[iorder[order[i]]] == order[i];
        return None;
      }
      iorder := iorder[order[i] := i];
      i := i + 1;
    }
    assert IsPermutation(order, n) by {
      forall j, j' | 0 <= j < j' < n
        ensures order[j] != order[j']
      {
        assert iorder[order[j]] == j && iorder[order[j']] == j';
      }
    }
    forall k | 0 <= k < n
      ensures iorder[k] != -1
    {
      MissingValue(order, n, k);
      var j := IndexOf(order, k);
      assert iorder[order[j]] == j;
    }
    return Some(iorder);
  }

  // ---------------------------------------------------------------------
  // Reversed lengths and destination strides
  // ---------------------------------------------------------------------

  /** x with its entries in reverse order. */
  function Rev(x: seq<int>): (r: seq<int>)
    ensures |r| == |x| && forall j :: 0 <= j < |x| ==> r[j] == x[|x| - 1 - j]
  {
    seq(|x|, j requires 0 <= j < |x| => x[|x| - 1 - j])
  }

  /** The lengths in reverse order, fastest running dimension first. */
  method ReverseLengths(dims: seq<int>) returns (rdim: seq<int>)
    ensures rdim == Rev(dims)
  {
    var n := |dims|;
    rdim := seq(n, _ => 0);
    var i := 0;
    while i < n
      invariant 0 <= i <= n && |rdim| == n
      invariant forall j :: 0 <= j < i ==> rdim[j] == dims[n - 1 - j]
    {
      rdim := rdim[i := dims[n - 1 - i]];
      i := i + 1;
    }
  }

  /**
   * stride[j] is the distance in the destination between neighbours along
   * source dimension n-1-j: the product of the lengths of the destination
   * dimensions that run faster than the one it becomes.
   */
  predicate StridesFor(stride: seq<int>, dims: seq<int>, iorder: seq<int>)
    requires IsPermutation(iorder, |dims|)
  {
    var n := |dims|;
    |stride| == n &&
    forall k :: 0 <= k < n ==> stride[n - 1 - iorder[k]] == Product(Permute(dims, iorder)[k + 1..])
  }

  /** The stride recorded for destination dimension k. */
  lemma StrideAt(stride: seq<int>, dims: seq<int>, iorder: seq<int>, k: int)
    requires IsPermutation(iorder, |dims|) && StridesFor(stride, dims, iorder) && 0 <= k < |dims|
    ensures stride[|dims| - 1 - iorder[k]] == Product(Permute(dims, iorder)[k + 1..])
  {
  }

  /** The weight of each destination dimension: the product of the lengths of the faster ones. */
  ghost function Weights(ddims: seq<int>): (w: seq<int>)
    ensures |w| == |ddims| && forall k :: 0 <= k < |ddims| ==> w[k] == Product(ddims[k + 1..])
  {
    seq(|ddims|, k requires 0 <= k < |ddims| => Product(ddims[k + 1..]))
  }

  /** The weight of a dimension is the next one's weight times that next dimension's length. */
  lemma WeightStep(ddims: seq<int>, i: int)
    requires 1 <= i < |ddims|
    ensures Weights(ddims)[i - 1] == Weights(ddims)[i] * ddims[i]
  {
    ProductFront(ddims[i..]);
    assert ddims[i..][1..] == ddims[i + 1..];
  }

  /** The strides of destination dimensions k >= i hold their weights w[k]. */
  ghost predicate StridesFrom(stride: seq<int>, w: seq<int>, iorder: seq<int>, i: int)
    requires IsPermutation(iorder, |w|) && |stride| == |w| && 0 <= i
  {
    var n := |w|;
    forall k :: i <= k < n ==> stride[n - 1 - iorder[k]] == w[k]
  }

  /** Writing weight w[i - 1] at the stride of destination dimension i - 1 extends the strides in place. */
  lemma StrideStep(stride: seq<int>, w: seq<int>, iorder: seq<int>, i: int, v: int)
    requires IsPermutation(iorder, |w|) && |stride| == |w| && 1 <= i <= |w|
    requires StridesFrom(stride, w, iorder, i) && v == w[i - 1]
    ensures StridesFrom(stride[|w| - 1 - iorder[i - 1] := v], w, iorder, i - 1)
  {
    var n := |w|;
    var stride' := stride[n - 1 - iorder[i - 1] := v];
    forall k | i <= k < n
      ensures stride'[n - 1 - iorder[k]] == w[k]
    {
      assert iorder[k] != iorder[i - 1];
    }
  }

  /** The value the stride loop writes for destination dimension i - 1 is its weight. */
  lemma StrideValue(stride: seq<int>, dims: seq<int>, iorder: seq<int>, i: int)
    requires IsPermutation(iorder, |dims|) && |stride| == |dims| && 1 <= i < |dims|
    requires StridesFrom(stride, Weights(Permute(dims, iorder)), iorder, i)
    ensures stride[|dims| - 1 - iorder[i]] * dims[iorder[i]] == Weights(Permute(dims, iorder))[i - 1]
  {
    var ddims := Permute(dims, iorder);
    WeightStep(ddims, i);
    assert ddims[i] == dims[iorder[i]];
    assert stride[|dims| - 1 - iorder[i]] == Weights(ddims)[i];
  }

  /** Strides holding every weight are the strides for the order. */
  lemma StridesDone(stride: seq<int>, dims: seq<int>, iorder: seq<int>)
    requires IsPermutation(iorder, |dims|) && |stride| == |dims|
    requires StridesFrom(stride, Weights(Permute(dims, iorder)), iorder, 0)
    ensures StridesFor(stride, dims, iorder)
  {
  }

  /** The strides for an explicit order, from the fastest destination dimension outwards. */
  method OrderStrides(dims: seq<int>, iorder: seq<int>) returns (stride: seq<int>)
    requires 0 < |dims| && IsPermutation(iorder, |dims|)
    ensures StridesFor(stride, dims, iorder)
  {
    var n := |dims|;
    ghost var w := Weights(Permute(dims, iorder));
    assert Permute(dims, iorder)[n..] == [];
    StrideStep(seq(n, _ => 0), w, iorder, n, 1);
    stride := seq(n, _ => 0)[n - 1 - iorder[n - 1] := 1];
    var i := n - 1;
    while i > 0
      invariant 0 <= i <= n - 1 && |stride| == n
      invariant StridesFrom(stride, w, iorder, i)
    {
      StrideValue(stride, dims, iorder, i);
      StrideStep(stride, w, iorder, i, stride[n - 1 - iorder[i]] * dims[iorder[i]]);
      stride := stride[n - 1 - iorder[i - 1] := stride[n - 1 - iorder[i]] * dims[iorder[i]]];
      i := i - 1;
    }
    StridesDone(stride, dims, iorder);
  }

  /** The strides when the dimensions are reversed: stride[j] is the product of rdim[j+1..]. */
  method ReversedStrides(rdim: seq<int>) returns (stride: seq<int>)
    requires 0 < |rdim|
    ensures |stride| == |rdim|
    ensures forall j :: 0 <= j < |rdim| ==> stride[j] == Product(rdim[j + 1..])
  {
    var n := |rdim|;
    stride := seq(n, _ => 0);
    stride := stride[n - 1 := 1];
    var i := n - 1;
    while i > 0
      invariant 0 <= i <= n - 1 && |stride| == n
      invariant forall j :: i <= j < n ==> stride[j] == Product(rdim[j + 1..])
    {
      ProductFront(rdim[i..]);
      assert rdim[i..][1..] == rdim[i + 1..];
      stride := stride[i - 1 := stride[i] * rdim[i]];
      i := i - 1;
    }
  }

  /** Reversed strides are the strides of the reversal order. */
  lemma ReversedStridesFor(stride: seq<int>, dims: seq<int>)
    requires |stride| == |dims|
    requires forall j :: 0 <= j < |dims| ==> stride[j] == Product(Rev(dims)[j + 1..])
    ensures IsPermutation(Utils.Reversal(|dims|), |dims|)
    ensures StridesFor(stride, dims, Utils.Reversal(|dims|))
  {
    ReversalInverse(|dims|);
    assert Permute(dims, Utils.Reversal(|dims|)) == Rev(dims);
  }

  // ---------------------------------------------------------------------
  // The odometer
  // ---------------------------------------------------------------------

  /** The source offset of the reversed index x. */
  ghost function SrcAt(x: seq<int>, dims: seq<int>): int
    requires |x| == |dims|
  {
    Flat(Rev(x), dims)
  }

  /** The destination offset of the reversed index x. */
  ghost function DstAt(x: seq<int>, dims: seq<int>, iorder: seq<int>): int
    requires |x| == |dims| && IsPermutation(iorder, |dims|)
  {
    Flat(Permute(Rev(x), iorder), Permute(dims, iorder))
  }

  /** Updating a permuted sequence: entry a of d is entry order[a] of Permute(d, iorder). */
  lemma PermuteUpdate(d: seq<int>, order: seq<int>, iorder: seq<int>, a: int, v: int)
    requires Inverses(order, iorder, |d|) && 0 <= a < |d|
    ensures Permute(d[a := v], iorder) == Permute(d, iorder)[order[a] := v]
  {
    var n := |d|;
    var e := Permute(d, iorder);
    var e' := Permute(d[a := v], iorder);
    forall k | 0 <= k < n
      ensures e'[k] == e[order[a] := v][k]
    {
      assert order[iorder[k]] == k;
      assert iorder[order[a]] == a;
    }
  }

  /** Updating entry j of x is updating entry |x|-1-j of its reversal. */
  lemma RevUpdate(x: seq<int>, j: int, v: int)
    requires 0 <= j < |x|
    ensures Rev(x[j := v]) == Rev(x)[|x| - 1 - j := v]
  {
  }

  /** Setting entry j of the reversed index to v moves the source offset by (v - x[j]) times the weight of source dimension n-1-j. */
  lemma SrcBump(x: seq<int>, dims: seq<int>, j: int, v: int)
    requires |x| == |dims| && 0 <= j < |dims|
    ensures SrcAt(x[j := v], dims) == SrcAt(x, dims) + (v - x[j]) * Product(dims[|dims| - j..])
  {
    RevUpdate(x, j, v);
    FlatBump(Rev(x), dims, |dims| - 1 - j, v);
  }

  /** Setting entry j of the reversed index to v moves the destination offset by (v - x[j]) times stride[j]. */
  lemma DstBump(x: seq<int>, dims: seq<int>, order: seq<int>, iorder: seq<int>,
                stride: seq<int>, j: int, v: int)
    requires |x| == |dims| && Inverses(order, iorder, |dims|) && StridesFor(stride, dims, iorder)
    requires 0 <= j < |dims|
    ensures DstAt(x[j := v], dims, iorder) == DstAt(x, dims, iorder) + (v - x[j]) * stride[j]
  {
    var e := Permute(Rev(x), iorder);
    var k := order[|dims| - 1 - j];
    DstUpdate(x, dims, order, iorder, j, v);
    StrideAt(stride, dims, iorder, k);
    FlatSet(e, Permute(dims, iorder), k, v, x[j], stride[j]);
  }

  /** FlatBump with the old entry and the weight given by name. */
  lemma FlatSet(d: seq<int>, r: seq<int>, k: int, v: int, was: int, w: int)
    requires |d| == |r| && 0 <= k < |d| && d[k] == was && w == Product(r[k + 1..])
    ensures Flat(d[k := v], r) == Flat(d, r) + (v - was) * w
  {
    FlatBump(d, r, k, v);
  }

  /** Setting entry j of the reversed index sets entry order[n-1-j] of the destination index. */
  lemma DstUpdate(x: seq<int>, dims: seq<int>, order: seq<int>, iorder: seq<int>, j: int, v: int)
    requires |x| == |dims| && Inverses(order, iorder, |dims|) && 0 <= j < |dims|
    ensures iorder[order[|dims| - 1 - j]] == |dims| - 1 - j
    ensures Permute(Rev(x[j := v]), iorder) == Permute(Rev(x), iorder)[order[|dims| - 1 - j] := v]
  {
    RevUpdate(x, j, v);
    PermuteUpdate(Rev(x), order, iorder, |dims| - 1 - j, v);
  }

  /** The offset of index x under per-position weights w. */
  function Dot(x: seq<int>, w: seq<int>): int
    requires |x| == |w|
  {
    if |x| == 0 then 0 else Dot(x[..|x| - 1], w[..|w| - 1]) + x[|x| - 1] * w[|w| - 1]
  }

  /** Setting entry j of x to v moves the weighted offset by (v - x[j]) * w[j]. */
  lemma {:induction false} DotBump(x: seq<int>, w: seq<int>, j: int, v: int)
    requires |x| == |w| && 0 <= j < |x|
    ensures Dot(x[j := v], w) == Dot(x, w) + (v - x[j]) * w[j]
  {
    var m := |x| - 1;
    var y := x[j := v];
    if j < m {
      assert y[..m] == x[..m][j := v];
      DotBump(x[..m], w[..m], j, v);
    } else {
      assert y[..m] == x[..m];
    }
  }

  /** The all-zero index has weighted offset 0. */
  lemma {:induction false} DotZero(x: seq<int>, w: seq<int>)
    requires |x| == |w| && forall t :: 0 <= t < |x| ==> x[t] == 0
    ensures Dot(x, w) == 0
  {
    if |x| > 0 {
      DotZero(x[..|x| - 1], w[..|w| - 1]);
    }
  }

  /** Counting entry j of x up by one moves the weighted offset by w[j]. */
  lemma DotInc(x: seq<int>, w: seq<int>, j: int)
    requires |x| == |w| && 0 <= j < |x|
    ensures Dot(x[j := x[j] + 1], w) == Dot(x, w) + w[j]
  {
    DotBump(x, w, j, x[j] + 1);
  }

  /** Clearing entry j of x moves the weighted offset by -x[j] * w[j]. */
  lemma DotClear(x: seq<int>, w: seq<int>, j: int)
    requires |x| == |w| && 0 <= j < |x|
    ensures Dot(x[j := 0], w) == Dot(x, w) - x[j] * w[j]
  {
    DotBump(x, w, j, 0);
  }

  /** The first k entries of x, the rest zero. */
  function ZeroFrom(x: seq<int>, k: int): (z: seq<int>)
    requires 0 <= k <= |x|
    ensures |z| == |x| && z[..k] == x[..k]
    ensures forall t :: k <= t < |x| ==> z[t] == 0
  {
    x[..k] + seq(|x| - k, _ => 0)
  }

  /** The destination offset of the first k positions is their offset under the strides. */
  lemma {:induction false} DstPrefix(x: seq<int>, k: int, dims: seq<int>, stride: seq<int>,
                                     order: seq<int>, iorder: seq<int>)
    requires |x| == |dims| && Inverses(order, iorder, |dims|) && StridesFor(stride, dims, iorder)
    requires 0 <= k <= |x|
    ensures DstAt(ZeroFrom(x, k), dims, iorder) == Dot(x[..k], stride[..k])
  {
    if k == 0 {
      DstAtZero(x, dims, iorder);
    } else {
      DstPrefix(x, k - 1, dims, stride, order, iorder);
      DstPrefixStep(x, k, dims, stride, order, iorder);
    }
  }

  /** The all-zero index is at destination offset 0. */
  lemma DstAtZero(x: seq<int>, dims: seq<int>, iorder: seq<int>)
    requires |x| == |dims| && IsPermutation(iorder, |dims|)
    ensures DstAt(ZeroFrom(x, 0), dims, iorder) == 0
  {
    var z := ZeroFrom(x, 0);
    var e := Permute(Rev(z), iorder);
    forall t | 0 <= t < |e|
      ensures e[t] == 0
    {
      assert Rev(z)[iorder[t]] == z[|z| - 1 - iorder[t]];
    }
    FlatZero(e, Permute(dims, iorder));
  }

  /** One more entry of the prefix adds its weighted value to the destination offset. */
  lemma DstPrefixStep(x: seq<int>, k: int, dims: seq<int>, stride: seq<int>, order: seq<int>, iorder: seq<int>)
    requires |x| == |dims| && Inverses(order, iorder, |dims|) && StridesFor(stride, dims, iorder)
    requires 0 < k <= |x|
    requires DstAt(ZeroFrom(x, k - 1), dims, iorder) == Dot(x[..k - 1], stride[..k - 1])
    ensures DstAt(ZeroFrom(x, k), dims, iorder) == Dot(x[..k], stride[..k])
  {
    ZeroFromStep(x, k, dims, stride, order, iorder);
    DotPrefixLast(x, stride, k);
  }

  /** Letting entry k-1 of x through adds its weighted value to the destination offset. */
  lemma ZeroFromStep(x: seq<int>, k: int, dims: seq<int>, stride: seq<int>, order: seq<int>, iorder: seq<int>)
    requires |x| == |dims| && Inverses(order, iorder, |dims|) && StridesFor(stride, dims, iorder)
    requires 0 < k <= |x|
    ensures DstAt(ZeroFrom(x, k), dims, iorder) == DstAt(ZeroFrom(x, k - 1), dims, iorder) + x[k - 1] * stride[k - 1]
  {
    var z, z' := ZeroFrom(x, k), ZeroFrom(x, k - 1);
    assert z == z'[k - 1 := x[k - 1]];
    DstSet(z', dims, order, iorder, stride, k - 1, x[k - 1]);
  }

  /** The weighted offset of the first k entries adds entry k-1 to the offset of the first k-1. */
  lemma DotPrefixLast(x: seq<int>, w: seq<int>, k: int)
    requires |x| == |w| && 0 < k <= |x|
    ensures Dot(x[..k], w[..k]) == Dot(x[..k - 1], w[..k - 1]) + x[k - 1] * w[k - 1]
  {
    assert x[..k][..k - 1] == x[..k - 1];
    assert w[..k][..k - 1] == w[..k - 1];
  }

  /** Setting a zero entry j of the reversed index to v moves the destination offset by v * stride[j]. */
  lemma DstSet(x: seq<int>, dims: seq<int>, order: seq<int>, iorder: seq<int>,
               stride: seq<int>, j: int, v: int)
    requires |x| == |dims| && Inverses(order, iorder, |dims|) && StridesFor(stride, dims, iorder)
    requires 0 <= j < |dims| && x[j] == 0
    ensures DstAt(x[j := v], dims, iorder) == DstAt(x, dims, iorder) + v * stride[j]
  {
    DstBump(x, dims, order, iorder, stride, j, v);
  }

  /** The destination offset of x is its offset under the strides. */
  lemma DstDot(x: seq<int>, dims: seq<int>, stride: seq<int>, order: seq<int>, iorder: seq<int>)
    requires |x| == |dims| && Inverses(order, iorder, |dims|) && StridesFor(stride, dims, iorder)
    ensures DstAt(x, dims, iorder) == Dot(x, stride)
  {
    DstPrefix(x, |x|, dims, stride, order, iorder);
    assert ZeroFrom(x, |x|) == x;
    assert x[..|x|] == x && stride[..|x|] == stride;
  }

  /** A carry moves neither offset: one wrap of position j is one step of position j + 1. */
  lemma CarryWeight(dims: seq<int>, j: int)
    requires 0 <= j < |dims| - 1
    ensures Product(dims[|dims| - 1 - j..]) == Rev(dims)[j] * Product(dims[|dims| - j..])
  {
    var n := |dims|;
    ProductFront(dims[n - 1 - j..]);
    assert dims[n - 1 - j..][1..] == dims[n - j..];
  }

  /** All-zero digits are offset 0. */
  lemma {:induction false} FlatZero(d: seq<int>, r: seq<int>)
    requires |d| == |r| && forall a :: 0 <= a < |d| ==> d[a] == 0
    ensures Flat(d, r) == 0
  {
    if |d| > 0 {
      FlatZero(d[..|d| - 1], r[..|r| - 1]);
    }
  }

  /** Digits that are zero but for a full first digit stand one past the last element. */
  lemma FlatTop(d: seq<int>, r: seq<int>)
    requires |d| == |r| > 0 && d[0] == r[0]
    requires forall a :: 0 < a < |d| ==> d[a] == 0
    ensures Flat(d, r) == Product(r)
  {
    var z := d[0 := 0];
    FlatZero(z, r);
    assert d == z[0 := r[0]];
    FlatBump(z, r, 0, r[0]);
    ProductFront(r);
  }

  /**
   * When the carry reaches the last position and that one wraps too, the
   * index stands one past the last element.
   */
  lemma CarryAtTop(x: seq<int>, dims: seq<int>, j: int)
    requires |x| == |dims| && 0 <= j < |dims|
    requires forall t :: 0 <= t < j ==> x[t] == 0
    requires x[j] == Rev(dims)[j]
    ensures j == |dims| - 1 ==> SrcAt(x, dims) == Product(dims)
  {
    if j == |dims| - 1 {
      FlatTop(Rev(x), dims);
    }
  }

  /** In-range reversed digits at source offset i are the digits of i, so DstAt is where i moves. */
  lemma AtMoved(x: seq<int>, dims: seq<int>, order: seq<int>, iorder: seq<int>, i: int)
    requires AllPositive(dims) && |x| == |dims| && Inverses(order, iorder, |dims|)
    requires InRange(Rev(x), dims) && SrcAt(x, dims) == i
    ensures 0 <= i < Product(dims)
    ensures DstAt(x, dims, iorder) == Moved(i, dims, iorder)
  {
    FlatBounds(Rev(x), dims);
    DigitsFlat(Rev(x), dims);
  }

  /** Moved is one-to-one below i. */
  lemma MovedApart(i: int, dims: seq<int>, order: seq<int>, iorder: seq<int>)
    requires AllPositive(dims) && Inverses(order, iorder, |dims|) && 0 <= i < Product(dims)
    ensures 0 <= Moved(i, dims, iorder) < Product(dims)
    ensures forall x :: 0 <= x < i ==> Moved(x, dims, iorder) != Moved(i, dims, iorder)
  {
    InversesSymmetric(order, iorder, |dims|);
    MovedBack(i, dims, iorder, order);
    ProductPermuted(dims, iorder, order);
    forall x | 0 <= x < i
      ensures Moved(x, dims, iorder) != Moved(i, dims, iorder)
    {
      MovedInjective(x, i, dims, iorder, order);
    }
  }

  /**
   * The state inside the carry loop: positions below j have wrapped to 0,
   * position j has just been counted up (possibly to its length), the
   * positions above j are in range, the reversed index stands at source
   * offset target, and index is its offset weighted by the strides.
   */
  ghost predicate Carrying(x: seq<int>, index: int, j: int, target: int, dims: seq<int>, stride: seq<int>)
  {
    var n := |dims|;
    |x| == n && |stride| == n && 0 <= j < n &&
    (forall t :: 0 <= t < j ==> x[t] == 0) &&
    1 <= x[j] <= Rev(dims)[j] &&
    (forall t :: j < t < n ==> 0 <= x[t] < Rev(dims)[t]) &&
    SrcAt(x, dims) == target && index == Dot(x, stride)
  }

  /** Counting up position 0 starts the carry loop one element further on. */
  lemma CarryStart(x: seq<int>, index: int, dims: seq<int>, stride: seq<int>)
    requires |x| == |dims| == |stride| > 0
    requires InRange(Rev(x), dims) && index == Dot(x, stride)
    ensures Carrying(x[0 := x[0] + 1], index + stride[0], 0, SrcAt(x, dims) + 1, dims, stride)
  {
    var x' := x[0 := x[0] + 1];
    SrcInc(x, dims);
    DotInc(x, stride, 0);
    StartDigits(x, x', dims);
  }

  /** Counting up position 0 of the reversed index moves the source offset by one. */
  lemma SrcInc(x: seq<int>, dims: seq<int>)
    requires |x| == |dims| > 0
    ensures SrcAt(x[0 := x[0] + 1], dims) == SrcAt(x, dims) + 1
  {
    SrcBump(x, dims, 0, x[0] + 1);
    assert dims[|dims|..] == [];
  }

  /** Counting up position 0 of an in-range index leaves it at most at its length, the rest in range. */
  lemma StartDigits(x: seq<int>, x': seq<int>, dims: seq<int>)
    requires |x| == |dims| > 0 && InRange(Rev(x), dims) && x' == x[0 := x[0] + 1]
    ensures 1 <= x'[0] <= Rev(dims)[0]
    ensures forall t :: 0 < t < |dims| ==> 0 <= x'[t] < Rev(dims)[t]
  {
    var n := |dims|;
    assert Rev(x)[n - 1] == x[0];
    forall t | 0 < t < n
      ensures 0 <= x[t] < Rev(dims)[t]
    {
      assert Rev(x)[n - 1 - t] == x[t];
    }
  }

  /** A carry keeps the source offset: the wrap of position j is paid for by one step of position j + 1. */
  lemma CarrySrc(x: seq<int>, j: int, dims: seq<int>)
    requires |x| == |dims| && 0 <= j < |dims| - 1 && x[j] == Rev(dims)[j]
    ensures SrcAt(x[j := 0][j + 1 := x[j + 1] + 1], dims) == SrcAt(x, dims)
  {
    var n := |dims|;
    var y := x[j := 0];
    SrcBump(x, dims, j, 0);
    SrcBump(y, dims, j + 1, y[j + 1] + 1);
    CarryWeight(dims, j);
    var w := Product(dims[n - j..]);
    assert SrcAt(y, dims) == SrcAt(x, dims) - x[j] * w;
    assert dims[n - (j + 1)..] == dims[n - 1 - j..];
    assert SrcAt(y[j + 1 := y[j + 1] + 1], dims) == SrcAt(y, dims) + x[j] * w;
  }

  /** The weighted offset follows a carry by the source's own updates of index. */
  lemma CarryDst(x: seq<int>, index: int, j: int, stride: seq<int>)
    requires |x| == |stride| && 0 <= j < |x| - 1 && index == Dot(x, stride)
    ensures index - stride[j] * x[j] + stride[j + 1] == Dot(x[j := 0][j + 1 := x[j + 1] + 1], stride)
  {
    DotClear(x, stride, j);
    DotInc(x[j := 0], stride, j + 1);
  }

  /** While target is inside the array, a wrapping position is not the last one. */
  lemma CarryBelowTop(x: seq<int>, index: int, j: int, target: int, dims: seq<int>, stride: seq<int>)
    requires Carrying(x, index, j, target, dims, stride) && x[j] == Rev(dims)[j]
    requires target < Product(dims)
    ensures j + 1 < |dims|
  {
    CarryAtTop(x, dims, j);
  }

  /**
   * A carry: position j has reached its length, wraps to 0 and counts up
   * position j + 1.
   */
  lemma CarryStep(x: seq<int>, index: int, j: int, target: int, dims: seq<int>, stride: seq<int>)
    requires Carrying(x, index, j, target, dims, stride) && x[j] == Rev(dims)[j] && j + 1 < |dims|
    ensures Carrying(x[j := 0][j + 1 := x[j := 0][j + 1] + 1], index - stride[j] * Rev(dims)[j] + stride[j + 1],
                     j + 1, target, dims, stride)
  {
    var n := |dims|;
    var y := x[j := 0][j + 1 := x[j := 0][j + 1] + 1];
    CarrySrc(x, j, dims);
    CarryDst(x, index, j, stride);
    assert forall t :: 0 <= t < j + 1 ==> y[t] == 0;
    assert 1 <= y[j + 1] <= Rev(dims)[j + 1];
    assert forall t :: j + 1 < t < n ==> 0 <= y[t] < Rev(dims)[t];
  }

  /** A position that stays below its length ends the carry with every position in range. */
  lemma CarryEnd(x: seq<int>, index: int, j: int, target: int, dims: seq<int>, stride: seq<int>)
    requires AllPositive(dims)
    requires Carrying(x, index, j, target, dims, stride) && x[j] != Rev(dims)[j]
    ensures InRange(Rev(x), dims) && SrcAt(x, dims) == target && index == Dot(x, stride)
  {
    var n := |dims|;
    forall a | 0 <= a < n
      ensures 0 <= Rev(x)[a] < dims[a]
    {
      assert Rev(x)[a] == x[n - 1 - a];
      assert Rev(dims)[n - 1 - a] == dims[a];
    }
  }

  /**
   * One step of the odometer: the reversed index x moves to the next source
   * element and the weighted offset index moves with it. Position 0 counts
   * up; a position that reaches its length wraps to 0 and carries into the
   * next one. The step is taken only while a next element exists.
   */
  method Advance(x: seq<int>, index: int, ghost dims: seq<int>, rdim: seq<int>, stride: seq<int>)
    returns (x': seq<int>, index': int)
    requires |x| == |dims| == |stride| && rdim == Rev(dims) && AllPositive(dims)
    requires InRange(Rev(x), dims) && SrcAt(x, dims) + 1 < Product(dims)
    requires index == Dot(x, stride)
    ensures |x'| == |x| && InRange(Rev(x'), dims)
    ensures SrcAt(x', dims) == SrcAt(x, dims) + 1
    ensures index' == Dot(x', stride)
  {
    ghost var target := SrcAt(x, dims) + 1;
    CarryStart(x, index, dims, stride);
    var j := 0;
    index' := index + stride[j];
    x' := x[j := x[j] + 1];
    while x'[j] == rdim[j]
      invariant Carrying(x', index', j, target, dims, stride)
      decreases |x| - j
    {
      CarryBelowTop(x', index', j, target, dims, stride);
      CarryStep(x', index', j, target, dims, stride);
      x', index', j := x'[j := 0][j + 1 := x'[j := 0][j + 1] + 1], index' - stride[j] * rdim[j] + stride[j + 1], j + 1;
    }
    CarryEnd(x', index', j, target, dims, stride);
  }

  /** Every source element below i sits at its offset `there` in d. */
  ghost predicate Placed<T>(d: seq<T>, s: seq<T>, i: int, there: seq<int>)
    requires 0 <= i <= |s| && i <= |there|
  {
    forall y :: 0 <= y < i ==> 0 <= there[y] < |d| && d[there[y]] == s[y]
  }

  /** Writing s[i] at an offset no earlier element uses keeps the elements already placed. */
  lemma PlacedStep<T>(d: seq<T>, s: seq<T>, i: int, there: seq<int>)
    requires 0 <= i < |s| && i < |there| && 0 <= there[i] < |d|
    requires Placed(d, s, i, there) && forall y :: 0 <= y < i ==> there[y] != there[i]
    ensures Placed(d[there[i] := s[i]], s, i + 1, there)
  {
  }

  /** Element i, at reversed index x, goes to its moved offset, which the strides give x. */
  lemma PlaceNext<T>(d: seq<T>, s: seq<T>, x: seq<int>, index: int, i: int, dims: seq<int>,
                     stride: seq<int>, order: seq<int>, iorder: seq<int>, there: seq<int>)
    requires AllPositive(dims) && |x| == |dims| && Inverses(order, iorder, |dims|)
    requires StridesFor(stride, dims, iorder)
    requires |d| == |s| == Product(dims) && 0 <= i < |s| && there == MovedAll(|s|, dims, iorder)
    requires InRange(Rev(x), dims) && SrcAt(x, dims) == i && index == Dot(x, stride)
    requires Placed(d, s, i, there)
    ensures 0 <= index < |d| && Placed(d[index := s[i]], s, i + 1, there)
  {
    DstDot(x, dims, stride, order, iorder);
    AtMoved(x, dims, order, iorder, i);
    MovedApart(i, dims, order, iorder);
    PlacedStep(d, s, i, there);
  }

  /** Once every element is placed, d is the transposed array. */
  lemma PlacedAll<T>(d: seq<T>, s: seq<T>, dims: seq<int>, order: seq<int>, iorder: seq<int>)
    requires AllPositive(dims) && Inverses(order, iorder, |dims|)
    requires |d| == |s| == Product(dims)
    requires Placed(d, s, |s|, MovedAll(|s|, dims, iorder))
    ensures d == Transposed(s, dims, order, iorder)
  {
    forall q | 0 <= q < |d|
      ensures d[q] == Transposed(s, dims, order, iorder)[q]
    {
      var y := Source(q, dims, order, iorder);
      assert Moved(y, dims, iorder) == q;
    }
  }

  /** The position the odometer x stands at: element i of the source, at offset index. */
  ghost predicate Cursor(x: seq<int>, index: int, i: int, dims: seq<int>, stride: seq<int>)
    requires AllPositive(dims) && |x| == |dims| && |stride| == |dims|
  {
    InRange(Rev(x), dims) && SrcAt(x, dims) == i && index == Dot(x, stride)
  }

  /**
   * The loop of harp_array_transpose: walks the source in order, with the
   * odometer x and the running offset index, and writes every element at
   * its offset in dst.
   */
  method PlaceAll<T>(a: array<T>, dst: array<T>, dims: seq<int>, rdim: seq<int>, stride: seq<int>,
                     ghost order: seq<int>, ghost iorder: seq<int>)
    requires AllPositive(dims) && 0 < a.Length == dst.Length == Product(dims) && a != dst
    requires rdim == Rev(dims) && Inverses(order, iorder, |dims|) && StridesFor(stride, dims, iorder)
    modifies dst
    ensures Placed(dst[..], a[..], a.Length, MovedAll(a.Length, dims, iorder))
  {
    var N := a.Length;
    var n := |dims|;
    var x := seq(n, _ => 0);
    var index := 0;
    FlatZero(Rev(x), dims);
    DotZero(x, stride);
    ghost var there := MovedAll(N, dims, iorder);
    var i := 0;
    while i < N
      invariant 0 <= i <= N && |x| == n
      invariant i < N ==> Cursor(x, index, i, dims, stride)
      invariant Placed(dst[..], a[..], i, there)
    {
      PlaceNext(dst[..], a[..], x, index, i, dims, stride, order, iorder, there);
      dst[index] := a[i];
      if i + 1 < N {
        x, index := Advance(x, index, dims, rdim, stride);
      }
      i := i + 1;
    }
  }

  /** The placed copy then replaces the array: the array holds its transpose. */
  method Scatter<T>(a: array<T>, dims: seq<int>, rdim: seq<int>, stride: seq<int>,
                    ghost order: seq<int>, ghost iorder: seq<int>)
    requires AllPositive(dims) && 0 < a.Length == Product(dims)
    requires rdim == Rev(dims) && Inverses(order, iorder, |dims|) && StridesFor(stride, dims, iorder)
    modifies a
    ensures a[..] == Transposed(old(a[..]), dims, order, iorder)
  {
    var N := a.Length;
    var first := a[0];
    var dst := new T[N](_ => first);
    PlaceAll(a, dst, dims, rdim, stride, order, iorder);
    PlacedAll(dst[..], a[..], dims, order, iorder);
    forall k | 0 <= k < N {
      a[k] := dst[k];
    }
  }

  // ---------------------------------------------------------------------
  // The carry after the last element
  // ---------------------------------------------------------------------

  /**
   * The carry loop as the source writes it, run once more after the last
   * element: starting at position j with the reversed index x (before
   * position j is counted up), the position at which the loop stops. It
   * stops at the first position that does not wrap; when every position
   * wraps it stands at |x|, one past the last dimension, and the source then
   * reads rdim[n] and stride[n] and writes rindex[n].
   */
  function CarryReach(x: seq<int>, rdim: seq<int>, j: int): (e: int)
    requires |x| == |rdim| && 0 <= j <= |x|
    ensures j <= e <= |x|
    ensures e < |x| ==> x[e] + 1 != rdim[e] && forall t :: j <= t < e ==> x[t] + 1 == rdim[t]
    ensures e == |x| <==> forall t :: j <= t < |x| ==> x[t] + 1 == rdim[t]
    decreases |x| - j
  {
    if j == |x| then |x|
    else if x[j] + 1 == rdim[j] then CarryReach(x, rdim, j + 1)
    else j
  }

  /** The largest digits: every index at its dimension's last value. */
  function LastDigits(r: seq<int>): (d: seq<int>)
    ensures |d| == |r| && forall a :: 0 <= a < |r| ==> d[a] == r[a] - 1
  {
    seq(|r|, a requires 0 <= a < |r| => r[a] - 1)
  }

  /** The largest digits are the offset of the last element. */
  lemma {:induction false} FlatLast(r: seq<int>)
    requires AllPositive(r)
    ensures InRange(LastDigits(r), r)
    ensures Flat(LastDigits(r), r) == Product(r) - 1
  {
    if |r| > 0 {
      var m := |r| - 1;
      FlatLast(r[..m]);
      assert LastDigits(r)[..m] == LastDigits(r[..m]);
    }
  }

  /** A carry through every position means every index is at its last value. */
  lemma ReachedAllLast(x: seq<int>, dims: seq<int>)
    requires |x| == |dims| && CarryReach(x, Rev(dims), 0) == |dims|
    ensures Rev(x) == LastDigits(dims)
  {
    var n := |dims|;
    forall a | 0 <= a < n
      ensures Rev(x)[a] == dims[a] - 1
    {
      assert x[n - 1 - a] + 1 == Rev(dims)[n - 1 - a];
    }
  }

  /** In-range digits at the last offset are the largest digits. */
  lemma AtLastAllLast(x: seq<int>, dims: seq<int>)
    requires AllPositive(dims) && |x| == |dims| && InRange(Rev(x), dims)
    requires SrcAt(x, dims) == Product(dims) - 1
    ensures forall t :: 0 <= t < |x| ==> x[t] + 1 == Rev(dims)[t]
  {
    var n := |dims|;
    var top := LastDigits(dims);
    FlatLast(dims);
    DigitsFlat(Rev(x), dims);
    DigitsFlat(top, dims);
    forall t | 0 <= t < n
      ensures x[t] + 1 == Rev(dims)[t]
    {
      assert Rev(x)[n - 1 - t] == top[n - 1 - t];
    }
  }

  /**
   * The carry runs past the last dimension exactly when the reversed index
   * stands at the last element.
   */
  lemma CarryReachIff(x: seq<int>, dims: seq<int>)
    requires AllPositive(dims) && |x| == |dims| && InRange(Rev(x), dims)
    ensures CarryReach(x, Rev(dims), 0) == |dims| <==> SrcAt(x, dims) == Product(dims) - 1
  {
    FlatLast(dims);
    if CarryReach(x, Rev(dims), 0) == |dims| {
      ReachedAllLast(x, dims);
    }
    if SrcAt(x, dims) == Product(dims) - 1 {
      AtLastAllLast(x, dims);
    }
  }

  /**
   * After the last element of an array with more than one element the
   * source's loop advances the index once more, and that carry runs through
   * every dimension to position n.
   */
  lemma LastAdvanceOverruns(dims: seq<int>)
    requires AllPositive(dims) && 0 < |dims|
    ensures var x := Rev(LastDigits(dims));
      InRange(Rev(x), dims) && SrcAt(x, dims) == Product(dims) - 1 &&
      CarryReach(x, Rev(dims), 0) == |dims|
  {
    var x := Rev(LastDigits(dims));
    assert Rev(x) == LastDigits(dims);
    FlatLast(dims);
    CarryReachIff(x, dims);
  }

  /**
   * Guarded as Scatter guards it, the advance happens only before an
   * element that exists, and there the carry stops inside the dimensions.
   */
  lemma GuardedAdvanceStaysInside(x: seq<int>, dims: seq<int>)
    requires AllPositive(dims) && |x| == |dims| && InRange(Rev(x), dims)
    requires SrcAt(x, dims) + 1 < Product(dims)
    ensures CarryReach(x, Rev(dims), 0) < |dims|
  {
    CarryReachIff(x, dims);
  }

  // ---------------------------------------------------------------------
  // harp_array_transpose
  // ---------------------------------------------------------------------

  /** The order the transpose applies: the given one, or the reversal of the dimensions. */
  function OrderOf(n: nat, order: Option<seq<int>>): (p: seq<int>)
    requires order.Some? ==> |order.value| == n
    ensures |p| == n
    ensures order.None? ==> Inverses(p, p, n)
  {
    ReversalInverse(n);
    if order.None? then Utils.Reversal(n) else order.value
  }

  /** The inverse of the order the transpose applies. */
  function InverseOf(n: nat, order: Option<seq<int>>): (q: seq<int>)
    requires order.Some? ==> |order.value| == n && IsPermutation(order.value, n)
    ensures Inverses(OrderOf(n, order), q, n)
  {
    if order.None? then Utils.Reversal(n) else Inverse(order.value, n)
  }

  /**
   * Permutes the dimensions of the array a, whose n dimensions have lengths
   * dims, in place. Without an order the dimensions are reversed. An order
   * that is not a permutation of 0..n-1 is rejected with InvalidArgument;
   * with at most one dimension or at most one element nothing is done and
   * the order is not looked at.
   */
  method ArrayTranspose<T>(n: int, dims: seq<int>, order: Option<seq<int>>, a: array<T>)
    returns (r: Result<(), ErrorCode>)
    requires 0 <= n <= MaxNumDims && |dims| == n && forall k :: 0 <= k < n ==> dims[k] >= 0
    requires a.Length == Product(dims)
    requires order.Some? ==> |order.value| == n
    modifies a
    ensures r.Failure? <==> 1 < n && 1 < Product(dims) && order.Some? && !IsPermutation(order.value, n)
    ensures r.Failure? ==> r.error == InvalidArgument && a[..] == old(a[..])
    ensures r.Success? && (n <= 1 || Product(dims) <= 1) ==> a[..] == old(a[..])
    ensures r.Success? && 1 < n && 1 < Product(dims) ==>
      AllPositive(dims) && (order.Some? ==> IsPermutation(order.value, n)) &&
      a[..] == Transposed(old(a[..]), dims, OrderOf(n, order), InverseOf(n, order))
  {
    if n <= 1 {
      return Success(());
    }
    var N := Utils.GetNumElements(n, dims);
    assert dims[..n] == dims;
    if N <= 1 {
      return Success(());
    }
    assert AllPositive(dims);
    var rdim := ReverseLengths(dims);
    var stride: seq<int>;
    ghost var ord := OrderOf(n, order);
    ghost var iord: seq<int>;
    if order.None? {
      stride := ReversedStrides(rdim);
      ReversedStridesFor(stride, dims);
      iord := ord;
    } else {
      var inv := InvertOrder(order.value, n);
      if inv.None? {
        return Failure(InvalidArgument);
      }
      iord := inv.value;
      InverseUnique(order.value, iord, n);
      stride := OrderStrides(dims, inv.value);
    }
    Scatter(a, dims, rdim, stride, ord, iord);
    r := Success(());
  }
}
