/**
 * Index arithmetic over flat row-major buffers. Every reshaping primitive of
 * HARP views a buffer along one axis as `groups x n x block`: the product of
 * the lengths before the axis, the axis length, and the product of the lengths
 * after it. `Gather` is the one specification all of them share.
 */
module Layout {

  /** Product of a list of dimension lengths; 1 for no dimensions. */
  function Product(dims: seq<int>): int
  {
    if |dims| == 0 then 1 else Product(dims[..|dims| - 1]) * dims[|dims| - 1]
  }

  predicate AllPositive(dims: seq<int>)
  {
    forall i :: 0 <= i < |dims| ==> dims[i] > 0
  }

  lemma {:induction false} ProductPositive(dims: seq<int>)
    requires AllPositive(dims)
    ensures Product(dims) > 0
  {
    if |dims| > 0 {
      ProductPositive(dims[..|dims| - 1]);
      MulPositive(Product(dims[..|dims| - 1]), dims[|dims| - 1]);
    }
  }

  lemma {:induction false} ProductNonNegative(dims: seq<int>)
    requires forall i :: 0 <= i < |dims| ==> dims[i] >= 0
    ensures Product(dims) >= 0
  {
    if |dims| > 0 {
      ProductNonNegative(dims[..|dims| - 1]);
      MulNonNegative(Product(dims[..|dims| - 1]), dims[|dims| - 1]);
    }
  }

  /** The product over a concatenation is the product of the products. */
  lemma {:induction false} ProductAppend(a: seq<int>, b: seq<int>)
    ensures Product(a + b) == Product(a) * Product(b)
    decreases |b|
  {
    if |b| == 0 {
      assert a + b == a;
    } else {
      var b' := b[..|b| - 1];
      assert (a + b)[..|a + b| - 1] == a + b';
      ProductAppend(a, b');
      MulAssoc(Product(a), Product(b'), b[|b| - 1]);
    }
  }

  /** The product splits around one axis: the lengths before it, the axis, and the lengths after it. */
  lemma ProductSplit(dims: seq<int>, k: int)
    requires 0 <= k < |dims|
    ensures Product(dims) == Product(dims[..k]) * dims[k] * Product(dims[k + 1..])
  {
    assert dims[..k + 1][..k] == dims[..k];
    assert dims == dims[..k + 1] + dims[k + 1..];
    ProductAppend(dims[..k + 1], dims[k + 1..]);
  }

  /** Dividing an exact product by one factor gives the other. */
  lemma DivExact(x: int, y: int)
    requires 0 < y
    ensures (x * y) / y == x
  {
    DivModOf(x * y, x, 0, y);
  }

  lemma MulPositive(x: int, y: int)
    requires x > 0 && y > 0
    ensures x * y > 0
  {
  }

  lemma MulNonNegative(x: int, y: int)
    requires x >= 0 && y >= 0
    ensures x * y >= 0
  {
  }

  lemma MulAssoc(x: int, y: int, z: int)
    ensures x * y * z == x * (y * z)
  {
  }

  lemma MulLe(x: int, y: int, c: int)
    requires x <= y && 0 <= c
    ensures x * c <= y * c
  {
  }

  /** The flat index of offset `b` of slot `t` of group `g` in a G x n x B buffer. */
  function Pos(G: int, n: int, B: int, g: int, t: int, b: int): (p: int)
    requires 0 <= g < G && 0 <= t < n && 0 <= b < B
    ensures 0 <= p < G * n * B
  {
    PosBounds(G, n, B, g, t, b);
    (g * n + t) * B + b
  }

  lemma PosBounds(G: int, n: int, B: int, g: int, t: int, b: int)
    requires 0 <= g < G && 0 <= t < n && 0 <= b < B
    ensures 0 <= (g * n + t) * B + b < G * n * B
  {
    MulLe(g + 1, G, n);
    MulLe(g * n + t + 1, G * n, B);
    MulNonNegative(g * n + t, B);
  }

  lemma DivModOf(p: int, q: int, r: int, d: int)
    requires 0 < d && 0 <= r < d && p == q * d + r
    ensures p / d == q && p % d == r
  {
    var q', r' := p / d, p % d;
    assert p == q' * d + r';
    if q' < q {
      MulLe(q' + 1, q, d);
      assert false;
    } else if q' > q {
      MulLe(q + 1, q', d);
      assert false;
    }
  }

  /** Flat indices determine group, slot and offset. */
  lemma PosSplit(G: int, n: int, B: int, g: int, t: int, b: int)
    requires 0 <= g < G && 0 <= t < n && 0 <= b < B
    ensures Pos(G, n, B, g, t, b) / B == g * n + t
    ensures Pos(G, n, B, g, t, b) % B == b
    ensures (g * n + t) / n == g && (g * n + t) % n == t
  {
    DivModOf(Pos(G, n, B, g, t, b), g * n + t, b, B);
    DivModOf(g * n + t, g, t, n);
  }

  lemma PosInjective(G: int, n: int, B: int, g: int, t: int, b: int, g': int, t': int, b': int)
    requires 0 <= g < G && 0 <= t < n && 0 <= b < B
    requires 0 <= g' < G && 0 <= t' < n && 0 <= b' < B
    requires Pos(G, n, B, g, t, b) == Pos(G, n, B, g', t', b')
    ensures g == g' && t == t' && b == b'
  {
    PosSplit(G, n, B, g, t, b);
    PosSplit(G, n, B, g', t', b');
  }

  /** Every index of a G x n x B buffer is the flat index of some group, slot and offset. */
  lemma PosCover(G: int, n: int, B: int, p: int)
    requires 0 <= p < G * n * B && 0 < n && 0 < B
    ensures 0 <= p / B / n < G && 0 <= p / B % n < n && 0 <= p % B < B
    ensures p == Pos(G, n, B, p / B / n, p / B % n, p % B)
  {
    var q := p / B;
    DivBelow(p, B, G * n);
    DivBelow(q, n, G);
    assert p == q * B + p % B;
    assert q == (q / n) * n + q % n;
  }

  /** A quotient by c of a value below p * c is below p. */
  lemma DivBelow(q: int, c: int, p: int)
    requires 0 < c && 0 <= q < p * c
    ensures 0 <= q / c < p
  {
    var h := q / c;
    assert h * c <= q;
    if p <= h {
      MulLe(p, h, c);
    }
  }

  lemma ProductZeroFactor(x: int, y: int, z: int)
    requires x * y * z > 0 && x >= 0 && y >= 0 && z >= 0
    ensures x > 0 && y > 0 && z > 0
  {
  }

  /** Every slot index lies in [0, D). */
  predicate IdsIn(ids: seq<int>, D: int)
  {
    forall t :: 0 <= t < |ids| ==> 0 <= ids[t] < D
  }

  /**
   * Gather along the middle axis of a G x D x B buffer: slot t of the result
   * is slot ids[t] of the input, in every group. Slots may repeat or be left out.
   */
  function Gather<T>(s: seq<T>, G: nat, D: nat, B: nat, ids: seq<int>): (r: seq<T>)
    requires |s| == G * D * B && IdsIn(ids, D)
    ensures |r| == G * |ids| * B
    ensures forall g, t, b :: 0 <= g < G && 0 <= t < |ids| && 0 <= b < B ==>
      r[Pos(G, |ids|, B, g, t, b)] == s[Pos(G, D, B, g, ids[t], b)]
  {
    var N := |ids|;
    var r := seq(G * N * B, p requires 0 <= p < G * N * B => GatherAt(s, G, D, B, ids, p));
    assert forall g, t, b :: 0 <= g < G && 0 <= t < N && 0 <= b < B ==>
      r[Pos(G, N, B, g, t, b)] == s[Pos(G, D, B, g, ids[t], b)]
    by {
      forall g, t, b | 0 <= g < G && 0 <= t < N && 0 <= b < B
        ensures r[Pos(G, N, B, g, t, b)] == s[Pos(G, D, B, g, ids[t], b)]
      {
        PosSplit(G, N, B, g, t, b);
      }
    }
    r
  }

  /** The element Gather puts at flat index p. */
  function GatherAt<T>(s: seq<T>, G: nat, D: nat, B: nat, ids: seq<int>, p: int): T
    requires |s| == G * D * B && IdsIn(ids, D)
    requires 0 <= p < G * |ids| * B
  {
    var N := |ids|;
    ProductZeroFactor(G, N, B);
    PosCover(G, N, B, p);
    s[Pos(G, D, B, p / B / N, ids[p / B % N], p % B)]
  }

  /** A property every element of a buffer has, every element of a gather of it has. */
  lemma GatherPreserves<T>(s: seq<T>, G: nat, D: nat, B: nat, ids: seq<int>, P: T -> bool)
    requires |s| == G * D * B && IdsIn(ids, D)
    requires forall i :: 0 <= i < |s| ==> P(s[i])
    ensures forall i :: 0 <= i < G * |ids| * B ==> P(Gather(s, G, D, B, ids)[i])
  {
    var r, N := Gather(s, G, D, B, ids), |ids|;
    forall p | 0 <= p < G * N * B
      ensures P(r[p])
    {
      ProductZeroFactor(G, N, B);
      PosCover(G, N, B, p);
      assert r[p] == s[Pos(G, D, B, p / B / N, ids[p / B % N], p % B)];
    }
  }

  /** Two buffers of G x n x B elements that agree at every position are equal. */
  lemma {:induction false} EqualByPos<T>(r: seq<T>, s: seq<T>, G: nat, n: nat, B: nat)
    requires |r| == |s| == G * n * B
    requires forall g, t, b :: 0 <= g < G && 0 <= t < n && 0 <= b < B ==>
      r[Pos(G, n, B, g, t, b)] == s[Pos(G, n, B, g, t, b)]
    ensures r == s
  {
    forall p | 0 <= p < |r|
      ensures r[p] == s[p]
    {
      ProductZeroFactor(G, n, B);
      PosCover(G, n, B, p);
    }
  }

  function Iota(n: nat): (r: seq<int>)
    ensures |r| == n && forall t :: 0 <= t < n ==> r[t] == t
  {
    seq(n, t => t)
  }

  /** Gathering every slot once, in order, changes nothing. */
  lemma GatherIdentity<T>(s: seq<T>, G: nat, D: nat, B: nat)
    requires |s| == G * D * B
    ensures Gather(s, G, D, B, Iota(D)) == s
  {
    EqualByPos(Gather(s, G, D, B, Iota(D)), s, G, D, B);
  }

  /** Gathering twice is gathering once with the composed slot list. */
  lemma GatherCompose<T>(s: seq<T>, G: nat, D: nat, B: nat, ids: seq<int>, ids2: seq<int>)
    requires |s| == G * D * B && IdsIn(ids, D) && IdsIn(ids2, |ids|)
    ensures IdsIn(Compose(ids, ids2), D)
    ensures Gather(Gather(s, G, D, B, ids), G, |ids|, B, ids2) == Gather(s, G, D, B, Compose(ids, ids2))
  {
    var c := Compose(ids, ids2);
    EqualByPos(Gather(Gather(s, G, D, B, ids), G, |ids|, B, ids2), Gather(s, G, D, B, c), G, |ids2|, B);
  }

  /** Slot t of the composition is slot ids2[t] of the first list. */
  function Compose(ids: seq<int>, ids2: seq<int>): (c: seq<int>)
    requires IdsIn(ids2, |ids|)
    ensures |c| == |ids2| && forall t :: 0 <= t < |c| ==> c[t] == ids[ids2[t]]
  {
    seq(|ids2|, t requires 0 <= t < |ids2| => ids[ids2[t]])
  }

  /** Multiplication distributes over addition (a step Z3 does not take on its own in nonlinear contexts). */
  lemma Distrib(x: int, y: int, c: int)
    ensures (x + y) * c == x * c + y * c
  {
  }
}
