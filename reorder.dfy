/**
 * The in-place block reordering at the heart of
 * harp_variable_rearrange_dimension: within one group, slot t of the result
 * becomes a copy of slot ids[t] of the input. Blocks are moved along chains of
 * "first destinations", cycles go through a one-block buffer, and a block
 * that is used more than once is copied from where it was first placed (with
 * every string duplicated, so no two elements share a string).
 */
module Reorder {
  import opened HarpTypes
  import opened Layout
  import opened Blocks

  /**
   * The move_to_id table: first[j] is the first slot of `ids` that takes
   * source slot j, or -1 when no slot does (the block is dropped).
   */
  predicate FirstTable(first: seq<int>, ids: seq<int>, D: int)
  {
    |first| == D && IdsIn(ids, D) &&
    forall j :: 0 <= j < D ==>
      -1 <= first[j] < |ids| &&
      (first[j] == -1 ==> forall t :: 0 <= t < |ids| ==> ids[t] != j) &&
      (first[j] != -1 ==> ids[first[j]] == j && forall t :: 0 <= t < first[j] ==> ids[t] != j)
  }

  /** Builds move_to_id: -1 everywhere, then the first occurrence of each id. */
  method BuildMoveToId(ids: seq<int>, D: int) returns (moveToId: array<int>)
    requires 0 <= D && IdsIn(ids, D)
    ensures fresh(moveToId) && FirstTable(moveToId[..], ids, D)
  {
    moveToId := new int[D];
    var i := 0;
    while i < D
      invariant 0 <= i <= D
      invariant forall j :: 0 <= j < i ==> moveToId[j] == -1
    {
      moveToId[i] := -1;
      i := i + 1;
    }
    i := 0;
    while i < |ids|
      invariant 0 <= i <= |ids|
      invariant FirstTable(moveToId[..], ids[..i], D)
    {
      if moveToId[ids[i]] == -1 {
        moveToId[ids[i]] := i;
      }
      i := i + 1;
    }
    assert ids[..|ids|] == ids;
  }

  /** Slot t is the first slot of `ids` that takes its source slot. */
  predicate IsFirstUse(ids: seq<int>, t: int)
    requires 0 <= t < |ids|
  {
    forall u :: 0 <= u < t ==> ids[u] != ids[t]
  }

  /** The move_to_id table marks exactly the first uses. */
  lemma FirstTableFirstUse(first: seq<int>, ids: seq<int>, D: int, t: int)
    requires FirstTable(first, ids, D) && 0 <= t < |ids|
    ensures first[ids[t]] == t <==> IsFirstUse(ids, t)
  {
  }

  /** Every used id has a first destination, no later than any use of it. */
  lemma FirstOfUse(first: seq<int>, ids: seq<int>, D: int, t: int)
    requires FirstTable(first, ids, D) && 0 <= t < |ids|
    ensures 0 <= first[ids[t]] <= t
  {
  }

  /**
   * The fixed parameters of one reordering: a region of M slots of B elements
   * starting at `base`, whose first D slots hold the source blocks `orig`.
   */
  datatype Region = Region(base: int, M: int, B: int, D: int, ids: seq<int>, first: seq<int>, orig: seq<seq<Elem>>)
  {
    ghost predicate Valid(len: int)
    {
      0 <= base && 0 <= B && 0 <= D <= M && |ids| <= M && base + M * B <= len &&
      FirstTable(first, ids, D) && |orig| == D && (forall j :: 0 <= j < D ==> |orig[j]| == B)
    }

    ghost function At(s: seq<Elem>, t: int): seq<Elem>
      requires Valid(|s|) && 0 <= t < M
    {
      Slot(s, base, M, B, t)
    }

    /** No two elements of the source blocks share a string. */
    ghost predicate OrigUnique()
    {
      forall j, b, j', b' ::
        (0 <= j < |orig| && 0 <= b < |orig[j]| && 0 <= j' < |orig| && 0 <= b' < |orig[j']| &&
         (j != j' || b != b') && Owns(orig[j][b]))
        ==> orig[j][b] != orig[j'][b']
    }
  }

  /**
   * The state of the reordering before destination `toId`: P is the set of
   * slots already filled, mv the `moved` flags. Slot `except` is the one whose
   * block sits in the cycle buffer (-1 when none).
   */
  ghost predicate Inv(c: Region, s: seq<Elem>, mv: seq<bool>, P: set<int>, toId: int, except: int)
    requires c.Valid(|s|)
  {
    |mv| == c.D && 0 <= toId <= |c.ids| && Placed(c, s, mv, P, toId, except) &&
    (forall t :: 0 <= t < toId ==> t in P) && MovedOk(c, mv, P) && Intact(c, s, mv, except)
  }

  /** A source block is marked moved exactly when its first destination is filled. */
  ghost predicate MovedOk(c: Region, mv: seq<bool>, P: set<int>)
    requires |c.first| == c.D == |mv|
  {
    forall j :: 0 <= j < c.D ==> (mv[j] <==> c.first[j] != -1 && c.first[j] in P)
  }

  /**
   * A filled slot holds the contents of its source block, and the block itself
   * when it is that block's first destination; slots filled ahead of `toId` are
   * first destinations, and a filled slot's own source block has been moved out.
   */
  ghost predicate Placed(c: Region, s: seq<Elem>, mv: seq<bool>, P: set<int>, toId: int, except: int)
    requires c.Valid(|s|) && |mv| == c.D
  {
    forall t :: t in P ==>
      && 0 <= t < |c.ids|
      && Contents(c.At(s, t)) == Contents(c.orig[c.ids[t]])
      && (c.first[c.ids[t]] == t ==> c.At(s, t) == c.orig[c.ids[t]])
      && (t >= toId ==> c.first[c.ids[t]] == t)
      && (t < c.D && t != except ==> c.first[t] == -1 || mv[t])
  }

  /** Every source block still waiting to be moved is where it started. */
  ghost predicate Intact(c: Region, s: seq<Elem>, mv: seq<bool>, except: int)
    requires c.Valid(|s|) && |mv| == c.D
  {
    forall j :: 0 <= j < c.D && j != except && c.first[j] != -1 && !mv[j] ==> c.At(s, j) == c.orig[j]
  }

  /** No two elements of the filled slots share a string. */
  ghost predicate UniqueIn(c: Region, s: seq<Elem>, P: set<int>)
    requires c.Valid(|s|)
  {
    forall t, b, u, e ::
      (t in P && u in P && 0 <= t < c.M && 0 <= u < c.M && 0 <= b < c.B && 0 <= e < c.B &&
       (t != u || b != e) && Owns(c.At(s, t)[b]))
      ==> c.At(s, t)[b] != c.At(s, u)[e]
  }

  /** Filled slots that are not first destinations share no string with the source blocks. */
  ghost predicate DupsNew(c: Region, s: seq<Elem>, P: set<int>)
    requires c.Valid(|s|)
  {
    forall t, b, j, e ::
      (t in P && 0 <= t < |c.ids| && c.first[c.ids[t]] != t &&
       0 <= b < c.B && 0 <= j < c.D && 0 <= e < c.B && Owns(c.At(s, t)[b]))
      ==> c.At(s, t)[b] != c.orig[j][e]
  }

  /** Placing source block j at its first destination x keeps the state consistent. */
  lemma PlaceOriginal(c: Region, s: seq<Elem>, s': seq<Elem>, mv: seq<bool>, P: set<int>,
                      toId: int, ex: int, ex': int, x: int, j: int)
    requires c.Valid(|s|) && |s'| == |s|
    requires Inv(c, s, mv, P, toId, ex) && UniqueIn(c, s, P) && DupsNew(c, s, P) && c.OrigUnique()
    requires 0 <= j < c.D && c.first[j] == x && !mv[j] && x !in P && toId <= x
    requires x < c.D ==> c.first[x] == -1 || mv[x] || x == ex' || x == j
    requires ex' == ex || (ex == j && ex' == -1)
    requires c.At(s', x) == c.orig[j]
    requires forall t :: 0 <= t < c.M && t != x ==> c.At(s', t) == c.At(s, t)
    ensures Inv(c, s', mv[j := true], P + {x}, toId, ex')
    ensures UniqueIn(c, s', P + {x}) && DupsNew(c, s', P + {x})
  {
    PlaceOriginalInv(c, s, s', mv, P, toId, ex, ex', x, j);
    PlaceOriginalUnique(c, s, s', mv, P, toId, ex, x, j);
  }

  lemma PlaceOriginalInv(c: Region, s: seq<Elem>, s': seq<Elem>, mv: seq<bool>, P: set<int>,
                         toId: int, ex: int, ex': int, x: int, j: int)
    requires c.Valid(|s|) && |s'| == |s|
    requires Inv(c, s, mv, P, toId, ex)
    requires 0 <= j < c.D && c.first[j] == x && !mv[j] && x !in P && toId <= x
    requires x < c.D ==> c.first[x] == -1 || mv[x] || x == ex' || x == j
    requires ex' == ex || (ex == j && ex' == -1)
    requires c.At(s', x) == c.orig[j]
    requires forall t :: 0 <= t < c.M && t != x ==> c.At(s', t) == c.At(s, t)
    ensures Inv(c, s', mv[j := true], P + {x}, toId, ex')
  {
    assert c.ids[x] == j;
    PlaceOriginalPlaced(c, s, s', mv, P, toId, ex, ex', x, j);
    MovedFirst(c, mv, P, x, j);
    IntactPlace(c, s, s', mv, ex, ex', x, j);
  }

  /** The filled slots stay filled correctly, and x now holds its block. */
  lemma PlaceOriginalPlaced(c: Region, s: seq<Elem>, s': seq<Elem>, mv: seq<bool>, P: set<int>,
                            toId: int, ex: int, ex': int, x: int, j: int)
    requires c.Valid(|s|) && |s'| == |s| && |mv| == c.D && Placed(c, s, mv, P, toId, ex)
    requires 0 <= j < c.D && c.first[j] == x && x !in P && 0 <= toId <= x
    requires x < c.D ==> c.first[x] == -1 || mv[x] || x == ex' || x == j
    requires ex' == ex || (ex == j && ex' == -1)
    requires c.At(s', x) == c.orig[j]
    requires forall t :: 0 <= t < c.M && t != x ==> c.At(s', t) == c.At(s, t)
    ensures Placed(c, s', mv[j := true], P + {x}, toId, ex')
  {
    assert c.ids[x] == j;
  }

  /** Marking block j moved as its first destination x is filled keeps the flags consistent. */
  lemma MovedFirst(c: Region, mv: seq<bool>, P: set<int>, x: int, j: int)
    requires |c.first| == c.D == |mv| && FirstTable(c.first, c.ids, c.D) && MovedOk(c, mv, P)
    requires 0 <= j < c.D && c.first[j] == x && 0 <= x
    ensures MovedOk(c, mv[j := true], P + {x})
  {
    forall j' | 0 <= j' < c.D
      ensures mv[j := true][j'] <==> c.first[j'] != -1 && c.first[j'] in P + {x}
    {
      if c.first[j'] == x {
        assert c.ids[x] == j';
      }
    }
  }

  /** Placing block j at x leaves every other waiting block where it started. */
  lemma IntactPlace(c: Region, s: seq<Elem>, s': seq<Elem>, mv: seq<bool>, ex: int, ex': int, x: int, j: int)
    requires c.Valid(|s|) && |s'| == |s| && |mv| == c.D && Intact(c, s, mv, ex)
    requires 0 <= j < c.D && 0 <= x < c.M
    requires x < c.D ==> c.first[x] == -1 || mv[x] || x == ex' || x == j
    requires ex' == ex || (ex == j && ex' == -1)
    requires forall t :: 0 <= t < c.M && t != x ==> c.At(s', t) == c.At(s, t)
    ensures Intact(c, s', mv[j := true], ex')
  {
  }

  lemma PlaceOriginalUnique(c: Region, s: seq<Elem>, s': seq<Elem>, mv: seq<bool>, P: set<int>,
                            toId: int, ex: int, x: int, j: int)
    requires c.Valid(|s|) && |s'| == |s|
    requires Inv(c, s, mv, P, toId, ex) && UniqueIn(c, s, P) && DupsNew(c, s, P) && c.OrigUnique()
    requires 0 <= j < c.D && c.first[j] == x && 0 <= x && x !in P
    requires c.At(s', x) == c.orig[j]
    requires forall t :: 0 <= t < c.M && t != x ==> c.At(s', t) == c.At(s, t)
    ensures UniqueIn(c, s', P + {x}) && DupsNew(c, s', P + {x})
  {
    var P' := P + {x};
    assert c.ids[x] == j;
    forall t, b, u, e |
      t in P' && u in P' && 0 <= t < c.M && 0 <= u < c.M && 0 <= b < c.B && 0 <= e < c.B &&
      (t != u || b != e) && Owns(c.At(s', t)[b])
      ensures c.At(s', t)[b] != c.At(s', u)[e]
    {
      if t == x && u != x {
        OriginalApart(c, s, mv, P, toId, ex, j, b, u, e);
      } else if u == x && t != x {
        OriginalApart(c, s, mv, P, toId, ex, j, e, t, b);
      }
    }
  }

  /** An element of source block j differs from every element of a filled slot, when j is not yet placed. */
  lemma OriginalApart(c: Region, s: seq<Elem>, mv: seq<bool>, P: set<int>, toId: int, ex: int,
                      j: int, b: int, u: int, e: int)
    requires c.Valid(|s|) && c.OrigUnique() && Inv(c, s, mv, P, toId, ex) && DupsNew(c, s, P)
    requires 0 <= j < c.D && 0 <= b < c.B && 0 <= e < c.B && u in P && c.first[j] !in P
    ensures Owns(c.orig[j][b]) || Owns(c.At(s, u)[e]) ==> c.orig[j][b] != c.At(s, u)[e]
  {
    if c.first[c.ids[u]] == u {
      assert c.ids[u] != j;
    }
  }

  /** Filling slot toId with a copy of an already placed block keeps the state consistent. */
  lemma PlaceDup(c: Region, s: seq<Elem>, s': seq<Elem>, mv: seq<bool>, P: set<int>, toId: int)
    requires c.Valid(|s|) && |s'| == |s|
    requires Inv(c, s, mv, P, toId, -1) && UniqueIn(c, s, P) && DupsNew(c, s, P)
    requires 0 <= toId < |c.ids| && toId !in P && c.first[c.ids[toId]] != toId
    requires toId < c.D ==> c.first[toId] == -1 || mv[toId]
    requires Contents(c.At(s', toId)) == Contents(c.orig[c.ids[toId]])
    requires forall b, e ::
      (0 <= b < c.B && 0 <= e < c.B && b != e && Owns(c.At(s', toId)[b]))
      ==> c.At(s', toId)[b] != c.At(s', toId)[e]
    requires forall b, u, e ::
      (u in P && 0 <= u < c.M && 0 <= b < c.B && 0 <= e < c.B && Owns(c.At(s', toId)[b]))
      ==> c.At(s', toId)[b] != c.At(s, u)[e]
    requires forall b, j, e ::
      (0 <= b < c.B && 0 <= j < c.D && 0 <= e < c.B && Owns(c.At(s', toId)[b]))
      ==> c.At(s', toId)[b] != c.orig[j][e]
    requires forall t :: 0 <= t < c.M && t != toId ==> c.At(s', t) == c.At(s, t)
    ensures Inv(c, s', mv, P + {toId}, toId + 1, -1)
    ensures UniqueIn(c, s', P + {toId}) && DupsNew(c, s', P + {toId})
  {
    PlaceDupInv(c, s, s', mv, P, toId);
    PlaceDupUnique(c, s, s', P, toId);
  }

  lemma PlaceDupInv(c: Region, s: seq<Elem>, s': seq<Elem>, mv: seq<bool>, P: set<int>, toId: int)
    requires c.Valid(|s|) && |s'| == |s|
    requires Inv(c, s, mv, P, toId, -1)
    requires 0 <= toId < |c.ids| && toId !in P && c.first[c.ids[toId]] != toId
    requires toId < c.D ==> c.first[toId] == -1 || mv[toId]
    requires Contents(c.At(s', toId)) == Contents(c.orig[c.ids[toId]])
    requires forall t :: 0 <= t < c.M && t != toId ==> c.At(s', t) == c.At(s, t)
    ensures Inv(c, s', mv, P + {toId}, toId + 1, -1)
  {
    PlaceDupPlaced(c, s, s', mv, P, toId);
    MovedNotFirst(c, mv, P, toId);
    IntactFrame(c, s, s', mv, toId);
  }

  /** Filling a slot that is no block's first destination leaves the moved flags consistent. */
  lemma MovedNotFirst(c: Region, mv: seq<bool>, P: set<int>, x: int)
    requires |c.first| == c.D == |mv| && FirstTable(c.first, c.ids, c.D) && MovedOk(c, mv, P)
    requires 0 <= x < |c.ids| && c.first[c.ids[x]] != x
    ensures MovedOk(c, mv, P + {x})
  {
  }

  /** Overwriting a slot whose block is not waiting to be moved keeps the waiting blocks intact. */
  lemma IntactFrame(c: Region, s: seq<Elem>, s': seq<Elem>, mv: seq<bool>, x: int)
    requires c.Valid(|s|) && |s'| == |s| && |mv| == c.D && Intact(c, s, mv, -1)
    requires 0 <= x < c.D ==> c.first[x] == -1 || mv[x]
    requires forall t :: 0 <= t < c.M && t != x ==> c.At(s', t) == c.At(s, t)
    ensures Intact(c, s', mv, -1)
  {
  }

  lemma PlaceDupPlaced(c: Region, s: seq<Elem>, s': seq<Elem>, mv: seq<bool>, P: set<int>, toId: int)
    requires c.Valid(|s|) && |s'| == |s|
    requires Inv(c, s, mv, P, toId, -1)
    requires 0 <= toId < |c.ids| && c.first[c.ids[toId]] != toId
    requires toId < c.D ==> c.first[toId] == -1 || mv[toId]
    requires Contents(c.At(s', toId)) == Contents(c.orig[c.ids[toId]])
    requires forall t :: 0 <= t < c.M && t != toId ==> c.At(s', t) == c.At(s, t)
    ensures Placed(c, s', mv, P + {toId}, toId + 1, -1)
  {
    forall t | t in P + {toId}
      ensures 0 <= t < |c.ids| && Contents(c.At(s', t)) == Contents(c.orig[c.ids[t]])
      ensures c.first[c.ids[t]] == t ==> c.At(s', t) == c.orig[c.ids[t]]
      ensures t >= toId + 1 ==> c.first[c.ids[t]] == t
      ensures t < c.D ==> c.first[t] == -1 || mv[t]
    {
      if t != toId {
        assert c.At(s', t) == c.At(s, t);
      }
    }
  }

  lemma PlaceDupUnique(c: Region, s: seq<Elem>, s': seq<Elem>, P: set<int>, toId: int)
    requires c.Valid(|s|) && |s'| == |s|
    requires UniqueIn(c, s, P) && DupsNew(c, s, P)
    requires 0 <= toId < |c.ids| && toId !in P
    requires forall b, e ::
      (0 <= b < c.B && 0 <= e < c.B && b != e && Owns(c.At(s', toId)[b]))
      ==> c.At(s', toId)[b] != c.At(s', toId)[e]
    requires forall b, u, e ::
      (u in P && 0 <= u < c.M && 0 <= b < c.B && 0 <= e < c.B && Owns(c.At(s', toId)[b]))
      ==> c.At(s', toId)[b] != c.At(s, u)[e]
    requires forall b, j, e ::
      (0 <= b < c.B && 0 <= j < c.D && 0 <= e < c.B && Owns(c.At(s', toId)[b]))
      ==> c.At(s', toId)[b] != c.orig[j][e]
    requires forall t :: 0 <= t < c.M && t != toId ==> c.At(s', t) == c.At(s, t)
    ensures UniqueIn(c, s', P + {toId}) && DupsNew(c, s', P + {toId})
  {
    var P' := P + {toId};
    forall t, b, u, e |
      t in P' && u in P' && 0 <= t < c.M && 0 <= u < c.M && 0 <= b < c.B && 0 <= e < c.B &&
      (t != u || b != e) && Owns(c.At(s', t)[b])
      ensures c.At(s', t)[b] != c.At(s', u)[e]
    {
      if t == toId && u != toId {
        assert c.At(s', u) == c.At(s, u);
      } else if u == toId && t != toId {
        assert c.At(s', t) == c.At(s, t);
      }
    }
  }

  /** Once slot toId is filled, the state holds for the next destination. */
  lemma Advance(c: Region, s: seq<Elem>, mv: seq<bool>, P: set<int>, toId: int)
    requires c.Valid(|s|) && Inv(c, s, mv, P, toId, -1) && toId in P
    ensures Inv(c, s, mv, P, toId + 1, -1)
  {
    assert Placed(c, s, mv, P, toId + 1, -1);
  }

  /** A list of distinct values in [0, D) has at most D entries. */
  lemma {:induction false} DistinctBound(p: seq<int>, D: int)
    requires 0 <= D
    requires forall i :: 0 <= i < |p| ==> 0 <= p[i] < D
    requires forall i, i' :: 0 <= i < i' < |p| ==> p[i] != p[i']
    ensures |p| <= D
    decreases |p|
  {
    if |p| > 0 {
      var x := p[|p| - 1];
      var q := seq(|p| - 1, i requires 0 <= i < |p| - 1 => if p[i] > x then p[i] - 1 else p[i]);
      forall i, i' | 0 <= i < i' < |q|
        ensures q[i] != q[i']
      {
        assert p[i] != x && p[i'] != x;
      }
      forall i | 0 <= i < |q|
        ensures 0 <= q[i] < D - 1
      {
        assert p[i] != x;
      }
      DistinctBound(q, D - 1);
    }
  }

  /** A block still waiting to be moved has its first destination at or after toId. */
  lemma UnmovedAhead(c: Region, s: seq<Elem>, mv: seq<bool>, P: set<int>, toId: int, ex: int)
    requires c.Valid(|s|) && Inv(c, s, mv, P, toId, ex)
    ensures forall j :: 0 <= j < c.D && c.first[j] != -1 && !mv[j] ==> toId <= c.first[j]
  {
  }

  /**
   * A walk along first destinations from toId: every slot but the last holds a
   * block whose first destination is the next slot. The slots after toId are
   * distinct and lie ahead of toId; only a one-step walk may return to toId.
   */
  ghost predicate ChainPath(first: seq<int>, ids: seq<int>, D: int, path: seq<int>, toId: int)
  {
    |path| >= 2 && path[0] == toId && |first| == D &&
    (forall i :: 0 <= i < |path| - 1 ==> 0 <= path[i] < D && first[path[i]] == path[i + 1]) &&
    (forall i :: 1 <= i < |path| ==> toId <= path[i] < |ids|) &&
    (forall i :: 1 <= i < |path| - 1 ==> path[i] != toId) &&
    (path[|path| - 1] == toId ==> |path| == 2) &&
    (forall i, i' :: 0 <= i < i' < |path| && path[i'] != toId ==> path[i] != path[i'])
  }

  /**
   * Follows first destinations from toId while the block found there is still
   * waiting to be moved. The walk visits distinct slots, so it ends.
   */
  method ChainEnd(ids: seq<int>, D: int, moveToId: array<int>, moved: array<bool>, toId: int)
    returns (k: int, ghost path: seq<int>)
    requires FirstTable(moveToId[..], ids, D) && moved.Length == D
    requires 0 <= toId < D && moveToId[toId] != -1 && !moved[toId]
    requires forall j :: 0 <= j < D && moveToId[j] != -1 && !moved[j] ==> toId <= moveToId[j]
    ensures ChainPath(moveToId[..], ids, D, path, toId) && path[|path| - 1] == k
    ensures forall i :: 0 <= i < |path| - 1 ==> !moved[path[i]]
    ensures !(k < D && moveToId[k] != -1 && !moved[k] && moveToId[k] != toId)
  {
    ghost var first := moveToId[..];
    k := moveToId[toId];
    path := [toId, k];
    while k < D && moveToId[k] != -1 && !moved[k] && moveToId[k] != toId
      invariant ChainPath(first, ids, D, path, toId) && path[|path| - 1] == k
      invariant forall i :: 0 <= i < |path| - 1 ==> !moved[path[i]]
      decreases D + 1 - |path|
    {
      ChainExtend(first, ids, D, path, toId);
      k := moveToId[k];
      path := path + [k];
    }
  }

  /** One more step of the walk keeps it a chain, and a chain of unmoved blocks has at most D + 1 slots. */
  lemma ChainExtend(first: seq<int>, ids: seq<int>, D: int, path: seq<int>, toId: int)
    requires FirstTable(first, ids, D) && ChainPath(first, ids, D, path, toId)
    requires var k := path[|path| - 1]; k < D && first[k] != -1 && first[k] != toId && toId <= first[k]
    ensures |path| <= D
    ensures ChainPath(first, ids, D, path + [first[path[|path| - 1]]], toId)
  {
    var k := path[|path| - 1];
    var next := first[k];
    assert k != toId;
    DistinctBound(path, D);
    forall i | 1 <= i < |path|
      ensures path[i] != next
    {
      assert ids[path[i]] == path[i - 1];
    }
  }

  /**
   * Moves the block at slot toId out of the way before toId is filled: walks
   * the chain toId -> first[toId] -> ... until a slot whose block is no longer
   * needed, then shifts each block one step down the chain. When the chain
   * closes into a cycle back to toId, the last block is saved in `buffer`.
   */
  method MoveAway(a: array<Elem>, base: int, M: int, B: int, D: int, ids: seq<int>, moveToId: array<int>,
                  moved: array<bool>, buffer: array<Elem>, toId: int, ghost c: Region, ghost P: set<int>)
    returns (isCycle: bool, ghost P': set<int>)
    requires c == Region(base, M, B, D, ids, moveToId[..], c.orig) && c.Valid(a.Length) && c.OrigUnique()
    requires moved.Length == D && buffer.Length == B && buffer != a
    requires Inv(c, a[..], moved[..], P, toId, -1) && UniqueIn(c, a[..], P) && DupsNew(c, a[..], P)
    requires toId < |ids| && !(moveToId[ids[toId]] == toId && moved[ids[toId]])
    requires toId < D && moveToId[toId] != -1 && !moved[toId]
    modifies a, moved, buffer
    ensures isCycle ==> moveToId[ids[toId]] == toId && !moved[ids[toId]] && buffer[..] == c.orig[ids[toId]]
    ensures Inv(c, a[..], moved[..], P', toId, if isCycle then ids[toId] else -1)
    ensures UniqueIn(c, a[..], P') && DupsNew(c, a[..], P')
    ensures toId !in P' && P <= P'
    ensures moved[toId] || (isCycle && ids[toId] == toId)
    ensures forall t :: t in P ==> c.At(a[..], t) == old(c.At(a[..], t))
    ensures forall i :: 0 <= i < a.Length && !(base <= i < base + |ids| * B) ==> a[i] == old(a[i])
  {
    UnmovedAhead(c, a[..], moved[..], P, toId, -1);
    var k;
    ghost var path;
    k, path := ChainEnd(ids, D, moveToId, moved, toId);
    isCycle := k < D && moveToId[k] == toId;
    ghost var ex := -1;
    if isCycle {
      SaveSlot(a, base, M, B, k, buffer);
      ex := k;
    }
    P' := ShiftChain(a, base, M, B, D, ids, moveToId, moved, toId, k, c, P, path, ex);
  }

  /**
   * The state of the shift once the blocks of path[idx+1..] have moved one step
   * along the chain: s0 and P0 are the region and the filled slots before the
   * shift began.
   */
  ghost predicate Shifting(c: Region, s: seq<Elem>, mv: seq<bool>, P: set<int>, toId: int, ex: int,
                           path: seq<int>, idx: int, s0: seq<Elem>, P0: set<int>)
    requires c.Valid(|s|) && |s0| == |s|
  {
    && |mv| == c.D && ChainPath(c.first, c.ids, c.D, path, toId) && 0 <= idx < |path|
    && (path[|path| - 1] == toId ==> path[idx] == toId)
    && (forall i :: 0 <= i < idx ==> !mv[path[i]])
    && (idx < |path| - 1 ==> mv[path[idx]])
    && (idx == |path| - 1 && path[idx] < c.D ==> c.first[path[idx]] == -1 || mv[path[idx]] || path[idx] == ex)
    && (ex == -1 || ex == path[|path| - 1])
    && Inv(c, s, mv, P, toId, ex) && UniqueIn(c, s, P) && DupsNew(c, s, P)
    && toId !in P && P0 <= P
    && (forall t :: t in P0 ==> c.At(s, t) == c.At(s0, t))
    && (forall i :: 0 <= i < |s| && !(c.base <= i < c.base + |c.ids| * c.B) ==> s[i] == s0[i])
  }

  /** Shifts each block of the chain one step along it, from its end back to toId. */
  method ShiftChain(a: array<Elem>, base: int, M: int, B: int, D: int, ids: seq<int>, moveToId: array<int>,
                    moved: array<bool>, toId: int, k0: int, ghost c: Region, ghost P: set<int>,
                    ghost path: seq<int>, ghost ex: int)
    returns (ghost P': set<int>)
    requires c == Region(base, M, B, D, ids, moveToId[..], c.orig) && c.Valid(a.Length) && c.OrigUnique()
    requires moved.Length == D
    requires ChainPath(moveToId[..], ids, D, path, toId) && path[|path| - 1] == k0
    requires forall i :: 0 <= i < |path| - 1 ==> !moved[path[i]]
    requires ex == -1 || ex == k0
    requires k0 < D ==> moveToId[k0] == -1 || moved[k0] || k0 == ex
    requires Inv(c, a[..], moved[..], P, toId, ex) && UniqueIn(c, a[..], P) && DupsNew(c, a[..], P)
    requires toId !in P
    modifies a, moved
    ensures Inv(c, a[..], moved[..], P', toId, ex) && UniqueIn(c, a[..], P') && DupsNew(c, a[..], P')
    ensures toId !in P' && P <= P'
    ensures path[|path| - 1] != toId ==> moved[toId]
    ensures forall t :: t in P ==> c.At(a[..], t) == old(c.At(a[..], t))
    ensures forall i :: 0 <= i < a.Length && !(base <= i < base + |ids| * B) ==> a[i] == old(a[i])
  {
    var k := k0;
    ghost var idx := |path| - 1;
    ghost var s0 := a[..];
    P' := P;
    while k != toId
      invariant 0 <= idx < |path| && path[idx] == k
      invariant Shifting(c, a[..], moved[..], P', toId, ex, path, idx, s0, P)
      decreases idx
    {
      k := ShiftStep(a, base, M, B, D, ids, moveToId, moved, toId, k, c, P', path, idx, ex, s0, P);
      P' := P' + {path[idx]};
      idx := idx - 1;
    }
  }

  /** One step of the shift: the block of path[idx-1] moves to slot path[idx]. */
  method ShiftStep(a: array<Elem>, base: int, M: int, B: int, D: int, ids: seq<int>, moveToId: array<int>,
                   moved: array<bool>, toId: int, k: int, ghost c: Region, ghost P: set<int>,
                   ghost path: seq<int>, ghost idx: int, ghost ex: int, ghost s0: seq<Elem>, ghost P0: set<int>)
    returns (k': int)
    requires c == Region(base, M, B, D, ids, moveToId[..], c.orig) && c.Valid(a.Length) && c.OrigUnique()
    requires moved.Length == D && |s0| == a.Length
    requires Shifting(c, a[..], moved[..], P, toId, ex, path, idx, s0, P0) && path[idx] == k && k != toId
    modifies a, moved
    ensures 1 <= idx && k' == path[idx - 1]
    ensures Shifting(c, a[..], moved[..], P + {k}, toId, ex, path, idx - 1, s0, P0)
  {
    ghost var s1 := a[..];
    assert idx != 0;
    StepReady(c, s1, moved[..], P, toId, ex, path, idx);
    SlotFits(|ids|, B, k);
    CopySlot(a, base, M, B, k, ids[k]);
    ShiftOn(c, s1, a[..], moved[..], P, toId, ex, path, idx, s0, P0);
    k' := ids[k];
    moved[k'] := true;
  }

  /** Moving the block of path[idx-1] into slot path[idx] advances the shift by one step. */
  lemma ShiftOn(c: Region, s: seq<Elem>, s': seq<Elem>, mv: seq<bool>, P: set<int>, toId: int, ex: int,
                path: seq<int>, idx: int, s0: seq<Elem>, P0: set<int>)
    requires c.Valid(|s|) && |s'| == |s| && |s0| == |s| && c.OrigUnique()
    requires Shifting(c, s, mv, P, toId, ex, path, idx, s0, P0) && 1 <= idx && path[idx] != toId
    requires 0 <= path[idx - 1] < c.M && c.At(s', path[idx]) == c.At(s, path[idx - 1])
    requires forall t :: 0 <= t < c.M && t != path[idx] ==> c.At(s', t) == c.At(s, t)
    requires forall i :: 0 <= i < |s| && !(c.base <= i < c.base + |c.ids| * c.B) ==> s'[i] == s[i]
    ensures Shifting(c, s', mv[path[idx - 1] := true], P + {path[idx]}, toId, ex, path, idx - 1, s0, P0)
  {
    var k := path[idx];
    StepReady(c, s, mv, P, toId, ex, path, idx);
    PlaceOriginal(c, s, s', mv, P, toId, ex, ex, k, path[idx - 1]);
  }

  /** The facts one step of the shift needs: slot path[idx] is free and takes the block of path[idx-1]. */
  lemma StepReady(c: Region, s: seq<Elem>, mv: seq<bool>, P: set<int>, toId: int, ex: int, path: seq<int>, idx: int)
    requires c.Valid(|s|) && Inv(c, s, mv, P, toId, ex)
    requires ChainPath(c.first, c.ids, c.D, path, toId) && 1 <= idx < |path| && path[idx] != toId
    requires forall i :: 0 <= i < idx ==> !mv[path[i]]
    requires idx < |path| - 1 ==> mv[path[idx]]
    requires idx == |path| - 1 && path[idx] < c.D ==> c.first[path[idx]] == -1 || mv[path[idx]] || path[idx] == ex
    requires ex == -1 || ex == path[|path| - 1]
    ensures 0 <= path[idx - 1] < c.D && c.first[path[idx - 1]] == path[idx] && c.ids[path[idx]] == path[idx - 1]
    ensures !mv[path[idx - 1]] && path[idx] !in P && toId <= path[idx] < |c.ids| && path[idx] != path[idx - 1]
    ensures path[idx] < c.D ==> c.first[path[idx]] == -1 || mv[path[idx]] || path[idx] == ex
    ensures c.At(s, path[idx - 1]) == c.orig[path[idx - 1]]
  {
    var x, j := path[idx], path[idx - 1];
    assert c.ids[x] == j;
    if ex != -1 {
      assert path[|path| - 1] != toId;
      assert j != ex;
    }
  }


  /**
   * Fills destination slot toId (when it is not already filled): moves the
   * block there out of the way, then copies the source block in, from the
   * cycle buffer, from its first destination (a duplicate, with its strings
   * duplicated), or from where it started.
   */
  method FillSlot(a: array<Elem>, base: int, M: int, B: int, D: int, ids: seq<int>, moveToId: array<int>,
                  moved: array<bool>, buffer: array<Elem>, isString: bool, toId: int,
                  ghost c: Region, ghost P: set<int>)
    returns (ghost P': set<int>)
    requires c == Region(base, M, B, D, ids, moveToId[..], c.orig) && c.Valid(a.Length) && c.OrigUnique()
    requires moved.Length == D && buffer.Length == B && buffer != a
    requires !isString ==> forall j, b :: 0 <= j < D && 0 <= b < B ==> !Owns(c.orig[j][b])
    requires Inv(c, a[..], moved[..], P, toId, -1) && UniqueIn(c, a[..], P) && DupsNew(c, a[..], P)
    requires toId < |ids|
    modifies a, moved, buffer
    ensures Inv(c, a[..], moved[..], P', toId + 1, -1) && UniqueIn(c, a[..], P') && DupsNew(c, a[..], P')
    ensures P <= P'
    ensures forall t :: t in P ==> c.At(a[..], t) == old(c.At(a[..], t))
    ensures forall t, b :: t in P' && t !in P && moveToId[ids[t]] != t && 0 <= b < B && Owns(c.At(a[..], t)[b]) ==>
      fresh(c.At(a[..], t)[b].s)
    ensures forall i :: 0 <= i < a.Length && !(base <= i < base + |ids| * B) ==> a[i] == old(a[i])
  {
    if moveToId[ids[toId]] == toId && moved[ids[toId]] {
      Advance(c, a[..], moved[..], P, toId);
      P' := P;
    } else {
      var isCycle;
      ghost var P1;
      isCycle, P1 := Vacate(a, base, M, B, D, ids, moveToId, moved, buffer, toId, c, P);
      CopyIn(a, base, M, B, D, ids, moveToId, moved, buffer, isString, toId, isCycle, c, P1);
      P' := P1 + {toId};
      AheadAreFirst(c, a[..], moved[..], P, P', toId);
    }
  }

  /** Moves the block at slot toId out of the way when a later slot still needs it. */
  method Vacate(a: array<Elem>, base: int, M: int, B: int, D: int, ids: seq<int>, moveToId: array<int>,
                moved: array<bool>, buffer: array<Elem>, toId: int, ghost c: Region, ghost P: set<int>)
    returns (isCycle: bool, ghost P': set<int>)
    requires c == Region(base, M, B, D, ids, moveToId[..], c.orig) && c.Valid(a.Length) && c.OrigUnique()
    requires moved.Length == D && buffer.Length == B && buffer != a
    requires Inv(c, a[..], moved[..], P, toId, -1) && UniqueIn(c, a[..], P) && DupsNew(c, a[..], P)
    requires toId < |ids| && !(moveToId[ids[toId]] == toId && moved[ids[toId]])
    modifies a, moved, buffer
    ensures Inv(c, a[..], moved[..], P', toId, if isCycle then ids[toId] else -1)
    ensures UniqueIn(c, a[..], P') && DupsNew(c, a[..], P') && toId !in P' && P <= P'
    ensures isCycle ==> moveToId[ids[toId]] == toId && !moved[ids[toId]] && buffer[..] == c.orig[ids[toId]]
    ensures isCycle ==> (toId < D && moved[toId]) || ids[toId] == toId
    ensures !isCycle ==> toId < D ==> moveToId[toId] == -1 || moved[toId]
    ensures !isCycle ==> !(moveToId[ids[toId]] == toId && moved[ids[toId]])
    ensures forall t :: t in P ==> c.At(a[..], t) == old(c.At(a[..], t))
    ensures forall i :: 0 <= i < a.Length && !(base <= i < base + |ids| * B) ==> a[i] == old(a[i])
  {
    if toId < D && moveToId[toId] != -1 && !moved[toId] {
      isCycle, P' := MoveAway(a, base, M, B, D, ids, moveToId, moved, buffer, toId, c, P);
    } else {
      isCycle, P' := false, P;
      assert toId !in P;
    }
  }

  /**
   * The copy that fills slot toId once the block there is out of the way:
   * from the cycle buffer, from the source block's first destination (a
   * duplicate), or from where the source block started.
   */
  method CopyIn(a: array<Elem>, base: int, M: int, B: int, D: int, ids: seq<int>, moveToId: array<int>,
                moved: array<bool>, buffer: array<Elem>, isString: bool, toId: int, isCycle: bool,
                ghost c: Region, ghost P: set<int>)
    requires c == Region(base, M, B, D, ids, moveToId[..], c.orig) && c.Valid(a.Length) && c.OrigUnique()
    requires moved.Length == D && buffer.Length == B && buffer != a && 0 <= toId < |ids|
    requires !isString ==> forall j, b :: 0 <= j < D && 0 <= b < B ==> !Owns(c.orig[j][b])
    requires Inv(c, a[..], moved[..], P, toId, if isCycle then ids[toId] else -1)
    requires UniqueIn(c, a[..], P) && DupsNew(c, a[..], P) && toId !in P
    requires isCycle ==> moveToId[ids[toId]] == toId && !moved[ids[toId]] && buffer[..] == c.orig[ids[toId]]
    requires isCycle ==> (toId < D && moved[toId]) || ids[toId] == toId
    requires !isCycle ==> toId < D ==> moveToId[toId] == -1 || moved[toId]
    requires !isCycle ==> !(moveToId[ids[toId]] == toId && moved[ids[toId]])
    modifies a, moved
    ensures Inv(c, a[..], moved[..], P + {toId}, toId + 1, -1)
    ensures UniqueIn(c, a[..], P + {toId}) && DupsNew(c, a[..], P + {toId})
    ensures forall t :: t in P ==> c.At(a[..], t) == old(c.At(a[..], t))
    ensures forall b :: 0 <= b < B && moveToId[ids[toId]] != toId && Owns(c.At(a[..], toId)[b]) ==>
      fresh(c.At(a[..], toId)[b].s)
    ensures forall i :: 0 <= i < a.Length && !(base <= i < base + |ids| * B) ==> a[i] == old(a[i])
  {
    SlotFits(|ids|, B, toId);
    if isCycle {
      CopyFromBuffer(a, base, M, B, D, ids, moveToId, moved, buffer, toId, c, P);
    } else if moved[ids[toId]] {
      CopyDuplicate(a, base, M, B, D, ids, moveToId, isString, toId, c, P, moved[..]);
    } else {
      CopyOriginal(a, base, M, B, D, ids, moveToId, moved, toId, c, P);
    }
  }

  /** The slots filled beyond the ones below toId, other than toId itself, are first destinations. */
  lemma AheadAreFirst(c: Region, s: seq<Elem>, mv: seq<bool>, P: set<int>, P': set<int>, toId: int)
    requires c.Valid(|s|) && Inv(c, s, mv, P', toId + 1, -1) && forall t :: 0 <= t < toId ==> t in P
    ensures forall t :: t in P' && t !in P && t != toId ==> c.first[c.ids[t]] == t
  {
  }

  /** A source block not yet moved has the slot being filled as its first destination. */
  lemma UnmovedIsFirst(c: Region, s: seq<Elem>, mv: seq<bool>, P: set<int>, toId: int)
    requires c.Valid(|s|) && Inv(c, s, mv, P, toId, -1) && toId < |c.ids| && !mv[c.ids[toId]]
    ensures c.first[c.ids[toId]] == toId
  {
    FirstOfUse(c.first, c.ids, c.D, toId);
  }

  /** Closes a cycle: slot toId receives the block saved in the buffer. */
  method CopyFromBuffer(a: array<Elem>, base: int, M: int, B: int, D: int, ids: seq<int>, moveToId: array<int>,
                        moved: array<bool>, buffer: array<Elem>, toId: int, ghost c: Region, ghost P: set<int>)
    requires c == Region(base, M, B, D, ids, moveToId[..], c.orig) && c.Valid(a.Length) && c.OrigUnique()
    requires moved.Length == D && buffer.Length == B && buffer != a && 0 <= toId < |ids|
    requires Inv(c, a[..], moved[..], P, toId, ids[toId]) && UniqueIn(c, a[..], P) && DupsNew(c, a[..], P)
    requires moveToId[ids[toId]] == toId && !moved[ids[toId]] && buffer[..] == c.orig[ids[toId]]
    requires toId !in P && ((toId < D && moved[toId]) || ids[toId] == toId)
    modifies a, moved
    ensures Inv(c, a[..], moved[..], P + {toId}, toId + 1, -1)
    ensures UniqueIn(c, a[..], P + {toId}) && DupsNew(c, a[..], P + {toId})
    ensures forall t :: 0 <= t < M && t != toId ==> c.At(a[..], t) == old(c.At(a[..], t))
    ensures forall i :: 0 <= i < a.Length && !(base + toId * B <= i < base + toId * B + B) ==> a[i] == old(a[i])
  {
    var from := ids[toId];
    ghost var s1, mv1 := a[..], moved[..];
    RestoreSlot(a, base, M, B, toId, buffer);
    moved[from] := true;
    PlaceOriginal(c, s1, a[..], mv1, P, toId, from, -1, toId, from);
    Advance(c, a[..], moved[..], P + {toId}, toId);
  }

  /** Slot toId receives its source block from where that block started. */
  method CopyOriginal(a: array<Elem>, base: int, M: int, B: int, D: int, ids: seq<int>, moveToId: array<int>,
                      moved: array<bool>, toId: int, ghost c: Region, ghost P: set<int>)
    requires c == Region(base, M, B, D, ids, moveToId[..], c.orig) && c.Valid(a.Length) && c.OrigUnique()
    requires moved.Length == D && 0 <= toId < |ids|
    requires Inv(c, a[..], moved[..], P, toId, -1) && UniqueIn(c, a[..], P) && DupsNew(c, a[..], P)
    requires toId !in P && !moved[ids[toId]]
    requires toId < D ==> moveToId[toId] == -1 || moved[toId]
    modifies a, moved
    ensures Inv(c, a[..], moved[..], P + {toId}, toId + 1, -1)
    ensures UniqueIn(c, a[..], P + {toId}) && DupsNew(c, a[..], P + {toId})
    ensures forall t :: 0 <= t < M && t != toId ==> c.At(a[..], t) == old(c.At(a[..], t))
    ensures forall i :: 0 <= i < a.Length && !(base + toId * B <= i < base + toId * B + B) ==> a[i] == old(a[i])
    ensures moveToId[ids[toId]] == toId
  {
    var from := ids[toId];
    ghost var s1, mv1 := a[..], moved[..];
    UnmovedIsFirst(c, s1, mv1, P, toId);
    UnmovedAhead(c, s1, mv1, P, toId, -1);
    CopySlot(a, base, M, B, toId, from);
    moved[from] := true;
    PlaceOriginal(c, s1, a[..], mv1, P, toId, -1, -1, toId, from);
    Advance(c, a[..], moved[..], P + {toId}, toId);
  }

  /**
   * Fills slot toId with a copy of the block already placed at the first
   * destination of its source; for strings every element is duplicated.
   */
  method CopyDuplicate(a: array<Elem>, base: int, M: int, B: int, D: int, ids: seq<int>, moveToId: array<int>,
                       isString: bool, toId: int, ghost c: Region, ghost P: set<int>, ghost mv: seq<bool>)
    requires c == Region(base, M, B, D, ids, moveToId[..], c.orig) && c.Valid(a.Length)
    requires !isString ==> forall j, b :: 0 <= j < D && 0 <= b < B ==> !Owns(c.orig[j][b])
    requires Inv(c, a[..], mv, P, toId, -1) && UniqueIn(c, a[..], P) && DupsNew(c, a[..], P)
    requires 0 <= toId < |ids| && toId !in P && moveToId[ids[toId]] != toId && mv[ids[toId]]
    requires toId < D ==> moveToId[toId] == -1 || mv[toId]
    modifies a
    ensures Inv(c, a[..], mv, P + {toId}, toId + 1, -1)
    ensures UniqueIn(c, a[..], P + {toId}) && DupsNew(c, a[..], P + {toId})
    ensures forall t :: 0 <= t < M && t != toId ==> c.At(a[..], t) == old(c.At(a[..], t))
    ensures forall b :: 0 <= b < B && Owns(c.At(a[..], toId)[b]) ==> fresh(c.At(a[..], toId)[b].s)
    ensures forall i :: 0 <= i < a.Length && !(base + toId * B <= i < base + toId * B + B) ==> a[i] == old(a[i])
  {
    var src := moveToId[ids[toId]];
    ghost var s1 := a[..];
    assert src in P && c.ids[src] == ids[toId];
    assert c.At(s1, src) == c.orig[ids[toId]];
    CopySlot(a, base, M, B, toId, src);
    if isString {
      DupSlot(a, base, M, B, toId);
    }
    ghost var s2 := a[..];
    if isString {
      forall b, u, e | u in P && 0 <= u < M && 0 <= b < B && 0 <= e < B && Owns(c.At(s2, toId)[b])
        ensures c.At(s2, toId)[b] != c.At(s1, u)[e]
      {
        SlotIndex(s1, base, M, B, u, e);
        assert old(allocated(a[base + u * B + e]));
      }
    } else {
      assert c.At(s2, toId) == c.orig[ids[toId]];
    }
    PlaceDup(c, s1, s2, mv, P, toId);
  }

  /** Before any slot is filled, every source block is where it started. */
  lemma InitialInv(c: Region, s: seq<Elem>, mv: seq<bool>)
    requires c.Valid(|s|) && |mv| == c.D && (forall j :: 0 <= j < c.D ==> !mv[j])
    requires forall j :: 0 <= j < c.D ==> c.At(s, j) == c.orig[j]
    ensures Inv(c, s, mv, {}, 0, -1) && UniqueIn(c, s, {}) && DupsNew(c, s, {})
  {
    assert Intact(c, s, mv, -1);
  }

  /**
   * Reorders the blocks of one group in place: afterwards slot t (t < |ids|)
   * holds the contents of source block ids[t]. The first destination of each
   * source block receives that very block (the same strings); every other
   * destination receives fresh copies of its strings; no two elements of the
   * result share a string. Nothing outside the first |ids| slots changes.
   */
  method ReorderBlocks(a: array<Elem>, base: int, M: int, B: int, D: int, ids: seq<int>, moveToId: array<int>,
                       moved: array<bool>, buffer: array<Elem>, isString: bool, ghost c: Region)
    requires c == Region(base, M, B, D, ids, moveToId[..], c.orig) && c.Valid(a.Length) && c.OrigUnique()
    requires moved.Length == D && buffer.Length == B && buffer != a
    requires forall j :: 0 <= j < D ==> c.At(a[..], j) == c.orig[j]
    requires !isString ==> forall j, b :: 0 <= j < D && 0 <= b < B ==> !Owns(c.orig[j][b])
    modifies a, moved, buffer
    ensures forall t :: 0 <= t < |ids| ==> Contents(c.At(a[..], t)) == Contents(c.orig[ids[t]])
    ensures forall t :: 0 <= t < |ids| && moveToId[ids[t]] == t ==> c.At(a[..], t) == c.orig[ids[t]]
    ensures forall t, b ::
      (0 <= t < |ids| && moveToId[ids[t]] != t && 0 <= b < B && Owns(c.At(a[..], t)[b]))
      ==> fresh(c.At(a[..], t)[b].s)
    ensures forall t, b, u, e ::
      (0 <= t < |ids| && 0 <= u < |ids| && 0 <= b < B && 0 <= e < B && (t != u || b != e) && Owns(c.At(a[..], t)[b]))
      ==> c.At(a[..], t)[b] != c.At(a[..], u)[e]
    ensures forall i :: 0 <= i < a.Length && !(base <= i < base + |ids| * B) ==> a[i] == old(a[i])
  {
    ClearMoved(moved);
    ghost var P: set<int> := {};
    InitialInv(c, a[..], moved[..]);
    var toId := 0;
    while toId < |ids|
      invariant Inv(c, a[..], moved[..], P, toId, -1) && UniqueIn(c, a[..], P) && DupsNew(c, a[..], P)
      invariant forall t, b ::
        (t in P && 0 <= t < |ids| && moveToId[ids[t]] != t && 0 <= b < B && Owns(c.At(a[..], t)[b]))
        ==> fresh(c.At(a[..], t)[b].s)
      invariant forall i :: 0 <= i < a.Length && !(base <= i < base + |ids| * B) ==> a[i] == old(a[i])
    {
      P := FillSlot(a, base, M, B, D, ids, moveToId, moved, buffer, isString, toId, c, P);
      toId := toId + 1;
    }
    FinalState(c, a[..], moved[..], P);
  }

  /** memset of the `moved` flags to 0. */
  method ClearMoved(moved: array<bool>)
    modifies moved
    ensures forall i :: 0 <= i < moved.Length ==> !moved[i]
  {
    var j := 0;
    while j < moved.Length
      invariant 0 <= j <= moved.Length
      invariant forall i :: 0 <= i < j ==> !moved[i]
    {
      moved[j] := false;
      j := j + 1;
    }
  }

  /** Once every destination is filled, each holds its source contents and no string is shared. */
  lemma FinalState(c: Region, s: seq<Elem>, mv: seq<bool>, P: set<int>)
    requires c.Valid(|s|) && Inv(c, s, mv, P, |c.ids|, -1) && UniqueIn(c, s, P)
    ensures forall t :: 0 <= t < |c.ids| ==> t in P
    ensures forall t :: 0 <= t < |c.ids| ==> Contents(c.At(s, t)) == Contents(c.orig[c.ids[t]])
    ensures forall t :: 0 <= t < |c.ids| && c.first[c.ids[t]] == t ==> c.At(s, t) == c.orig[c.ids[t]]
    ensures forall t, b, u, e ::
      (0 <= t < |c.ids| && 0 <= u < |c.ids| && 0 <= b < c.B && 0 <= e < c.B && (t != u || b != e) &&
       Owns(c.At(s, t)[b]))
      ==> c.At(s, t)[b] != c.At(s, u)[e]
  {
  }
}
