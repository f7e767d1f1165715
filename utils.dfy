/**
 * The array and string utilities of HARP: the valid range of a data type,
 * element counts, per-axis inversion and axis transposition of flat
 * buffers, the fill passes, fixed-width packing of strings and the two path
 * helpers.
 */
module Utils {
  import opened Wrappers
  import opened HarpTypes
  import opened Layout
  import opened Blocks

  /** The smallest valid value of a numeric data type: the type's minimum, or minus infinity. */
  function ValidMinFor(t: DataType): (e: Elem)
    requires t != String
    ensures Fits(t, e)
    ensures t.IsInteger() ==> forall v :: ValueFits(t, IntValue(v)) ==> e.i <= v
    ensures t.IsFloating() ==> e == FloatElem(MinusInf)
  {
    match t
    case Int8 => IntElem(-128)
    case Int16 => IntElem(-32768)
    case Int32 => IntElem(-2147483647 - 1)
    case Float | Double => FloatElem(MinusInf)
  }

  /** The largest valid value of a numeric data type: the type's maximum, or plus infinity. */
  function ValidMaxFor(t: DataType): (e: Elem)
    requires t != String
    ensures Fits(t, e)
    ensures t.IsInteger() ==> forall v :: ValueFits(t, IntValue(v)) ==> v <= e.i
    ensures t.IsFloating() ==> e == FloatElem(PlusInf)
  {
    match t
    case Int8 => IntElem(127)
    case Int16 => IntElem(32767)
    case Int32 => IntElem(2147483647)
    case Float | Double => FloatElem(PlusInf)
  }

  /**
   * harp_get_num_elements: the product of the first n lengths, 1 when there
   * are no dimensions; positive when every length is, 0 when one length is 0.
   */
  method GetNumElements(n: int, dims: seq<int>) returns (p: int)
    requires 0 <= n <= |dims|
    ensures p == Product(dims[..n])
    ensures n == 0 ==> p == 1
    ensures (forall i :: 0 <= i < n ==> dims[i] > 0) ==> p > 0
    ensures (exists i :: 0 <= i < n && dims[i] == 0) ==> p == 0
  {
    p := 1;
    var i := 0;
    while i < n
      invariant 0 <= i <= n && p == Product(dims[..i])
    {
      assert dims[..i + 1][..i] == dims[..i];
      p := p * dims[i];
      i := i + 1;
    }
    if forall i :: 0 <= i < n ==> dims[i] > 0 {
      ProductPositive(dims[..n]);
    }
    if exists i :: 0 <= i < n && dims[i] == 0 {
      var k :| 0 <= k < n && dims[k] == 0;
      ProductHasZero(dims[..n], k);
    }
  }

  /** The product of the lengths dims[lo..hi], multiplied out as the library's loops do. */
  method MultiplyLengths(dims: seq<int>, lo: int, hi: int) returns (p: int)
    requires 0 <= lo <= hi <= |dims|
    ensures p == Product(dims[lo..hi])
  {
    p := 1;
    var i := lo;
    while i < hi
      invariant lo <= i <= hi && p == Product(dims[lo..i])
    {
      assert dims[lo..i + 1][..i - lo] == dims[lo..i];
      p := p * dims[i];
      i := i + 1;
    }
  }

  /** A zero length makes the product zero. */
  lemma {:induction false} ProductHasZero(dims: seq<int>, k: int)
    requires 0 <= k < |dims| && dims[k] == 0
    ensures Product(dims) == 0
    decreases |dims|
  {
    if k < |dims| - 1 {
      ProductHasZero(dims[..|dims| - 1], k);
    }
  }

  /** The slot order that reverses an axis of length D. */
  function Reversal(D: nat): (r: seq<int>)
    ensures |r| == D && IdsIn(r, D)
    ensures forall t :: 0 <= t < D ==> r[t] == D - 1 - t
  {
    seq(D, t => D - 1 - t)
  }

  /** Reversing an axis twice gives the buffer back. */
  lemma InvertTwice(s: seq<Elem>, G: nat, D: nat, B: nat)
    requires |s| == G * D * B
    ensures Gather(Gather(s, G, D, B, Reversal(D)), G, D, B, Reversal(D)) == s
  {
    GatherCompose(s, G, D, B, Reversal(D), Reversal(D));
    assert Compose(Reversal(D), Reversal(D)) == Iota(D);
    GatherIdentity(s, G, D, B);
  }

  /** Slot t of group h is slot h*D + t of the buffer read as G*D slots. */
  lemma GroupSlotIn(G: int, D: int, h: int, t: int)
    requires 0 <= h < G && 0 <= t < D
    ensures 0 <= h * D + t < G * D
  {
    MulLe(h + 1, G, D);
  }

  /** Distinct (group, slot) pairs are distinct slots of the buffer. */
  lemma GroupSlotApart(D: int, h: int, t: int, g: int, j: int)
    requires 0 <= h && 0 <= g && 0 <= t < D && 0 <= j < D && (h != g || t != j)
    ensures h * D + t != g * D + j
  {
    if h < g {
      MulLe(h + 1, g, D);
    } else if g < h {
      MulLe(g + 1, h, D);
    }
  }

  /** Slot t of group h of a buffer of G groups of D slots of B elements. */
  ghost function GroupSlot(s: seq<Elem>, G: nat, D: nat, B: nat, h: int, t: int): seq<Elem>
    requires 0 <= h < G && 0 <= t < D && |s| == G * D * B
  {
    GroupSlotIn(G, D, h, t);
    Slot(s, 0, G * D, B, h * D + t)
  }

  /** Where slot t of a group comes from once the first j slot pairs are swapped. */
  function Mirror(D: int, j: int, t: int): int
  {
    if t < j || t >= D - j then D - 1 - t else t
  }

  /** The block swap of harp_array_invert: slots x and y trade places through a block-sized buffer. */
  method SwapSlots(a: array<Elem>, M: int, B: int, x: int, y: int, buffer: array<Elem>)
    requires 0 <= B && M * B == a.Length && 0 <= x < M && 0 <= y < M && x != y
    requires buffer.Length == B && buffer != a
    modifies a, buffer
    ensures Slot(a[..], 0, M, B, x) == old(Slot(a[..], 0, M, B, y))
    ensures Slot(a[..], 0, M, B, y) == old(Slot(a[..], 0, M, B, x))
    ensures forall q :: 0 <= q < M && q != x && q != y ==> Slot(a[..], 0, M, B, q) == old(Slot(a[..], 0, M, B, q))
  {
    SaveSlot(a, 0, M, B, x, buffer);
    CopySlot(a, 0, M, B, x, y);
    RestoreSlot(a, 0, M, B, y, buffer);
  }

  /** The swap loop of harp_array_invert over one group: slot j trades places with slot D-1-j, for j below D/2. */
  method InvertGroup(a: array<Elem>, G: nat, D: nat, B: nat, g: int, buffer: array<Elem>)
    requires a.Length == G * D * B && 0 <= g < G && buffer.Length == B && buffer != a
    modifies a, buffer
    ensures Swapped(a[..], old(a[..]), G, D, B, g, D / 2)
  {
    ghost var s1 := a[..];
    var j := 0;
    while j < D / 2
      invariant 0 <= j <= D / 2 && Swapped(a[..], s1, G, D, B, g, j)
    {
      SwapPair(a, G, D, B, g, j, buffer, s1);
      j := j + 1;
    }
  }

  /** Slots j and D-1-j of group g trade places. */
  method SwapPair(a: array<Elem>, G: nat, D: nat, B: nat, g: int, j: int, buffer: array<Elem>, ghost s1: seq<Elem>)
    requires a.Length == G * D * B == |s1| && 0 <= g < G && 0 <= j < D / 2 && buffer.Length == B && buffer != a
    requires Swapped(a[..], s1, G, D, B, g, j)
    modifies a, buffer
    ensures Swapped(a[..], s1, G, D, B, g, j + 1)
  {
    ghost var before := a[..];
    GroupSlotIn(G, D, g, j);
    GroupSlotIn(G, D, g, D - 1 - j);
    GroupSlotApart(D, g, j, g, D - 1 - j);
    SwapSlots(a, G * D, B, g * D + j, g * D + D - 1 - j, buffer);
    SwapAdvance(before, a[..], s1, G, D, B, g, j);
  }

  /** A swap of slots j and D-1-j of group g, restated for every (group, slot) pair. */
  lemma SwapFrame(before: seq<Elem>, after: seq<Elem>, G: nat, D: nat, B: nat, g: int, j: int)
    requires |before| == |after| == G * D * B && 0 <= g < G && 0 <= j < D / 2
    requires 0 <= g * D + j < G * D && 0 <= g * D + D - 1 - j < G * D
    requires Slot(after, 0, G * D, B, g * D + j) == Slot(before, 0, G * D, B, g * D + D - 1 - j)
    requires Slot(after, 0, G * D, B, g * D + D - 1 - j) == Slot(before, 0, G * D, B, g * D + j)
    requires forall q :: 0 <= q < G * D && q != g * D + j && q != g * D + D - 1 - j ==>
      Slot(after, 0, G * D, B, q) == Slot(before, 0, G * D, B, q)
    ensures GroupSlot(after, G, D, B, g, j) == GroupSlot(before, G, D, B, g, D - 1 - j)
    ensures GroupSlot(after, G, D, B, g, D - 1 - j) == GroupSlot(before, G, D, B, g, j)
    ensures forall h, t :: 0 <= h < G && 0 <= t < D && (h != g || (t != j && t != D - 1 - j)) ==>
      GroupSlot(after, G, D, B, h, t) == GroupSlot(before, G, D, B, h, t)
  {
    forall h, t | 0 <= h < G && 0 <= t < D && (h != g || (t != j && t != D - 1 - j))
      ensures GroupSlot(after, G, D, B, h, t) == GroupSlot(before, G, D, B, h, t)
    {
      GroupSlotIn(G, D, h, t);
      GroupSlotApart(D, h, t, g, j);
      GroupSlotApart(D, h, t, g, D - 1 - j);
    }
  }

  /** The swap loop's state for group g after j swaps, against the group's state s1 before the loop. */
  ghost predicate Swapped(s: seq<Elem>, s1: seq<Elem>, G: nat, D: nat, B: nat, g: int, j: int)
    requires |s| == |s1| == G * D * B && 0 <= g < G
  {
    (forall h, t :: 0 <= h < G && h != g && 0 <= t < D ==> GroupSlot(s, G, D, B, h, t) == GroupSlot(s1, G, D, B, h, t)) &&
    (forall t :: 0 <= t < D ==> GroupSlot(s, G, D, B, g, t) == GroupSlot(s1, G, D, B, g, Mirror(D, j, t)))
  }

  /** One swap advances the loop state by one pair. */
  lemma SwapStep(before: seq<Elem>, after: seq<Elem>, s1: seq<Elem>, G: nat, D: nat, B: nat, g: int, j: int)
    requires |before| == |after| == |s1| == G * D * B && 0 <= g < G && 0 <= j < D / 2
    requires Swapped(before, s1, G, D, B, g, j)
    requires GroupSlot(after, G, D, B, g, j) == GroupSlot(before, G, D, B, g, D - 1 - j)
    requires GroupSlot(after, G, D, B, g, D - 1 - j) == GroupSlot(before, G, D, B, g, j)
    requires forall h, t :: 0 <= h < G && 0 <= t < D && (h != g || (t != j && t != D - 1 - j)) ==>
      GroupSlot(after, G, D, B, h, t) == GroupSlot(before, G, D, B, h, t)
    ensures Swapped(after, s1, G, D, B, g, j + 1)
  {
    assert Mirror(D, j, D - 1 - j) == D - 1 - j && Mirror(D, j, j) == j;
  }

  /** The slot-level outcome of one swap advances the loop state by one pair. */
  lemma SwapAdvance(before: seq<Elem>, after: seq<Elem>, s1: seq<Elem>, G: nat, D: nat, B: nat, g: int, j: int)
    requires |before| == |after| == |s1| == G * D * B && 0 <= g < G && 0 <= j < D / 2
    requires 0 <= g * D + j < G * D && 0 <= g * D + D - 1 - j < G * D
    requires Swapped(before, s1, G, D, B, g, j)
    requires Slot(after, 0, G * D, B, g * D + j) == Slot(before, 0, G * D, B, g * D + D - 1 - j)
    requires Slot(after, 0, G * D, B, g * D + D - 1 - j) == Slot(before, 0, G * D, B, g * D + j)
    requires forall q :: 0 <= q < G * D && q != g * D + j && q != g * D + D - 1 - j ==>
      Slot(after, 0, G * D, B, q) == Slot(before, 0, G * D, B, q)
    ensures Swapped(after, s1, G, D, B, g, j + 1)
  {
    SwapFrame(before, after, G, D, B, g, j);
    SwapStep(before, after, s1, G, D, B, g, j);
  }

  /**
   * The swap loops of harp_array_invert on a buffer of G groups of D slots of
   * B elements: in every group slot j trades places with slot D-1-j, for j below D/2.
   */
  method InvertData(a: array<Elem>, G: nat, D: nat, B: nat)
    requires a.Length == G * D * B
    modifies a
    ensures a[..] == Gather(old(a[..]), G, D, B, Reversal(D))
  {
    ghost var s0 := a[..];
    var buffer := new Elem[B](_ => IntElem(0));
    var g := 0;
    while g < G
      invariant 0 <= g <= G
      invariant forall h, t :: 0 <= h < g && 0 <= t < D ==> GroupSlot(a[..], G, D, B, h, t) == GroupSlot(s0, G, D, B, h, D - 1 - t)
      invariant forall h, t :: g <= h < G && 0 <= t < D ==> GroupSlot(a[..], G, D, B, h, t) == GroupSlot(s0, G, D, B, h, t)
    {
      ghost var before := a[..];
      InvertGroup(a, G, D, B, g, buffer);
      GroupDone(before, a[..], s0, G, D, B, g);
      g := g + 1;
    }
    InvertedSlots(a[..], s0, G, D, B);
  }

  /** Once group g is reversed, one more group of the buffer is done. */
  lemma GroupDone(before: seq<Elem>, after: seq<Elem>, s0: seq<Elem>, G: nat, D: nat, B: nat, g: int)
    requires |before| == |after| == |s0| == G * D * B && 0 <= g < G
    requires forall h, t :: 0 <= h < g && 0 <= t < D ==> GroupSlot(before, G, D, B, h, t) == GroupSlot(s0, G, D, B, h, D - 1 - t)
    requires forall h, t :: g <= h < G && 0 <= t < D ==> GroupSlot(before, G, D, B, h, t) == GroupSlot(s0, G, D, B, h, t)
    requires Swapped(after, before, G, D, B, g, D / 2)
    ensures forall h, t :: 0 <= h < g + 1 && 0 <= t < D ==> GroupSlot(after, G, D, B, h, t) == GroupSlot(s0, G, D, B, h, D - 1 - t)
    ensures forall h, t :: g + 1 <= h < G && 0 <= t < D ==> GroupSlot(after, G, D, B, h, t) == GroupSlot(s0, G, D, B, h, t)
  {
    forall t | 0 <= t < D
      ensures GroupSlot(after, G, D, B, g, t) == GroupSlot(s0, G, D, B, g, D - 1 - t)
    {
      assert GroupSlot(after, G, D, B, g, t) == GroupSlot(before, G, D, B, g, Mirror(D, D / 2, t));
    }
  }

  /** Slot-level reversal in every group is the gather by Reversal(D). */
  lemma InvertedSlots(s: seq<Elem>, s0: seq<Elem>, G: nat, D: nat, B: nat)
    requires |s| == |s0| == G * D * B
    requires forall h, t :: 0 <= h < G && 0 <= t < D ==> GroupSlot(s, G, D, B, h, t) == GroupSlot(s0, G, D, B, h, D - 1 - t)
    ensures s == Gather(s0, G, D, B, Reversal(D))
  {
    forall h, t, b | 0 <= h < G && 0 <= t < D && 0 <= b < B
      ensures s[Pos(G, D, B, h, t, b)] == s0[Pos(G, D, B, h, D - 1 - t, b)]
    {
      GroupSlotIn(G, D, h, t);
      GroupSlotIn(G, D, h, D - 1 - t);
      SlotIndex(s, 0, G * D, B, h * D + t, b);
      SlotIndex(s0, 0, G * D, B, h * D + D - 1 - t, b);
      assert GroupSlot(s, G, D, B, h, t) == GroupSlot(s0, G, D, B, h, D - 1 - t);
    }
    EqualByPos(s, Gather(s0, G, D, B, Reversal(D)), G, D, B);
  }

  /**
   * harp_array_invert: reverses axis k of an array of the given shape, in
   * place, in every combination of the other axes.
   */
  method ArrayInvert(k: int, n: int, dims: seq<int>, a: array<Elem>)
    requires 0 <= k < n <= |dims| && a.Length == Product(dims[..n])
    requires forall i :: 0 <= i < n ==> 0 <= dims[i]
    modifies a
    ensures var G, D, B := Product(dims[..k]), dims[k], Product(dims[k + 1..n]);
      G >= 0 && B >= 0 && a.Length == G * D * B && a[..] == Gather(old(a[..]), G, D, B, Reversal(D))
  {
    var G := MultiplyLengths(dims, 0, k);
    var D := dims[k];
    var B := MultiplyLengths(dims, k + 1, n);
    assert dims[0..k] == dims[..k];
    ProductSplit(dims[..n], k);
    assert dims[..n][..k] == dims[..k] && dims[..n][k + 1..] == dims[k + 1..n];
    ProductNonNegative(dims[..k]);
    ProductNonNegative(dims[k + 1..n]);
    if D <= 1 {
      ghost var s0 := a[..];
      if D == 1 {
        assert Reversal(D) == Iota(D);
        GatherIdentity(s0, G, D, B);
      } else {
        assert G * D * B == 0;
      }
      return;
    }
    InvertData(a, G, D, B);
  }

  /** The length of the longest non-NULL string, 0 when there is none. */
  function MaxLength(strings: seq<CString?>): (m: int)
    ensures m >= 0
    ensures forall i :: 0 <= i < |strings| && strings[i] != null ==> |strings[i].text| <= m
    ensures m == 0 || exists i :: 0 <= i < |strings| && strings[i] != null && |strings[i].text| == m
  {
    if |strings| == 0 then 0
    else
      var m := MaxLength(strings[..|strings| - 1]);
      var last := strings[|strings| - 1];
      if last != null && |last.text| > m then |last.text| else m
  }

  /** harp_get_max_string_length. */
  method GetMaxStringLength(strings: seq<CString?>) returns (m: int)
    ensures m == MaxLength(strings)
  {
    m := 0;
    var i := 0;
    while i < |strings|
      invariant 0 <= i <= |strings| && m == MaxLength(strings[..i])
    {
      assert strings[..i + 1][..i] == strings[..i];
      if strings[i] != null && |strings[i].text| > m {
        m := |strings[i].text|;
      }
      i := i + 1;
    }
    assert strings[..|strings|] == strings;
  }

  /** The field of width L holding one string: its text, then NUL padding; a NULL string is all NUL. */
  function Field(p: CString?, L: nat): (f: seq<char>)
    ensures |f| == L
  {
    seq(L, b => if p != null && 0 <= b < |p.text| then p.text[b] else '\0')
  }

  /** The fixed-width character array: field j holds string j, NUL padded to width L. */
  function Packed(strings: seq<CString?>, L: nat): (r: seq<char>)
    ensures |r| == |strings| * L
  {
    if |strings| == 0 then []
    else
      var n := |strings| - 1;
      Distrib(n, 1, L);
      Packed(strings[..n], L) + Field(strings[n], L)
  }

  /** Field j of the packed array is the field of string j. */
  lemma {:induction false} PackedField(strings: seq<CString?>, L: nat, j: int)
    requires 0 <= j < |strings|
    ensures 0 <= j * L && j * L + L <= |Packed(strings, L)|
    ensures Packed(strings, L)[j * L .. j * L + L] == Field(strings[j], L)
  {
    var n := |strings| - 1;
    MulLe(j + 1, n + 1, L);
    MulNonNegative(j, L);
    Distrib(j, 1, L);
    if j < n {
      PackedField(strings[..n], L, j);
      MulLe(j + 1, n, L);
      assert strings[..n][j] == strings[j];
    }
  }

  /**
   * harp_get_char_array_from_string_array: the width is the longest string's
   * length or minLength, whichever is larger, and the array holds every
   * string in a NUL-padded field of that width.
   */
  method GetCharArray(strings: seq<CString?>, minLength: int) returns (length: int, buffer: array<char>)
    ensures length == if MaxLength(strings) < minLength then minLength else MaxLength(strings)
    ensures length >= 0 && buffer[..] == Packed(strings, length)
  {
    length := GetMaxStringLength(strings);
    if length < minLength {
      length := minLength;
    }
    buffer := PackStrings(strings, length);
  }

  /** The allocation, NUL fill and copy loop of harp_get_char_array_from_string_array. */
  method PackStrings(strings: seq<CString?>, length: nat) returns (buffer: array<char>)
    requires MaxLength(strings) <= length
    ensures buffer[..] == Packed(strings, length)
  {
    var n := |strings|;
    MulNonNegative(n, length);
    var total := n * length;
    buffer := new char[total](_ => '\0');
    var i := 0;
    var base := 0;
    while i < n
      invariant 0 <= i <= n && base == i * length && buffer.Length == total == n * length
      invariant 0 <= base <= total && buffer[..base] == Packed(strings[..i], length)
      invariant forall k :: base <= k < total ==> buffer[k] == '\0'
    {
      MulLe(i + 1, n, length);
      Distrib(i, 1, length);
      PackOne(buffer, strings, i, base, length);
      i := i + 1;
      base := base + length;
    }
    assert strings[..n] == strings;
    assert buffer[..] == buffer[..base];
  }

  /** One pass of the copy loop: string i goes into the field at `base`, the fields before it stay. */
  method PackOne(buffer: array<char>, strings: seq<CString?>, i: int, base: int, length: nat)
    requires MaxLength(strings) <= length && 0 <= i < |strings| && base == i * length && base + length <= buffer.Length
    requires buffer[..base] == Packed(strings[..i], length)
    requires forall k :: base <= k < buffer.Length ==> buffer[k] == '\0'
    modifies buffer
    ensures buffer[..base + length] == Packed(strings[..i + 1], length)
    ensures forall k :: base + length <= k < buffer.Length ==> buffer[k] == '\0'
  {
    ghost var before := buffer[..];
    if strings[i] != null {
      CopyField(buffer, base, strings[i].text);
    }
    FieldWritten(before, buffer[..], base, length, strings[i]);
    PackStep(buffer[..], strings, i, base, length);
  }

  /** After the copy, the field at `base` holds the string's field and nothing before it changed. */
  lemma FieldWritten(before: seq<char>, after: seq<char>, base: int, L: nat, p: CString?)
    requires 0 <= base && base + L <= |before| == |after|
    requires forall k :: base <= k < |before| ==> before[k] == '\0'
    requires p == null ==> after == before
    requires p != null ==> (|p.text| <= L && after[base .. base + |p.text|] == p.text &&
      forall k :: 0 <= k < |before| && !(base <= k < base + |p.text|) ==> after[k] == before[k])
    ensures after[..base] == before[..base] && after[base .. base + L] == Field(p, L)
    ensures forall k :: base + L <= k < |after| ==> after[k] == '\0'
  {
    forall b | 0 <= b < L
      ensures after[base .. base + L][b] == Field(p, L)[b]
    {
      if p != null && b < |p.text| {
        assert after[base .. base + |p.text|][b] == after[base + b];
      }
    }
  }

  /** One more field appended to the packed prefix. */
  lemma PackStep(s: seq<char>, strings: seq<CString?>, i: int, base: int, L: nat)
    requires 0 <= i < |strings| && base == i * L && 0 <= base && base + L <= |s|
    requires s[..base] == Packed(strings[..i], L) && s[base .. base + L] == Field(strings[i], L)
    ensures s[..base + L] == Packed(strings[..i + 1], L)
  {
    assert strings[..i + 1][..i] == strings[..i];
    assert s[..base + L] == s[..base] + s[base .. base + L];
  }

  /** The memcpy of one string's characters (without its NUL) to offset base; everything else is left alone. */
  method CopyField(buffer: array<char>, base: int, text: string)
    requires 0 <= base && base + |text| <= buffer.Length
    modifies buffer
    ensures buffer[base .. base + |text|] == text
    ensures forall k :: 0 <= k < buffer.Length && !(base <= k < base + |text|) ==> buffer[k] == old(buffer[k])
  {
    var b := 0;
    while b < |text|
      invariant 0 <= b <= |text|
      invariant buffer[base .. base + b] == text[..b]
      invariant forall k :: 0 <= k < buffer.Length && !(base <= k < base + b) ==> buffer[k] == old(buffer[k])
    {
      buffer[base + b] := text[b];
      b := b + 1;
    }
  }

  /** A fixed-width field read back as a C string: its characters up to the first NUL. */
  function UntilNul(f: seq<char>): (r: CText)
    ensures |r| <= |f| && r == f[..|r|] && '\0' !in r
    ensures |r| < |f| ==> f[|r|] == '\0'
  {
    if |f| == 0 || f[0] == '\0' then [] else [f[0]] + UntilNul(f[1..])
  }

  /**
   * Reading field j of a packed array back as a C string gives string j's
   * text (the empty string for NULL).
   */
  lemma PackedRoundTrip(strings: seq<CString?>, L: nat, j: int)
    requires 0 <= j < |strings| && MaxLength(strings) <= L
    ensures 0 <= j * L && j * L + L <= |Packed(strings, L)|
    ensures UntilNul(Packed(strings, L)[j * L .. j * L + L]) == if strings[j] == null then [] else strings[j].text
  {
    PackedField(strings, L, j);
    var want := if strings[j] == null then [] else strings[j].text;
    assert Field(strings[j], L) == want + seq(L - |want|, _ => '\0');
    UntilNulPrefix(want, L - |want|);
  }

  /** A NUL-free text followed by NUL padding reads back as the text. */
  lemma {:induction false} UntilNulPrefix(t: seq<char>, pad: nat)
    requires '\0' !in t
    ensures UntilNul(t + seq(pad, _ => '\0')) == t
  {
    var f := t + seq(pad, _ => '\0');
    if |t| > 0 {
      assert f[1..] == t[1..] + seq(pad, _ => '\0');
      UntilNulPrefix(t[1..], pad);
    }
  }

  /** The buffer after harp_array_null: the first n elements hold the type's fill value. */
  function Nulled(s: seq<Elem>, t: DataType, n: int): (r: seq<Elem>)
    requires 0 <= n <= |s|
    ensures |r| == |s|
  {
    seq(|s|, i requires 0 <= i < |s| => if i < n then FillElem(t) else s[i])
  }

  /**
   * harp_array_null: the first n elements become the fill value of the
   * type (0, NaN, or NULL after the string is released); the rest is untouched.
   */
  method ArrayNull(t: DataType, n: int, a: array<Elem>)
    requires 0 <= n <= a.Length
    modifies a
    ensures a[..] == Nulled(old(a[..]), t, n)
  {
    var i := 0;
    while i < n
      invariant 0 <= i <= n
      invariant forall k :: 0 <= k < a.Length ==> a[k] == if k < i then FillElem(t) else old(a[k])
    {
      a[i] := FillElem(t);
      i := i + 1;
    }
  }

  /** A nulled prefix fits the type, owns no string, and nulling it again changes nothing. */
  lemma NulledIsFill(s: seq<Elem>, t: DataType, n: int)
    requires 0 <= n <= |s|
    ensures forall i :: 0 <= i < n ==> Fits(t, Nulled(s, t, n)[i]) && !Owns(Nulled(s, t, n)[i])
    ensures Nulled(Nulled(s, t, n), t, n) == Nulled(s, t, n)
  {
    var r := Nulled(s, t, n);
    assert forall i :: 0 <= i < n ==> r[i] == FillElem(t);
    assert forall i :: 0 <= i < |r| ==> Nulled(r, t, n)[i] == r[i];
  }

  /** The buffer after harp_array_replace_fill_value for an integer type: every element equal to `fill` among the first n becomes 0, unless `fill` is 0 already. */
  function Replaced(s: seq<Elem>, n: int, fill: int): (r: seq<Elem>)
    requires 0 <= n <= |s|
    ensures |r| == |s|
  {
    if fill == 0 then s
    else seq(|s|, i requires 0 <= i < |s| => if i < n && s[i] == IntElem(fill) then IntElem(0) else s[i])
  }

  /** harp_array_replace_fill_value, integer types. */
  method ReplaceFillValue(t: DataType, n: int, a: array<Elem>, fill: int)
    requires t.IsInteger() && MinOf(t) <= fill <= MaxOf(t) && 0 <= n <= a.Length
    modifies a
    ensures a[..] == Replaced(old(a[..]), n, fill)
  {
    if fill == 0 {
      return;
    }
    var i := 0;
    while i < n
      invariant 0 <= i <= n
      invariant forall k :: 0 <= k < a.Length ==>
        a[k] == if k < i && old(a[k]) == IntElem(fill) then IntElem(0) else old(a[k])
    {
      if a[i] == IntElem(fill) {
        a[i] := IntElem(0);
      }
      i := i + 1;
    }
  }

  /**
   * After the replacement no element among the first n holds `fill` any more
   * (when `fill` is not 0), every other element is kept, a buffer that fits
   * the type still fits it, and a second replacement changes nothing.
   */
  lemma ReplacedProperties(s: seq<Elem>, t: DataType, n: int, fill: int)
    requires t.IsInteger() && 0 <= n <= |s| && AllFit(t, s)
    ensures var r := Replaced(s, n, fill);
      AllFit(t, r) && Replaced(r, n, fill) == r &&
      (forall i :: 0 <= i < n && fill != 0 ==> r[i] != IntElem(fill)) &&
      (forall i :: 0 <= i < |s| && s[i] != IntElem(fill) ==> r[i] == s[i]) &&
      (forall i :: n <= i < |s| ==> r[i] == s[i])
  {
    var r := Replaced(s, n, fill);
    forall i | 0 <= i < |s|
      ensures Fits(t, r[i])
    {
      assert Fits(t, s[i]);
    }
  }

  /** Nulling an integer buffer leaves nothing for a fill replacement to change. */
  lemma ReplaceAfterNull(s: seq<Elem>, t: DataType, n: int, fill: int)
    requires t.IsInteger() && 0 <= n <= |s| && forall i :: n <= i < |s| ==> s[i] != IntElem(fill)
    ensures Replaced(Nulled(s, t, n), n, fill) == Nulled(s, t, n)
  {
    var r := Nulled(s, t, n);
    assert FillElem(t) == IntElem(0);
    assert forall i :: 0 <= i < |r| ==> Replaced(r, n, fill)[i] == r[i];
  }

  /** The index of the last occurrence of c in s, -1 when there is none (strrchr). */
  function LastIndex(s: CText, c: char): (r: int)
    ensures -1 <= r < |s|
    ensures r >= 0 ==> s[r] == c
    ensures forall i :: r < i < |s| ==> s[i] != c
  {
    if |s| == 0 then -1
    else if s[|s| - 1] == c then |s| - 1
    else LastIndex(s[..|s| - 1], c)
  }

  /** A slice of a C string's characters holds no NUL either. */
  lemma SliceOfText(s: CText, i: int, j: int)
    requires 0 <= i <= j <= |s|
    ensures '\0' !in s[i..j]
  {
    assert forall k :: 0 <= k < j - i ==> s[i..j][k] == s[i + k];
  }

  /** A pathname separator: '/' on every build, and '\\' as well on Windows. */
  predicate IsSeparator(c: char, windows: bool)
  {
    c == '/' || (windows && c == '\\')
  }

  /** The index of the last separator in s, -1 when there is none. */
  function LastSeparator(s: CText, windows: bool): (r: int)
    ensures -1 <= r < |s|
    ensures r >= 0 ==> IsSeparator(s[r], windows)
    ensures forall i :: r < i < |s| ==> !IsSeparator(s[i], windows)
  {
    if |s| == 0 then -1
    else if IsSeparator(s[|s| - 1], windows) then |s| - 1
    else LastSeparator(s[..|s| - 1], windows)
  }

  /** On a POSIX build the separator search is strrchr(path, '/'). */
  lemma PosixSeparatorIsStrrchr(s: CText)
    ensures LastSeparator(s, false) == LastIndex(s, '/')
  {
    assert forall i :: 0 <= i < |s| ==> (IsSeparator(s[i], false) <==> s[i] == '/');
  }

  /** The cursor loop of the Windows build: the last '\\' or '/' of the path, or -1. */
  method ScanSeparators(path: CText) returns (separator: int)
    ensures separator == LastSeparator(path, true)
  {
    separator := -1;
    var cursor := 0;
    while cursor < |path|
      invariant 0 <= cursor <= |path|
      invariant separator == LastSeparator(path[..cursor], true)
    {
      assert path[..cursor + 1][..cursor] == path[..cursor];
      if path[cursor] == '\\' || path[cursor] == '/' {
        separator := cursor;
      }
      cursor := cursor + 1;
    }
    assert path[..cursor] == path;
  }

  /**
   * harp_basename: what follows the last separator of the path, or the whole
   * path when it has none; NULL stays NULL. `windows` selects the build.
   */
  function Basename(path: Option<CText>, windows: bool): (r: Option<CText>)
    ensures r.Some? <==> path.Some?
    ensures r.Some? ==> ((forall i :: 0 <= i < |r.value| ==> !IsSeparator(r.value[i], windows)) &&
      |r.value| <= |path.value| && path.value == path.value[..|path.value| - |r.value|] + r.value &&
      (|r.value| < |path.value| ==> IsSeparator(path.value[|path.value| - |r.value| - 1], windows)))
  {
    match path
    case None => None
    case Some(p) =>
      var k := LastSeparator(p, windows) + 1;
      SliceOfText(p, k, |p|);
      var base: CText := p[k..];
      Some(base)
  }

  /** Taking the basename a second time changes nothing. */
  lemma BasenameIdempotent(path: Option<CText>, windows: bool)
    ensures Basename(Basename(path, windows), windows) == Basename(path, windows)
  {
    if path.Some? {
      var b := Basename(path, windows).value;
      assert LastSeparator(b, windows) == -1;
      assert b[0..] == b;
    }
  }

  /** Every POSIX separator is a Windows separator, so the Windows search never stops earlier. */
  lemma SeparatorsNest(s: CText)
    ensures LastSeparator(s, false) <= LastSeparator(s, true)
  {
    var rp := LastSeparator(s, false);
    assert rp >= 0 ==> IsSeparator(s[rp], true);
  }

  /** The Windows basename is a suffix of the POSIX one: it also splits at '\\'. */
  lemma WindowsBasenameWithinPosix(path: CText)
    ensures var w, p := Basename(Some(path), true).value, Basename(Some(path), false).value;
      |w| <= |p| && p[|p| - |w|..] == w
  {
    SeparatorsNest(path);
    SuffixOfSuffix(path, LastSeparator(path, false) + 1, LastSeparator(path, true) + 1);
  }

  lemma SuffixOfSuffix(s: string, i: int, j: int)
    requires 0 <= i <= j <= |s|
    ensures |s[j..]| <= |s[i..]| && s[i..][|s[i..]| - |s[j..]|..] == s[j..]
  {
    assert s[i..][j - i..] == s[j..];
  }

  /**
   * harp_remove_extension: the path cut at its last '.', wherever it occurs;
   * a path without '.' is kept; NULL stays NULL.
   */
  function RemoveExtension(path: Option<CText>): (r: Option<CText>)
    ensures r.Some? <==> path.Some?
    ensures r.Some? ==> var p, q := path.value, r.value;
      if '.' in p then |q| < |p| && q == p[..|q|] && p[|q|] == '.' && '.' !in p[|q| + 1..]
      else q == p
  {
    match path
    case None => None
    case Some(p) =>
      var k := LastIndex(p, '.');
      var stem: CText := if k < 0 then p else p[..k];
      Some(stem)
  }

  /** Appending an extension that holds no '.' and removing it gives the stem back. */
  lemma RemoveAppendedExtension(stem: CText, ext: CText)
    requires '.' !in ext
    ensures RemoveExtension(Some(stem + ['.'] + ext)) == Some(stem)
  {
    var p := stem + ['.'] + ext;
    assert p[|stem|] == '.';
    assert forall i :: |stem| < i < |p| ==> p[i] == ext[i - |stem| - 1];
    assert LastIndex(p, '.') == |stem| && p[..|stem|] == stem;
  }

  /** A C string ends at the first NUL: a NUL at n with none before it makes f[..n] the string. */
  lemma UntilNulAt(f: seq<char>, n: int)
    requires 0 <= n < |f| && f[n] == '\0' && '\0' !in f[..n]
    ensures UntilNul(f) == f[..n]
  {
    var r := UntilNul(f);
    assert forall i :: 0 <= i < |r| ==> f[i] != '\0';
    assert forall i :: 0 <= i < n ==> f[i] != '\0';
  }

  /**
   * harp_remove_extension on the character buffer of a C string: the last
   * '.' before the terminating NUL, if any, is overwritten with a NUL, so
   * the string read from the buffer loses its extension.
   */
  method RemoveExtensionInPlace(path: array?<char>)
    requires path != null ==> '\0' in path[..]
    modifies path
    ensures path != null ==> Some(UntilNul(path[..])) == RemoveExtension(Some(UntilNul(old(path[..]))))
    ensures path != null ==> forall i :: 0 <= i < path.Length && path[i] != old(path[i]) ==> path[i] == '\0'
  {
    if path == null {
      return;
    }
    ghost var s := UntilNul(path[..]);
    var extension := LastDot(path);
    if extension >= 0 {
      path[extension] := '\0';
      assert path[..extension] == s[..extension];
      UntilNulAt(path[..], extension);
    }
  }

  /** The index of the last '.' before the first NUL of the buffer, or -1. */
  method LastDot(path: array<char>) returns (extension: int)
    requires '\0' in path[..]
    ensures extension == LastIndex(UntilNul(path[..]), '.')
  {
    ghost var s := UntilNul(path[..]);
    assert |s| < path.Length;
    var i := 0;
    extension := -1;
    while path[i] != '\0'
      invariant 0 <= i <= |s|
      invariant extension == LastIndex(s[..i], '.')
      decreases |s| - i
    {
      assert s[..i + 1][..i] == s[..i];
      if path[i] == '.' {
        extension := i;
      }
      i := i + 1;
    }
    assert i == |s| && s[..i] == s;
  }
}
