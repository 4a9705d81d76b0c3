/** Index arithmetic of the 81-cell grid, shared by both engines.
    Cells are numbered 0..80 in row-major order; every cell lies in one row,
    one column and one 3x3 box. Both engines locate these zones with the same
    slice arithmetic, modelled here once: a row is the slice starting at
    RowStart, a column the stride-9 slice starting at index % 9, and a box
    the three 3-wide slices starting at BoxTopLeft, BoxTopLeft + 9 and
    BoxTopLeft + 18. */
module Zones {

  /** The three kinds of zone. */
  datatype Zone = RowZone | ColumnZone | BoxZone

  function RowOf(i: int): int { i / 9 }

  function ColumnOf(i: int): int { i % 9 }

  function BoxOf(i: int): int { (RowOf(i) / 3) * 3 + ColumnOf(i) / 3 }

  /** i and j lie in the same zone of kind z. */
  predicate Shares(z: Zone, i: int, j: int)
  {
    match z
    case RowZone => RowOf(i) == RowOf(j)
    case ColumnZone => ColumnOf(i) == ColumnOf(j)
    case BoxZone => BoxOf(i) == BoxOf(j)
  }

  /** i and j share a row, a column or a box (i and j may be equal). */
  predicate SameZone(i: int, j: int)
  {
    Shares(RowZone, i, j) || Shares(ColumnZone, i, j) || Shares(BoxZone, i, j)
  }

  /** First index of the row slice, `index - index % 9`. */
  function RowStart(i: nat): nat { i - i % 9 }

  /** Top-left cell of the box, computed as solver.py and newsolver.py do:
      `pos - pos % 3 - 9 * (((pos - pos % 3) % 27) / 9)`. */
  function BoxTopLeft(i: nat): int { i - i % 3 - 9 * (((i - i % 3) % 27) / 9) }

  /** The k-th cell (0 <= k < 9) of i's zone of kind z, in the order the
      slices of solver.py and newsolver.py list them. */
  function Member(z: Zone, i: nat, k: nat): int
  {
    match z
    case RowZone => RowStart(i) + k
    case ColumnZone => i % 9 + 9 * k
    case BoxZone => BoxTopLeft(i) + 9 * (k / 3) + k % 3
  }

  /** Where cell j stands in the slice listing of its zone of kind z. */
  function Slot(z: Zone, j: nat): nat
  {
    match z
    case RowZone => j % 9
    case ColumnZone => j / 9
    case BoxZone => 3 * ((j / 9) % 3) + (j % 9) % 3
  }

  /** Python's `s[start::step]` for a non-negative start and a positive step. */
  function Stride<T>(s: seq<T>, start: nat, step: nat): (r: seq<T>)
    requires step > 0
    ensures forall x :: x in r ==> x in s
    decreases |s| - start
  {
    if start >= |s| then [] else [s[start]] + Stride(s, start + step, step)
  }

  /** n == 9q + r with 0 <= r < 9 fixes n / 9 and n % 9 (and likewise for 3 and 27). */
  lemma Div9(n: int, q: int, r: int)
    requires n == 9 * q + r && 0 <= r < 9
    ensures n / 9 == q && n % 9 == r
  {
  }

  lemma Div3(n: int, q: int, r: int)
    requires n == 3 * q + r && 0 <= r < 3
    ensures n / 3 == q && n % 3 == r
  {
  }

  lemma Div27(n: int, q: int, r: int)
    requires n == 27 * q + r && 0 <= r < 27
    ensures n / 27 == q && n % 27 == r
  {
  }

  /** The box slices start at the box's top-left corner: row 3*(r/3), column 3*(c/3). */
  lemma TopLeftIsBoxCorner(i: nat)
    requires i < 81
    ensures BoxTopLeft(i) == 27 * (RowOf(i) / 3) + 3 * (ColumnOf(i) / 3)
    ensures 0 <= BoxTopLeft(i) && BoxTopLeft(i) + 20 < 81
  {
    var r, c := i / 9, i % 9;
    Div9(i, r, c);
    var c3, c1 := c / 3, c % 3;
    Div3(c, c3, c1);
    var r3, r1 := r / 3, r % 3;
    Div3(r, r3, r1);
    Div3(i, 3 * r + c3, c1);
    Div27(i - i % 3, r3, 9 * r1 + 3 * c3);
    Div9((i - i % 3) % 27, r1, 3 * c3);
  }

  /** Member(z, i, k) is a cell of i's zone, and it stands in slot k of that zone. */
  lemma MemberInZone(z: Zone, i: nat, k: nat)
    requires i < 81 && k < 9
    ensures 0 <= Member(z, i, k) < 81
    ensures Shares(z, i, Member(z, i, k))
    ensures Slot(z, Member(z, i, k)) == k
  {
    var r, c := i / 9, i % 9;
    Div9(i, r, c);
    var j := Member(z, i, k);
    match z
    case RowZone =>
      Div9(j, r, k);
    case ColumnZone =>
      Div9(j, k, c);
    case BoxZone =>
      BoxMemberInZone(i, k);
  }

  /** Cell (a, b) of box (r3, c3), counted from the box's corner. */
  lemma BoxCell(r3: int, c3: int, a: int, b: int)
    requires 0 <= r3 < 3 && 0 <= c3 < 3 && 0 <= a < 3 && 0 <= b < 3
    ensures 0 <= 27 * r3 + 3 * c3 + 9 * a + b < 81
    ensures BoxOf(27 * r3 + 3 * c3 + 9 * a + b) == 3 * r3 + c3
    ensures Slot(BoxZone, 27 * r3 + 3 * c3 + 9 * a + b) == 3 * a + b
  {
    var j := 27 * r3 + 3 * c3 + 9 * a + b;
    assert j == 9 * (3 * r3 + a) + (3 * c3 + b);
    Div9(j, 3 * r3 + a, 3 * c3 + b);
    Div3(3 * r3 + a, r3, a);
    Div3(3 * c3 + b, c3, b);
  }

  /** The box case of MemberInZone. */
  lemma BoxMemberInZone(i: nat, k: nat)
    requires i < 81 && k < 9
    ensures 0 <= Member(BoxZone, i, k) < 81
    ensures Shares(BoxZone, i, Member(BoxZone, i, k))
    ensures Slot(BoxZone, Member(BoxZone, i, k)) == k
  {
    var r, c := i / 9, i % 9;
    Div9(i, r, c);
    var r3, c3 := r / 3, c / 3;
    Div3(r, r3, r % 3);
    Div3(c, c3, c % 3);
    var a, b := k / 3, k % 3;
    Div3(k, a, b);
    TopLeftIsBoxCorner(i);
    assert Member(BoxZone, i, k) == 27 * r3 + 3 * c3 + 9 * a + b;
    BoxCell(r3, c3, a, b);
  }

  /** Every cell j of i's zone is listed, at its slot. */
  lemma MemberOnto(z: Zone, i: nat, j: nat)
    requires i < 81 && j < 81 && Shares(z, i, j)
    ensures Slot(z, j) < 9
    ensures Member(z, i, Slot(z, j)) == j
  {
    var r, c := i / 9, i % 9;
    Div9(i, r, c);
    var rj, cj := j / 9, j % 9;
    Div9(j, rj, cj);
    match z
    case RowZone =>
    case ColumnZone =>
    case BoxZone =>
      BoxMemberOnto(i, j);
  }

  /** Every cell is cell (a, b) of box (r3, c3). */
  lemma BoxCoords(j: nat) returns (r3: int, c3: int, a: int, b: int)
    requires j < 81
    ensures 0 <= r3 < 3 && 0 <= c3 < 3 && 0 <= a < 3 && 0 <= b < 3
    ensures j == 27 * r3 + 3 * c3 + 9 * a + b
    ensures RowOf(j) / 3 == r3 && ColumnOf(j) / 3 == c3
  {
    var r, c := j / 9, j % 9;
    Div9(j, r, c);
    r3, a := r / 3, r % 3;
    Div3(r, r3, a);
    c3, b := c / 3, c % 3;
    Div3(c, c3, b);
  }

  /** The box case of MemberOnto. */
  lemma BoxMemberOnto(i: nat, j: nat)
    requires i < 81 && j < 81 && Shares(BoxZone, i, j)
    ensures Slot(BoxZone, j) < 9
    ensures Member(BoxZone, i, Slot(BoxZone, j)) == j
  {
    var r3, c3, a, b := BoxCoords(i);
    var rj3, cj3, aj, bj := BoxCoords(j);
    BoxCell(r3, c3, a, b);
    BoxCell(rj3, cj3, aj, bj);
    Div3(3 * r3 + c3, r3, c3);
    Div3(3 * rj3 + cj3, rj3, cj3);
    assert rj3 == r3 && cj3 == c3;
    Div3(3 * aj + bj, aj, bj);
    TopLeftIsBoxCorner(i);
  }



  /** The stride slice of a column of an 81-element sequence, from row m down,
      holds exactly the column's remaining 9 - m cells, top to bottom. */
  lemma {:induction false} ColumnStride<T>(s: seq<T>, start: nat, m: nat)
    requires |s| == 81 && m <= 9 && start - 9 * m < 9 && start >= 9 * m
    ensures |Stride(s, start, 9)| == 9 - m
    ensures forall k :: 0 <= k < 9 - m ==> Stride(s, start, 9)[k] == s[start + 9 * k]
    decreases 9 - m
  {
    if m < 9 {
      ColumnStride(s, start + 9, m + 1);
    }
  }

  /** The column slice `s[i % 9::9]` lists the column of i in slot order. */
  lemma ColumnSlice<T>(s: seq<T>, i: nat)
    requires |s| == 81 && i < 81
    ensures |Stride(s, i % 9, 9)| == 9
    ensures forall k :: 0 <= k < 9 ==> Stride(s, i % 9, 9)[k] == s[Member(ColumnZone, i, k)]
  {
    ColumnStride(s, i % 9, 0);
  }

  /** The row and box slices stay inside the grid. */
  lemma SliceBounds(i: nat)
    requires i < 81
    ensures RowStart(i) + 9 <= 81
    ensures 0 <= BoxTopLeft(i) && BoxTopLeft(i) + 21 <= 81
  {
    Div9(i, i / 9, i % 9);
    TopLeftIsBoxCorner(i);
  }

  /** The slice listing of i's zone of kind z in an 81-element sequence:
      the row slice, the stride-9 column slice, or the three box slices
      joined together. */
  function ZoneSlice<T>(s: seq<T>, z: Zone, i: nat): seq<T>
    requires |s| == 81 && i < 81
  {
    SliceBounds(i);
    match z
    case RowZone => s[RowStart(i)..RowStart(i) + 9]
    case ColumnZone => Stride(s, i % 9, 9)
    case BoxZone =>
      var tl := BoxTopLeft(i);
      s[tl..tl + 3] + s[tl + 9..tl + 9 + 3] + s[tl + 18..tl + 18 + 3]
  }

  /** r lists i's zone of kind z in s: nine entries, the k-th taken from a cell
      of that zone standing in slot k, and every cell of the zone at its slot. */
  ghost predicate Lists<T>(s: seq<T>, r: seq<T>, z: Zone, i: nat)
  {
    |s| == 81 && |r| == 9 &&
    (forall k :: 0 <= k < 9 ==>
      0 <= Member(z, i, k) < 81 && Shares(z, i, Member(z, i, k)) && Slot(z, Member(z, i, k)) == k &&
      r[k] == s[Member(z, i, k)]) &&
    (forall j :: 0 <= j < 81 && Shares(z, i, j) ==> Slot(z, j) < 9 && r[Slot(z, j)] == s[j])
  }

  /** A nine-entry sequence whose k-th entry is the k-th member of i's zone lists that zone. */
  lemma ListsByMember<T>(s: seq<T>, r: seq<T>, z: Zone, i: nat)
    requires |s| == 81 && i < 81 && |r| == 9
    requires forall k :: 0 <= k < 9 ==> 0 <= Member(z, i, k) < 81 && r[k] == s[Member(z, i, k)]
    ensures Lists(s, r, z, i)
  {
    forall k | 0 <= k < 9
      ensures Shares(z, i, Member(z, i, k)) && Slot(z, Member(z, i, k)) == k
    {
      MemberInZone(z, i, k);
    }
    forall j | 0 <= j < 81 && Shares(z, i, j)
      ensures Slot(z, j) < 9 && r[Slot(z, j)] == s[j]
    {
      MemberOnto(z, i, j);
    }
  }

  /** Each slice lists its zone. */
  lemma ZoneSliceLists<T>(s: seq<T>, z: Zone, i: nat)
    requires |s| == 81 && i < 81
    ensures Lists(s, ZoneSlice(s, z, i), z, i)
  {
    var r := ZoneSlice(s, z, i);
    SliceBounds(i);
    forall k | 0 <= k < 9
      ensures 0 <= Member(z, i, k) < 81
    {
      MemberInZone(z, i, k);
    }
    match z
    case RowZone =>
      ListsByMember(s, r, z, i);
    case ColumnZone =>
      ColumnSlice(s, i);
      ListsByMember(s, r, z, i);
    case BoxZone =>
      BoxSliceEntries(s, i);
      ListsByMember(s, r, z, i);
  }

  /** The three joined box slices hold the box's cells, row by row. */
  lemma BoxSliceEntries<T>(s: seq<T>, i: nat)
    requires |s| == 81 && i < 81
    ensures |ZoneSlice(s, BoxZone, i)| == 9
    ensures forall k :: 0 <= k < 9 ==> ZoneSlice(s, BoxZone, i)[k] == s[BoxTopLeft(i) + 9 * (k / 3) + k % 3]
  {
    SliceBounds(i);
    var tl := BoxTopLeft(i);
    var r := ZoneSlice(s, BoxZone, i);
    assert r == s[tl..tl + 3] + s[tl + 9..tl + 9 + 3] + s[tl + 18..tl + 18 + 3];
    forall k | 0 <= k < 9
      ensures r[k] == s[tl + 9 * (k / 3) + k % 3]
    {
      if k < 3 {
        Div3(k, 0, k);
      } else if k < 6 {
        Div3(k, 1, k - 3);
      } else {
        Div3(k, 2, k - 6);
      }
    }
  }

  /** x occurs in a listing of i's zone exactly when some cell of that zone holds x. */
  lemma ListedValues<T>(s: seq<T>, r: seq<T>, z: Zone, i: nat, x: T)
    requires Lists(s, r, z, i)
    ensures x in r <==> exists j :: 0 <= j < 81 && Shares(z, i, j) && s[j] == x
  {
    if x in r {
      var k :| 0 <= k < 9 && r[k] == x;
      assert s[Member(z, i, k)] == x;
    }
    if exists j :: 0 <= j < 81 && Shares(z, i, j) && s[j] == x {
      var j :| 0 <= j < 81 && Shares(z, i, j) && s[j] == x;
      assert r[Slot(z, j)] == x;
    }
  }
}
