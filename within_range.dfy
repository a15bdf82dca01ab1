/** hexes_within_range(hhex, dist, fmt): every hex within dist steps of the
    centre, found by a triple loop over cubic offsets with a zero-sum filter,
    written in the chosen format and sorted. */
module WithinRange {
  import opened HexGrid
  import opened Listing

  /** What one pass of the innermost loop body keeps: the hex at offset
      (dx, dy, dz) when the offsets sum to zero, nothing otherwise. */
  function Pick(c: Hex, dx: int, dy: int, dz: int): seq<Hex> {
    if dx + dy + dz == 0 then [Shift(c, dx, dy, dz)] else []
  }

  /** The hexes the innermost loop has kept once it has tried every dz' in
      [-dist, dz), for fixed dx and dy. */
  function ZDone(c: Hex, dist: int, dx: int, dy: int, dz: int): seq<Hex>
    decreases dz + dist
  {
    if dz <= -dist then [] else ZDone(c, dist, dx, dy, dz - 1) + Pick(c, dx, dy, dz - 1)
  }

  /** The hexes the middle loop has kept once it has run every dy' in
      [-dist, dy), for fixed dx. */
  function YDone(c: Hex, dist: int, dx: int, dy: int): seq<Hex>
    decreases dy + dist
  {
    if dy <= -dist then [] else YDone(c, dist, dx, dy - 1) + ZDone(c, dist, dx, dy - 1, dist + 1)
  }

  /** The hexes the outer loop has kept once it has run every dx' in [-dist, dx). */
  function XDone(c: Hex, dist: int, dx: int): seq<Hex>
    decreases dx + dist
  {
    if dx <= -dist then [] else XDone(c, dist, dx - 1) + YDone(c, dist, dx - 1, dist + 1)
  }

  /** The hexes within dist of c, in the order the three loops find them. */
  function Disk(c: Hex, dist: int): seq<Hex> {
    XDone(c, dist, dist + 1)
  }

  /** The number of hexes within dist of a hex: 1 + 6 + 12 + ... + 6 * dist. */
  function DiskSize(dist: int): nat {
    if dist < 0 then 0 else 3 * dist * (dist + 1) + 1
  }

  method HexesWithinRange(hhex: Value, dist: int, fmt: string) returns (r: Result<seq<Cell>>)
    requires WellFormed(hhex)
    ensures ParseFormat(fmt).Err? ==> r == Err(ValueError(BadFormat))
    ensures ParseFormat(fmt).Ok? && FromValue(hhex).Err? ==> r == Err(FromValue(hhex).error)
    ensures ParseFormat(fmt).Ok? && FromValue(hhex).Ok? ==>
              r == Ok(SortCells(Cells(Disk(FromValue(hhex).value, dist), ParseFormat(fmt).value)))
  {
    var f :- ParseFormat(fmt);
    var centre :- FromValue(hhex);
    var hexes := ScanDisk(centre, dist, f);
    return Ok(SortCells(hexes));
  }

  /** The outer loop of hexes_within_range, over dx: the cells of the hexes
      within dist of the centre, in the order the loops find them. */
  method ScanDisk(centre: Hex, dist: int, f: Format) returns (hexes: seq<Cell>)
    requires Valid(centre)
    ensures hexes == Cells(Disk(centre, dist), f)
  {
    hexes := [];
    var dx := -dist;
    while dx < dist + 1
      invariant dist >= 0 ==> -dist <= dx <= dist + 1
      invariant dist < 0 ==> dx == -dist
      invariant hexes == Cells(XDone(centre, dist, dx), f)
      decreases dist + 1 - dx
    {
      hexes := ScanColumn(centre, dist, dx, f, XDone(centre, dist, dx), hexes);
      dx := dx + 1;
    }
  }

  /** The middle loop, over dy, for one dx: appends to the list the cells of
      the hexes the innermost loop keeps for each dy in turn. */
  method ScanColumn(centre: Hex, dist: int, dx: int, f: Format, ghost before: seq<Hex>, hexes0: seq<Cell>)
    returns (hexes: seq<Cell>)
    requires Valid(centre) && -dist <= dist + 1
    requires hexes0 == Cells(before, f)
    ensures hexes == Cells(before + YDone(centre, dist, dx, dist + 1), f)
  {
    hexes := hexes0;
    var dy := -dist;
    assert before + YDone(centre, dist, dx, dy) == before;
    while dy < dist + 1
      invariant -dist <= dy <= dist + 1
      invariant hexes == Cells(before + YDone(centre, dist, dx, dy), f)
      decreases dist + 1 - dy
    {
      hexes := ScanLine(centre, dist, dx, dy, f, before + YDone(centre, dist, dx, dy), hexes);
      YStep(centre, dist, dx, dy, before);
      dy := dy + 1;
    }
  }

  /** The innermost loop, over dz, for one dx and dy: appends the cell of
      centre + (dx, dy, dz) for the dz that makes the offsets sum to zero. */
  method ScanLine(centre: Hex, dist: int, dx: int, dy: int, f: Format, ghost before: seq<Hex>, hexes0: seq<Cell>)
    returns (hexes: seq<Cell>)
    requires Valid(centre) && -dist <= dist + 1
    requires hexes0 == Cells(before, f)
    ensures hexes == Cells(before + ZDone(centre, dist, dx, dy, dist + 1), f)
  {
    hexes := hexes0;
    var dz := -dist;
    assert before + ZDone(centre, dist, dx, dy, dz) == before;
    while dz < dist + 1
      invariant -dist <= dz <= dist + 1
      invariant hexes == Cells(before + ZDone(centre, dist, dx, dy, dz), f)
      decreases dist + 1 - dz
    {
      ZStep(centre, dist, dx, dy, dz, before);
      if dx + dy + dz == 0 {
        var foundHex := FromCube(centre.x + dx, centre.y + dy, centre.z + dz).value;
        assert foundHex == Shift(centre, dx, dy, dz);
        CellsAppend(before + ZDone(centre, dist, dx, dy, dz), foundHex, f);
        // offset() or cube(), as fmt says
        hexes := hexes + [CellOf(foundHex, f)];
      }
      dz := dz + 1;
    }
  }

  /** One pass of the innermost loop body keeps the hex at (dx, dy, dz)
      exactly when the offsets sum to zero. */
  lemma ZStep(c: Hex, dist: int, dx: int, dy: int, dz: int, before: seq<Hex>)
    requires dz >= -dist
    ensures dx + dy + dz == 0 ==>
              before + ZDone(c, dist, dx, dy, dz + 1) == before + ZDone(c, dist, dx, dy, dz) + [Shift(c, dx, dy, dz)]
    ensures dx + dy + dz != 0 ==>
              before + ZDone(c, dist, dx, dy, dz + 1) == before + ZDone(c, dist, dx, dy, dz)
  {
    AppendAssociative(before, ZDone(c, dist, dx, dy, dz), Pick(c, dx, dy, dz));
  }

  /** One pass of the middle loop body appends what the innermost loop keeps. */
  lemma YStep(c: Hex, dist: int, dx: int, dy: int, before: seq<Hex>)
    requires dy >= -dist
    ensures before + YDone(c, dist, dx, dy + 1) == before + YDone(c, dist, dx, dy) + ZDone(c, dist, dx, dy, dist + 1)
    ensures ZDone(c, dist, dx, dy + 1, -dist) == []
  {
    AppendAssociative(before, YDone(c, dist, dx, dy), ZDone(c, dist, dx, dy, dist + 1));
  }

  /** For fixed dx and dy at most one dz makes the sum zero, so the innermost
      loop keeps at most one hex. */
  lemma {:induction false} ZDoneIsPick(c: Hex, dist: int, dx: int, dy: int, dz: int)
    ensures ZDone(c, dist, dx, dy, dz) ==
              if -dist <= -dx - dy < dz then [Shift(c, dx, dy, -dx - dy)] else []
    decreases dz + dist
  {
    if dz > -dist {
      ZDoneIsPick(c, dist, dx, dy, dz - 1);
    }
  }

  /** A valid hex is the shift of c by its own cubic difference from c. */
  lemma ShiftMatches(c: Hex, h: Hex, dx: int, dy: int)
    requires Valid(c) && Valid(h)
    ensures h == Shift(c, dx, dy, -dx - dy) <==> h.x == c.x + dx && h.y == c.y + dy
  {
    if h.x == c.x + dx && h.y == c.y + dy {
      ValidDeterminedByCube(h, Shift(c, dx, dy, -dx - dy));
    }
  }

  /** The middle loop keeps, for column offset dx, the hexes whose y offset
      lies in [-dist, dy) and whose z offset lies in [-dist, dist]. */
  lemma {:induction false} YDoneMembers(c: Hex, dist: int, dx: int, dy: int)
    requires Valid(c)
    ensures forall h :: h in YDone(c, dist, dx, dy) <==>
              Valid(h) && h.x - c.x == dx && -dist <= h.y - c.y < dy && -dist <= h.z - c.z <= dist
    decreases dy + dist
  {
    if dy > -dist {
      YDoneMembers(c, dist, dx, dy - 1);
      ZDoneIsPick(c, dist, dx, dy - 1, dist + 1);
      var prev, row := YDone(c, dist, dx, dy - 1), ZDone(c, dist, dx, dy - 1, dist + 1);
      forall h
        ensures h in prev + row <==>
                  Valid(h) && h.x - c.x == dx && -dist <= h.y - c.y < dy && -dist <= h.z - c.z <= dist
      {
        if Valid(h) {
          ShiftMatches(c, h, dx, dy - 1);
        }
        assert h in prev + row <==> h in prev || h in row;
      }
    }
  }

  /** The outer loop keeps the hexes whose x offset lies in [-dist, dx) and
      whose y and z offsets lie in [-dist, dist]. */
  lemma {:induction false} XDoneMembers(c: Hex, dist: int, dx: int)
    requires Valid(c)
    ensures forall h :: h in XDone(c, dist, dx) <==>
              Valid(h) && -dist <= h.x - c.x < dx && -dist <= h.y - c.y <= dist && -dist <= h.z - c.z <= dist
    decreases dx + dist
  {
    if dx > -dist {
      XDoneMembers(c, dist, dx - 1);
      YDoneMembers(c, dist, dx - 1, dist + 1);
    }
  }

  /** The loops find exactly the valid hexes within dist of the centre. */
  lemma DiskMembers(c: Hex, dist: int)
    requires Valid(c)
    ensures forall h :: h in Disk(c, dist) <==> Valid(h) && HexDistance(c, h) <= dist
  {
    XDoneMembers(c, dist, dist + 1);
  }

  lemma {:induction false} YDoneNoDup(c: Hex, dist: int, dx: int, dy: int)
    requires Valid(c)
    ensures NoDup(YDone(c, dist, dx, dy))
    decreases dy + dist
  {
    if dy > -dist {
      var prev, row := YDone(c, dist, dx, dy - 1), ZDone(c, dist, dx, dy - 1, dist + 1);
      YDoneNoDup(c, dist, dx, dy - 1);
      ZDoneIsPick(c, dist, dx, dy - 1, dist + 1);
      if row != [] {
        var s := Shift(c, dx, dy - 1, -dx - (dy - 1));
        assert row == [s];
        assert s.y - c.y == dy - 1;
        YDoneMembers(c, dist, dx, dy - 1);
        assert s !in prev;
      }
      NoDupAppend(prev, row);
    }
  }

  lemma {:induction false} XDoneNoDup(c: Hex, dist: int, dx: int)
    requires Valid(c)
    ensures NoDup(XDone(c, dist, dx))
    decreases dx + dist
  {
    if dx > -dist {
      XDoneNoDup(c, dist, dx - 1);
      XDoneMembers(c, dist, dx - 1);
      YDoneNoDup(c, dist, dx - 1, dist + 1);
      YDoneMembers(c, dist, dx - 1, dist + 1);
      NoDupAppend(XDone(c, dist, dx - 1), YDone(c, dist, dx - 1, dist + 1));
    }
  }

  /** No hex is found twice: each (dx, dy) pair yields at most one hex and
      different pairs yield different hexes. */
  lemma DiskNoDup(c: Hex, dist: int)
    requires Valid(c)
    ensures NoDup(Disk(c, dist))
  {
    XDoneNoDup(c, dist, dist + 1);
  }

  lemma {:induction false} YDoneSize(c: Hex, dist: int, dx: int, dy: int)
    requires -dist <= dx <= dist && -dist <= dy <= dist + 1
    ensures var lo := if dx < 0 then -dist - dx else -dist;
            var hi := if dy < dist - dx + 1 then dy else dist - dx + 1;
            |YDone(c, dist, dx, dy)| == if hi < lo then 0 else hi - lo
    decreases dy + dist
  {
    if dy > -dist {
      YDoneSize(c, dist, dx, dy - 1);
      ZDoneIsPick(c, dist, dx, dy - 1, dist + 1);
    }
  }

  /** Column dx of the disk holds 2 * dist + 1 - |dx| hexes. */
  lemma ColumnSize(c: Hex, dist: int, dx: int)
    requires -dist <= dx <= dist
    ensures |YDone(c, dist, dx, dist + 1)| == 2 * dist + 1 - Abs(dx)
  {
    YDoneSize(c, dist, dx, dist + 1);
  }

  /** Twice the number of hexes in columns -d .. dx - 1 of the disk of
      radius d: the columns left of the centre grow by one hex each, those
      right of it shrink by one. */
  function TwiceColumns(d: int, dx: int): int {
    if dx <= 0 then (dx + d) * (3 * d + 1 + dx)
    else d * (3 * d + 1) + 2 * dx * (2 * d + 1) - dx * (dx - 1)
  }

  lemma LeftColumnsStep(dx: int, d: int)
    ensures (dx - 1 + d) * (3 * d + 1 + (dx - 1)) + 2 * (2 * d + 1 - (1 - dx))
         == (dx + d) * (3 * d + 1 + dx)
  {
  }

  lemma RightColumnsStep(dx: int, d: int)
    ensures d * (3 * d + 1) + 2 * (dx - 1) * (2 * d + 1) - (dx - 1) * (dx - 1 - 1) + 2 * (2 * d + 1 - (dx - 1))
         == d * (3 * d + 1) + 2 * dx * (2 * d + 1) - dx * (dx - 1)
  {
  }

  /** Adding column dx - 1, of 2 * d + 1 - |dx - 1| hexes. */
  lemma TwiceColumnsStep(d: int, dx: int)
    ensures TwiceColumns(d, dx) == TwiceColumns(d, dx - 1) + 2 * (2 * d + 1 - Abs(dx - 1))
  {
    if dx <= 0 {
      assert Abs(dx - 1) == 1 - dx;
      LeftColumnsStep(dx, d);
    } else if dx == 1 {
      assert TwiceColumns(d, 0) == d * (3 * d + 1);
    } else {
      assert Abs(dx - 1) == dx - 1;
      RightColumnsStep(dx, d);
    }
  }

  /** All 2 * d + 1 columns: twice 3 * d * (d + 1) + 1. */
  lemma TwiceAllColumns(d: int)
    requires d >= 0
    ensures TwiceColumns(d, d + 1) == 2 * DiskSize(d)
  {
    assert 2 * (d + 1) * (2 * d + 1) - (d + 1) * d + d * (3 * d + 1) == 2 * (3 * d * (d + 1) + 1);
  }

  lemma {:induction false} XDoneSize(c: Hex, dist: int, dx: int)
    requires -dist <= dx <= dist + 1
    ensures 2 * |XDone(c, dist, dx)| == TwiceColumns(dist, dx)
    decreases dx + dist
  {
    if dx > -dist {
      XDoneSize(c, dist, dx - 1);
      ColumnSize(c, dist, dx - 1);
      assert |XDone(c, dist, dx)| == |XDone(c, dist, dx - 1)| + (2 * dist + 1 - Abs(dx - 1));
      TwiceColumnsStep(dist, dx);
    } else {
      assert TwiceColumns(dist, dx) == 0 * (3 * dist + 1 + dx);
    }
  }

  /** The loops find 3 * dist * (dist + 1) + 1 hexes, none when dist < 0. */
  lemma DiskSizeIs(c: Hex, dist: int)
    ensures |Disk(c, dist)| == DiskSize(dist)
  {
    if dist >= 0 {
      XDoneSize(c, dist, dist + 1);
      TwiceAllColumns(dist);
    }
  }

  /** hexes_within_range lists 3 * dist * (dist + 1) + 1 cells, none when
      dist < 0, in sorted order. */
  lemma WithinRangeSize(c: Hex, dist: int, f: Format)
    ensures var r := SortCells(Cells(Disk(c, dist), f));
            Sorted(r) && |r| == DiskSize(dist)
  {
    var cells := Cells(Disk(c, dist), f);
    var r := SortCells(cells);
    DiskSizeIs(c, dist);
    assert |r| == |multiset(r)| == |multiset(cells)| == |cells|;
  }

  /** hexes_within_range lists exactly the cells of the hexes within dist of
      the centre. */
  lemma WithinRangeMembers(c: Hex, dist: int, f: Format)
    requires Valid(c)
    ensures var r := SortCells(Cells(Disk(c, dist), f));
            forall x :: x in r <==> exists h :: Valid(h) && HexDistance(c, h) <= dist && x == CellOf(h, f)
  {
    DiskMembers(c, dist);
    SortedCellsMembers(Disk(c, dist), f);
  }

  /** No cell is listed twice: always in the cubic format, and in the offset
      format when every hex within range is on the 100 x 100 grid (off the
      grid two hexes can print alike). */
  lemma WithinRangeNoDup(c: Hex, dist: int, f: Format)
    requires Valid(c)
    requires f == OffsetFormat ==> forall h :: Valid(h) && HexDistance(c, h) <= dist ==> OnGrid(h)
    ensures NoDup(SortCells(Cells(Disk(c, dist), f)))
  {
    var hs := Disk(c, dist);
    DiskMembers(c, dist);
    DiskNoDup(c, dist);
    CellsNoDup(hs, f);
    NoDupPermutation(Cells(hs, f), SortCells(Cells(hs, f)));
  }

  /** With dist 0 only the centre is listed; with a negative dist nothing is. */
  lemma WithinRangeSmall(c: Hex, dist: int, f: Format)
    requires Valid(c)
    ensures dist < 0 ==> SortCells(Cells(Disk(c, dist), f)) == []
    ensures dist == 0 ==> SortCells(Cells(Disk(c, dist), f)) == [CellOf(c, f)]
  {
    WithinRangeSize(c, dist, f);
    if dist == 0 {
      WithinRangeMembers(c, dist, f);
      var r := SortCells(Cells(Disk(c, dist), f));
      assert CellOf(c, f) in r;
    }
  }

  /** Column dx = -1 of the radius-1 disk around c: dy = 0 and dy = 1. */
  lemma LeftColumnExample(c: Hex)
    ensures YDone(c, 1, -1, 2) == [Shift(c, -1, 0, 1), Shift(c, -1, 1, 0)]
  {
    ZDoneIsPick(c, 1, -1, -1, 2);
    ZDoneIsPick(c, 1, -1, 0, 2);
    ZDoneIsPick(c, 1, -1, 1, 2);
    assert YDone(c, 1, -1, 0) == [];
    assert YDone(c, 1, -1, 1) == [Shift(c, -1, 0, 1)];
  }

  /** Column dx = 0 of the radius-1 disk around c: dy = -1, 0 and 1. */
  lemma MiddleColumnExample(c: Hex)
    ensures YDone(c, 1, 0, 2) == [Shift(c, 0, -1, 1), Shift(c, 0, 0, 0), Shift(c, 0, 1, -1)]
  {
    ZDoneIsPick(c, 1, 0, -1, 2);
    ZDoneIsPick(c, 1, 0, 0, 2);
    ZDoneIsPick(c, 1, 0, 1, 2);
    assert YDone(c, 1, 0, 0) == [Shift(c, 0, -1, 1)];
    assert YDone(c, 1, 0, 1) == [Shift(c, 0, -1, 1), Shift(c, 0, 0, 0)];
  }

  /** Column dx = 1 of the radius-1 disk around c: dy = -1 and dy = 0. */
  lemma RightColumnExample(c: Hex)
    ensures YDone(c, 1, 1, 2) == [Shift(c, 1, -1, 0), Shift(c, 1, 0, -1)]
  {
    ZDoneIsPick(c, 1, 1, -1, 2);
    ZDoneIsPick(c, 1, 1, 0, 2);
    ZDoneIsPick(c, 1, 1, 1, 2);
    assert YDone(c, 1, 1, 0) == [Shift(c, 1, -1, 0)];
    assert YDone(c, 1, 1, 1) == [Shift(c, 1, -1, 0), Shift(c, 1, 0, -1)];
  }

  /** The three columns of the radius-1 disk around offset 2311 (cube
      (23, -22, -1)), as the middle loop finds them.
      The literals arrive as parameters pinned by requires, so the verifier
      does not unfold the parser and the loops on them without bound. */
  lemma DiskColumnsExample(c: Hex)
    requires c == Hex(23, 11, 23, -22, -1)
    ensures && YDone(c, 1, -1, 2) == [Hex(22, 11, 22, -22, 0), Hex(22, 10, 22, -21, -1)]
            && YDone(c, 1, 0, 2) == [Hex(23, 12, 23, -23, 0), c, Hex(23, 10, 23, -21, -2)]
            && YDone(c, 1, 1, 2) == [Hex(24, 11, 24, -23, -1), Hex(24, 10, 24, -22, -2)]
  {
    LeftColumnExample(c);
    MiddleColumnExample(c);
    RightColumnExample(c);
  }

  /** The offset strings of the radius-1 disk around offset 2311. */
  lemma DiskOffsetsExample()
    ensures Offset(Hex(22, 11, 22, -22, 0)) == "2211"
    ensures Offset(Hex(22, 10, 22, -21, -1)) == "2210"
    ensures Offset(Hex(23, 12, 23, -23, 0)) == "2312"
    ensures Offset(Hex(23, 11, 23, -22, -1)) == "2311"
    ensures Offset(Hex(23, 10, 23, -21, -2)) == "2310"
    ensures Offset(Hex(24, 11, 24, -23, -1)) == "2411"
    ensures Offset(Hex(24, 10, 24, -22, -2)) == "2410"
  {
  }

  /** The cells of the radius-1 disk around offset 2311, in the order the
      loops find them. */
  const FoundNear2311: seq<Cell> :=
    [OffsetCell("2211"), OffsetCell("2210"), OffsetCell("2312"), OffsetCell("2311"),
     OffsetCell("2310"), OffsetCell("2411"), OffsetCell("2410")]

  /** The same cells in string order. */
  const Near2311: seq<Cell> :=
    [OffsetCell("2210"), OffsetCell("2211"), OffsetCell("2310"), OffsetCell("2311"),
     OffsetCell("2312"), OffsetCell("2410"), OffsetCell("2411")]

  /** The offset strings of that disk, in the order the loops find it. */
  lemma DiskCellsExample()
    ensures Cells([Hex(22, 11, 22, -22, 0), Hex(22, 10, 22, -21, -1),
               Hex(23, 12, 23, -23, 0), Hex(23, 11, 23, -22, -1), Hex(23, 10, 23, -21, -2),
               Hex(24, 11, 24, -23, -1), Hex(24, 10, 24, -22, -2)], OffsetFormat)
        == FoundNear2311
  {
    DiskOffsetsExample();
  }

  /** The radius-1 disk around offset 2311, as the loops find it.
      The literals arrive as parameters pinned by requires, so the verifier
      does not unfold the parser and the loops on them without bound. */
  lemma DiskExample(c: Hex)
    requires c == Hex(23, 11, 23, -22, -1)
    ensures Disk(c, 1)
         == [Hex(22, 11, 22, -22, 0), Hex(22, 10, 22, -21, -1),
             Hex(23, 12, 23, -23, 0), Hex(23, 11, 23, -22, -1), Hex(23, 10, 23, -21, -2),
             Hex(24, 11, 24, -23, -1), Hex(24, 10, 24, -22, -2)]
  {
    DiskColumnsExample(c);
    var left := [Hex(22, 11, 22, -22, 0), Hex(22, 10, 22, -21, -1)];
    var middle := [Hex(23, 12, 23, -23, 0), c, Hex(23, 10, 23, -21, -2)];
    var right := [Hex(24, 11, 24, -23, -1), Hex(24, 10, 24, -22, -2)];
    assert XDone(c, 1, 0) == left by {
      assert XDone(c, 1, -1) == [];
    }
    assert XDone(c, 1, 1) == left + middle;
    assert XDone(c, 1, 2) == left + middle + right;
  }

  /** The cells are listed in string order. */
  lemma SortedExample()
    ensures Sorted(Near2311)
  {
    StringLeAtFirstDifference("2210", "2211", 3);
    StringLeAtFirstDifference("2211", "2310", 1);
    StringLeAtFirstDifference("2310", "2311", 3);
    StringLeAtFirstDifference("2311", "2312", 3);
    StringLeAtFirstDifference("2312", "2410", 1);
    StringLeAtFirstDifference("2410", "2411", 3);
    SortedFromAdjacent(Near2311);
  }

  /** The loop order holds the same cells, each once. */
  lemma FoundExample()
    ensures NoDup(FoundNear2311) && NoDup(Near2311)
    ensures forall x :: x in FoundNear2311 <==> x in Near2311
  {
  }

  /** Python's sorted() on the cells of that disk. */
  lemma SortExample()
    ensures SortCells(FoundNear2311) == Near2311
  {
    SortedExample();
    FoundExample();
    SortCellsOfMembers(FoundNear2311, Near2311);
  }

  /** hexes_within_range('2311', 1, 'offset') lists the centre and its six
      neighbours in string order.
      The literals arrive as parameters pinned by requires, so the verifier
      does not unfold the parser and the loops on them without bound. */
  lemma WithinRangeExample(a: string)
    requires a == "2311"
    ensures var c := FromValue(Text(a));
            c.Ok? && SortCells(Cells(Disk(c.value, 1), OffsetFormat))
              == Near2311
  {
    ParsesTo(a, Hex(23, 11, 23, -22, -1));
    DiskExample(Hex(23, 11, 23, -22, -1));
    DiskCellsExample();
    SortExample();
  }

  /** The cubic triples of the radius-1 disk around (23, -22, -1), in the
      order the loops find them, which is already tuple order. */
  const CubesNear2311: seq<Cell> :=
    [CubeCell((22, -22, 0)), CubeCell((22, -21, -1)), CubeCell((23, -23, 0)), CubeCell((23, -22, -1)),
     CubeCell((23, -21, -2)), CubeCell((24, -23, -1)), CubeCell((24, -22, -2))]

  lemma DiskCubesExample()
    ensures Cells([Hex(22, 11, 22, -22, 0), Hex(22, 10, 22, -21, -1),
               Hex(23, 12, 23, -23, 0), Hex(23, 11, 23, -22, -1), Hex(23, 10, 23, -21, -2),
               Hex(24, 11, 24, -23, -1), Hex(24, 10, 24, -22, -2)], CubicFormat)
        == CubesNear2311
  {
  }

  lemma SortedCubesExample()
    ensures Sorted(CubesNear2311)
  {
    var cs := CubesNear2311;
    assert CellLe(cs[0], cs[1]) && CellLe(cs[1], cs[2]) && CellLe(cs[2], cs[3]);
    assert CellLe(cs[3], cs[4]) && CellLe(cs[4], cs[5]) && CellLe(cs[5], cs[6]);
    SortedFromAdjacent(cs);
  }

  lemma DistinctCubesExample()
    ensures NoDup(CubesNear2311)
  {
  }

  /** hexes_within_range(Hex((23, -22, -1)), 1, 'cubic') lists the seven
      triples in tuple order.
      The literals arrive as parameters pinned by requires, so the verifier
      does not unfold the parser and the loops on them without bound. */
  lemma WithinRangeCubicExample(t: seq<Element>)
    requires t == [Int(23), Int(-22), Int(-1)]
    ensures var c := FromValue(Tuple(t));
            c.Ok? && SortCells(Cells(Disk(c.value, 1), CubicFormat)) == CubesNear2311
  {
    CubeParsesTo(t, Hex(23, 11, 23, -22, -1));
    DiskExample(Hex(23, 11, 23, -22, -1));
    DiskCubesExample();
    SortedCubesExample();
    DistinctCubesExample();
    SortCellsOfMembers(CubesNear2311, CubesNear2311);
  }
}
