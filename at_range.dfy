/** hexes_at_range(hhex, dist, fmt): a walk of six legs of dist steps each,
    one leg per direction, listing every hex it stands on before a step,
    written in the chosen format and sorted. */
module AtRange {
  import opened HexGrid
  import opened Listing

  /** Where one stands after j steps from h in direction d, each step taken
      with neighbour(d). */
  function LegEnd(h: Hex, d: int, j: nat): (r: Hex)
    requires Valid(h) && 0 <= d < 6
    ensures Valid(r)
  {
    if j == 0 then h else Neighbour(LegEnd(h, d, j - 1), d).value
  }

  /** The hexes one leg lists: the n positions 0 .. n - 1 steps from h. */
  function Leg(h: Hex, d: int, n: nat): seq<Hex>
    requires Valid(h) && 0 <= d < 6
  {
    seq(n, j requires 0 <= j < n => LegEnd(h, d, j))
  }

  /** Where a walk from h0 with legs of n steps stands when leg d begins. */
  function Corner(h0: Hex, n: nat, d: int): (r: Hex)
    requires Valid(h0) && 0 <= d <= 6
    ensures Valid(r)
  {
    if d == 0 then h0 else LegEnd(Corner(h0, n, d - 1), d - 1, n)
  }

  /** The hexes a walk from h0 lists in its first d legs. */
  function WalkDone(h0: Hex, n: nat, d: int): seq<Hex>
    requires Valid(h0) && 0 <= d <= 6
  {
    if d == 0 then [] else WalkDone(h0, n, d - 1) + Leg(Corner(h0, n, d - 1), d - 1, n)
  }

  /** The number of steps range(0, dist) runs: none for a negative dist. */
  function Steps(dist: int): nat {
    if dist < 0 then 0 else dist
  }

  /** The first h_next, as written: (centre + direction 4) * dist. */
  function AsWrittenStart(c: Hex, dist: int): (r: Hex)
    requires Valid(c)
    ensures Valid(r)
  {
    Mul(Neighbour(c, 4).value, dist).value
  }

  /** The hexes hexes_at_range lists, in the order its loops find them. */
  function AsWrittenRing(c: Hex, dist: int): seq<Hex>
    requires Valid(c)
  {
    WalkDone(AsWrittenStart(c, dist), Steps(dist), 6)
  }

  /** The intended first h_next: n steps from the centre in direction 4,
      centre + direction 4 * n. */
  function RingStart(c: Hex, n: nat): (r: Hex)
    requires Valid(c)
    ensures Valid(r)
  {
    var k: int := n;
    Shift(c, k, -k, 0)
  }

  /** The walk with the intended start: the ring of hexes at distance dist. */
  function Ring(c: Hex, dist: int): seq<Hex>
    requires Valid(c)
  {
    WalkDone(RingStart(c, Steps(dist)), Steps(dist), 6)
  }

  method HexesAtRange(hhex: Value, dist: int, fmt: string) returns (r: Result<seq<Cell>>)
    requires WellFormed(hhex)
    ensures ParseFormat(fmt).Err? ==> r == Err(ValueError(BadFormat))
    ensures ParseFormat(fmt).Ok? && FromValue(hhex).Err? ==> r == Err(FromValue(hhex).error)
    ensures ParseFormat(fmt).Ok? && FromValue(hhex).Ok? ==>
              r == Ok(SortCells(Cells(AsWrittenRing(FromValue(hhex).value, dist), ParseFormat(fmt).value)))
  {
    var f :- ParseFormat(fmt);
    var centre :- FromValue(hhex);
    var hNext := Mul(Neighbour(centre, 4).value, dist).value;
    var hexes := ScanRing(hNext, dist, f);
    return Ok(SortCells(hexes));
  }

  /** hexes_at_range with the evidently intended start, centre + direction 4
      * dist: the walk is the ring of hexes at distance dist from the centre. */
  method CorrectedHexesAtRange(hhex: Value, dist: int, fmt: string) returns (r: Result<seq<Cell>>)
    requires WellFormed(hhex)
    ensures ParseFormat(fmt).Err? ==> r == Err(ValueError(BadFormat))
    ensures ParseFormat(fmt).Ok? && FromValue(hhex).Err? ==> r == Err(FromValue(hhex).error)
    ensures ParseFormat(fmt).Ok? && FromValue(hhex).Ok? ==>
              r == Ok(SortCells(Cells(Ring(FromValue(hhex).value, dist), ParseFormat(fmt).value)))
  {
    var f :- ParseFormat(fmt);
    var centre :- FromValue(hhex);
    var hNext := Add(centre, Mul(DirectionHex(4), dist).value).value;
    var hexes := ScanRing(hNext, dist, f);
    if dist >= 0 {
      CorrectedStart(centre, dist);
    } else {
      WalkSize(hNext, 0, 6);
      WalkSize(RingStart(centre, 0), 0, 6);
    }
    return Ok(SortCells(hexes));
  }

  /** The outer loop of hexes_at_range, over the six directions: the cells of
      the hexes the walk from start lists, in the order it lists them. */
  method ScanRing(start: Hex, dist: int, f: Format) returns (hexes: seq<Cell>)
    requires Valid(start)
    ensures hexes == Cells(WalkDone(start, Steps(dist), 6), f)
  {
    ghost var n := Steps(dist);
    hexes := [];
    var hNext := start;
    var direction := 0;
    while direction < 6
      invariant 0 <= direction <= 6
      invariant hNext == Corner(start, n, direction)
      invariant hexes == Cells(WalkDone(start, n, direction), f)
    {
      hNext, hexes := ScanLeg(hNext, direction, dist, f, WalkDone(start, n, direction), hexes);
      direction := direction + 1;
    }
  }

  /** The inner loop, dist steps in one direction: appends the cell of each
      hex stood on before a step and returns where the leg ends. */
  method ScanLeg(corner: Hex, direction: int, dist: int, f: Format, ghost before: seq<Hex>, hexes0: seq<Cell>)
    returns (hNext: Hex, hexes: seq<Cell>)
    requires Valid(corner) && 0 <= direction < 6
    requires hexes0 == Cells(before, f)
    ensures hNext == LegEnd(corner, direction, Steps(dist))
    ensures hexes == Cells(before + Leg(corner, direction, Steps(dist)), f)
  {
    ghost var n := Steps(dist);
    hexes := hexes0;
    hNext := corner;
    var j := 0;
    assert before + Leg(corner, direction, 0) == before;
    while j < dist
      invariant 0 <= j <= n
      invariant hNext == LegEnd(corner, direction, j)
      invariant hexes == Cells(before + Leg(corner, direction, j), f)
    {
      LegAppend(corner, direction, j);
      AppendAssociative(before, Leg(corner, direction, j), [hNext]);
      CellsAppend(before + Leg(corner, direction, j), hNext, f);
      // offset() or cube(), as fmt says
      hexes := hexes + [CellOf(hNext, f)];
      assert LegEnd(corner, direction, j + 1) == Neighbour(hNext, direction).value;
      hNext := Neighbour(hNext, direction).value;
      j := j + 1;
    }
  }

  lemma LegAppend(h: Hex, d: int, j: nat)
    requires Valid(h) && 0 <= d < 6
    ensures Leg(h, d, j + 1) == Leg(h, d, j) + [LegEnd(h, d, j)]
  {
  }

  /** One more step of a vector v: (j - 1) * v + v == j * v. */
  lemma StepProduct(j: int, v: int)
    ensures (j - 1) * v + v == j * v
  {
  }

  /** A coordinate j - 1 steps of v from start, moved by v once more, is j
      steps of v from start. */
  lemma OneMoreStep(start: int, before: int, after: int, j: int, v: int)
    requires before == start + (j - 1) * v && after == before + v
    ensures after == start + j * v
  {
    StepProduct(j, v);
  }

  /** After j steps in direction d one has moved j unit vectors of direction d. */
  lemma {:induction false} LegEndCube(h: Hex, d: int, j: nat)
    requires Valid(h) && 0 <= d < 6
    ensures LegEnd(h, d, j).x == h.x + j * Directions[d].0
    ensures LegEnd(h, d, j).y == h.y + j * Directions[d].1
    ensures LegEnd(h, d, j).z == h.z + j * Directions[d].2
    decreases j
  {
    if j == 0 {
      assert LegEnd(h, d, j) == h && j * Directions[d].0 == j * Directions[d].1 == j * Directions[d].2 == 0;
    } else {
      LegEndCube(h, d, j - 1);
      var before := LegEnd(h, d, j - 1);
      var after := Neighbour(before, d).value;
      var v := Directions[d];
      assert LegEnd(h, d, j) == after;
      assert after.x == before.x + v.0 && after.y == before.y + v.1 && after.z == before.z + v.2;
      OneMoreStep(h.x, before.x, after.x, j, v.0);
      OneMoreStep(h.y, before.y, after.y, j, v.1);
      OneMoreStep(h.z, before.z, after.z, j, v.2);
    }
  }

  /** A walk of d legs of n steps lists d * n hexes. */
  lemma {:induction false} WalkSize(h0: Hex, n: nat, d: int)
    requires Valid(h0) && 0 <= d <= 6
    ensures |WalkDone(h0, n, d)| == d * n
    decreases d
  {
    if d > 0 {
      WalkSize(h0, n, d - 1);
      var leg := Leg(Corner(h0, n, d - 1), d - 1, n);
      assert |leg| == n;
      assert WalkDone(h0, n, d) == WalkDone(h0, n, d - 1) + leg;
      StepProduct(d, n);
    }
  }

  /** The sum of the first d unit vectors (HeadingStep proves it is). */
  function Heading(d: int): (int, int, int)
    requires 0 <= d <= 6
  {
    if d == 0 then (0, 0, 0)
    else if d == 1 then (0, 1, -1)
    else if d == 2 then (-1, 2, -1)
    else if d == 3 then (-2, 2, 0)
    else if d == 4 then (-2, 1, 1)
    else if d == 5 then (-1, 0, 1)
    else (0, 0, 0)
  }

  lemma HeadingStep(n: int, d: int)
    requires 0 < d <= 6
    ensures n * Heading(d).0 == n * Heading(d - 1).0 + n * Directions[d - 1].0
    ensures n * Heading(d).1 == n * Heading(d - 1).1 + n * Directions[d - 1].1
    ensures n * Heading(d).2 == n * Heading(d - 1).2 + n * Directions[d - 1].2
  {
  }

  /** Leg d begins n unit vectors of each earlier direction away from the start. */
  lemma {:induction false} CornerCube(h0: Hex, n: nat, d: int)
    requires Valid(h0) && 0 <= d <= 6
    ensures Corner(h0, n, d).x == h0.x + n * Heading(d).0
    ensures Corner(h0, n, d).y == h0.y + n * Heading(d).1
    ensures Corner(h0, n, d).z == h0.z + n * Heading(d).2
    decreases d
  {
    if d == 0 {
      assert Heading(0) == (0, 0, 0) && n * 0 == 0;
    } else {
      CornerCube(h0, n, d - 1);
      LegEndCube(Corner(h0, n, d - 1), d - 1, n);
      HeadingStep(n, d);
    }
  }

  /** The six legs undo each other: the walk ends where it began, whatever
      the start and the leg length. */
  lemma WalkCloses(h0: Hex, n: nat)
    requires Valid(h0)
    ensures Corner(h0, n, 6) == h0
  {
    CornerCube(h0, n, 6);
    assert Heading(6) == (0, 0, 0);
    ValidDeterminedByCube(Corner(h0, n, 6), h0);
  }

  /** Where the j-th hex of leg d of a ring of radius n lies relative to
      the centre: n unit vectors of direction d + 4 (the leg's corner), then
      j unit vectors of direction d. */
  function LegOffset(n: int, d: int, j: int): (int, int, int)
    requires 0 <= d < 6
  {
    if d == 0 then (n, j - n, -j)
    else if d == 1 then (n - j, j, -n)
    else if d == 2 then (-j, n, j - n)
    else if d == 3 then (-n, n - j, j)
    else if d == 4 then (j - n, -j, n)
    else (j, -n, n - j)
  }

  /** The inverse of LegOffset on the ring of radius n: which leg lists the
      hex at cubic offset (a, b, c) from the centre, and at which step. Leg 6
      stands for none. */
  function RingLeg(a: int, b: int, c: int, n: int): (int, int) {
    if a == n && -n < c <= 0 then (0, -c)
    else if c == -n && 0 < a <= n then (1, n - a)
    else if b == n && -n < a <= 0 then (2, -a)
    else if a == -n && 0 <= c < n then (3, c)
    else if c == n && -n <= a < 0 then (4, a + n)
    else if b == -n && 0 <= a < n then (5, a)
    else (6, 0)
  }

  /** Every offset at distance n from the centre is listed by some leg. */
  lemma RingLegCovers(a: int, b: int, c: int, n: int)
    requires n >= 1 && a + b + c == 0 && Max(Max(Abs(a), Abs(b)), Abs(c)) == n
    ensures var (d, j) := RingLeg(a, b, c, n);
            0 <= d < 6 && 0 <= j < n && LegOffset(n, d, j) == (a, b, c)
  {
  }

  /** Each leg's hexes lie at distance n, and RingLeg recovers leg and step. */
  lemma RingLegOfOffset(n: int, d: int, j: int)
    requires n >= 1 && 0 <= d < 6 && 0 <= j < n
    ensures var (a, b, c) := LegOffset(n, d, j);
            && a + b + c == 0
            && Max(Max(Abs(a), Abs(b)), Abs(c)) == n
            && RingLeg(a, b, c, n) == (d, j)
  {
  }

  /** Leg d begins at n unit vectors of direction 4 plus n of each earlier
      direction. */
  lemma CornerOffset(n: int, d: int)
    requires 0 <= d < 6
    ensures LegOffset(n, d, 0).0 == n + n * Heading(d).0
    ensures LegOffset(n, d, 0).1 == -n + n * Heading(d).1
    ensures LegOffset(n, d, 0).2 == n * Heading(d).2
  {
  }

  /** Along leg d every step adds direction d's unit vector. */
  lemma LegOffsetAlong(n: int, d: int, j: int)
    requires 0 <= d < 6
    ensures LegOffset(n, d, j).0 == LegOffset(n, d, 0).0 + j * Directions[d].0
    ensures LegOffset(n, d, j).1 == LegOffset(n, d, 0).1 + j * Directions[d].1
    ensures LegOffset(n, d, j).2 == LegOffset(n, d, 0).2 + j * Directions[d].2
  {
  }

  /** With the intended start, the j-th hex of leg d lies at LegOffset(n, d, j)
      from the centre. */
  lemma LegHexDelta(c: Hex, n: nat, d: int, j: nat)
    requires Valid(c) && 0 <= d < 6
    ensures LegEnd(Corner(RingStart(c, n), n, d), d, j).x - c.x == LegOffset(n, d, j).0
    ensures LegEnd(Corner(RingStart(c, n), n, d), d, j).y - c.y == LegOffset(n, d, j).1
    ensures LegEnd(Corner(RingStart(c, n), n, d), d, j).z - c.z == LegOffset(n, d, j).2
  {
    var start := RingStart(c, n);
    var k: int := n;
    assert start.x == c.x + k && start.y == c.y - k && start.z == c.z;
    CornerCube(start, n, d);
    LegEndCube(Corner(start, n, d), d, j);
    CornerOffset(n, d);
    LegOffsetAlong(n, d, j);
  }

  /** The leg that lists h on the ring of radius n around c (6 if none). */
  function LegOf(c: Hex, h: Hex, n: int): int {
    RingLeg(h.x - c.x, h.y - c.y, h.z - c.z, n).0
  }

  /** The j-th hex of leg d of the ring of radius n around c, in closed form. */
  function RingHex(c: Hex, n: int, d: int, j: int): Hex
    requires 0 <= d < 6
  {
    Shift(c, LegOffset(n, d, j).0, LegOffset(n, d, j).1, LegOffset(n, d, j).2)
  }

  /** The hexes of leg d of the ring of radius n around c, in closed form. */
  function RingSide(c: Hex, n: nat, d: int): seq<Hex>
    requires 0 <= d < 6
  {
    seq(n, j requires 0 <= j < n => RingHex(c, n, d, j))
  }

  /** Walking from the intended start reaches the closed-form hexes. */
  lemma LegHexIsRingHex(c: Hex, n: nat, d: int, j: nat)
    requires Valid(c) && 0 <= d < 6
    ensures LegEnd(Corner(RingStart(c, n), n, d), d, j) == RingHex(c, n, d, j)
  {
    var g := LegEnd(Corner(RingStart(c, n), n, d), d, j);
    var (a, b, e) := LegOffset(n, d, j);
    var h := RingHex(c, n, d, j);
    LegHexDelta(c, n, d, j);
    assert a + b + e == 0;
    assert h.x == c.x + a && h.y == c.y + b && h.z == c.z + e;
    assert g.x == h.x && g.y == h.y && g.z == h.z;
    ValidDeterminedByCube(g, h);
  }

  /** With the intended start, leg d lists the closed-form side d. */
  lemma LegIsRingSide(c: Hex, n: nat, d: int)
    requires Valid(c) && 0 <= d < 6
    ensures Leg(Corner(RingStart(c, n), n, d), d, n) == RingSide(c, n, d)
  {
    var leg, side := Leg(Corner(RingStart(c, n), n, d), d, n), RingSide(c, n, d);
    forall j | 0 <= j < n
      ensures leg[j] == side[j]
    {
      LegHexIsRingHex(c, n, d, j);
    }
  }

  /** The j-th hex of side d lies at distance n, and RingLeg finds it on
      leg d at step j. */
  lemma RingHexOnRing(c: Hex, n: nat, d: int, j: int)
    requires Valid(c) && n >= 1 && 0 <= d < 6 && 0 <= j < n
    ensures var h := RingHex(c, n, d, j);
            && Valid(h) && HexDistance(c, h) == n
            && RingLeg(h.x - c.x, h.y - c.y, h.z - c.z, n) == (d, j)
  {
    var (a, b, e) := LegOffset(n, d, j);
    RingLegOfOffset(n, d, j);
    var h := RingHex(c, n, d, j);
    assert h.x - c.x == a && h.y - c.y == b && h.z - c.z == e;
  }

  /** The side hex at the offset of h from the centre is h itself. */
  lemma RingHexAt(c: Hex, n: int, d: int, j: int, h: Hex)
    requires Valid(c) && Valid(h) && 0 <= d < 6
    requires LegOffset(n, d, j) == (h.x - c.x, h.y - c.y, h.z - c.z)
    ensures RingHex(c, n, d, j) == h
  {
    ValidDeterminedByCube(RingHex(c, n, d, j), h);
  }

  /** A hex at distance n from the centre lies on some leg, at the offset
      that leg and step give. */
  lemma OnSomeLeg(c: Hex, h: Hex, n: int)
    requires Cube(c).0 + Cube(c).1 + Cube(c).2 == 0 && Cube(h).0 + Cube(h).1 + Cube(h).2 == 0
    requires n >= 1 && HexDistance(c, h) == n
    ensures var (d, j) := RingLeg(h.x - c.x, h.y - c.y, h.z - c.z, n);
            && 0 <= d < 6 && 0 <= j < n
            && LegOffset(n, d, j) == (h.x - c.x, h.y - c.y, h.z - c.z)
  {
    var a, b, e := h.x - c.x, h.y - c.y, h.z - c.z;
    assert a + b + e == 0;
    assert Abs(a) == Abs(c.x - h.x);
    assert Abs(b) == Abs(c.y - h.y);
    assert Abs(e) == Abs(c.z - h.z);
    RingLegCovers(a, b, e, n);
  }

  /** A hex at distance n on leg d is the side's hex at the step RingLeg
      names. */
  lemma RingHexFound(c: Hex, n: nat, d: int, h: Hex)
    requires Valid(c) && Valid(h) && n >= 1 && 0 <= d < 6
    requires HexDistance(c, h) == n && LegOf(c, h, n) == d
    ensures var j := RingLeg(h.x - c.x, h.y - c.y, h.z - c.z, n).1;
            0 <= j < n && RingHex(c, n, d, j) == h
  {
    OnSomeLeg(c, h, n);
    var leg := RingLeg(h.x - c.x, h.y - c.y, h.z - c.z, n);
    assert leg.0 == d;
    RingHexAt(c, n, d, leg.1, h);
  }

  /** Side d lists exactly the hexes at distance n that belong to leg d. */
  lemma SideMembers(c: Hex, n: nat, d: int)
    requires Valid(c) && n >= 1 && 0 <= d < 6
    ensures forall h :: h in RingSide(c, n, d) <==>
              Valid(h) && HexDistance(c, h) == n && LegOf(c, h, n) == d
  {
    var side := RingSide(c, n, d);
    forall j | 0 <= j < n
      ensures Valid(side[j]) && HexDistance(c, side[j]) == n && LegOf(c, side[j], n) == d
    {
      RingHexOnRing(c, n, d, j);
    }
    forall h | Valid(h) && HexDistance(c, h) == n && LegOf(c, h, n) == d
      ensures h in side
    {
      RingHexFound(c, n, d, h);
      var j := RingLeg(h.x - c.x, h.y - c.y, h.z - c.z, n).1;
      assert side[j] == h;
    }
  }

  /** No side lists a hex twice: RingLeg tells the steps apart. */
  lemma SideNoDup(c: Hex, n: nat, d: int)
    requires Valid(c) && n >= 1 && 0 <= d < 6
    ensures NoDup(RingSide(c, n, d))
  {
    var side := RingSide(c, n, d);
    forall i, j | 0 <= i < j < n
      ensures side[i] != side[j]
    {
      RingHexOnRing(c, n, d, i);
      RingHexOnRing(c, n, d, j);
    }
  }

  /** The first d legs of the intended walk list, once each, the hexes at
      distance n that belong to legs 0 .. d - 1. */
  lemma {:induction false} WalkMembers(c: Hex, n: nat, d: int)
    requires Valid(c) && n >= 1 && 0 <= d <= 6
    ensures forall h :: h in WalkDone(RingStart(c, n), n, d) <==>
              Valid(h) && HexDistance(c, h) == n && LegOf(c, h, n) < d
    ensures NoDup(WalkDone(RingStart(c, n), n, d))
    decreases d
  {
    if d > 0 {
      var prev := WalkDone(RingStart(c, n), n, d - 1);
      WalkMembers(c, n, d - 1);
      LegIsRingSide(c, n, d - 1);
      SideMembers(c, n, d - 1);
      SideNoDup(c, n, d - 1);
      NoDupAppend(prev, RingSide(c, n, d - 1));
    }
  }

  /** Every hex at distance n from the centre belongs to one of the six legs. */
  lemma EveryHexOnALeg(c: Hex, n: int)
    requires Valid(c) && n >= 1
    ensures forall h :: Valid(h) && HexDistance(c, h) == n ==> LegOf(c, h, n) < 6
  {
    forall h | Valid(h) && HexDistance(c, h) == n
      ensures LegOf(c, h, n) < 6
    {
      OnSomeLeg(c, h, n);
    }
  }

  /** The intended walk lists every hex at distance dist from the centre
      exactly once, 6 * dist hexes in all, and nothing when dist < 1. */
  lemma RingMembers(c: Hex, dist: int)
    requires Valid(c)
    ensures dist >= 1 ==> forall h :: h in Ring(c, dist) <==> Valid(h) && HexDistance(c, h) == dist
    ensures NoDup(Ring(c, dist))
    ensures |Ring(c, dist)| == 6 * Steps(dist)
  {
    var n := Steps(dist);
    WalkSize(RingStart(c, n), n, 6);
    if dist >= 1 {
      assert n == dist;
      WalkMembers(c, n, 6);
      EveryHexOnALeg(c, n);
    } else {
      assert Ring(c, dist) == [];
    }
  }

  /** The walk as written is the intended walk around centre * dist: the
      first h_next, (centre + direction 4) * dist, is dist steps in
      direction 4 from centre * dist. */
  lemma AsWrittenIsScaledRing(c: Hex, dist: int)
    requires Valid(c)
    ensures AsWrittenRing(c, dist) == Ring(Mul(c, dist).value, dist)
  {
    var m := Mul(c, dist).value;
    var n := Steps(dist);
    if dist >= 1 {
      AsWrittenStartIsRingStart(c, dist);
    } else {
      WalkSize(AsWrittenStart(c, dist), n, 6);
      WalkSize(RingStart(m, n), n, 6);
    }
  }

  lemma AsWrittenStartIsRingStart(c: Hex, dist: int)
    requires Valid(c) && dist >= 1
    ensures AsWrittenStart(c, dist) == RingStart(Mul(c, dist).value, dist)
  {
    var a, b := AsWrittenStart(c, dist), RingStart(Mul(c, dist).value, dist);
    ScaledStep(c.x, c.y, dist);
    assert a.x == b.x && a.y == b.y && a.z == b.z;
    ValidDeterminedByCube(a, b);
  }

  lemma ScaledStep(x: int, y: int, k: int)
    ensures (x + 1) * k == x * k + k && (y - 1) * k == y * k - k
  {
  }

  /** hexes_at_range lists 6 * dist cells in sorted order, and none when
      dist <= 0. */
  lemma AtRangeSize(c: Hex, dist: int, f: Format)
    requires Valid(c)
    ensures var r := SortCells(Cells(AsWrittenRing(c, dist), f));
            Sorted(r) && |r| == 6 * Steps(dist)
            && (dist <= 0 ==> r == [])
  {
    var cells := Cells(AsWrittenRing(c, dist), f);
    var r := SortCells(cells);
    WalkSize(AsWrittenStart(c, dist), Steps(dist), 6);
    assert |r| == |multiset(r)| == |multiset(cells)| == |cells|;
  }

  /** hexes_at_range lists exactly the cells of the hexes at distance dist
      from centre * dist. */
  lemma AtRangeMembers(c: Hex, dist: int, f: Format)
    requires Valid(c) && dist >= 1
    ensures var r := SortCells(Cells(AsWrittenRing(c, dist), f));
            forall x :: x in r <==>
              exists h :: Valid(h) && HexDistance(Mul(c, dist).value, h) == dist && x == CellOf(h, f)
  {
    AsWrittenIsScaledRing(c, dist);
    RingMembers(Mul(c, dist).value, dist);
    SortedCellsMembers(AsWrittenRing(c, dist), f);
  }

  /** No cell is listed twice: always in the cubic format, and in the offset
      format when the whole ring is on the 100 x 100 grid. */
  lemma AtRangeNoDup(c: Hex, dist: int, f: Format)
    requires Valid(c)
    requires f == OffsetFormat ==>
               forall h :: Valid(h) && HexDistance(Mul(c, dist).value, h) == dist ==> OnGrid(h)
    ensures NoDup(SortCells(Cells(AsWrittenRing(c, dist), f)))
  {
    var hs := AsWrittenRing(c, dist);
    AsWrittenIsScaledRing(c, dist);
    RingMembers(Mul(c, dist).value, dist);
    CellsNoDup(hs, f);
    NoDupPermutation(Cells(hs, f), SortCells(Cells(hs, f)));
  }

  /** centre + direction 4 * n is the intended first h_next. */
  lemma CorrectedStart(c: Hex, n: int)
    requires Valid(c) && n >= 0
    ensures Add(c, Mul(DirectionHex(4), n).value).value == RingStart(c, n)
  {
    var m := Mul(DirectionHex(4), n).value;
    assert 1 * n == n && -1 * n == -n && 0 * n == 0;
    assert Cube(m) == (n, -n, 0);
    ValidDeterminedByCube(Add(c, m).value, RingStart(c, n));
  }

  /** The corrected hexes_at_range lists 6 * dist cells in sorted order,
      exactly the cells of the hexes at distance dist from the centre, and
      in the cubic format (or on the grid) none twice. */
  lemma CorrectedAtRange(c: Hex, dist: int, f: Format)
    requires Valid(c)
    ensures var r := SortCells(Cells(Ring(c, dist), f));
            && Sorted(r) && |r| == 6 * Steps(dist)
            && (dist >= 1 ==>
                  forall x :: x in r <==> exists h :: Valid(h) && HexDistance(c, h) == dist && x == CellOf(h, f))
  {
    var cells := Cells(Ring(c, dist), f);
    var r := SortCells(cells);
    RingMembers(c, dist);
    assert |r| == |multiset(r)| == |multiset(cells)| == |cells|;
    SortedCellsMembers(Ring(c, dist), f);
  }

  lemma CorrectedAtRangeNoDup(c: Hex, dist: int, f: Format)
    requires Valid(c)
    requires f == OffsetFormat ==> forall h :: Valid(h) && HexDistance(c, h) == dist ==> OnGrid(h)
    ensures NoDup(SortCells(Cells(Ring(c, dist), f)))
  {
    var hs := Ring(c, dist);
    RingMembers(c, dist);
    if dist < 1 {
      assert hs == [];
    }
    CellsNoDup(hs, f);
    NoDupPermutation(Cells(hs, f), SortCells(Cells(hs, f)));
  }

  lemma MulByOne(c: Hex)
    requires Valid(c)
    ensures Mul(c, 1) == Ok(c)
  {
    assert c.x * 1 == c.x && c.y * 1 == c.y && c.z * 1 == c.z;
    ValidDeterminedByCube(Mul(c, 1).value, c);
  }

  /** The hexes at distance one are exactly the six neighbours. */
  lemma AdjacentAreNeighbours(c: Hex)
    requires Valid(c)
    ensures forall h :: Valid(h) && HexDistance(c, h) == 1 <==>
              exists d :: 0 <= d < 6 && h == Neighbour(c, d).value
  {
    forall h | Valid(h) && HexDistance(c, h) == 1
      ensures exists d :: 0 <= d < 6 && h == Neighbour(c, d).value
    {
      var d := AdjacentIsNeighbour(c, h);
    }
    forall d | 0 <= d < 6
      ensures HexDistance(c, Neighbour(c, d).value) == 1
    {
      NeighbourAtDistanceOne(c, d);
    }
  }

  /** The six neighbours of h, in direction order. */
  function Neighbours(h: Hex): (r: seq<Hex>)
    requires Valid(h)
    ensures |r| == 6
  {
    seq(6, d requires 0 <= d < 6 => Neighbour(h, d).value)
  }

  /** The walk as written with dist 1 lists exactly the six neighbours. */
  lemma UnitRingIsNeighbours(c: Hex)
    requires Valid(c)
    ensures forall h :: h in AsWrittenRing(c, 1) <==> h in Neighbours(c)
  {
    AsWrittenIsScaledRing(c, 1);
    MulByOne(c);
    RingMembers(c, 1);
    AdjacentAreNeighbours(c);
    forall h | h in Neighbours(c)
      ensures exists d :: 0 <= d < 6 && h == Neighbour(c, d).value
    {
      var d :| 0 <= d < 6 && Neighbours(c)[d] == h;
    }
    forall d | 0 <= d < 6
      ensures Neighbour(c, d).value in Neighbours(c)
    {
      assert Neighbours(c)[d] == Neighbour(c, d).value;
    }
  }

  /** With dist 1 the scaling is harmless: the listed cells are those of the
      six neighbours. */
  lemma AtRangeNeighbours(c: Hex, f: Format)
    requires Valid(c)
    ensures forall x :: x in SortCells(Cells(AsWrittenRing(c, 1), f)) <==> x in Cells(Neighbours(c), f)
  {
    UnitRingIsNeighbours(c);
    SortedCellsSameMembers(AsWrittenRing(c, 1), Neighbours(c), f);
  }

  /** '0605' is the hex (6, -8, 2). */
  lemma Parse0605()
    ensures FromValue(Text("0605")) == Ok(Hex(6, 5, 6, -8, 2))
    ensures Offset(Hex(6, 5, 6, -8, 2)) == "0605"
  {
    ParseFourDigits("0605", 6, 5);
    assert ColumnShift(6) == 3;
    OffsetStringRoundTrip("0605");
  }

  /** From '0202' with dist 2 the walk as written starts at (6, -8, 2). */
  lemma AsWrittenStartOf0202()
    ensures AsWrittenStart(Hex(2, 2, 2, -3, 1), 2) == Hex(6, 5, 6, -8, 2)
  {
    NeighbourOf0202(4);
    assert Mul(Hex(3, 3, 3, -4, 1), 2) == FromCube(6, -8, 2);
    assert ColumnShift(6) == 3;
  }

  /** (6, -8, 2) lies at distance 2 from '0202' * 2 = (4, -6, 2). */
  lemma ScaledCentreOf0202()
    ensures HexDistance(Mul(Hex(2, 2, 2, -3, 1), 2).value, Hex(6, 5, 6, -8, 2)) == 2
  {
    var m := Mul(Hex(2, 2, 2, -3, 1), 2).value;
    assert m.x == 4 && m.y == -6 && m.z == 2;
  }

  /** '0202' is the hex (2, -3, 1). */
  lemma Parse0202()
    ensures FromValue(Text("0202")) == Ok(Hex(2, 2, 2, -3, 1))
  {
    ParseFourDigits("0202", 2, 2);
    assert ColumnShift(2) == 1;
  }

  lemma Listed0605()
    ensures OffsetCell("0605") in SortCells(Cells(AsWrittenRing(Hex(2, 2, 2, -3, 1), 2), OffsetFormat))
  {
    Parse0605();
    ScaledCentreOf0202();
    ListedAtRange(Hex(2, 2, 2, -3, 1), 2, Hex(6, 5, 6, -8, 2), OffsetFormat);
  }

  /** hexes_at_range('0202', 2, 'offset') lists '0605', which lies at
      distance 5 from '0202', not 2: the walk circles '0404' = '0202' * 2. */
  lemma AsWrittenRingOf0202()
    ensures FromValue(Text("0202")) == Ok(Hex(2, 2, 2, -3, 1))
    ensures OffsetCell("0605") in SortCells(Cells(AsWrittenRing(Hex(2, 2, 2, -3, 1), 2), OffsetFormat))
    ensures Distance(Text("0202"), Text("0605")) == Ok(5)
  {
    Parse0202();
    Parse0605();
    Listed0605();
  }

  lemma ListedAtRange(c: Hex, dist: int, h: Hex, f: Format)
    requires Valid(c) && Valid(h) && dist >= 1 && HexDistance(Mul(c, dist).value, h) == dist
    ensures CellOf(h, f) in SortCells(Cells(AsWrittenRing(c, dist), f))
  {
    AtRangeMembers(c, dist, f);
  }

  /** The corrected walk from '0202' with dist 2 does not list (6, -8, 2). */
  lemma RingOf0202()
    ensures Hex(6, 5, 6, -8, 2) !in Ring(Hex(2, 2, 2, -3, 1), 2)
  {
    RingMembers(Hex(2, 2, 2, -3, 1), 2);
    assert HexDistance(Hex(2, 2, 2, -3, 1), Hex(6, 5, 6, -8, 2)) == 5;
  }

  /** The offset strings of the neighbours of '0202', in direction order. */
  const FoundAround0202: seq<Cell> :=
    seq(|OffsetsAround0202|, i requires 0 <= i < |OffsetsAround0202| => OffsetCell(OffsetsAround0202[i]))

  /** The same strings in string order. */
  const Around0202: seq<Cell> :=
    [OffsetCell("0102"), OffsetCell("0103"), OffsetCell("0201"),
     OffsetCell("0203"), OffsetCell("0302"), OffsetCell("0303")]

  lemma NeighbourListOf0202()
    ensures Neighbours(Hex(2, 2, 2, -3, 1)) == NeighbourHexesOf0202
  {
    forall d | 0 <= d < 6
      ensures Neighbours(Hex(2, 2, 2, -3, 1))[d] == NeighbourHexesOf0202[d]
    {
      NeighbourOf0202(d);
    }
  }

  lemma NeighbourOffsetsOf0202()
    ensures Offset(Hex(2, 1, 2, -2, 0)) == "0201"
    ensures Offset(Hex(1, 2, 1, -2, 1)) == "0102"
    ensures Offset(Hex(1, 3, 1, -3, 2)) == "0103"
    ensures Offset(Hex(2, 3, 2, -4, 2)) == "0203"
    ensures Offset(Hex(3, 3, 3, -4, 1)) == "0303"
    ensures Offset(Hex(3, 2, 3, -3, 0)) == "0302"
  {
  }

  lemma NeighbourCellsOf0202()
    ensures Cells(NeighbourHexesOf0202, OffsetFormat) == FoundAround0202
    ensures forall h :: h in NeighbourHexesOf0202 ==> OnGrid(h)
  {
    NeighbourOffsetsOf0202();
  }

  lemma SortedAround0202()
    ensures Sorted(Around0202)
  {
    StringLeAtFirstDifference("0102", "0103", 3);
    StringLeAtFirstDifference("0103", "0201", 1);
    StringLeAtFirstDifference("0201", "0203", 3);
    StringLeAtFirstDifference("0203", "0302", 1);
    StringLeAtFirstDifference("0302", "0303", 3);
    SortedFromAdjacent(Around0202);
  }

  lemma FoundAround0202Example()
    ensures NoDup(Around0202)
    ensures forall x :: x in FoundAround0202 <==> x in Around0202
  {
    var found := FoundAround0202;
    assert |found| == 6;
    assert found[0] == OffsetCell("0201") && found[1] == OffsetCell("0102") && found[2] == OffsetCell("0103");
    assert found[3] == OffsetCell("0203") && found[4] == OffsetCell("0303") && found[5] == OffsetCell("0302");
    assert found == [OffsetCell("0201"), OffsetCell("0102"), OffsetCell("0103"),
                     OffsetCell("0203"), OffsetCell("0303"), OffsetCell("0302")];
  }

  /** With dist 1 the sorted list is the neighbours' cells in sorted order,
      when those are distinct (always in the cubic format, on the grid in
      the offset format). */
  lemma AtRangeOneSorted(c: Hex, f: Format, sorted: seq<Cell>)
    requires Valid(c)
    requires f == OffsetFormat ==> forall h :: h in Neighbours(c) ==> OnGrid(h)
    requires Sorted(sorted) && NoDup(sorted)
    requires forall x :: x in Cells(Neighbours(c), f) <==> x in sorted
    ensures SortCells(Cells(AsWrittenRing(c, 1), f)) == sorted
  {
    var hs := AsWrittenRing(c, 1);
    UnitRingIsNeighbours(c);
    AsWrittenIsScaledRing(c, 1);
    MulByOne(c);
    RingMembers(c, 1);
    CellsNoDup(hs, f);
    CellsMembers(hs, f);
    CellsMembers(Neighbours(c), f);
    SortCellsOfMembers(Cells(hs, f), sorted);
  }

  /** hexes_at_range('0202', 1, 'offset') lists the six neighbours of '0202'
      in string order.
      The literals arrive as parameters pinned by requires, so the verifier
      does not unfold the parser and the loops on them without bound. */
  lemma AtRangeExample(a: string)
    requires a == "0202"
    ensures var c := FromValue(Text(a));
            c.Ok? && SortCells(Cells(AsWrittenRing(c.value, 1), OffsetFormat)) == Around0202
  {
    var c := Hex(2, 2, 2, -3, 1);
    ParsesTo(a, c);
    NeighbourListOf0202();
    NeighbourCellsOf0202();
    SortedAround0202();
    FoundAround0202Example();
    AtRangeOneSorted(c, OffsetFormat, Around0202);
  }
}
