# hex_grid in Dafny

A model of `hex_grid.py`, a small Python module for the "odd-q" hexagonal
maps of Traveller-style games. A cell is named in two ways. One is a
four-digit offset string `CCRR` (column, row). The other is a cubic triple
`(x, y, z)` with `x + y + z == 0`.

The model covers:

- the `Hex` constructor, which accepts another Hex, an offset string or a
  cubic tuple, and raises `ValueError` or `AssertionError` on bad input;
- the conversions between the two views;
- `offset()`, equality and inequality;
- vector addition, subtraction and scaling;
- `neighbour(direction)`;
- `distance()`;
- the two range queries `hexes_within_range` and `hexes_at_range`.

Files:

- `decimal.dfy` (module `Decimal`): the digit strings read by `int()` and
  written by `'{:02d}'`.
- `hex_grid.dfy` (module `HexGrid`): the `Hex` value, its construction, its
  arithmetic, neighbours and distance.
- `listing.dfy` (module `Listing`): the `fmt` argument, the cells of a result
  list, and Python's `sorted()` on strings and on int triples.
- `within_range.dfy` (module `WithinRange`): `hexes_within_range`. Its triple
  loop is a method proved against the recursive functions `ZDone`, `YDone`
  and `XDone`. Those functions describe what each loop level has collected.
- `at_range.dfy` (module `AtRange`): `hexes_at_range`. Its walk of six legs
  is a method proved against `Leg`, `Corner` and `WalkDone`.

`Hex` objects are values here. The source never changes a Hex after
`__init__`, so a datatype `Hex(col, row, x, y, z)` with the invariant
`Valid` takes the object's place. The exceptions become
`Result<T> = Ok(value) | Err(error)`, and the error says which exception
(`ValueError` or `AssertionError`) and why.

## Model

| member | source | states |
|---|---|---|
| HexGrid.FromValue | hex_grid.py:13-59 | copying a Hex gives that Hex; every Hex the constructor builds is valid (sum zero, offset view is the odd-q image of the cubic view) |
| HexGrid.FromOffsetString | hex_grid.py:30-38 | a string is accepted exactly when it matches `^[0-9]{4}$` (a final newline included, as `re.match` allows); otherwise ValueError; the result is valid |
| HexGrid.FromCube | hex_grid.py:47-51 | a triple is accepted exactly when it sums to zero, and kept as given; otherwise AssertionError('Invalid co-ordinates') |
| HexGrid.FromTuple | hex_grid.py:39-55 | a tuple that is not three ints is a ValueError; three ints go on to the sum check |
| HexGrid.ConstructionErrors | hex_grid.py:30-59 | which input gives which error, in both directions: bad string, bad tuple, other type (ValueError) and non-zero sum (AssertionError), and only a tuple of three ints ever gives an AssertionError |
| HexGrid.DefaultIsOrigin | hex_grid.py:13 | `Hex()` with the default "0000" is the origin (0, 0, 0) |
| HexGrid.CubeRoundTrip | hex_grid.py:39-51 | a zero-sum triple is accepted and `cube()` gives it back |
| HexGrid.Cube | hex_grid.py:66-68 | the triple of a valid hex sums to zero |
| HexGrid.OffsetToCube | hex_grid.py:74-79 | the derived hex is valid and keeps the column and row |
| HexGrid.CubeToOffset | hex_grid.py:81-84 | the derived hex keeps the triple and is valid when the triple sums to zero |
| HexGrid.ColumnShift | hex_grid.py:77 | `(c + (c & 1)) / 2` is an exact half, for negative columns too |
| HexGrid.ConversionRoundTrip | hex_grid.py:74-84 | offset to cube to offset, and cube to offset to cube, give back the starting hex |
| HexGrid.ValidDeterminedByCube | hex_grid.py:81-84 | two valid hexes with the same triple are the same hex |
| HexGrid.OffsetLength | hex_grid.py:70-72 | `offset()` has at least four characters, and exactly four when column and row are within -9..99 |
| HexGrid.OffsetStringRoundTrip | hex_grid.py:30-34 | a four-digit string parses to the column and row it spells, the hex is on the 100 x 100 grid, and `offset()` gives the four digits back |
| HexGrid.OffsetOfHexRoundTrip | hex_grid.py:70-72 | an on-grid valid hex prints as four digits that parse back to that hex |
| HexGrid.OffsetPatternIffOnGrid | hex_grid.py:70-72 | `offset()` matches the constructor's pattern exactly when the hex is on the grid |
| HexGrid.OffsetInjectiveOnGrid | hex_grid.py:70-72 | on the grid, different hexes print differently |
| HexGrid.Valid | hex_grid.py:74-84 | definition: the triple sums to zero and the offset view is the odd-q image of the cubic view; pinned down by OffsetToCube, CubeToOffset, ValidDeterminedByCube and ConversionRoundTrip |
| HexGrid.MatchesOffsetPattern | hex_grid.py:31 | definition of `re.match('^[0-9][0-9][0-9][0-9]$', s)`; pinned down by FromOffsetString, ConstructionErrors and OffsetPatternIffOnGrid |
| HexGrid.IsIntTriple | hex_grid.py:40-45 | definition of the tuple shape check (length 3, every item an int); pinned down by FromTuple and ConstructionErrors |
| HexGrid.Offset | hex_grid.py:70-72 | definition of `'{:02d}{:02d}'.format(col, row)`; pinned down by OffsetLength, OffsetStringRoundTrip, OffsetOfHexRoundTrip, OffsetPatternIffOnGrid and OffsetInjectiveOnGrid |
| HexGrid.Eq | hex_grid.py:104-106 | on valid hexes, `==` holds exactly when the hexes are equal |
| HexGrid.Ne | hex_grid.py:108-110 | `!=` is the negation of `==` |
| HexGrid.Shift | hex_grid.py:154-155 | the hex at a cubic offset has the shifted triple and is valid when the offsets sum to zero |
| HexGrid.Add | hex_grid.py:112-115 | adding valid hexes succeeds with a valid hex whose triple is the componentwise sum |
| HexGrid.Sub | hex_grid.py:117-120 | subtracting valid hexes succeeds with a valid hex whose triple is the componentwise difference |
| HexGrid.Mul | hex_grid.py:122-125 | scaling a valid hex succeeds with the scaled triple |
| HexGrid.AddThenSub | hex_grid.py:112-120 | `(a + b) - b == a` |
| HexGrid.SubThenAdd | hex_grid.py:112-120 | `(a - b) + b == a` |
| HexGrid.AddCommutes | hex_grid.py:112-115 | `a + b == b + a` |
| HexGrid.MulByZero | hex_grid.py:122-125 | `h * 0` is the origin |
| HexGrid.Neighbour | hex_grid.py:86-102 | a direction outside 0..5 is an AssertionError; otherwise the result is valid and is one unit vector away |
| HexGrid.NeighbourAtDistanceOne | hex_grid.py:86-102 | every neighbour is at distance 1 |
| HexGrid.DirectionHex | hex_grid.py:19-21 | the hex for direction d is valid and has d's unit vector as its triple |
| HexGrid.NeighbourIsAdd | hex_grid.py:86-102 | `neighbour(d)` is `self + Hex(directions[d])` |
| HexGrid.AdjacentIsNeighbour | hex_grid.py:86-102 | every hex at distance 1 is the neighbour in exactly one direction |
| HexGrid.HexDistance | hex_grid.py:133-136 | the distance bounds every coordinate difference, equals one of them, and is 0 exactly for `==` hexes |
| HexGrid.Distance | hex_grid.py:128-136 | both arguments are constructed, h1 first (its error wins); then the distance is that of the two hexes |
| HexGrid.DistanceSymmetric | hex_grid.py:128-136 | `distance(a, b) == distance(b, a)` |
| HexGrid.DistanceTriangle | hex_grid.py:128-136 | the triangle inequality |
| HexGrid.DistanceZeroIffEqual | hex_grid.py:104-136 | the distance is 0 exactly when `==` holds, and non-zero exactly when `!=` holds |
| HexGrid.Example2411 | tests/test_hex_grid.py:60-74 | '2411' and (24, -23, -1) name the same hex; cube() and offset() give each back |
| HexGrid.ConstructionErrorExamples | tests/test_hex_grid.py:40-58 | (1, 1, 1) raises AssertionError; a list or other type raises ValueError |
| HexGrid.AddExample | tests/test_hex_grid.py:80-84 | `Hex('0101') + Hex((0, 1, -1)) == Hex('0100')` |
| HexGrid.SubExample | tests/test_hex_grid.py:94-98 | `Hex('0101') - Hex((0, 1, -1)) == Hex('0102')` |
| HexGrid.MulExample | tests/test_hex_grid.py:108-110 | `Hex('0001') * 3 == Hex('0003')` |
| HexGrid.NeighbourExample | tests/test_hex_grid.py:170-177 | the neighbours of '0202' in directions 0..5 are 0201, 0102, 0103, 0203, 0303, 0302 |
| HexGrid.DistanceExamples | tests/test_hex_grid.py:194-204 | `distance('2411', '2512') == 1` and `distance((24, -23, -1), (25, -25, 0)) == 2` |
| Decimal.DecimalValue | hex_grid.py:32-33 | definition of `int()` on a digit string; pinned down by DigitsValue, TwoDigitsValue and Pad2OfTwoDigits |
| Decimal.Pad2 | hex_grid.py:72 | definition of `'{:02d}'`; pinned down by Pad2Value and Pad2OfTwoDigits |
| Decimal.DigitsValue | hex_grid.py:32-33 | the numeral of n is all digits and `int()` reads it back as n |
| Decimal.Pad2Value | hex_grid.py:72 | `'{:02d}'` gives at least two characters, exactly two for -9..99, all digits exactly for n >= 0, and reads back as n |
| Decimal.Pad2OfTwoDigits | hex_grid.py:32-33 | formatting the value of two digits gives the two digits back |
| Listing.ParseFormat | hex_grid.py:146-147 | "offset" and "cubic" select the format; anything else is a ValueError |
| Listing.CellOf | hex_grid.py:156-159 | definition: `offset()` or `cube()` as fmt says; pinned down by CellOfInjective, CellsMembers and CellsNoDup |
| Listing.StringLe | hex_grid.py:160 | definition of Python's `<=` on str; pinned down by StringLeTotal, StringLeAntisymmetric, StringLeTransitive and StringLeAtFirstDifference |
| Listing.TripleLe | hex_grid.py:160 | definition of Python's `<=` on int triples (lexicographic); pinned down by CellLeTotalOrder |
| Listing.CellOfInjective | hex_grid.py:156-159 | two valid hexes give the same cell exactly when they are equal, on the grid in the offset format |
| Listing.CellsMembers | hex_grid.py:156-159 | a cell is listed exactly when it is the cell of a listed hex |
| Listing.CellsNoDup | hex_grid.py:156-159 | distinct hexes give distinct cells, on the grid in the offset format |
| Listing.CellLeTotalOrder | hex_grid.py:160 | the order `sorted()` uses on a result list is total, antisymmetric and transitive |
| Listing.StringLeAtFirstDifference | hex_grid.py:160 | between strings the first differing character decides |
| Listing.Insert | hex_grid.py:160 | inserting into a sorted list keeps it sorted and adds exactly the one cell |
| Listing.SortCells | hex_grid.py:160 | `sorted()` returns a sorted permutation of its argument |
| Listing.SortedUnique | hex_grid.py:160 | two sorted permutations of the same list are equal, so the sorted result is unique |
| Listing.SortKeepsMembers | hex_grid.py:160 | sorting keeps exactly the members it was given |
| Listing.SortCellsOfMembers | hex_grid.py:160 | a sorted list without repeats, holding the members of a list without repeats, is what `sorted()` returns for it |
| WithinRange.Disk | hex_grid.py:150-155 | definition: the hexes the triple loop keeps, in loop order; pinned down by ScanDisk, DiskMembers, DiskNoDup and DiskSizeIs |
| WithinRange.HexesWithinRange | hex_grid.py:139-160 | a bad format, then a bad centre, are the errors, in that order; otherwise the result is the sorted cells of the disk, in loop order before sorting |
| WithinRange.ScanDisk | hex_grid.py:150-159 | the triple loop collects the cells of the hexes the loops visit, in their order |
| WithinRange.ScanColumn | hex_grid.py:151-159 | the middle loop appends what the inner loop keeps for each dy |
| WithinRange.ScanLine | hex_grid.py:152-159 | the inner loop appends the one hex whose offsets sum to zero, if any |
| WithinRange.ZStep | hex_grid.py:153-155 | one inner pass keeps the hex exactly when the offsets sum to zero |
| WithinRange.DiskMembers | hex_grid.py:150-155 | the loops visit exactly the valid hexes within dist of the centre |
| WithinRange.DiskNoDup | hex_grid.py:150-155 | the loops visit no hex twice |
| WithinRange.DiskSizeIs | hex_grid.py:150-155 | the loops visit 3 * dist * (dist + 1) + 1 hexes, none for a negative dist |
| WithinRange.ColumnSize | hex_grid.py:151-155 | column dx holds 2 * dist + 1 - abs(dx) hexes |
| WithinRange.WithinRangeSize | hex_grid.py:139-160 | the result is sorted and has 3 * dist * (dist + 1) + 1 cells |
| WithinRange.WithinRangeMembers | hex_grid.py:139-160 | the result lists exactly the cells of the hexes within dist |
| WithinRange.WithinRangeNoDup | hex_grid.py:139-160 | no cell is listed twice in the cubic format, and in the offset format when the disk is on the grid |
| WithinRange.WithinRangeSmall | hex_grid.py:139-160 | with dist 0 only the centre is listed; with a negative dist nothing is |
| WithinRange.WithinRangeExample | tests/test_hex_grid.py:223-227 | `hexes_within_range(Hex('2311'), 1, 'offset')` is ['2210', '2211', '2310', '2311', '2312', '2410', '2411'] |
| WithinRange.WithinRangeCubicExample | tests/test_hex_grid.py:210-221 | `hexes_within_range(Hex((23, -22, -1)), 1, 'cubic')` is the seven triples of the test, in tuple order |
| AtRange.AsWrittenStart | hex_grid.py:175 | the first `h_next`, `h_centre.neighbour(4) * dist`, is a valid hex; pinned down by AsWrittenStartIsRingStart (it is dist steps in direction 4 from centre * dist) and AsWrittenStartOf0202 |
| AtRange.AsWrittenStartIsRingStart | hex_grid.py:175 | for dist >= 1 the first `h_next` is the intended start of the ring around centre * dist |
| AtRange.AsWrittenRing | hex_grid.py:172-183 | definition: the hexes the walk as written lists, in loop order; pinned down by ScanRing, AsWrittenIsScaledRing, AtRangeSize and AtRangeMembers |
| AtRange.RingStart | hex_grid.py:175 | the intended first `h_next`, n steps in direction 4 from the centre, is a valid hex; pinned down by CorrectedStart |
| AtRange.Ring | hex_grid.py:172-183 | definition: the walk from the intended start; pinned down by RingMembers |
| AtRange.HexesAtRange | hex_grid.py:163-183 | a bad format, then a bad centre, are the errors; otherwise the result is the sorted cells of the walk as written |
| AtRange.ScanRing | hex_grid.py:176-182 | the direction loop lists the six legs in turn, each from the corner where the last one ended |
| AtRange.ScanLeg | hex_grid.py:177-182 | the step loop lists the hex it stands on before each of dist steps and ends dist steps further on |
| AtRange.LegEndCube | hex_grid.py:182 | after j steps in direction d one has moved j unit vectors of d |
| AtRange.WalkSize | hex_grid.py:176-177 | a walk of six legs of n steps lists 6 * n hexes |
| AtRange.WalkCloses | hex_grid.py:176-182 | the six legs bring the walk back to where it began |
| AtRange.RingMembers | hex_grid.py:163-183 | the walk with the intended start lists every hex at distance dist once, 6 * dist in all |
| AtRange.AsWrittenIsScaledRing | hex_grid.py:175 | the walk as written is the intended walk around centre * dist |
| AtRange.AtRangeSize | hex_grid.py:163-183 | the result is sorted, has 6 * dist cells, and is empty when dist <= 0 |
| AtRange.AtRangeMembers | hex_grid.py:163-183 | the result lists exactly the cells of the hexes at distance dist from centre * dist |
| AtRange.AtRangeNoDup | hex_grid.py:163-183 | no cell is listed twice, in the offset format when the ring is on the grid |
| AtRange.AdjacentAreNeighbours | hex_grid.py:86-102 | the hexes at distance 1 are exactly the six neighbours |
| AtRange.UnitRingIsNeighbours | hex_grid.py:175-182 | with dist 1 the walk lists exactly the six neighbours |
| AtRange.AtRangeNeighbours | hex_grid.py:163-183 | with dist 1 the result lists exactly the cells of the six neighbours |
| AtRange.AtRangeOneSorted | hex_grid.py:163-183 | with dist 1 the result is the neighbours' cells in sorted order |
| AtRange.AtRangeExample | tests/test_hex_grid.py:233-237 | `hexes_at_range('0202', 1, 'offset')` is ['0102', '0103', '0201', '0203', '0302', '0303'] |
| AtRange.AsWrittenRingOf0202 | hex_grid.py:175 | `hexes_at_range('0202', 2, 'offset')` lists '0605', which is at distance 5 from '0202' |
| AtRange.CorrectedHexesAtRange | hex_grid.py:163-183 | the same errors as the source; otherwise the sorted cells of the ring of radius dist around the centre |
| AtRange.CorrectedStart | hex_grid.py:175 | centre + direction 4 * dist is the start of the intended walk |
| AtRange.CorrectedAtRange | hex_grid.py:163-183 | the corrected result is sorted, has 6 * dist cells, and lists exactly the cells of the hexes at distance dist from the centre |
| AtRange.CorrectedAtRangeNoDup | hex_grid.py:163-183 | the corrected result lists no cell twice, in the offset format when the ring is on the grid |
| AtRange.RingOf0202 | hex_grid.py:175 | the corrected walk from '0202' with dist 2 does not list '0605' |

## Left out

- `__repr__` (lines 61-64): it is only used for display.
- Python's dynamic types are reduced to the shapes the constructor tells
  apart: `Value` (Hex, string, tuple, other) and `Element` (int or not).
  `bool`, which Python counts as an `int`, is not told apart from an int.
- The `isinstance` assertions of `__eq__`, `__ne__`, `__add__`, `__sub__`,
  `__mul__` and `neighbour` are enforced by the types. A non-Hex operand, a non-int factor
  and a non-int direction cannot be written. A direction outside 0..5 is
  modelled.
- The model follows Python's default mode, in which `assert` statements run.
  Under `python -O` the asserts of lines 50 and 97 disappear: `Hex((1, 1, 1))`
  would then be accepted, `neighbour(-1)` would return the neighbour in
  direction 5, and `neighbour(6)` would raise IndexError. That mode is not
  modelled.
- `/` in lines 77 and 84 is float division followed by `int()`. The
  numerator is even, so the model's exact halving agrees wherever the float
  is exact (below 2^53).
- Copying a Hex (lines 24-29) is trusted to copy a valid Hex.
  `HexesWithinRange` and `HexesAtRange` require `WellFormed(hhex)` for that
  reason: every Hex the source creates went through `__init__`.
- The loops of both range queries are modelled as one method per loop level
  (`ScanDisk`/`ScanColumn`/`ScanLine`, `ScanRing`/`ScanLeg`). The
  `if fmt == 'offset'` branch inside the loops is `Listing.CellOf`.
- A result list holds cells of one kind only, so how `sorted()` would compare
  a string with a tuple is never needed. `CellLe` fixes an arbitrary order
  across kinds.
- WithinRange.WithinRangeNoDup: in the offset format, stated only for disks
  on the 100 x 100 grid. Off the grid `'{:02d}'` can print two hexes alike
  (column 12, row 345 and column 123, row 45 both print "12345").
- AtRange.AtRangeNoDup and AtRange.CorrectedAtRangeNoDup: the same
  restriction, for rings.
- `hexes_at_range` with dist 0 returns an empty list (the loop over `j` never
  runs). It does not return the centre; `AtRangeSize` states the empty list.

## Findings

| source | as written | input that shows it | evidently intended | confidence | as-written member | corrected member |
|---|---|---|---|---|---|---|
| hex_grid.py:175 | `h_next = h_centre.neighbour(4) * dist` scales the centre as well as the step, so the walk circles `centre * dist` | `hexes_at_range('0202', 2, 'offset')` lists '0605', which is at distance 5 from '0202' (the walk circles '0404') | `h_next = h_centre + Hex(directions[4]) * dist`: the ring of hexes at distance dist from the centre | not executed | AtRange.AsWrittenRingOf0202 | AtRange.CorrectedAtRange |

For dist 1 the two agree, because `neighbour(4) * 1` is the neighbour
itself. So the list that the repository's one test of `hexes_at_range`
expects is what the code as written returns (`AtRange.AtRangeExample`). `AtRange.AsWrittenIsScaledRing` proves that
the walk as written is always the intended ring around `centre * dist`.
`AtRange.CorrectedHexesAtRange` is the corrected query.
