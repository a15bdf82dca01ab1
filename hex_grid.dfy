/** The Hex coordinate value of hex_grid.py: one cell of an "odd-q" hexagonal
    grid held in two views at once, the offset view (col, row) and the cubic
    view (x, y, z) with x + y + z == 0, together with construction from the
    three accepted input shapes, arithmetic, neighbours, equality and distance. */
module HexGrid {
  import opened Decimal

  /** Why a ValueError is raised. */
  datatype ValueErrorCause =
    | BadOffsetString   // a string that is not four decimal digits
    | BadTuple          // a tuple that is not three ints
    | BadInputType      // neither a Hex, a string nor a tuple
    | BadFormat         // a range query's format is neither "offset" nor "cubic"

  /** Why an AssertionError is raised. */
  datatype AssertionCause =
    | InvalidCoordinates  // a cubic triple whose sum is not zero
    | InvalidDirection    // a neighbour direction outside 0..5

  /** The two families of exceptions the module raises. */
  datatype Error =
    | ValueError(valueCause: ValueErrorCause)
    | AssertionError(assertionCause: AssertionCause)

  datatype Result<+T> = Ok(value: T) | Err(error: Error) {
    predicate IsFailure() {
      Err?
    }

    function PropagateFailure<U>(): Result<U>
      requires Err?
    {
      Err(error)
    }

    function Extract(): T
      requires Ok?
    {
      value
    }
  }

  /** One cell. Python stores the five numbers as attributes of the object. */
  datatype Hex = Hex(col: int, row: int, x: int, y: int, z: int)

  /** An element of a Python tuple handed to the constructor. */
  datatype Element = Int(n: int) | NonInt

  /** What the constructor accepts, and what distance() and the range queries
      normalise through it: another Hex, a string, a tuple, or anything else. */
  datatype Value =
    | HexValue(hex: Hex)
    | Text(s: string)
    | Tuple(items: seq<Element>)
    | Other

  /** The odd-q column shift (c + (c & 1)) / 2. The numerator is even, so the
      halving is exact; Python's c & 1 is the Euclidean c % 2, also for c < 0. */
  function ColumnShift(c: int): (k: int)
    ensures 2 * k == c + c % 2
  {
    (c + c % 2) / 2
  }

  /** The invariant every constructed Hex keeps: the cubic triple sums to zero
      and the offset view is the odd-q image of the cubic view. */
  predicate Valid(h: Hex) {
    var Hex(col, row, x, y, z) := h;
    x + y + z == 0 && col == x && row == z + ColumnShift(x)
  }

  /** A Python Value whose Hex, if it holds one, is a constructed one. */
  predicate WellFormed(v: Value) {
    v.HexValue? ==> Valid(v.hex)
  }

  function Cube(h: Hex): (t: (int, int, int))
    ensures Valid(h) ==> t.0 + t.1 + t.2 == 0
  {
    (h.x, h.y, h.z)
  }

  /** Two valid hexes with the same cubic triple are the same value. */
  lemma ValidDeterminedByCube(a: Hex, b: Hex)
    requires Valid(a) && Valid(b) && Cube(a) == Cube(b)
    ensures a == b
  {
  }

  /** offset_to_cube: the cubic view derived from the offset view. */
  function OffsetToCube(col: int, row: int): (h: Hex)
    ensures Valid(h) && h.col == col && h.row == row
  {
    var x := col;
    var z := row - ColumnShift(col);
    Hex(col, row, x, -x - z, z)
  }

  /** cube_to_offset: the offset view derived from the cubic view. */
  function CubeToOffset(x: int, y: int, z: int): (h: Hex)
    ensures Cube(h) == (x, y, z)
    ensures x + y + z == 0 ==> Valid(h)
  {
    Hex(x, z + ColumnShift(x), x, y, z)
  }

  /** Converting offset to cube and back, or cube to offset and back, gives
      the hex one started from. */
  lemma ConversionRoundTrip(col: int, row: int, x: int, y: int, z: int)
    ensures var h := OffsetToCube(col, row); CubeToOffset(h.x, h.y, h.z) == h
    ensures x + y + z == 0 ==> var h := CubeToOffset(x, y, z); OffsetToCube(h.col, h.row) == h
  {
    var h := OffsetToCube(col, row);
    ValidDeterminedByCube(CubeToOffset(h.x, h.y, h.z), h);
    if x + y + z == 0 {
      var g := CubeToOffset(x, y, z);
      ValidDeterminedByCube(OffsetToCube(g.col, g.row), g);
    }
  }

  /** Python's re.match('^[0-9][0-9][0-9][0-9]$', s): four decimal digits; the
      '$' also matches in front of a single final newline. */
  predicate MatchesOffsetPattern(s: string) {
    && (|s| == 4 || (|s| == 5 && s[4] == '\n'))
    && AllDigits(s[..4])
  }

  /** The string branch of the constructor: the first two digits are the
      column, the last two the row. int() ignores the trailing newline that
      the pattern lets through, so the row is read from s[2..4]. */
  function FromOffsetString(s: string): (r: Result<Hex>)
    ensures r.Ok? <==> MatchesOffsetPattern(s)
    ensures r.Err? ==> r.error == ValueError(BadOffsetString)
    ensures r.Ok? ==> Valid(r.value)
  {
    if MatchesOffsetPattern(s) then
      assert AllDigits(s[..2]) && AllDigits(s[2..4]) by {
        assert s[..2] == s[..4][..2] && s[2..4] == s[..4][2..];
      }
      Ok(OffsetToCube(DecimalValue(s[..2]), DecimalValue(s[2..4])))
    else
      Err(ValueError(BadOffsetString))
  }

  /** A triple of ints that passed the shape check: the sum is asserted to
      be zero, then the offset view is derived. */
  function FromCube(x: int, y: int, z: int): (r: Result<Hex>)
    ensures r.Ok? <==> x + y + z == 0
    ensures r.Ok? ==> Valid(r.value) && Cube(r.value) == (x, y, z)
    ensures r.Err? ==> r.error == AssertionError(InvalidCoordinates)
  {
    if x + y + z != 0 then Err(AssertionError(InvalidCoordinates))
    else Ok(CubeToOffset(x, y, z))
  }

  predicate IsIntTriple(items: seq<Element>) {
    |items| == 3 && items[0].Int? && items[1].Int? && items[2].Int?
  }

  /** The tuple branch of the constructor. */
  function FromTuple(items: seq<Element>): (r: Result<Hex>)
    ensures !IsIntTriple(items) ==> r == Err(ValueError(BadTuple))
    ensures IsIntTriple(items) ==> r == FromCube(items[0].n, items[1].n, items[2].n)
  {
    if IsIntTriple(items) then FromCube(items[0].n, items[1].n, items[2].n)
    else Err(ValueError(BadTuple))
  }

  /** Hex(value): copy another Hex, parse an offset string or accept a cubic
      triple; any other input is a ValueError. Every hex it builds is valid. */
  function FromValue(v: Value): (r: Result<Hex>)
    ensures v.HexValue? ==> r == Ok(v.hex)
    ensures r.Ok? && WellFormed(v) ==> Valid(r.value)
  {
    match v
    case HexValue(h) => Ok(Hex(h.col, h.row, h.x, h.y, h.z))
    case Text(s) => FromOffsetString(s)
    case Tuple(items) => FromTuple(items)
    case Other => Err(ValueError(BadInputType))
  }

  /** Hex() with no argument parses "0000". */
  const DefaultValue: Value := Text("0000")

  const Origin: Hex := Hex(0, 0, 0, 0, 0)

  lemma DefaultIsOrigin()
    ensures FromValue(DefaultValue) == Ok(Origin)
  {
    assert "0000"[..2] == "00" && "0000"[2..4] == "00";
    assert "00"[..1] == "0" && "0"[..0] == [];
    assert DecimalValue("00") == 0;
    assert ColumnShift(0) == 0;
  }

  /** Which input fails, and with which of the two exception families. */
  lemma ConstructionErrors(v: Value)
    ensures FromValue(v) == Err(ValueError(BadOffsetString)) <==> v.Text? && !MatchesOffsetPattern(v.s)
    ensures FromValue(v) == Err(ValueError(BadTuple)) <==> v.Tuple? && !IsIntTriple(v.items)
    ensures FromValue(v) == Err(ValueError(BadInputType)) <==> v.Other?
    ensures FromValue(v) == Err(AssertionError(InvalidCoordinates)) <==>
              v.Tuple? && IsIntTriple(v.items) && v.items[0].n + v.items[1].n + v.items[2].n != 0
    ensures FromValue(v).Err? ==> (FromValue(v).error.AssertionError? <==> v.Tuple? && IsIntTriple(v.items))
  {
  }

  /** A cubic triple with sum zero is accepted and kept as given. */
  lemma CubeRoundTrip(x: int, y: int, z: int)
    requires x + y + z == 0
    ensures FromValue(Tuple([Int(x), Int(y), Int(z)])).Ok?
    ensures Cube(FromValue(Tuple([Int(x), Int(y), Int(z)])).value) == (x, y, z)
  {
  }

  /** offset(): '{:02d}{:02d}'.format(col, row). */
  function Offset(h: Hex): string {
    Pad2(h.col) + Pad2(h.row)
  }

  /** offset() is four characters long exactly when both numbers fit in two
      characters, and longer otherwise. */
  lemma OffsetLength(h: Hex)
    ensures |Offset(h)| >= 4
    ensures |Offset(h)| == 4 <==> -9 <= h.col <= 99 && -9 <= h.row <= 99
  {
    Pad2Value(h.col);
    Pad2Value(h.row);
  }

  /** The columns and rows that print as four digits. */
  predicate OnGrid(h: Hex) {
    0 <= h.col <= 99 && 0 <= h.row <= 99
  }

  /** A four-digit string (possibly with the trailing newline the pattern
      admits) parses to the column and row it spells, and offset() gives back
      its four digits. */
  lemma OffsetStringRoundTrip(s: string)
    requires MatchesOffsetPattern(s)
    ensures FromValue(Text(s)).Ok?
    ensures FromValue(Text(s)).value.col == DecimalValue(s[..2])
    ensures FromValue(Text(s)).value.row == DecimalValue(s[2..4])
    ensures OnGrid(FromValue(Text(s)).value)
    ensures Offset(FromValue(Text(s)).value) == s[..4]
  {
    assert s[..2] == s[..4][..2] && s[2..4] == s[..4][2..];
    var h := FromValue(Text(s)).value;
    Pad2OfTwoDigits(s[..2]);
    Pad2OfTwoDigits(s[2..4]);
    DigitsBelowHundred(s[..2]);
    DigitsBelowHundred(s[2..4]);
    assert s[..4] == s[..2] + s[2..4];
  }

  lemma DigitsBelowHundred(s: string)
    requires |s| == 2 && AllDigits(s)
    ensures DecimalValue(s) <= 99
  {
    assert s[..1][..0] == [];
    assert DecimalValue(s[..1]) == DigitValue(s[0]);
  }

  /** An on-grid hex prints as four digits that parse back to it. */
  lemma OffsetOfHexRoundTrip(h: Hex)
    requires Valid(h) && OnGrid(h)
    ensures MatchesOffsetPattern(Offset(h))
    ensures FromValue(Text(Offset(h))) == Ok(h)
  {
    var s := Offset(h);
    Pad2Value(h.col);
    Pad2Value(h.row);
    assert s[..2] == Pad2(h.col) && s[2..4] == Pad2(h.row);
    assert MatchesOffsetPattern(s) by {
      assert s[..4] == s;
    }
    assert DecimalValue(s[..2]) == h.col && DecimalValue(s[2..4]) == h.row;
    assert OffsetToCube(h.col, h.row) == h;
  }

  /** offset() spells the four-digit pattern exactly for the on-grid hexes. */
  lemma OffsetPatternIffOnGrid(h: Hex)
    ensures MatchesOffsetPattern(Offset(h)) <==> OnGrid(h)
  {
    var s := Offset(h);
    Pad2Value(h.col);
    Pad2Value(h.row);
    if MatchesOffsetPattern(s) {
      assert |s| == 4;
      assert s[..4] == s;
      assert s[..2] == Pad2(h.col) && s[2..] == Pad2(h.row);
      assert AllDigits(Pad2(h.col)) && AllDigits(Pad2(h.row));
    } else if OnGrid(h) {
      OffsetOfHexRoundTrip(OffsetToCube(h.col, h.row));
    }
  }

  /** On-grid hexes with the same offset string are the same hex. */
  lemma OffsetInjectiveOnGrid(a: Hex, b: Hex)
    requires Valid(a) && Valid(b) && OnGrid(a) && Offset(a) == Offset(b)
    ensures a == b
  {
    OffsetPatternIffOnGrid(a);
    OffsetPatternIffOnGrid(b);
    OffsetOfHexRoundTrip(a);
    OffsetOfHexRoundTrip(b);
  }

  /** __eq__: equal cubic triples. */
  function Eq(a: Hex, b: Hex): (r: bool)
    ensures Valid(a) && Valid(b) ==> (r <==> a == b)
  {
    a.x == b.x && a.y == b.y && a.z == b.z
  }

  /** __ne__, written out separately in the source. */
  function Ne(a: Hex, b: Hex): (r: bool)
    ensures r <==> !Eq(a, b)
  {
    a.x != b.x || a.y != b.y || a.z != b.z
  }

  /** The hex at cubic offset (dx, dy, dz) from h, as Hex((h.x + dx, ...))
      builds it once the sum check has passed. */
  function Shift(h: Hex, dx: int, dy: int, dz: int): (r: Hex)
    ensures Valid(h) && dx + dy + dz == 0 ==> Valid(r)
    ensures Cube(r) == (h.x + dx, h.y + dy, h.z + dz)
  {
    CubeToOffset(h.x + dx, h.y + dy, h.z + dz)
  }

  /** __add__: componentwise sum of the cubic triples. */
  function Add(a: Hex, b: Hex): (r: Result<Hex>)
    ensures Valid(a) && Valid(b) ==> r.Ok? && Valid(r.value)
    ensures r.Ok? ==> Cube(r.value) == (a.x + b.x, a.y + b.y, a.z + b.z)
  {
    FromCube(a.x + b.x, a.y + b.y, a.z + b.z)
  }

  /** __sub__: componentwise difference of the cubic triples. */
  function Sub(a: Hex, b: Hex): (r: Result<Hex>)
    ensures Valid(a) && Valid(b) ==> r.Ok? && Valid(r.value)
    ensures r.Ok? ==> Cube(r.value) == (a.x - b.x, a.y - b.y, a.z - b.z)
  {
    FromCube(a.x - b.x, a.y - b.y, a.z - b.z)
  }

  /** __mul__: every cubic coordinate times an integer. */
  function Mul(h: Hex, k: int): (r: Result<Hex>)
    ensures Valid(h) ==> r.Ok? && Valid(r.value)
    ensures r.Ok? ==> Cube(r.value) == (h.x * k, h.y * k, h.z * k)
  {
    assert h.x * k + h.y * k + h.z * k == (h.x + h.y + h.z) * k;
    FromCube(h.x * k, h.y * k, h.z * k)
  }

  /** Subtracting what was added gives back the hex one started from. */
  lemma AddThenSub(a: Hex, b: Hex)
    requires Valid(a) && Valid(b)
    ensures Sub(Add(a, b).value, b) == Ok(a)
  {
    ValidDeterminedByCube(Sub(Add(a, b).value, b).value, a);
  }

  /** Adding what was subtracted gives back the hex one started from. */
  lemma SubThenAdd(a: Hex, b: Hex)
    requires Valid(a) && Valid(b)
    ensures Add(Sub(a, b).value, b) == Ok(a)
  {
    ValidDeterminedByCube(Add(Sub(a, b).value, b).value, a);
  }

  lemma AddCommutes(a: Hex, b: Hex)
    ensures Add(a, b) == Add(b, a)
  {
  }

  /** Multiplying by zero gives the origin, whatever the hex. */
  lemma MulByZero(h: Hex)
    requires Valid(h)
    ensures Mul(h, 0) == Ok(Origin)
  {
    assert h.x * 0 == 0 && h.y * 0 == 0 && h.z * 0 == 0;
    assert ColumnShift(0) == 0;
  }

  /** The six unit vectors, direction 0 at the top and then anticlockwise. */
  const Directions: seq<(int, int, int)> :=
    [(0, 1, -1), (-1, 1, 0), (-1, 0, 1), (0, -1, 1), (1, -1, 0), (1, 0, -1)]

  /** neighbour(d): the adjacent hex in direction d. */
  function Neighbour(h: Hex, d: int): (r: Result<Hex>)
    ensures !(0 <= d < 6) ==> r == Err(AssertionError(InvalidDirection))
    ensures Valid(h) && 0 <= d < 6 ==> r.Ok? && Valid(r.value)
    ensures r.Ok? ==> Cube(r.value) == (h.x + Directions[d].0, h.y + Directions[d].1, h.z + Directions[d].2)
  {
    if !(0 <= d < 6) then Err(AssertionError(InvalidDirection))
    else
      var v := Directions[d];
      FromCube(h.x + v.0, h.y + v.1, h.z + v.2)
  }

  /** Every neighbour lies at distance one. */
  lemma NeighbourAtDistanceOne(h: Hex, d: int)
    requires Valid(h) && 0 <= d < 6
    ensures HexDistance(h, Neighbour(h, d).value) == 1
  {
  }

  /** The hex that direction d's unit vector stands for. */
  function DirectionHex(d: int): (r: Hex)
    requires 0 <= d < 6
    ensures Valid(r) && Cube(r) == Directions[d]
  {
    CubeToOffset(Directions[d].0, Directions[d].1, Directions[d].2)
  }

  /** neighbour(d) is self + directions[d]. */
  lemma NeighbourIsAdd(h: Hex, d: int)
    requires Valid(h) && 0 <= d < 6
    ensures Neighbour(h, d) == Add(h, DirectionHex(d))
  {
    var n, a := Neighbour(h, d), Add(h, DirectionHex(d));
    assert Cube(n.value) == Cube(a.value);
    ValidDeterminedByCube(n.value, a.value);
  }

  /** Every hex at distance one is the neighbour in exactly one direction. */
  lemma AdjacentIsNeighbour(h: Hex, g: Hex) returns (d: int)
    requires Valid(h) && Valid(g) && HexDistance(h, g) == 1
    ensures 0 <= d < 6 && Neighbour(h, d) == Ok(g)
    ensures forall e :: 0 <= e < 6 && e != d ==> Neighbour(h, e) != Ok(g)
  {
    var a, b := g.x - h.x, g.y - h.y;
    d := if a == 0 && b == 1 then 0
      else if a == -1 && b == 1 then 1
      else if a == -1 && b == 0 then 2
      else if a == 0 && b == -1 then 3
      else if a == 1 && b == -1 then 4
      else 5;
    ValidDeterminedByCube(Neighbour(h, d).value, g);
  }

  function Abs(n: int): nat {
    if n < 0 then -n else n
  }

  function Max(a: int, b: int): int {
    if a < b then b else a
  }

  /** The cubic max-norm between two hexes (lines 133-136 of distance()). */
  function HexDistance(a: Hex, b: Hex): (d: nat)
    ensures d == 0 <==> Eq(a, b)
    ensures Abs(a.x - b.x) <= d && Abs(a.y - b.y) <= d && Abs(a.z - b.z) <= d
    ensures d == Abs(a.x - b.x) || d == Abs(a.y - b.y) || d == Abs(a.z - b.z)
  {
    Max(Max(Abs(a.x - b.x), Abs(a.y - b.y)), Abs(a.z - b.z))
  }

  /** distance(h1, h2): both arguments go through the constructor first, h1
      before h2, so h1's error is the one raised when both are bad. */
  function Distance(v1: Value, v2: Value): (r: Result<nat>)
    ensures FromValue(v1).Err? ==> r == Err(FromValue(v1).error)
    ensures FromValue(v1).Ok? && FromValue(v2).Err? ==> r == Err(FromValue(v2).error)
    ensures FromValue(v1).Ok? && FromValue(v2).Ok? ==>
              r == Ok(HexDistance(FromValue(v1).value, FromValue(v2).value))
  {
    var h1 :- FromValue(v1);
    var h2 :- FromValue(v2);
    Ok(HexDistance(h1, h2))
  }

  lemma DistanceSymmetric(a: Hex, b: Hex)
    ensures HexDistance(a, b) == HexDistance(b, a)
  {
  }

  lemma DistanceTriangle(a: Hex, b: Hex, c: Hex)
    ensures HexDistance(a, c) <= HexDistance(a, b) + HexDistance(b, c)
  {
  }

  /** Distance is zero exactly between equal hexes, i.e. when != is false. */
  lemma DistanceZeroIffEqual(a: Hex, b: Hex)
    ensures HexDistance(a, b) == 0 <==> Eq(a, b)
    ensures HexDistance(a, b) != 0 <==> Ne(a, b)
  {
  }

  /** The hex that an on-grid offset string names, read digit by digit. */
  lemma ParseFourDigits(s: string, col: int, row: int)
    requires |s| == 4 && AllDigits(s)
    requires col == 10 * DigitValue(s[0]) + DigitValue(s[1])
    requires row == 10 * DigitValue(s[2]) + DigitValue(s[3])
    ensures FromValue(Text(s)) == Ok(OffsetToCube(col, row))
  {
    assert s[..4] == s;
    assert s[..2] == s[..4][..2] && s[2..4] == s[..4][2..];
    TwoDigitsValue(s[..2]);
    TwoDigitsValue(s[2..4]);
  }

  /** A valid hex is the one its offset view determines. */
  lemma ValidIsOffsetToCube(h: Hex)
    requires Valid(h)
    ensures OffsetToCube(h.col, h.row) == h
  {
  }

  /** A four-digit string names the valid hex whose column and row it spells. */
  lemma ParsesTo(s: string, h: Hex)
    requires |s| == 4 && IsDigit(s[0]) && IsDigit(s[1]) && IsDigit(s[2]) && IsDigit(s[3])
    requires Valid(h)
    requires h.col == 10 * DigitValue(s[0]) + DigitValue(s[1])
    requires h.row == 10 * DigitValue(s[2]) + DigitValue(s[3])
    ensures FromValue(Text(s)) == Ok(h)
  {
    assert AllDigits(s) by {
      forall i | 0 <= i < 4
        ensures IsDigit(s[i])
      {
        assert i == 0 || i == 1 || i == 2 || i == 3;
      }
    }
    ParseFourDigits(s, h.col, h.row);
    ValidIsOffsetToCube(h);
  }

  /** A tuple of three ints names the valid hex with those cubic coordinates. */
  lemma CubeParsesTo(t: seq<Element>, h: Hex)
    requires Valid(h) && t == [Int(h.x), Int(h.y), Int(h.z)]
    ensures FromValue(Tuple(t)) == Ok(h)
  {
    ValidDeterminedByCube(FromCube(h.x, h.y, h.z).value, h);
  }

  /** '2411' and (24, -23, -1) name the same hex, in both directions. */
  lemma Example2411()
    ensures FromValue(Text("2411")) == FromValue(Tuple([Int(24), Int(-23), Int(-1)]))
    ensures Cube(FromValue(Text("2411")).value) == (24, -23, -1)
    ensures Offset(FromValue(Tuple([Int(24), Int(-23), Int(-1)])).value) == "2411"
  {
    ParseFourDigits("2411", 24, 11);
    var h := FromValue(Text("2411")).value;
    assert ColumnShift(24) == 12;
    ValidDeterminedByCube(h, FromValue(Tuple([Int(24), Int(-23), Int(-1)])).value);
    OffsetStringRoundTrip("2411");
  }

  /** (1, 1, 1) is rejected by the sum assertion; 1234, [12, 34] and {} by
      the shape checks (the last two are neither tuples nor strings). */
  lemma ConstructionErrorExamples()
    ensures FromValue(Tuple([Int(1), Int(1), Int(1)])) == Err(AssertionError(InvalidCoordinates))
    ensures FromValue(Other) == Err(ValueError(BadInputType))
    ensures FromValue(Tuple([Int(12), Int(34)])) == Err(ValueError(BadTuple))
  {
  }

  /** Hex('0101') + Hex((0, 1, -1)) == Hex('0100').
      The literals arrive as parameters pinned by requires, so the verifier
      does not unfold the parser and the loops on them without bound. */
  lemma AddExample(a: string, t: seq<Element>, b: string)
    requires a == "0101" && t == [Int(0), Int(1), Int(-1)] && b == "0100"
    ensures Add(FromValue(Text(a)).value, FromValue(Tuple(t)).value) == FromValue(Text(b))
  {
    ParsesTo(a, Hex(1, 1, 1, -1, 0));
    ParsesTo(b, Hex(1, 0, 1, 0, -1));
    CubeParsesTo(t, Hex(0, -1, 0, 1, -1));
    assert Add(Hex(1, 1, 1, -1, 0), Hex(0, -1, 0, 1, -1)) == Ok(Hex(1, 0, 1, 0, -1));
  }

  /** Hex('0101') - Hex((0, 1, -1)) == Hex('0102').
      The literals arrive as parameters pinned by requires, so the verifier
      does not unfold the parser and the loops on them without bound. */
  lemma SubExample(a: string, t: seq<Element>, b: string)
    requires a == "0101" && t == [Int(0), Int(1), Int(-1)] && b == "0102"
    ensures Sub(FromValue(Text(a)).value, FromValue(Tuple(t)).value) == FromValue(Text(b))
  {
    ParsesTo(a, Hex(1, 1, 1, -1, 0));
    ParsesTo(b, Hex(1, 2, 1, -2, 1));
    CubeParsesTo(t, Hex(0, -1, 0, 1, -1));
    assert Sub(Hex(1, 1, 1, -1, 0), Hex(0, -1, 0, 1, -1)) == Ok(Hex(1, 2, 1, -2, 1));
  }

  /** Hex('0001') * 3 == Hex('0003').
      The literals arrive as parameters pinned by requires, so the verifier
      does not unfold the parser and the loops on them without bound. */
  lemma MulExample(a: string, b: string)
    requires a == "0001" && b == "0003"
    ensures Mul(FromValue(Text(a)).value, 3) == FromValue(Text(b))
  {
    ParsesTo(a, Hex(0, 1, 0, -1, 1));
    ParsesTo(b, Hex(0, 3, 0, -3, 3));
    assert Mul(Hex(0, 1, 0, -1, 1), 3) == FromCube(0, -3, 3);
    assert FromCube(0, -3, 3) == Ok(Hex(0, 3, 0, -3, 3));
  }

  /** The offset strings of the six neighbours of '0202', in direction order. */
  const OffsetsAround0202: seq<string> := ["0201", "0102", "0103", "0203", "0303", "0302"]

  /** The hexes those strings name. */
  const NeighbourHexesOf0202: seq<Hex> :=
    [Hex(2, 1, 2, -2, 0), Hex(1, 2, 1, -2, 1), Hex(1, 3, 1, -3, 2),
     Hex(2, 3, 2, -4, 2), Hex(3, 3, 3, -4, 1), Hex(3, 2, 3, -3, 0)]

  /** From '0202', the hex (2, -3, 1), the neighbours in directions 0..5 are
      0201, 0102, 0103, 0203, 0303 and 0302. */
  lemma NeighbourExample(d: int)
    requires 0 <= d < 6
    ensures Neighbour(Hex(2, 2, 2, -3, 1), d) == FromValue(Text(OffsetsAround0202[d]))
  {
    NeighbourOf0202(d);
    if d == 0 {
      ParsesTo("0201", Hex(2, 1, 2, -2, 0));
    } else if d == 1 {
      ParsesTo("0102", Hex(1, 2, 1, -2, 1));
    } else if d == 2 {
      ParsesTo("0103", Hex(1, 3, 1, -3, 2));
    } else if d == 3 {
      ParsesTo("0203", Hex(2, 3, 2, -4, 2));
    } else if d == 4 {
      ParsesTo("0303", Hex(3, 3, 3, -4, 1));
    } else {
      ParsesTo("0302", Hex(3, 2, 3, -3, 0));
    }
  }

  /** The neighbours of (2, -3, 1), the hex '0202', one direction at a time. */
  lemma NeighbourOf0202(d: int)
    requires 0 <= d < 6
    ensures Neighbour(Hex(2, 2, 2, -3, 1), d) == Ok(NeighbourHexesOf0202[d])
  {
    var c := Hex(2, 2, 2, -3, 1);
    if d == 0 {
      assert Neighbour(c, 0) == FromCube(2, -2, 0) == Ok(Hex(2, 1, 2, -2, 0));
    } else if d == 1 {
      assert Neighbour(c, 1) == FromCube(1, -2, 1) == Ok(Hex(1, 2, 1, -2, 1));
    } else if d == 2 {
      assert Neighbour(c, 2) == FromCube(1, -3, 2) == Ok(Hex(1, 3, 1, -3, 2));
    } else if d == 3 {
      assert Neighbour(c, 3) == FromCube(2, -4, 2) == Ok(Hex(2, 3, 2, -4, 2));
    } else if d == 4 {
      assert Neighbour(c, 4) == FromCube(3, -4, 1) == Ok(Hex(3, 3, 3, -4, 1));
    } else {
      assert Neighbour(c, 5) == FromCube(3, -3, 0) == Ok(Hex(3, 2, 3, -3, 0));
    }
  }

  /** distance('2411', '2512') == 1 and distance((24, -23, -1), (25, -25, 0)) == 2.
      The literals arrive as parameters pinned by requires, so the verifier
      does not unfold the parser and the loops on them without bound. */
  lemma DistanceExamples(a: string, b: string, t: seq<Element>, u: seq<Element>)
    requires a == "2411" && b == "2512"
    requires t == [Int(24), Int(-23), Int(-1)] && u == [Int(25), Int(-25), Int(0)]
    ensures Distance(Text(a), Text(b)) == Ok(1)
    ensures Distance(Tuple(t), Tuple(u)) == Ok(2)
  {
    ParsesTo(a, Hex(24, 11, 24, -23, -1));
    ParsesTo(b, Hex(25, 12, 25, -24, -1));
    CubeParsesTo(t, Hex(24, 11, 24, -23, -1));
    CubeParsesTo(u, Hex(25, 13, 25, -25, 0));
  }

}
