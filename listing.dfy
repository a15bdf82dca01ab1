/** The lists the two range queries return: every hex written in the chosen
    format ('offset' strings or 'cubic' triples), then put in order by
    Python's sorted(), which compares strings code point by code point and
    tuples element by element. */
module Listing {
  import opened HexGrid

  /** The fmt argument of the range queries. */
  datatype Format = OffsetFormat | CubicFormat

  /** fmt not in ['offset', 'cubic'] raises ValueError. */
  function ParseFormat(fmt: string): (r: Result<Format>)
    ensures r == Ok(OffsetFormat) <==> fmt == "offset"
    ensures r == Ok(CubicFormat) <==> fmt == "cubic"
    ensures r.Err? <==> fmt != "offset" && fmt != "cubic"
    ensures r.Err? ==> r.error == ValueError(BadFormat)
  {
    if fmt == "offset" then Ok(OffsetFormat)
    else if fmt == "cubic" then Ok(CubicFormat)
    else Err(ValueError(BadFormat))
  }

  /** One entry of a result list: the offset() string or the cube() triple. */
  datatype Cell = OffsetCell(text: string) | CubeCell(triple: (int, int, int))

  function CellOf(h: Hex, f: Format): Cell {
    match f
    case OffsetFormat => OffsetCell(Offset(h))
    case CubicFormat => CubeCell(Cube(h))
  }

  /** Two valid hexes give the same cell exactly when they are the same hex,
      provided that, in the offset format, the first one is on the grid. */
  lemma CellOfInjective(a: Hex, b: Hex, f: Format)
    requires Valid(a) && Valid(b)
    requires f == OffsetFormat ==> OnGrid(a)
    ensures CellOf(a, f) == CellOf(b, f) <==> a == b
  {
    if CellOf(a, f) == CellOf(b, f) {
      match f
      case OffsetFormat => OffsetInjectiveOnGrid(a, b);
      case CubicFormat => ValidDeterminedByCube(a, b);
    }
  }

  /** The cells of a list of hexes, in the same order. */
  function Cells(hs: seq<Hex>, f: Format): seq<Cell> {
    seq(|hs|, i requires 0 <= i < |hs| => CellOf(hs[i], f))
  }

  lemma CellsAppend(hs: seq<Hex>, h: Hex, f: Format)
    ensures Cells(hs + [h], f) == Cells(hs, f) + [CellOf(h, f)]
  {
  }

  lemma AppendAssociative<T>(a: seq<T>, b: seq<T>, c: seq<T>)
    ensures (a + b) + c == a + (b + c)
  {
  }

  /** A cell is in the list exactly when it is the cell of a listed hex. */
  lemma CellsMembers(hs: seq<Hex>, f: Format)
    ensures forall x :: x in Cells(hs, f) <==> exists h :: h in hs && x == CellOf(h, f)
  {
    forall x | x in Cells(hs, f)
      ensures exists h :: h in hs && x == CellOf(h, f)
    {
      var i :| 0 <= i < |hs| && Cells(hs, f)[i] == x;
      assert hs[i] in hs;
    }
    forall x | exists h :: h in hs && x == CellOf(h, f)
      ensures x in Cells(hs, f)
    {
      var h :| h in hs && x == CellOf(h, f);
      var i :| 0 <= i < |hs| && hs[i] == h;
      assert Cells(hs, f)[i] == x;
    }
  }

  /** Sorting keeps exactly the members it was given. */
  lemma SortKeepsMembers(cs: seq<Cell>)
    ensures forall x :: x in SortCells(cs) <==> x in cs
  {
    var r := SortCells(cs);
    forall x
      ensures x in r <==> x in cs
    {
      assert x in r <==> x in multiset(r);
      assert x in cs <==> x in multiset(cs);
    }
  }

  /** Once sorted, the cells of a list of hexes are the cells of its members. */
  lemma SortedCellsMembers(hs: seq<Hex>, f: Format)
    ensures forall x :: x in SortCells(Cells(hs, f)) <==> exists h :: h in hs && x == CellOf(h, f)
  {
    SortKeepsMembers(Cells(hs, f));
    CellsMembers(hs, f);
  }

  /** Two lists of hexes with the same members give, once sorted, a list
      with the same members as the cells of either. */
  lemma SortedCellsSameMembers(hs: seq<Hex>, gs: seq<Hex>, f: Format)
    requires forall h :: h in hs <==> h in gs
    ensures forall x :: x in SortCells(Cells(hs, f)) <==> x in Cells(gs, f)
  {
    SortKeepsMembers(Cells(hs, f));
    CellsMembers(hs, f);
    CellsMembers(gs, f);
  }

  /** Distinct valid hexes give distinct cells, in the offset format as long
      as they are on the grid. */
  lemma CellsNoDup(hs: seq<Hex>, f: Format)
    requires NoDup(hs)
    requires forall h :: h in hs ==> Valid(h) && (f == OffsetFormat ==> OnGrid(h))
    ensures NoDup(Cells(hs, f))
  {
    forall i, j | 0 <= i < j < |hs|
      ensures Cells(hs, f)[i] != Cells(hs, f)[j]
    {
      CellOfInjective(hs[i], hs[j], f);
    }
  }

  /** Python's order on str: the first differing code point decides, and a
      proper prefix comes first. */
  predicate StringLe(a: string, b: string) {
    if a == [] then true
    else if b == [] then false
    else if a[0] != b[0] then a[0] < b[0]
    else StringLe(a[1..], b[1..])
  }

  /** Python's order on tuples of ints: lexicographic. */
  predicate TripleLe(a: (int, int, int), b: (int, int, int)) {
    a.0 < b.0 || (a.0 == b.0 && (a.1 < b.1 || (a.1 == b.1 && a.2 <= b.2)))
  }

  /** The order sorted() uses on a result list. A list holds cells of one
      kind only; across kinds the order is fixed arbitrarily to make it total. */
  predicate CellLe(a: Cell, b: Cell) {
    match (a, b)
    case (OffsetCell(s), OffsetCell(t)) => StringLe(s, t)
    case (CubeCell(p), CubeCell(q)) => TripleLe(p, q)
    case (OffsetCell(_), CubeCell(_)) => true
    case (CubeCell(_), OffsetCell(_)) => false
  }

  lemma {:induction false} StringLeTotal(a: string, b: string)
    ensures StringLe(a, b) || StringLe(b, a)
    decreases |a|
  {
    if a != [] && b != [] && a[0] == b[0] {
      StringLeTotal(a[1..], b[1..]);
    }
  }

  lemma {:induction false} StringLeAntisymmetric(a: string, b: string)
    requires StringLe(a, b) && StringLe(b, a)
    ensures a == b
    decreases |a|
  {
    if a != [] && b != [] {
      StringLeAntisymmetric(a[1..], b[1..]);
      assert a == [a[0]] + a[1..] && b == [b[0]] + b[1..];
    }
  }

  lemma {:induction false} StringLeTransitive(a: string, b: string, c: string)
    requires StringLe(a, b) && StringLe(b, c)
    ensures StringLe(a, c)
    decreases |a|
  {
    if a != [] && b != [] && c != [] && a[0] == b[0] && b[0] == c[0] {
      StringLeTransitive(a[1..], b[1..], c[1..]);
    }
  }

  /** The first differing code point decides the order. */
  lemma {:induction false} StringLeAtFirstDifference(a: string, b: string, k: nat)
    requires k < |a| && k < |b| && a[k] < b[k]
    requires forall i :: 0 <= i < k ==> a[i] == b[i]
    ensures StringLe(a, b) && !StringLe(b, a)
    decreases k
  {
    if k > 0 {
      StringLeAtFirstDifference(a[1..], b[1..], k - 1);
    }
  }

  /** CellLe is a total order, so a sorted list of given contents is unique. */
  lemma CellLeTotalOrder(a: Cell, b: Cell, c: Cell)
    ensures CellLe(a, b) || CellLe(b, a)
    ensures CellLe(a, b) && CellLe(b, a) ==> a == b
    ensures CellLe(a, b) && CellLe(b, c) ==> CellLe(a, c)
  {
    if a.OffsetCell? && b.OffsetCell? {
      StringLeTotal(a.text, b.text);
      if CellLe(a, b) && CellLe(b, a) {
        StringLeAntisymmetric(a.text, b.text);
      }
      if c.OffsetCell? && CellLe(a, b) && CellLe(b, c) {
        StringLeTransitive(a.text, b.text, c.text);
      }
    }
  }

  predicate Sorted(cs: seq<Cell>) {
    forall i, j :: 0 <= i < j < |cs| ==> CellLe(cs[i], cs[j])
  }

  /** A list whose neighbouring entries are in order is sorted. */
  lemma {:induction false} SortedFromAdjacent(cs: seq<Cell>)
    requires forall i :: 0 <= i < |cs| - 1 ==> CellLe(cs[i], cs[i + 1])
    ensures Sorted(cs)
    decreases |cs|
  {
    if |cs| > 1 {
      SortedFromAdjacent(cs[1..]);
      forall j | 1 < j < |cs|
        ensures CellLe(cs[0], cs[j])
      {
        assert CellLe(cs[1], cs[j]) by {
          assert cs[1..][0] == cs[1] && cs[1..][j - 1] == cs[j];
        }
        CellLeTotalOrder(cs[0], cs[1], cs[j]);
      }
      forall i, j | 0 <= i < j < |cs|
        ensures CellLe(cs[i], cs[j])
      {
        if i > 0 {
          assert cs[1..][i - 1] == cs[i] && cs[1..][j - 1] == cs[j];
        }
      }
    }
  }

  /** No entry occurs twice. */
  predicate NoDup<T(==)>(s: seq<T>) {
    forall i, j :: 0 <= i < j < |s| ==> s[i] != s[j]
  }

  /** Insertion of one cell into a sorted list. */
  function Insert(c: Cell, cs: seq<Cell>): (r: seq<Cell>)
    requires Sorted(cs)
    ensures Sorted(r)
    ensures multiset(r) == multiset(cs) + multiset{c}
  {
    if cs == [] then [c]
    else if CellLe(c, cs[0]) then
      InsertBefore(c, cs);
      [c] + cs
    else
      var tail := Insert(c, cs[1..]);
      assert cs == [cs[0]] + cs[1..];
      InsertAfter(c, cs, tail);
      [cs[0]] + tail
  }

  /** A cell no greater than the head of a sorted list can go in front of it. */
  lemma InsertBefore(c: Cell, cs: seq<Cell>)
    requires Sorted(cs) && cs != [] && CellLe(c, cs[0])
    ensures Sorted([c] + cs)
  {
    forall j | 0 < j < |cs| {
      CellLeTotalOrder(c, cs[0], cs[j]);
    }
  }

  /** The head of a sorted list, when c is greater than it, can go in front of
      any sorted arrangement of the rest of the list with c added. */
  lemma InsertAfter(c: Cell, cs: seq<Cell>, tail: seq<Cell>)
    requires Sorted(cs) && cs != [] && !CellLe(c, cs[0])
    requires Sorted(tail) && multiset(tail) == multiset(cs[1..]) + multiset{c}
    ensures Sorted([cs[0]] + tail)
  {
    CellLeTotalOrder(c, cs[0], c);
    forall k | 0 <= k < |tail|
      ensures CellLe(cs[0], tail[k])
    {
      var x := tail[k];
      assert x in multiset(tail);
      if x != c {
        assert x in multiset(cs[1..]);
        var i :| 1 <= i < |cs| && cs[i] == x;
      }
    }
  }

  function SortCells(cs: seq<Cell>): (r: seq<Cell>)
    ensures Sorted(r)
    ensures multiset(r) == multiset(cs)
  {
    if cs == [] then []
    else
      assert cs == [cs[0]] + cs[1..];
      Insert(cs[0], SortCells(cs[1..]))
  }

  /** The head of a sorted list comes before every element of it. */
  lemma SortedHeadIsLeast(a: seq<Cell>, x: Cell)
    requires Sorted(a) && x in multiset(a)
    ensures CellLe(a[0], x)
  {
    var k :| 0 <= k < |a| && a[k] == x;
    if k == 0 {
      CellLeTotalOrder(x, x, x);
    }
  }

  /** Two sorted lists with the same contents are equal: sorted() is determined
      by its input's contents alone, whatever algorithm computes it. */
  lemma {:induction false} SortedUnique(a: seq<Cell>, b: seq<Cell>)
    requires Sorted(a) && Sorted(b) && multiset(a) == multiset(b)
    ensures a == b
    decreases |a|
  {
    if a != [] {
      assert |b| == |multiset(b)| == |multiset(a)| == |a|;
      assert a[0] in multiset(a) && b[0] in multiset(b);
      SortedHeadIsLeast(a, b[0]);
      SortedHeadIsLeast(b, a[0]);
      CellLeTotalOrder(a[0], b[0], a[0]);
      assert a == [a[0]] + a[1..] && b == [b[0]] + b[1..];
      assert multiset(a[1..]) == multiset(a) - multiset{a[0]};
      assert multiset(b[1..]) == multiset(b) - multiset{b[0]};
      SortedUnique(a[1..], b[1..]);
    }
  }

  /** Duplicate-freeness depends on the contents only. */
  lemma {:induction false} NoDupIffMultiplicity<T>(s: seq<T>)
    ensures NoDup(s) <==> forall x :: multiset(s)[x] <= 1
    decreases |s|
  {
    if s != [] {
      var t, e := s[..|s| - 1], s[|s| - 1];
      assert s == t + [e];
      NoDupIffMultiplicity(t);
      if NoDup(s) {
        assert NoDup(t);
        forall k | 0 <= k < |t|
          ensures t[k] != e
        {
          assert s[k] == t[k];
        }
      }
      if forall x :: multiset(s)[x] <= 1 {
        assert forall x :: multiset(t)[x] <= 1 by {
          forall x
            ensures multiset(t)[x] <= 1
          {
            assert multiset(s)[x] == multiset(t)[x] + multiset([e])[x];
          }
        }
        assert multiset(s)[e] == multiset(t)[e] + 1;
        assert forall i :: 0 <= i < |t| ==> t[i] != e by {
          forall i | 0 <= i < |t|
            ensures t[i] != e
          {
            assert t[i] in multiset(t);
          }
        }
      }
    }
  }

  /** Two duplicate-free lists with no element in common join into a
      duplicate-free list. */
  lemma NoDupAppend<T>(a: seq<T>, b: seq<T>)
    requires NoDup(a) && NoDup(b)
    requires forall x :: x in a ==> x !in b
    ensures NoDup(a + b)
  {
    forall i, j | 0 <= i < j < |a + b|
      ensures (a + b)[i] != (a + b)[j]
    {
      if i < |a| && j >= |a| {
        assert (a + b)[i] in a && (a + b)[j] == b[j - |a|];
      }
    }
  }

  /** Reordering keeps a list duplicate-free. */
  lemma NoDupPermutation<T>(a: seq<T>, b: seq<T>)
    requires NoDup(a) && multiset(a) == multiset(b)
    ensures NoDup(b)
  {
    NoDupIffMultiplicity(a);
    NoDupIffMultiplicity(b);
  }

  /** A sorted list without repeats is determined by its members. */
  lemma SortedSameMembers(a: seq<Cell>, b: seq<Cell>)
    requires Sorted(a) && Sorted(b) && NoDup(a) && NoDup(b)
    requires forall x :: x in a <==> x in b
    ensures a == b
  {
    NoDupIffMultiplicity(a);
    NoDupIffMultiplicity(b);
    forall x
      ensures multiset(a)[x] == multiset(b)[x]
    {
      assert x in a <==> x in multiset(a);
      assert x in b <==> x in multiset(b);
    }
    assert multiset(a) == multiset(b);
    SortedUnique(a, b);
  }

  /** Sorting a list without repeats gives the sorted list of its members. */
  lemma SortCellsOfMembers(cs: seq<Cell>, sorted: seq<Cell>)
    requires NoDup(cs) && Sorted(sorted) && NoDup(sorted)
    requires forall x :: x in cs <==> x in sorted
    ensures SortCells(cs) == sorted
  {
    NoDupPermutation(cs, SortCells(cs));
    SortKeepsMembers(cs);
    SortedSameMembers(SortCells(cs), sorted);
  }
}
