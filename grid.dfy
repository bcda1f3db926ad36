/** The geometry of an N×N board laid out in row-major order: the row of id x
    is x / N and its column x % N. This module gives the reference notion of
    "orthogonal neighbour" against which the page's index arithmetic
    (src/app/page.tsx:57-75) is proved. */
module Grid {
  import opened Slots

  /** The page's "edge ids" (`ownValues`, src/app/page.tsx:57-63): ids in the
      first or the last column of the board. */
  predicate IsEdge(n: int, x: int)
  {
    n > 0 && 0 <= x < n * n && (x % n == 0 || x % n == n - 1)
  }

  /** Where cell k lies relative to cell e when the two are orthogonal
      neighbours on the N×N grid: Left when k is in e's row one column to the
      left, Top when k is in e's column one row up, and so on. */
  function Role(n: int, e: int, k: int): Option<Direction>
    requires n > 0
  {
    if !(0 <= e < n * n && 0 <= k < n * n) then None
    else if k / n == e / n && k % n + 1 == e % n then Some(Left)
    else if k / n == e / n && k % n == e % n + 1 then Some(Right)
    else if k % n == e % n && k / n + 1 == e / n then Some(Top)
    else if k % n == e % n && k / n == e / n + 1 then Some(Bottom)
    else None
  }

  /** The role the opposite way round: if k is left of e, e is right of k. */
  function Opposite(d: Direction): Direction
  {
    match d
    case Left => Right
    case Right => Left
    case Top => Bottom
    case Bottom => Top
  }

  lemma MulAtLeast(d: int, n: int)
    requires d >= 1 && n > 0
    ensures d * n >= n
  {
    if d > 1 {
      MulAtLeast(d - 1, n);
      assert d * n == (d - 1) * n + n;
    }
  }

  /** Quotient and remainder are determined by any decomposition x == q*n + r with 0 <= r < n. */
  lemma DivModUnique(x: int, n: int, q: int, r: int)
    requires n > 0 && 0 <= r < n && x == q * n + r
    ensures x / n == q && x % n == r
  {
    var q', r' := x / n, x % n;
    assert x == q' * n + r';
    assert (q' - q) * n == q' * n - q * n;
    if q' > q {
      MulAtLeast(q' - q, n);
    } else if q' < q {
      MulAtLeast(q - q', n);
    }
  }

  /** Every id of the board has a row below n. */
  lemma RowBelow(n: int, x: int)
    requires n > 0 && 0 <= x < n * n
    ensures 0 <= x / n < n
  {
    var q := x / n;
    assert x == q * n + x % n;
    assert (q - n + 1) * n == q * n - n * n + n;
    assert (-q) * n == -(q * n);
    if q >= n {
      MulAtLeast(q - n + 1, n);
    }
    if q < 0 {
      MulAtLeast(-q, n);
    }
  }

  /** The id one row up or down keeps its column. */
  lemma Vertical(n: int, x: int)
    requires n > 0
    ensures (x + n) / n == x / n + 1 && (x + n) % n == x % n
    ensures (x - n) / n == x / n - 1 && (x - n) % n == x % n
  {
    assert x == (x / n) * n + x % n;
    DivModUnique(x + n, n, x / n + 1, x % n);
    DivModUnique(x - n, n, x / n - 1, x % n);
  }

  /** The id one to the left or right: same row unless x starts or ends a row. */
  lemma Horizontal(n: int, x: int)
    requires n > 0
    ensures x % n != 0 ==> (x - 1) / n == x / n && (x - 1) % n == x % n - 1
    ensures x % n == 0 ==> (x - 1) / n == x / n - 1 && (x - 1) % n == n - 1
    ensures x % n != n - 1 ==> (x + 1) / n == x / n && (x + 1) % n == x % n + 1
    ensures x % n == n - 1 ==> (x + 1) / n == x / n + 1 && (x + 1) % n == 0
  {
    var q, r := x / n, x % n;
    assert x == q * n + r;
    if r != 0 {
      DivModUnique(x - 1, n, q, r - 1);
    } else {
      DivModUnique(x - 1, n, q - 1, n - 1);
    }
    if r != n - 1 {
      DivModUnique(x + 1, n, q, r + 1);
    } else {
      DivModUnique(x + 1, n, q + 1, 0);
    }
  }

  /** Two ids with the same row and column are the same id. */
  lemma SameCell(n: int, a: int, b: int)
    requires n > 0 && a / n == b / n && a % n == b % n
    ensures a == b
  {
    assert a == (a / n) * n + a % n;
    assert b == (b / n) * n + b % n;
  }

  /** The row-wrap rule is exactly grid adjacency once N >= 3: the id e-1 is
      e's left neighbour precisely when e and e-1 are not both edge ids, e+1 is
      its right neighbour under the same condition, and e-N and e+N are always
      its top and bottom neighbours when they are ids of the board. */
  lemma {:induction false} RoleOfCandidates(n: int, e: int, k: int)
    requires n >= 3 && 0 <= e < n * n && 0 <= k < n * n
    ensures Role(n, e, k) == Some(Left) <==> k == e - 1 && !(IsEdge(n, e) && IsEdge(n, k))
    ensures Role(n, e, k) == Some(Right) <==> k == e + 1 && !(IsEdge(n, e) && IsEdge(n, k))
    ensures Role(n, e, k) == Some(Top) <==> k == e - n
    ensures Role(n, e, k) == Some(Bottom) <==> k == e + n
  {
    Horizontal(n, e);
    Vertical(n, e);
    if k / n == e / n && k % n + 1 == e % n {
      SameCell(n, k, e - 1);
    } else if k / n == e / n && k % n == e % n + 1 {
      SameCell(n, k, e + 1);
    } else if k % n == e % n && k / n + 1 == e / n {
      SameCell(n, k, e - n);
    } else if k % n == e % n && k / n == e / n + 1 {
      SameCell(n, k, e + n);
    }
  }

  /** Grid adjacency is symmetric, with the opposite role. */
  lemma RoleSymmetric(n: int, e: int, k: int)
    requires n >= 3 && 0 <= e < n * n && 0 <= k < n * n && Role(n, e, k).Some?
    ensures Role(n, k, e) == Some(Opposite(Role(n, e, k).value))
  {
    RoleOfCandidates(n, e, k);
    RoleOfCandidates(n, k, e);
    Horizontal(n, e);
    Horizontal(n, k);
  }

  /** No cell has more than four orthogonal neighbours. */
  lemma AtMostFourNeighbours(n: int, e: int)
    requires n >= 3 && 0 <= e < n * n
    ensures |set k | 0 <= k < n * n && Role(n, e, k).Some?| <= 4
  {
    var s := set k | 0 <= k < n * n && Role(n, e, k).Some?;
    forall k | k in s
      ensures k in {e - 1, e + 1, e - n, e + n}
    {
      RoleOfCandidates(n, e, k);
    }
    CardAtMostFour(s, e - 1, e + 1, e - n, e + n);
  }

  /** Every cell has at least two orthogonal neighbours: one in its row and one in its column. */
  lemma AtLeastTwoNeighbours(n: int, e: int)
    requires n >= 3 && 0 <= e < n * n
    ensures |set k | 0 <= k < n * n && Role(n, e, k).Some?| >= 2
  {
    var s := set k | 0 <= k < n * n && Role(n, e, k).Some?;
    var h := RowNeighbour(n, e);
    var v := ColumnNeighbour(n, e);
    assert h in s && v in s && h != v;
    assert |{h, v}| == 2;
    SubsetCard({h, v}, s);
  }

  lemma RowNeighbour(n: int, e: int) returns (h: int)
    requires n >= 3 && 0 <= e < n * n
    ensures 0 <= h < n * n && (Role(n, e, h) == Some(Left) || Role(n, e, h) == Some(Right))
  {
    Horizontal(n, e);
    RowBelow(n, e);
    if e % n == 0 {
      h := e + 1;
      assert e + 1 < n * n by {
        assert e == (e / n) * n;
        assert (e / n) * n <= (n - 1) * n by { MulAtLeast(n - e / n, n); }
      }
    } else {
      h := e - 1;
    }
  }

  lemma ColumnNeighbour(n: int, e: int) returns (v: int)
    requires n >= 3 && 0 <= e < n * n
    ensures 0 <= v < n * n && (Role(n, e, v) == Some(Top) || Role(n, e, v) == Some(Bottom))
  {
    Vertical(n, e);
    RowBelow(n, e);
    var q := e / n;
    assert e == q * n + e % n;
    if q == 0 {
      v := e + n;
      NextRowInRange(n, e);
    } else {
      v := e - n;
      MulAtLeast(q, n);
    }
  }

  /** An id above the last row has an id one row below it on the board. */
  lemma NextRowInRange(n: int, e: int)
    requires n > 0 && 0 <= e && e / n + 1 < n
    ensures e + n < n * n
  {
    var q, r := e / n, e % n;
    assert e == q * n + r;
    MulAtLeast(n - q - 1, n);
    assert (n - q - 1) * n == n * n - q * n - n;
  }

  lemma CardAtMostFour(s: set<int>, a: int, b: int, c: int, d: int)
    requires s <= {a, b, c, d}
    ensures |s| <= 4
  {
    var ab := {a} + {b};
    var abc := ab + {c};
    var abcd := abc + {d};
    assert |ab| <= 2 by { assert |ab| + |{a} * {b}| == 2; }
    assert |abc| <= 3 by { assert |abc| + |ab * {c}| == |ab| + 1; }
    assert |abcd| <= 4 by { assert |abcd| + |abc * {d}| == |abc| + 1; }
    assert abcd == {a, b, c, d};
    SubsetCard(s, abcd);
  }

  lemma SubsetCard(s: set<int>, t: set<int>)
    requires s <= t
    ensures |s| <= |t|
  {
    assert t == s + (t - s);
    assert |t| == |s| + |t - s|;
  }
}
