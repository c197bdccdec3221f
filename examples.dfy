/** The worked examples of the neighbourhood counting: a single distance row,
    and the five-point data set whose neighbourhood matrix is documented. */
module MofExamples {
  import opened Statistics
  import opened MassRatioOutlier

  /** One for an entry at most `x`, zero otherwise. */
  function Hit(v: real, x: real): (h: nat)
  {
    if v <= x then 1 else 0
  }

  /** Counting over a row of five entries, written out. */
  lemma CountAtMostFive(row: seq<real>, x: real)
    requires |row| == 5
    ensures CountAtMost(row, x) ==
      Hit(row[0], x) + Hit(row[1], x) + Hit(row[2], x) + Hit(row[3], x) + Hit(row[4], x)
  {
    var r4, r3, r2, r1 := row[..4], row[..3], row[..2], row[..1];
    assert r4[..3] == r3 && r3[..2] == r2 && r2[..1] == r1 && r1[..0] == [];
    assert CountAtMost(r1, x) == Hit(row[0], x);
    assert CountAtMost(r2, x) == CountAtMost(r1, x) + Hit(row[1], x);
    assert CountAtMost(r3, x) == CountAtMost(r2, x) + Hit(row[2], x);
    assert CountAtMost(r4, x) == CountAtMost(r3, x) + Hit(row[3], x);
    assert CountAtMost(row, x) == CountAtMost(r4, x) + Hit(row[4], x);
  }

  /** The neighbourhood counts of a row of five entries, written out. */
  lemma NeighborhoodFive(row: seq<real>)
    requires |row| == 5
    ensures forall c :: 0 <= c < 5 ==>
      Neighborhood(row)[c] ==
        Hit(row[0], row[c]) + Hit(row[1], row[c]) + Hit(row[2], row[c]) + Hit(row[3], row[c]) + Hit(row[4], row[c])
  {
    forall c | 0 <= c < 5
      ensures Neighborhood(row)[c] ==
        Hit(row[0], row[c]) + Hit(row[1], row[c]) + Hit(row[2], row[c]) + Hit(row[3], row[c]) + Hit(row[4], row[c])
    {
      CountAtMostFive(row, row[c]);
    }
  }

  /** The documented single-row example. */
  lemma NeighborhoodExample()
    ensures Neighborhood([2.0, 3.0, 6.0, 1.0, 8.0]) == [2, 3, 4, 1, 5]
  {
    NeighborhoodFive([2.0, 3.0, 6.0, 1.0, 8.0]);
  }

  /** The documented five-point data set. */
  const Points: seq<seq<real>> :=
    [[906.0, 892.0], [870.0, 323.0], [433.0, 480.0], [602.0, 695.0], [569.0, 849.0]]

  /** Its documented neighbourhood matrix (row = reference point). */
  const PointsNeighborhood: seq<seq<nat>> :=
    [[1, 4, 5, 3, 2], [4, 1, 3, 2, 5], [5, 4, 1, 2, 3], [4, 5, 3, 1, 2], [3, 5, 4, 2, 1]]

  /** The squared Euclidean distance between two points of one dimension. */
  function SquaredDistance(p: seq<real>, q: seq<real>): (r: real)
    requires |p| == |q|
    ensures r >= 0.0
  {
    if p == [] then 0.0
    else
      SquarePositive(p[0] - q[0]);
      Square(p[0] - q[0]) + SquaredDistance(p[1..], q[1..])
  }

  /** Squared distances from point `q` of the data set to every point. */
  function SquaredRow(q: nat): (row: seq<real>)
    requires q < 5
    ensures |row| == 5
  {
    seq(5, a requires 0 <= a < 5 => SquaredDistance(Points[q], Points[a]))
  }

  /** The squared distances from each point, and their neighbourhood counts. */
  lemma SquaredRow0()
    ensures SquaredRow(0) == [0.0, 325057.0, 393473.0, 131225.0, 115418.0]
    ensures Neighborhood(SquaredRow(0)) == PointsNeighborhood[0]
  {
    NeighborhoodFive([0.0, 325057.0, 393473.0, 131225.0, 115418.0]);
  }

  lemma SquaredRow1()
    ensures SquaredRow(1) == [325057.0, 0.0, 215618.0, 210208.0, 367277.0]
    ensures Neighborhood(SquaredRow(1)) == PointsNeighborhood[1]
  {
    NeighborhoodFive([325057.0, 0.0, 215618.0, 210208.0, 367277.0]);
  }

  lemma SquaredRow2()
    ensures SquaredRow(2) == [393473.0, 215618.0, 0.0, 74786.0, 154657.0]
    ensures Neighborhood(SquaredRow(2)) == PointsNeighborhood[2]
  {
    NeighborhoodFive([393473.0, 215618.0, 0.0, 74786.0, 154657.0]);
  }

  lemma SquaredRow3()
    ensures SquaredRow(3) == [131225.0, 210208.0, 74786.0, 0.0, 24805.0]
    ensures Neighborhood(SquaredRow(3)) == PointsNeighborhood[3]
  {
    NeighborhoodFive([131225.0, 210208.0, 74786.0, 0.0, 24805.0]);
  }

  lemma SquaredRow4()
    ensures SquaredRow(4) == [115418.0, 367277.0, 154657.0, 24805.0, 0.0]
    ensures Neighborhood(SquaredRow(4)) == PointsNeighborhood[4]
  {
    NeighborhoodFive([115418.0, 367277.0, 154657.0, 24805.0, 0.0]);
  }

  /** The squared distances themselves give the documented rows. */
  lemma SquaredRowNeighborhood(q: nat)
    requires q < 5
    ensures Neighborhood(SquaredRow(q)) == PointsNeighborhood[q]
  {
    if q == 0 {
      SquaredRow0();
    } else if q == 1 {
      SquaredRow1();
    } else if q == 2 {
      SquaredRow2();
    } else if q == 3 {
      SquaredRow3();
    } else {
      SquaredRow4();
    }
  }

  /** A distance row ordered like the squared distances from point `q` gets
      row `q` of the documented matrix. */
  lemma PointsRowExample(row: seq<real>, q: nat)
    requires q < 5 && |row| == 5
    requires forall a, b :: 0 <= a < 5 && 0 <= b < 5 ==> (row[a] <= row[b] <==> SquaredRow(q)[a] <= SquaredRow(q)[b])
    ensures Neighborhood(row) == PointsNeighborhood[q]
  {
    NeighborhoodOrderInvariant(row, SquaredRow(q));
    SquaredRowNeighborhood(q);
  }

  /** Any distance matrix that orders each row like the squared Euclidean
      distances of the five points (as the Euclidean distances do, since the
      square root is strictly increasing) yields the documented neighbourhood
      matrix. */
  lemma PointsNeighborhoodExample(d: seq<seq<real>>)
    requires IsDistanceMatrix(d) && |d| == 5
    requires forall q, a, b :: 0 <= q < 5 && 0 <= a < 5 && 0 <= b < 5 ==>
      (d[q][a] <= d[q][b] <==> SquaredRow(q)[a] <= SquaredRow(q)[b])
    ensures NeighborhoodMatrix(d) == PointsNeighborhood
  {
    forall q | 0 <= q < 5
      ensures NeighborhoodMatrix(d)[q] == PointsNeighborhood[q]
    {
      PointsRowExample(d[q], q);
    }
  }
}
