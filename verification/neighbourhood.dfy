/** Single-bit-flip neighbourhoods of decision vectors. Vectors are values:
    flipping builds a new vector and leaves the original as it was. */
module Neighbourhood {
  import opened Knapsack

  /** Logical complement of one entry, read as a truth value:
      0 becomes 1 and every other integer becomes 0. */
  function Complement(x: int): (y: int)
    ensures y == 0 || y == 1
    ensures y != x
  {
    if x == 0 then 1 else 0
  }

  /** v with entry i complemented. */
  function Flip(v: Vector, i: nat): (w: Vector)
    requires i < |v|
    ensures |w| == |v|
    ensures w[i] == Complement(v[i]) && w[i] != v[i]
    ensures forall j :: 0 <= j < |v| && j != i ==> w[j] == v[j]
  {
    v[i := Complement(v[i])]
  }

  /** The neighbourhood of v: one vector per position, the i-th being v
      with entry i complemented, in position order. */
  function Neighbours(v: Vector): (nh: seq<Vector>)
    ensures |nh| == |v|
    ensures forall i :: 0 <= i < |v| ==> |nh[i]| == |v|
    ensures forall i, j :: 0 <= i < |v| && 0 <= j < |v| ==> (nh[i][j] == v[j] <==> i != j)
  {
    seq(|v|, i requires 0 <= i < |v| => Flip(v, i))
  }

  /** w is reached from v by complementing exactly one entry. */
  ghost predicate IsNeighbour(v: Vector, w: Vector) {
    exists i :: 0 <= i < |v| && Neighbours(v)[i] == w
  }

  /** Flipping the same entry of a binary vector twice gives the vector back. */
  lemma FlipInvolution(v: Vector, i: nat)
    requires i < |v| && IsBinary(v)
    ensures Flip(Flip(v, i), i) == v
  {
  }

  /** Neighbours of a binary vector are binary. */
  lemma NeighboursBinary(v: Vector)
    requires IsBinary(v)
    ensures forall i :: 0 <= i < |v| ==> IsBinary(Neighbours(v)[i])
  {
  }

  /** On binary vectors the neighbour relation is symmetric. */
  lemma NeighbourSymmetric(v: Vector, w: Vector)
    requires IsBinary(v) && IsNeighbour(v, w)
    ensures IsNeighbour(w, v)
  {
    var i :| 0 <= i < |v| && Neighbours(v)[i] == w;
    FlipInvolution(v, i);
    assert Neighbours(w)[i] == v;
  }

  /** Complementing one entry adds or removes that item's value: for a binary
      vector, taking item i adds Values[i] and dropping it subtracts it. */
  lemma FlipScore(v: Vector, i: nat)
    requires i < |v| && IsBinary(v)
    ensures Score(Flip(v, i))
            == Score(v) + (if i >= N then 0 else if v[i] == 0 then Values[i] else -Values[i])
  {
    ScoreIsValueSum(v);
    ScoreIsValueSum(Flip(v, i));
    WeightedSumUpdate(Values, v, N, i, Complement(v[i]));
  }
}
