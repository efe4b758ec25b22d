/**
  Shared vocabulary of the sea-level-anomaly pipeline: optional values (a NaN
  is `None`), results for the paths on which the Python code raises, absolute
  values on reals, and the in-memory form of one daily gridded snapshot.
 */
module Common {

  /** A value that may be missing; `None` stands for a NaN entry. */
  datatype Option<+T> = None | Some(value: T)

  /** The outcome of a step that raises an exception in the source. */
  datatype Result<+T> = Ok(value: T) | Failure(error: string)

  function Abs(x: real): (r: real)
    ensures r >= 0.0
    ensures r == x || r == -x
  {
    if x < 0.0 then -x else x
  }

  /** Maximum of two integers (the Chebyshev distance uses it). */
  function Max(a: int, b: int): (r: int)
    ensures r >= a && r >= b
    ensures r == a || r == b
  {
    if a < b then b else a
  }

  function AbsInt(x: int): (r: nat)
    ensures r == x || r == -x
  {
    if x < 0 then -x else x
  }

  /** Chebyshev distance of an index offset: max(|dlat|, |dlon|). */
  function Cheb(dlat: int, dlon: int): nat
  {
    Max(AbsInt(dlat), AbsInt(dlon))
  }

  /**
    One snapshot (one date's gridded product): a latitude axis, a longitude
    axis and the `sla` variable indexed [latitude][longitude].
   */
  datatype Snapshot = Snapshot(lats: seq<real>, lons: seq<real>, sla: seq<seq<Option<real>>>)
  {
    /** The grid has shape (|lats|, |lons|). */
    predicate Valid() {
      |sla| == |lats| && forall i :: 0 <= i < |sla| ==> |sla[i]| == |lons|
    }

    /** Both axes are non-empty, so an argmin along each one exists. */
    predicate Usable() {
      Valid() && |lats| > 0 && |lons| > 0
    }

    predicate InBounds(a: int, b: int) {
      0 <= a < |lats| && 0 <= b < |lons|
    }

    /** The cell at (a, b) when it lies inside the grid, `None` outside it. */
    function Probe(a: int, b: int): Option<real>
      requires Valid()
    {
      if InBounds(a, b) then sla[a][b] else None
    }
  }

  /** One vertex of the region quadrilateral, as the source stores it: (longitude, latitude). */
  datatype Vertex = Vertex(lon: real, lat: real)

  /** The smallest element of a non-empty sequence (`numpy.min`). */
  function SeqMin(xs: seq<real>): (m: real)
    requires |xs| > 0
    ensures m in xs
    ensures forall i :: 0 <= i < |xs| ==> m <= xs[i]
    decreases |xs|
  {
    if |xs| == 1 then xs[0]
    else
      var rest := SeqMin(xs[1..]);
      if xs[0] <= rest then xs[0] else rest
  }

  /** The largest element of a non-empty sequence (`numpy.max`). */
  function SeqMax(xs: seq<real>): (m: real)
    requires |xs| > 0
    ensures m in xs
    ensures forall i :: 0 <= i < |xs| ==> xs[i] <= m
    decreases |xs|
  {
    if |xs| == 1 then xs[0]
    else
      var rest := SeqMax(xs[1..]);
      if rest <= xs[0] then xs[0] else rest
  }

  /** `vertices[:, 0]`: the longitude column. */
  function LonColumn(vs: seq<Vertex>): (r: seq<real>)
    ensures |r| == |vs| && forall i :: 0 <= i < |vs| ==> r[i] == vs[i].lon
  {
    seq(|vs|, i requires 0 <= i < |vs| => vs[i].lon)
  }

  /** `vertices[:, 1]`: the latitude column. */
  function LatColumn(vs: seq<Vertex>): (r: seq<real>)
    ensures |r| == |vs| && forall i :: 0 <= i < |vs| ==> r[i] == vs[i].lat
  {
    seq(|vs|, i requires 0 <= i < |vs| => vs[i].lat)
  }
}
