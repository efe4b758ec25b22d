/**
  The gap-filling helpers of `ctw_functions.py`: linear interpolation of the
  NaN entries of a series (`interpolate_nan`) and the expanding-ring search for
  the nearest defined grid cell (`find_nearest_non_nan`).

  The Butterworth design and zero-phase filtering of the same file are scipy
  numerics; the rest of the pipeline receives the filter as an uninterpreted
  function of type `Filter`.
 */
module CtwFunctions {
  import opened Common

  /**
    `butter_bandpass_filter(series, lowcut, highcut, fs, order=5)` with its
    cut-offs, sampling rate and order fixed: an uninterpreted map on series.
    `None` stands for a call that raises (scipy's `filtfilt` does so, for
    one, on a series shorter than its edge padding).
   */
  type Filter = seq<real> -> Option<seq<real>>

  // ---------------------------------------------------------------------
  // interpolate_nan
  // ---------------------------------------------------------------------

  predicate HasDefined(s: seq<Option<real>>) {
    exists i :: 0 <= i < |s| && s[i].Some?
  }

  /** The nearest defined position strictly before `k`, if there is one. */
  function PrevDefined(s: seq<Option<real>>, k: int): (r: Option<nat>)
    requires 0 <= k <= |s|
    ensures r.Some? ==> r.value < k && s[r.value].Some?
    ensures r.Some? ==> forall m :: r.value < m < k ==> s[m].None?
    ensures r.None? ==> forall m :: 0 <= m < k ==> s[m].None?
    decreases k
  {
    if k == 0 then None
    else if s[k - 1].Some? then Some(k - 1)
    else PrevDefined(s, k - 1)
  }

  /** The nearest defined position strictly after `k`, if there is one. */
  function NextDefined(s: seq<Option<real>>, k: int): (r: Option<nat>)
    requires -1 <= k < |s|
    ensures r.Some? ==> k < r.value < |s| && s[r.value].Some?
    ensures r.Some? ==> forall m :: k < m < r.value ==> s[m].None?
    ensures r.None? ==> forall m :: k < m < |s| ==> s[m].None?
    decreases |s| - k
  {
    if k + 1 == |s| then None
    else if s[k + 1].Some? then Some(k + 1)
    else NextDefined(s, k + 1)
  }

  /** The straight line through (i, yi) and (j, yj), evaluated at k. */
  function Lerp(i: int, yi: real, j: int, yj: real, k: int): real
    requires i < j
  {
    yi + (k - i) as real * (yj - yi) / (j - i) as real
  }

  /**
    What `np.interp(x(nans), x(~nans), data[~nans])` yields at position k:
    a defined entry keeps its value; an undefined one lies on the line between
    its nearest defined neighbours, or takes the first (last) defined value
    when it has no defined neighbour on its left (right).
   */
  function InterpAt(s: seq<Option<real>>, k: int): real
    requires HasDefined(s) && 0 <= k < |s|
  {
    if s[k].Some? then s[k].value
    else
      var prev, next := PrevDefined(s, k), NextDefined(s, k);
      if prev.Some? && next.Some? then Lerp(prev.value, s[prev.value].value, next.value, s[next.value].value, k)
      else if next.Some? then s[next.value].value
      else
        assert prev.Some?;
        s[prev.value].value
  }

  /** The series after `interpolate_nan`. */
  function Interpolated(s: seq<Option<real>>): (r: seq<Option<real>>)
    requires HasDefined(s)
    ensures |r| == |s|
    ensures forall k :: 0 <= k < |r| ==> r[k].Some?
    ensures forall k :: 0 <= k < |s| && s[k].Some? ==> r[k] == s[k]
  {
    seq(|s|, k requires 0 <= k < |s| => Some(InterpAt(s, k)))
  }

  /**
    `interpolate_nan(data)`: writes the interpolated values into the NaN
    entries of `data`. The defined entries and their values are read before
    any entry is written, as numpy evaluates `data[~nans]` before assigning.
   */
  method InterpolateNan(data: array<Option<real>>)
    requires HasDefined(data[..])
    modifies data
    ensures data[..] == Interpolated(old(data[..]))
  {
    var orig := data[..];
    var n := data.Length;
    var prev: Option<nat> := None;
    var k := 0;
    while k < n
      invariant 0 <= k <= n
      invariant prev == PrevDefined(orig, k)
      invariant forall m :: 0 <= m < k ==> data[m] == Some(InterpAt(orig, m))
      invariant forall m :: k <= m < n ==> data[m] == orig[m]
    {
      if orig[k].None? {
        var j := k + 1;
        while j < n && orig[j].None?
          invariant k < j <= n
          invariant forall m :: k < m < j ==> orig[m].None?
        {
          j := j + 1;
        }
        var next: Option<nat> := if j < n then Some(j) else None;
        assert next == NextDefined(orig, k);
        var v: real;
        if prev.Some? && next.Some? {
          v := Lerp(prev.value, orig[prev.value].value, j, orig[j].value, k);
        } else if next.Some? {
          v := orig[j].value;
        } else {
          assert prev.Some?;
          v := orig[prev.value].value;
        }
        data[k] := Some(v);
      }
      if orig[k].Some? {
        prev := Some(k);
      }
      k := k + 1;
    }
    assert data[..] == Interpolated(orig);
  }

  /** An undefined entry between defined i and j lies on the line through them. */
  lemma InterpolatedBetween(s: seq<Option<real>>, i: nat, k: nat, j: nat)
    requires i < k < j < |s|
    requires s[i].Some? && s[j].Some?
    requires forall m :: i < m < j ==> s[m].None?
    ensures HasDefined(s)
    ensures Interpolated(s)[k] == Some(s[i].value + (k - i) as real * (s[j].value - s[i].value) / (j - i) as real)
  {
    assert s[i].Some?;
    var prev, next := PrevDefined(s, k), NextDefined(s, k);
    assert prev == Some(i);
    assert next == Some(j);
    assert InterpAt(s, k) == Lerp(i, s[i].value, j, s[j].value, k);
    assert Interpolated(s)[k] == Some(InterpAt(s, k));
    assert Lerp(i, s[i].value, j, s[j].value, k) == s[i].value + (k - i) as real * (s[j].value - s[i].value) / (j - i) as real;
  }

  /** Entries before the first defined one take its value (left clamping). */
  lemma InterpolatedLeftEdge(s: seq<Option<real>>, f: nat, k: nat)
    requires k < f < |s| && s[f].Some?
    requires forall m :: 0 <= m < f ==> s[m].None?
    ensures HasDefined(s)
    ensures Interpolated(s)[k] == s[f]
  {
    assert s[f].Some?;
    var next := NextDefined(s, k);
    assert next == Some(f);
    assert PrevDefined(s, k).None?;
  }

  /** Entries after the last defined one take its value (right clamping). */
  lemma InterpolatedRightEdge(s: seq<Option<real>>, l: nat, k: nat)
    requires l < k < |s| && s[l].Some?
    requires forall m :: l < m < |s| ==> s[m].None?
    ensures HasDefined(s)
    ensures Interpolated(s)[k] == s[l]
  {
    assert s[l].Some?;
    var prev := PrevDefined(s, k);
    assert prev == Some(l);
    assert NextDefined(s, k).None?;
  }

  /** A series with no NaN is left exactly as it is. */
  lemma InterpolatedFullyDefined(s: seq<Option<real>>)
    requires |s| > 0
    requires forall k :: 0 <= k < |s| ==> s[k].Some?
    ensures HasDefined(s)
    ensures Interpolated(s) == s
  {
    assert s[0].Some?;
  }

  /** [1, NaN, 3] becomes [1, 2, 3]. */
  lemma InterpolatedExample()
    ensures HasDefined([Some(1.0), None, Some(3.0)])
    ensures Interpolated([Some(1.0), None, Some(3.0)]) == [Some(1.0), Some(2.0), Some(3.0)]
  {
    var s := [Some(1.0), None, Some(3.0)];
    InterpolatedBetween(s, 0, 1, 2);
  }

  // ---------------------------------------------------------------------
  // find_nearest_non_nan
  // ---------------------------------------------------------------------

  /** `max_radius` of `find_nearest_non_nan`. */
  const MaxRadius: nat := 5

  /** Cell (a, b) is examined by a search centred on (li, lj). */
  predicate Candidate(li: int, lj: int, a: int, b: int) {
    1 <= Cheb(a - li, b - lj) <= MaxRadius
  }

  /**
    The scan order of the search: by Chebyshev distance from the centre, then
    by latitude offset, then by longitude offset. Cell (a1, b1) is examined
    before cell (a2, b2).
   */
  predicate ScanBefore(li: int, lj: int, a1: int, b1: int, a2: int, b2: int) {
    var d1, d2 := Cheb(a1 - li, b1 - lj), Cheb(a2 - li, b2 - lj);
    d1 < d2 || (d1 == d2 && (a1 < a2 || (a1 == a2 && b1 < b2)))
  }

  /** Cell (a, b) is not examined before the loop position (radius, dlat, dlon). */
  predicate NotYetScanned(li: int, lj: int, radius: int, dlat: int, dlon: int, a: int, b: int) {
    var d := Cheb(a - li, b - lj);
    d > radius || (d == radius && (a - li > dlat || (a - li == dlat && b - lj >= dlon)))
  }

  /**
    The search resumed at loop position (radius, dlat, dlon): each loop level
    of `find_nearest_non_nan` is one kind of step here.
   */
  function Search(g: Snapshot, li: int, lj: int, radius: int, dlat: int, dlon: int): Option<real>
    requires g.Valid()
    requires 1 <= radius
    requires -radius <= dlat <= radius + 1 && -radius <= dlon <= radius + 1
    decreases MaxRadius + 1 - radius, radius + 1 - dlat, radius + 1 - dlon
  {
    if radius > MaxRadius then None
    else if dlat > radius then Search(g, li, lj, radius + 1, -(radius + 1), -(radius + 1))
    else if dlon > radius then Search(g, li, lj, radius, dlat + 1, -radius)
    else if (AbsInt(dlat) == radius || AbsInt(dlon) == radius) && g.Probe(li + dlat, lj + dlon).Some?
    then g.Probe(li + dlat, lj + dlon)
    else Search(g, li, lj, radius, dlat, dlon + 1)
  }

  /** The value `find_nearest_non_nan(dataset, lat_idx, lon_idx)` returns. */
  function NearestNonNan(g: Snapshot, li: int, lj: int): Option<real>
    requires g.Valid()
  {
    Search(g, li, lj, 1, -1, -1)
  }

  /** (a, b) is the first defined cell the search meets from loop position (radius, dlat, dlon). */
  ghost predicate FirstHit(g: Snapshot, li: int, lj: int, radius: int, dlat: int, dlon: int, a: int, b: int)
    requires g.Valid()
  {
    && Candidate(li, lj, a, b)
    && NotYetScanned(li, lj, radius, dlat, dlon, a, b)
    && g.Probe(a, b).Some?
    && forall a', b' ::
         Candidate(li, lj, a', b') && NotYetScanned(li, lj, radius, dlat, dlon, a', b') && ScanBefore(li, lj, a', b', a, b)
         ==> g.Probe(a', b').None?
  }

  /** Leaving ring `radius` (dlat past its end) resumes at the corner of ring radius + 1. */
  lemma NextRingSameRemainder(li: int, lj: int, radius: int, dlon: int, a: int, b: int)
    requires 1 <= radius
    ensures NotYetScanned(li, lj, radius, radius + 1, dlon, a, b)
        <==> NotYetScanned(li, lj, radius + 1, -(radius + 1), -(radius + 1), a, b)
  {
  }

  /** Leaving row `dlat` (dlon past its end) resumes at the start of row dlat + 1. */
  lemma NextRowSameRemainder(li: int, lj: int, radius: int, dlat: int, a: int, b: int)
    requires 1 <= radius
    ensures NotYetScanned(li, lj, radius, dlat, radius + 1, a, b)
        <==> NotYetScanned(li, lj, radius, dlat + 1, -radius, a, b)
  {
  }

  /** One step along a row removes exactly the current cell, when it lies on the ring. */
  lemma NextCellRemainder(li: int, lj: int, radius: int, dlat: int, dlon: int, a: int, b: int)
    requires 1 <= radius && -radius <= dlat <= radius && -radius <= dlon <= radius
    ensures NotYetScanned(li, lj, radius, dlat, dlon, a, b)
        <==> NotYetScanned(li, lj, radius, dlat, dlon + 1, a, b)
             || (a == li + dlat && b == lj + dlon && (AbsInt(dlat) == radius || AbsInt(dlon) == radius))
  {
  }

  /** Two loop positions with the same remaining cells have the same first hits. */
  lemma FirstHitTransfer(g: Snapshot, li: int, lj: int, r1: int, d1: int, e1: int, r2: int, d2: int, e2: int, a: int, b: int)
    requires g.Valid()
    requires forall x, y :: NotYetScanned(li, lj, r1, d1, e1, x, y) <==> NotYetScanned(li, lj, r2, d2, e2, x, y)
    ensures FirstHit(g, li, lj, r1, d1, e1, a, b) <==> FirstHit(g, li, lj, r2, d2, e2, a, b)
  {
  }

  /**
    `r` is what a search resumed at (radius, dlat, dlon) should give: nothing
    iff no remaining candidate is defined, else the first defined one.
   */
  ghost predicate Finds(g: Snapshot, li: int, lj: int, radius: int, dlat: int, dlon: int, r: Option<real>)
    requires g.Valid()
  {
    && (r.None? <==> forall a, b :: Candidate(li, lj, a, b) && NotYetScanned(li, lj, radius, dlat, dlon, a, b) ==> g.Probe(a, b).None?)
    && (r.Some? ==> exists a, b :: FirstHit(g, li, lj, radius, dlat, dlon, a, b) && g.Probe(a, b) == r)
  }

  /** Two loop positions with the same remaining cells expect the same result. */
  lemma FindsTransfer(g: Snapshot, li: int, lj: int, r1: int, d1: int, e1: int, r2: int, d2: int, e2: int, r: Option<real>)
    requires g.Valid()
    requires forall x, y :: NotYetScanned(li, lj, r1, d1, e1, x, y) <==> NotYetScanned(li, lj, r2, d2, e2, x, y)
    requires Finds(g, li, lj, r2, d2, e2, r)
    ensures Finds(g, li, lj, r1, d1, e1, r)
  {
    if r.Some? {
      var a, b :| FirstHit(g, li, lj, r2, d2, e2, a, b) && g.Probe(a, b) == r;
      FirstHitTransfer(g, li, lj, r1, d1, e1, r2, d2, e2, a, b);
    }
  }

  /** Moving past an undefined or off-ring cell, the search keeps giving what is expected. */
  lemma FindsSkip(g: Snapshot, li: int, lj: int, radius: int, dlat: int, dlon: int)
    requires g.Valid()
    requires 1 <= radius <= MaxRadius && -radius <= dlat <= radius && -radius <= dlon <= radius
    requires !((AbsInt(dlat) == radius || AbsInt(dlon) == radius) && g.Probe(li + dlat, lj + dlon).Some?)
    ensures Finds(g, li, lj, radius, dlat, dlon, Search(g, li, lj, radius, dlat, dlon))
    decreases MaxRadius + 1 - radius, radius + 1 - dlat, radius + 1 - dlon, 0
  {
    SearchFinds(g, li, lj, radius, dlat, dlon + 1);
    var r := Search(g, li, lj, radius, dlat, dlon + 1);
    assert Search(g, li, lj, radius, dlat, dlon) == r;
    var a0, b0 := li + dlat, lj + dlon;
    var onRing := AbsInt(dlat) == radius || AbsInt(dlon) == radius;
    forall x, y ensures NotYetScanned(li, lj, radius, dlat, dlon, x, y)
      <==> NotYetScanned(li, lj, radius, dlat, dlon + 1, x, y) || (x == a0 && y == b0 && onRing) {
      NextCellRemainder(li, lj, radius, dlat, dlon, x, y);
    }
    if r.Some? {
      var a, b :| FirstHit(g, li, lj, radius, dlat, dlon + 1, a, b) && g.Probe(a, b) == r;
      SkipHere(g, li, lj, radius, dlat, dlon, a, b);
    }
  }

  /** At a defined cell on the ring, the search gives what is expected: that cell. */
  lemma FindsHere(g: Snapshot, li: int, lj: int, radius: int, dlat: int, dlon: int)
    requires g.Valid()
    requires 1 <= radius <= MaxRadius && -radius <= dlat <= radius && -radius <= dlon <= radius
    requires AbsInt(dlat) == radius || AbsInt(dlon) == radius
    requires g.Probe(li + dlat, lj + dlon).Some?
    ensures Finds(g, li, lj, radius, dlat, dlon, Search(g, li, lj, radius, dlat, dlon))
  {
    assert Search(g, li, lj, radius, dlat, dlon) == g.Probe(li + dlat, lj + dlon);
    HitHere(g, li, lj, radius, dlat, dlon);
  }

  /** Past the last ring nothing remains, and the search gives nothing. */
  lemma FindsExhausted(g: Snapshot, li: int, lj: int, radius: int, dlat: int, dlon: int)
    requires g.Valid() && radius > MaxRadius
    requires -radius <= dlat <= radius + 1 && -radius <= dlon <= radius + 1
    ensures Finds(g, li, lj, radius, dlat, dlon, Search(g, li, lj, radius, dlat, dlon))
  {
    assert Search(g, li, lj, radius, dlat, dlon) == None;
    forall a, b | Candidate(li, lj, a, b) ensures !NotYetScanned(li, lj, radius, dlat, dlon, a, b) { }
  }

  /** Moving on to the next ring, the search keeps giving what is expected. */
  lemma FindsNextRing(g: Snapshot, li: int, lj: int, radius: int, dlon: int)
    requires g.Valid() && 1 <= radius <= MaxRadius && -radius <= dlon <= radius + 1
    ensures Finds(g, li, lj, radius, radius + 1, dlon, Search(g, li, lj, radius, radius + 1, dlon))
    decreases MaxRadius + 1 - radius, 0, radius + 1 - dlon, 0
  {
    var next, corner := radius + 1, -(radius + 1);
    SearchFinds(g, li, lj, next, corner, corner);
    var r := Search(g, li, lj, next, corner, corner);
    assert Search(g, li, lj, radius, next, dlon) == r;
    forall x, y ensures NotYetScanned(li, lj, radius, next, dlon, x, y)
      <==> NotYetScanned(li, lj, next, corner, corner, x, y) {
      NextRingSameRemainder(li, lj, radius, dlon, x, y);
    }
    FindsTransfer(g, li, lj, radius, next, dlon, next, corner, corner, r);
  }

  /** Moving on to the next row of the ring, the search keeps giving what is expected. */
  lemma FindsNextRow(g: Snapshot, li: int, lj: int, radius: int, dlat: int)
    requires g.Valid() && 1 <= radius <= MaxRadius && -radius <= dlat <= radius
    ensures Finds(g, li, lj, radius, dlat, radius + 1, Search(g, li, lj, radius, dlat, radius + 1))
    decreases MaxRadius + 1 - radius, radius + 1 - dlat, 0, 0
  {
    var past, nextRow, first := radius + 1, dlat + 1, -radius;
    SearchFinds(g, li, lj, radius, nextRow, first);
    var r := Search(g, li, lj, radius, nextRow, first);
    assert Search(g, li, lj, radius, dlat, past) == r;
    forall x, y ensures NotYetScanned(li, lj, radius, dlat, past, x, y)
      <==> NotYetScanned(li, lj, radius, nextRow, first, x, y) {
      NextRowSameRemainder(li, lj, radius, dlat, x, y);
    }
    FindsTransfer(g, li, lj, radius, dlat, past, radius, nextRow, first, r);
  }

  /**
    The resumed search gives what `Finds` expects, by induction on the loop
    position: each step lemma above covers one kind of step and calls back
    here for the position after it.
   */
  lemma {:induction false} SearchFinds(g: Snapshot, li: int, lj: int, radius: int, dlat: int, dlon: int)
    requires g.Valid()
    requires 1 <= radius
    requires -radius <= dlat <= radius + 1 && -radius <= dlon <= radius + 1
    ensures Finds(g, li, lj, radius, dlat, dlon, Search(g, li, lj, radius, dlat, dlon))
    decreases MaxRadius + 1 - radius, radius + 1 - dlat, radius + 1 - dlon, 1
  {
    if radius > MaxRadius {
      FindsExhausted(g, li, lj, radius, dlat, dlon);
    } else if dlat > radius {
      FindsNextRing(g, li, lj, radius, dlon);
    } else if dlon > radius {
      FindsNextRow(g, li, lj, radius, dlat);
    } else if (AbsInt(dlat) == radius || AbsInt(dlon) == radius) && g.Probe(li + dlat, lj + dlon).Some? {
      FindsHere(g, li, lj, radius, dlat, dlon);
    } else {
      FindsSkip(g, li, lj, radius, dlat, dlon);
    }
  }

  /** A defined cell on the ring at the current position is the first hit. */
  lemma HitHere(g: Snapshot, li: int, lj: int, radius: int, dlat: int, dlon: int)
    requires g.Valid()
    requires 1 <= radius && -radius <= dlat <= radius && -radius <= dlon <= radius
    requires AbsInt(dlat) == radius || AbsInt(dlon) == radius
    requires g.Probe(li + dlat, lj + dlon).Some?
    requires radius <= MaxRadius
    ensures FirstHit(g, li, lj, radius, dlat, dlon, li + dlat, lj + dlon)
  {
    var a0, b0 := li + dlat, lj + dlon;
    assert Cheb(a0 - li, b0 - lj) == radius;
    forall a', b' | Candidate(li, lj, a', b') && NotYetScanned(li, lj, radius, dlat, dlon, a', b')
      ensures !ScanBefore(li, lj, a', b', a0, b0) { }
  }

  /** Skipping an undefined or off-ring cell keeps the later first hit first. */
  lemma SkipHere(g: Snapshot, li: int, lj: int, radius: int, dlat: int, dlon: int, a: int, b: int)
    requires g.Valid()
    requires 1 <= radius && -radius <= dlat <= radius && -radius <= dlon <= radius
    requires !((AbsInt(dlat) == radius || AbsInt(dlon) == radius) && g.Probe(li + dlat, lj + dlon).Some?)
    requires forall x, y ::
      NotYetScanned(li, lj, radius, dlat, dlon, x, y) <==>
        (NotYetScanned(li, lj, radius, dlat, dlon + 1, x, y) || (x == li + dlat && y == lj + dlon && (AbsInt(dlat) == radius || AbsInt(dlon) == radius)))
    requires FirstHit(g, li, lj, radius, dlat, dlon + 1, a, b)
    ensures FirstHit(g, li, lj, radius, dlat, dlon, a, b)
  {
  }

  /** The search comes back undefined iff every in-bounds cell at distance 1..5 is undefined. */
  lemma NearestNonNanNone(g: Snapshot, li: int, lj: int)
    requires g.Valid()
    ensures NearestNonNan(g, li, lj).None? <==>
      forall a, b :: g.InBounds(a, b) && Candidate(li, lj, a, b) ==> g.sla[a][b].None?
  {
    SearchFinds(g, li, lj, 1, -1, -1);
    forall a, b | Candidate(li, lj, a, b) ensures NotYetScanned(li, lj, 1, -1, -1, a, b) { }
    assert forall a, b :: g.InBounds(a, b) ==> g.Probe(a, b) == g.sla[a][b];
  }

  /**
    A defined result is the value of an in-bounds cell at distance 1..5 from
    the centre, and every in-bounds cell that the scan order puts before it is
    undefined: in particular every cell of a nearer ring.
   */
  lemma NearestNonNanFirst(g: Snapshot, li: int, lj: int)
    requires g.Valid()
    requires NearestNonNan(g, li, lj).Some?
    ensures exists a, b ::
      && g.InBounds(a, b) && Candidate(li, lj, a, b) && g.sla[a][b] == NearestNonNan(g, li, lj)
      && (forall a', b' :: g.InBounds(a', b') && Candidate(li, lj, a', b') && ScanBefore(li, lj, a', b', a, b) ==> g.sla[a'][b'].None?)
      && (forall a', b' :: g.InBounds(a', b') && 1 <= Cheb(a' - li, b' - lj) < Cheb(a - li, b - lj) ==> g.sla[a'][b'].None?)
  {
    SearchFinds(g, li, lj, 1, -1, -1);
    var a, b :| FirstHit(g, li, lj, 1, -1, -1, a, b) && g.Probe(a, b) == NearestNonNan(g, li, lj);
    forall a', b' | Candidate(li, lj, a', b') ensures NotYetScanned(li, lj, 1, -1, -1, a', b') { }
    forall a', b' | g.InBounds(a', b') && Candidate(li, lj, a', b') && ScanBefore(li, lj, a', b', a, b)
      ensures g.sla[a'][b'].None?
    {
      assert g.Probe(a', b').None?;
    }
    forall a', b' | g.InBounds(a', b') && 1 <= Cheb(a' - li, b' - lj) < Cheb(a - li, b - lj)
      ensures g.sla[a'][b'].None?
    {
      assert ScanBefore(li, lj, a', b', a, b);
      assert g.Probe(a', b').None?;
    }
  }

  /** Two grids of one shape that differ at most at the centre cell. */
  ghost predicate SameAwayFromCentre(g: Snapshot, h: Snapshot, li: int, lj: int)
    requires g.Valid() && h.Valid()
  {
    && |g.lats| == |h.lats| && |g.lons| == |h.lons|
    && forall a, b :: (a != li || b != lj) ==> g.Probe(a, b) == h.Probe(a, b)
  }

  /** The centre cell is never examined: its value cannot change the result. */
  lemma {:induction false} SearchIgnoresCentre(g: Snapshot, h: Snapshot, li: int, lj: int, radius: int, dlat: int, dlon: int)
    requires g.Valid() && h.Valid() && SameAwayFromCentre(g, h, li, lj)
    requires 1 <= radius
    requires -radius <= dlat <= radius + 1 && -radius <= dlon <= radius + 1
    ensures Search(g, li, lj, radius, dlat, dlon) == Search(h, li, lj, radius, dlat, dlon)
    decreases MaxRadius + 1 - radius, radius + 1 - dlat, radius + 1 - dlon
  {
    if radius > MaxRadius {
    } else if dlat > radius {
      SearchIgnoresCentre(g, h, li, lj, radius + 1, -(radius + 1), -(radius + 1));
    } else if dlon > radius {
      SearchIgnoresCentre(g, h, li, lj, radius, dlat + 1, -radius);
    } else {
      if AbsInt(dlat) == radius || AbsInt(dlon) == radius {
        assert g.Probe(li + dlat, lj + dlon) == h.Probe(li + dlat, lj + dlon);
      }
      SearchIgnoresCentre(g, h, li, lj, radius, dlat, dlon + 1);
    }
  }

  /**
    `find_nearest_non_nan(dataset, lat_idx, lon_idx)`: rings of radius 1..5,
    each scanned by latitude offset then longitude offset, returning the first
    in-bounds defined cell; every grid access is guarded by the bounds test.
   */
  method FindNearestNonNan(g: Snapshot, li: int, lj: int) returns (r: Option<real>)
    requires g.Valid()
    ensures r == NearestNonNan(g, li, lj)
  {
    var radius := 1;
    while radius <= MaxRadius
      invariant 1 <= radius <= MaxRadius + 1
      invariant Search(g, li, lj, radius, -radius, -radius) == NearestNonNan(g, li, lj)
    {
      var dlat := -radius;
      while dlat <= radius
        invariant -radius <= dlat <= radius + 1
        invariant Search(g, li, lj, radius, dlat, -radius) == NearestNonNan(g, li, lj)
      {
        var dlon := -radius;
        while dlon <= radius
          invariant -radius <= dlon <= radius + 1
          invariant Search(g, li, lj, radius, dlat, dlon) == NearestNonNan(g, li, lj)
        {
          if AbsInt(dlat) == radius || AbsInt(dlon) == radius {
            var a, b := li + dlat, lj + dlon;
            if 0 <= a < |g.lats| && 0 <= b < |g.lons| {
              var v := g.sla[a][b];
              if v.Some? {
                return v;
              }
            }
          }
          dlon := dlon + 1;
        }
        dlat := dlat + 1;
      }
      radius := radius + 1;
    }
    return None;
  }
}
