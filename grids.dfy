/**
  `create_filtered_grids.py`: rebuild one gridded field per day from the
  per-point filtered series. The grid's axes are the sample grid's axis
  values that occur in some in-region point; the per-point files are read
  into a dictionary keyed by the coordinates in their names; each cell of a
  day's grid takes the day's value of the first series, in dictionary order,
  whose key is within 0.01 of the cell on both coordinates.

  Directory listings are sequences of names; the per-point files are a map
  from name to their contents.
 */
module FilteredGrids {
  import opened Common
  import opened Text
  import opened Decimal
  import opened Dates
  import opened FilteredTimeSeries

  // ---------------------------------------------------------------------
  // Region test and tolerance
  // ---------------------------------------------------------------------

  /** `is_inside_parallelogram(lat, lon, vertices)`: the scalar test, as two early returns. */
  predicate InsideScalar(lat: real, lon: real, vs: seq<Vertex>)
    requires |vs| > 0
  {
    if lon < SeqMin(LonColumn(vs)) || lon > SeqMax(LonColumn(vs)) then false
    else if lat < SeqMin(LatColumn(vs)) || lat > SeqMax(LatColumn(vs)) then false
    else true
  }

  /** The scalar test is the closed-box rule of the region's bounding box. */
  lemma InsideScalarIsInBox(lat: real, lon: real, vs: seq<Vertex>)
    requires |vs| > 0
    ensures InsideScalar(lat, lon, vs) <==> InBox(lat, lon, vs)
  {
  }

  /** The scalar test and the vectorised mask agree on every cell of the meshgrid. */
  lemma InsideScalarAgreesWithMask(lats: seq<real>, lons: seq<real>, vs: seq<Vertex>)
    requires |vs| > 0
    ensures var g := MeshGrid(lats, lons);
      var mask := InsideMask(g.0, g.1, vs);
      forall j, i :: 0 <= j < |lons| && 0 <= i < |lats| ==> (mask[j][i] <==> InsideScalar(lats[i], lons[j], vs))
  {
    var g := MeshGrid(lats, lons);
    var mask := InsideMask(g.0, g.1, vs);
    forall j, i | 0 <= j < |lons| && 0 <= i < |lats|
      ensures mask[j][i] <==> InsideScalar(lats[i], lons[j], vs)
    {
      assert g.0[j][i] == lats[i] && g.1[j][i] == lons[j];
      InsideScalarIsInBox(lats[i], lons[j], vs);
    }
  }

  /** `is_close(a, b)` with its default tolerance. */
  const Tolerance: real := 0.01

  /** `is_close(a, b)`: `abs(a - b) < tol`. */
  predicate IsClose(a: real, b: real) {
    Abs(a - b) < Tolerance
  }

  /** The tolerance test is strict and symmetric: a difference of exactly 0.01 is not close. */
  lemma IsCloseStrict(a: real, b: real)
    ensures IsClose(a, b) <==> -0.01 < a - b < 0.01
    ensures IsClose(a, b) <==> IsClose(b, a)
    ensures !IsClose(a, a + 0.01) && !IsClose(a + 0.01, a)
  {
  }

  // ---------------------------------------------------------------------
  // The axes of the reconstructed grids
  // ---------------------------------------------------------------------

  /** The indices below n that satisfy `keep`, ascending. */
  function Where(n: nat, keep: nat -> bool): (ks: seq<nat>)
    ensures forall p :: 0 <= p < |ks| ==> ks[p] < n && keep(ks[p])
    ensures forall i :: 0 <= i < n && keep(i) ==> i in ks
    ensures forall p, q :: 0 <= p < q < |ks| ==> ks[p] < ks[q]
  {
    if n == 0 then []
    else
      var prev := Where(n - 1, keep);
      if keep(n - 1) then
        var ks := prev + [n - 1];
        assert forall p :: 0 <= p < |prev| ==> ks[p] == prev[p];
        ks
      else prev
  }

  /** Two tests that agree below n select the same indices. */
  lemma {:induction false} WhereAgrees(n: nat, keep: nat -> bool, keep': nat -> bool)
    requires forall i :: 0 <= i < n ==> keep(i) == keep'(i)
    ensures Where(n, keep) == Where(n, keep')
  {
    if n > 0 {
      WhereAgrees(n - 1, keep, keep');
    }
  }

  /** `np.unique(xs)` for indices below n: the distinct values of xs, ascending. */
  function Unique(xs: seq<nat>, n: nat): (u: seq<nat>)
    requires forall x :: x in xs ==> x < n
    ensures forall x :: x in u <==> x in xs
    ensures forall p, q :: 0 <= p < q < |u| ==> u[p] < u[q]
  {
    Where(n, (i: nat) => i in xs)
  }

  /** Latitude x lies in the region together with one of the first `upto` longitudes. */
  predicate LatInRegion(lats: seq<real>, lons: seq<real>, vs: seq<Vertex>, x: nat, upto: nat)
    requires |vs| > 0 && x < |lats| && upto <= |lons|
  {
    exists j :: 0 <= j < upto && InsideScalar(lats[x], lons[j], vs)
  }

  /** Longitude y lies in the region together with one of the first `upto` latitudes. */
  predicate LonInRegion(lats: seq<real>, lons: seq<real>, vs: seq<Vertex>, y: nat, upto: nat)
    requires |vs| > 0 && y < |lons| && upto <= |lats|
  {
    exists i :: 0 <= i < upto && InsideScalar(lats[i], lons[y], vs)
  }

  /** The latitude indices that occur in at least one in-region pair, ascending. */
  function RegionLatIndices(lats: seq<real>, lons: seq<real>, vs: seq<Vertex>): seq<nat>
    requires |vs| > 0
  {
    Where(|lats|, (x: nat) => x < |lats| && LatInRegion(lats, lons, vs, x, |lons|))
  }

  /** The longitude indices that occur in at least one in-region pair, ascending. */
  function RegionLonIndices(lats: seq<real>, lons: seq<real>, vs: seq<Vertex>): seq<nat>
    requires |vs| > 0
  {
    Where(|lons|, (y: nat) => y < |lons| && LonInRegion(lats, lons, vs, y, |lats|))
  }

  /** The axis values at the given indices: `axis[indices]`. */
  function Pick(axis: seq<real>, idx: seq<nat>): (r: seq<real>)
    requires forall p :: 0 <= p < |idx| ==> idx[p] < |axis|
    ensures |r| == |idx| && forall p :: 0 <= p < |idx| ==> r[p] == axis[idx[p]]
  {
    seq(|idx|, p requires 0 <= p < |idx| => axis[idx[p]])
  }

  /** The inner loop over the longitudes for latitude index i: append each in-region pair. */
  method ScanLatitude(lats: seq<real>, lons: seq<real>, vs: seq<Vertex>, i: nat, latIndices: seq<nat>, lonIndices: seq<nat>)
    returns (latIndices': seq<nat>, lonIndices': seq<nat>)
    requires |vs| > 0 && i < |lats|
    ensures forall x: nat :: x in latIndices' <==> x in latIndices || (x == i && LatInRegion(lats, lons, vs, i, |lons|))
    ensures forall y: nat :: y in lonIndices' <==> y in lonIndices || (y < |lons| && InsideScalar(lats[i], lons[y], vs))
  {
    latIndices', lonIndices' := latIndices, lonIndices;
    for j := 0 to |lons|
      invariant forall x: nat :: x in latIndices' <==> x in latIndices || (x == i && LatInRegion(lats, lons, vs, i, j))
      invariant forall y: nat :: y in lonIndices' <==> y in lonIndices || (y < j && InsideScalar(lats[i], lons[y], vs))
    {
      if InsideScalar(lats[i], lons[j], vs) {
        latIndices' := latIndices' + [i];
        lonIndices' := lonIndices' + [j];
      }
    }
  }

  /**
    The double loop over the sample grid that collects `lat_indices` and
    `lon_indices`, then `np.unique` of each: the axis indices of the
    reconstructed grids.
   */
  method RegionAxes(lats: seq<real>, lons: seq<real>, vs: seq<Vertex>) returns (latIdx: seq<nat>, lonIdx: seq<nat>)
    requires |vs| > 0
    ensures latIdx == RegionLatIndices(lats, lons, vs)
    ensures lonIdx == RegionLonIndices(lats, lons, vs)
  {
    var latIndices: seq<nat> := [];
    var lonIndices: seq<nat> := [];
    for i := 0 to |lats|
      invariant forall x: nat :: x in latIndices <==> x < i && LatInRegion(lats, lons, vs, x, |lons|)
      invariant forall y: nat :: y in lonIndices <==> y < |lons| && LonInRegion(lats, lons, vs, y, i)
    {
      latIndices, lonIndices := ScanLatitude(lats, lons, vs, i, latIndices, lonIndices);
      forall y: nat | y < |lons|
        ensures LonInRegion(lats, lons, vs, y, i + 1) <==> LonInRegion(lats, lons, vs, y, i) || InsideScalar(lats[i], lons[y], vs)
      {
        if LonInRegion(lats, lons, vs, y, i + 1) && !InsideScalar(lats[i], lons[y], vs) {
          var x :| 0 <= x < i + 1 && InsideScalar(lats[x], lons[y], vs);
          assert x < i;
        }
      }
    }
    latIdx := Unique(latIndices, |lats|);
    lonIdx := Unique(lonIndices, |lons|);
    WhereAgrees(|lats|, (x: nat) => x in latIndices, (x: nat) => x < |lats| && LatInRegion(lats, lons, vs, x, |lons|));
    WhereAgrees(|lons|, (y: nat) => y in lonIndices, (y: nat) => y < |lons| && LonInRegion(lats, lons, vs, y, |lats|));
  }

  /**
    The reconstructed grids cover exactly the region cells the per-point step
    selects: a pair of a valid latitude index and a valid longitude index is
    an in-region cell, and every in-region cell is such a pair.
   */
  lemma RegionAxesCoverSelectedCells(lats: seq<real>, lons: seq<real>, vs: seq<Vertex>, i: nat, j: nat)
    requires |vs| > 0 && i < |lats| && j < |lons|
    ensures i in RegionLatIndices(lats, lons, vs) && j in RegionLonIndices(lats, lons, vs)
      <==> Cell(i, j) in SelectedCells(lats, lons, vs)
  {
    var latIdx, lonIdx := RegionLatIndices(lats, lons, vs), RegionLonIndices(lats, lons, vs);
    if i in latIdx && j in lonIdx {
      assert LatInRegion(lats, lons, vs, i, |lons|) && LonInRegion(lats, lons, vs, j, |lats|);
      var j' :| 0 <= j' < |lons| && InsideScalar(lats[i], lons[j'], vs);
      var i' :| 0 <= i' < |lats| && InsideScalar(lats[i'], lons[j], vs);
      InsideScalarIsInBox(lats[i], lons[j'], vs);
      InsideScalarIsInBox(lats[i'], lons[j], vs);
      InsideScalarIsInBox(lats[i], lons[j], vs);
    } else if InBox(lats[i], lons[j], vs) {
      InsideScalarIsInBox(lats[i], lons[j], vs);
      assert LatInRegion(lats, lons, vs, i, |lons|) && LonInRegion(lats, lons, vs, j, |lats|);
    }
  }

  // ---------------------------------------------------------------------
  // Keys from per-point file names
  // ---------------------------------------------------------------------

  /** A dictionary key: the two coordinates read from a per-point file name, rounded. */
  datatype Key = Key(lat: real, lon: real)

  /** `round(x, 2)`: the nearest multiple of 0.01. */
  function RoundTo2(x: real): (r: real)
    ensures (r * 100.0).Floor as real == r * 100.0
    ensures -0.005 <= x - r <= 0.005
  {
    Round2(x) as real / 100.0
  }

  /** The names `reconstruct_daily_grids` reads: they start with "filtered_sla" and end with ".nc". */
  predicate IsSeriesName(name: string) {
    StartsWith(name, "filtered_sla") && EndsWith(name, ".nc")
  }

  /**
    The key of a per-point file: drop every "filtered_sla_lat_" and every
    ".nc", split at "_lon_" into exactly two fields, read each as a float and
    round it to two decimals. Anything else raises.
   */
  function ParseSeriesName(name: string): Result<Key>
  {
    var core := ReplaceAll(ReplaceAll(name, "filtered_sla_lat_", ""), ".nc", "");
    var parts := Split(core, "_lon_");
    if |parts| != 2 then Failure("wrong number of values to unpack")
    else
      match ParseDecimal(parts[0])
      case None => Failure("could not convert string to float")
      case Some(la) =>
        match ParseDecimal(parts[1])
        case None => Failure("could not convert string to float")
        case Some(lo) => Ok(Key(RoundTo2(la), RoundTo2(lo)))
  }

  /** No '.' in s is followed by an 'n': ".nc" cannot start at a dot. */
  predicate NoDotN(s: string) {
    forall i :: 0 <= i < |s| && s[i] == '.' ==> i + 1 < |s| && s[i + 1] != 'n'
  }

  lemma NoDotNConcat(a: string, b: string)
    requires NoDotN(a) && NoDotN(b)
    ensures NoDotN(a + b)
  {
    var s := a + b;
    forall i | 0 <= i < |s| && s[i] == '.' ensures i + 1 < |s| && s[i + 1] != 'n' {
      if i < |a| {
        assert s[i] == a[i] && s[i + 1] == a[i + 1];
      } else {
        assert s[i] == b[i - |a|] && s[i + 1] == b[i - |a| + 1];
      }
    }
  }

  /** A formatted coordinate holds no 'f', no '_', and no ".n". */
  lemma FormattedPlain(h: int)
    ensures Avoids(FormatFixed2(h), 'f') && Avoids(FormatFixed2(h), '_') && NoDotN(FormatFixed2(h))
  {
    FormatShape(h);
  }

  /** Dropping the "filtered_sla_lat_" prefix of a saved name. */
  lemma DropPrefix(a: string, b: string)
    requires Avoids(a, 'f') && Avoids(b, 'f')
    ensures ReplaceAll("filtered_sla_lat_" + a + "_lon_" + b + ".nc", "filtered_sla_lat_", "") == a + "_lon_" + b + ".nc"
  {
    var rest := a + "_lon_" + b + ".nc";
    assert "filtered_sla_lat_" + a + "_lon_" + b + ".nc" == "filtered_sla_lat_" + rest;
    ReplaceAtFront("filtered_sla_lat_", rest, "");
    assert Avoids(rest, 'f');
    AvoidsNoMatch(rest, "filtered_sla_lat_");
    ReplaceNothing(rest, "filtered_sla_lat_", "");
  }

  /** No occurrence of ".nc" starts inside a prefix with no ".n". */
  lemma NoDotNNoMatch(u: string, v: string)
    requires NoDotN(u)
    ensures NoMatchBefore(u + v, ".nc", |u|)
  {
    var s := u + v;
    forall i | 0 <= i < |u| ensures !MatchAt(s, ".nc", i) {
      assert s[i] == u[i];
      if u[i] == '.' {
        assert s[i + 1] == u[i + 1] != 'n';
        assert ".nc"[1] == 'n';
      }
    }
  }

  /** Dropping the ".nc" suffix of a saved name's remainder. */
  lemma DropSuffix(a: string, b: string)
    requires NoDotN(a) && NoDotN(b)
    ensures ReplaceAll(a + "_lon_" + b + ".nc", ".nc", "") == a + "_lon_" + b
  {
    var u := a + "_lon_" + b;
    NoDotNConcat(a, "_lon_");
    NoDotNConcat(a + "_lon_", b);
    NoDotNNoMatch(u, ".nc");
    ReplaceSkipsPrefix(u, ".nc", ".nc", "");
    assert ".nc" == ".nc" + [];
    ReplaceAtFront(".nc", [], "");
    assert ReplaceAll([], ".nc", "") == [];
    assert u + [] == u;
  }

  /** A name written by `save_to_netcdf` is one that `reconstruct_daily_grids` reads. */
  lemma SavedNameIsSeries(lat: real, lon: real)
    ensures IsSeriesName(SaveFileName(lat, lon))
  {
    var name := SaveFileName(lat, lon);
    assert name[..12] == "filtered_sla";
  }

  /** A multiple of 0.01 rounds to itself. */
  lemma RoundTo2Hundredths(h: int)
    ensures RoundTo2(h as real / 100.0) == h as real / 100.0
  {
    RoundHundredths(h);
  }

  /**
    A name built from two fields that hold no 'f', no '_' and no ".n" parses
    to the numbers the fields spell, rounded.
   */
  lemma ParseFieldsName(a: string, b: string, x: real, y: real)
    requires Avoids(a, 'f') && Avoids(b, 'f') && Avoids(a, '_') && Avoids(b, '_') && NoDotN(a) && NoDotN(b)
    requires ParseDecimal(a) == Some(x) && ParseDecimal(b) == Some(y)
    requires RoundTo2(x) == x && RoundTo2(y) == y
    ensures ParseSeriesName("filtered_sla_lat_" + a + "_lon_" + b + ".nc") == Ok(Key(x, y))
  {
    DropPrefix(a, b);
    DropSuffix(a, b);
    SplitTwo(a, b, "_lon_");
  }

  /** A formatted coordinate is a field `ParseFieldsName` accepts, and it reads back exactly. */
  lemma FormattedField(h: int)
    ensures Avoids(FormatFixed2(h), 'f') && Avoids(FormatFixed2(h), '_') && NoDotN(FormatFixed2(h))
    ensures ParseDecimal(FormatFixed2(h)) == Some(h as real / 100.0)
    ensures RoundTo2(h as real / 100.0) == h as real / 100.0
  {
    FormattedPlain(h);
    ParseFormatted(h);
    RoundTo2Hundredths(h);
  }

  /**
    A name written by `save_to_netcdf` is read by `reconstruct_daily_grids`
    and parses back to the two coordinates rounded to two decimals.
   */
  lemma ParseSavedName(lat: real, lon: real)
    ensures IsSeriesName(SaveFileName(lat, lon))
    ensures ParseSeriesName(SaveFileName(lat, lon)) == Ok(Key(RoundTo2(lat), RoundTo2(lon)))
  {
    SavedNameIsSeries(lat, lon);
    var h1, h2 := Round2(lat), Round2(lon);
    var a, b := FormatFixed2(h1), FormatFixed2(h2);
    assert SaveFileName(lat, lon) == "filtered_sla_lat_" + a + "_lon_" + b + ".nc";
    assert RoundTo2(lat) == h1 as real / 100.0 && RoundTo2(lon) == h2 as real / 100.0;
    FormattedField(h1);
    FormattedField(h2);
    ParseFieldsName(a, b, h1 as real / 100.0, h2 as real / 100.0);
  }

  // ---------------------------------------------------------------------
  // time_series_data: an insertion-ordered dictionary
  // ---------------------------------------------------------------------

  /** One entry of `time_series_data`: a key and the `filtered_sla` values of its file. */
  datatype Entry = Entry(key: Key, values: seq<Option<real>>)

  /** The keys in dictionary order: `list(d)`. */
  function Keys(d: seq<Entry>): (ks: seq<Key>)
    ensures |ks| == |d| && forall p :: 0 <= p < |d| ==> ks[p] == d[p].key
  {
    if |d| == 0 then [] else [d[0].key] + Keys(d[1..])
  }

  predicate DistinctKeys(d: seq<Entry>) {
    forall p, q :: 0 <= p < q < |d| ==> d[p].key != d[q].key
  }

  /** `d[key]`: the values stored under key, if any (the first entry with that key). */
  function Get(d: seq<Entry>, key: Key): (r: Option<seq<Option<real>>>)
    ensures r.None? <==> key !in Keys(d)
  {
    if |d| == 0 then None
    else if d[0].key == key then Some(d[0].values)
    else Get(d[1..], key)
  }

  /**
    `d[key] = values` on a Python dict: a key already present keeps its place;
    a new key goes last.
   */
  function Put(d: seq<Entry>, key: Key, values: seq<Option<real>>): (r: seq<Entry>)
    ensures Keys(r) == if key in Keys(d) then Keys(d) else Keys(d) + [key]
  {
    if |d| == 0 then [Entry(key, values)]
    else if d[0].key == key then
      var r := [Entry(key, values)] + d[1..];
      assert r[1..] == d[1..];
      r
    else
      var rest := Put(d[1..], key, values);
      var r := [d[0]] + rest;
      assert r[1..] == rest;
      assert key in Keys(d) <==> key in Keys(d[1..]);
      assert [d[0].key] + (Keys(d[1..]) + [key]) == Keys(d) + [key];
      r
  }

  /** After `d[key] = values`, key holds the new values and every other key keeps its values. */
  lemma {:induction false} PutGet(d: seq<Entry>, key: Key, values: seq<Option<real>>)
    ensures Get(Put(d, key, values), key) == Some(values)
    ensures forall k :: k != key ==> Get(Put(d, key, values), k) == Get(d, k)
  {
    if |d| > 0 && d[0].key != key {
      PutGet(d[1..], key, values);
      var r := Put(d, key, values);
      assert r[0] == d[0] && r[1..] == Put(d[1..], key, values);
    } else if |d| > 0 {
      var r := Put(d, key, values);
      assert r[1..] == d[1..];
    }
  }

  /** Storing under a key never duplicates a key. */
  lemma PutDistinct(d: seq<Entry>, key: Key, values: seq<Option<real>>)
    requires DistinctKeys(d)
    ensures DistinctKeys(Put(d, key, values))
  {
    var r := Put(d, key, values);
    assert Keys(r) == if key in Keys(d) then Keys(d) else Keys(d) + [key];
    forall p, q | 0 <= p < q < |r| ensures r[p].key != r[q].key {
      assert Keys(r)[p] == r[p].key && Keys(r)[q] == r[q].key;
    }
  }

  // ---------------------------------------------------------------------
  // Loading the per-point files
  // ---------------------------------------------------------------------

  /** What a per-point file offers the reconstruction: its `time` axis and its `filtered_sla` values. */
  datatype SeriesFile = SeriesFile(time: seq<int>, filtered: seq<Option<real>>)

  /**
    The state after the loading loop: the dictionary, and the time axis of
    the last file opened (`ds` stays bound to it; empty when none was opened).
   */
  datatype Loaded = Loaded(dict: seq<Entry>, lastTime: seq<int>)

  /** Every name the loading loop opens is available. */
  predicate FilesAvailable(listing: seq<string>, files: map<string, SeriesFile>) {
    forall k :: 0 <= k < |listing| && IsSeriesName(listing[k]) ==> listing[k] in files
  }

  /** The loading loop of `reconstruct_daily_grids` over the listing; it fails at the first series name it cannot parse. */
  function LoadAll(listing: seq<string>, files: map<string, SeriesFile>): Result<Loaded>
    requires FilesAvailable(listing, files)
  {
    if |listing| == 0 then Ok(Loaded([], []))
    else
      var n := |listing| - 1;
      var name := listing[n];
      match LoadAll(listing[..n], files)
      case Failure(e) => Failure(e)
      case Ok(ld) =>
        if !IsSeriesName(name) then Ok(ld)
        else
          match ParseSeriesName(name)
          case Failure(e) => Failure(e)
          case Ok(key) => Ok(Loaded(Put(ld.dict, key, files[name].filtered), files[name].time))
  }

  /** Once a prefix of the listing fails to load, so does the whole listing, with the same error. */
  lemma {:induction false} LoadFailureSticks(listing: seq<string>, files: map<string, SeriesFile>, k: nat)
    requires FilesAvailable(listing, files) && k <= |listing|
    requires LoadAll(listing[..k], files).Failure?
    ensures LoadAll(listing, files) == LoadAll(listing[..k], files)
    decreases |listing| - k
  {
    if k < |listing| {
      assert listing[..k + 1][..k] == listing[..k];
      LoadFailureSticks(listing, files, k + 1);
    } else {
      assert listing[..k] == listing;
    }
  }

  /** The loading loop of `reconstruct_daily_grids`. */
  method LoadSeriesFiles(listing: seq<string>, files: map<string, SeriesFile>) returns (r: Result<Loaded>)
    requires FilesAvailable(listing, files)
    ensures r == LoadAll(listing, files)
  {
    var dict: seq<Entry> := [];
    var lastTime: seq<int> := [];
    for k := 0 to |listing|
      invariant LoadAll(listing[..k], files) == Ok(Loaded(dict, lastTime))
    {
      assert listing[..k + 1][..k] == listing[..k];
      var name := listing[k];
      if StartsWith(name, "filtered_sla") && EndsWith(name, ".nc") {
        match ParseSeriesName(name)
        case Failure(e) =>
          LoadFailureSticks(listing, files, k + 1);
          return Failure(e);
        case Ok(key) =>
          var ds := files[name];
          dict := Put(dict, key, ds.filtered);
          lastTime := ds.time;
      }
    }
    assert listing[..|listing|] == listing;
    r := Ok(Loaded(dict, lastTime));
  }

  /**
    What the loading loop makes of one listed name: `None` when it skips the
    name, otherwise the outcome of reading a key from it.
   */
  function NameTag(name: string): (t: Option<Result<Key>>)
    ensures t.None? <==> !IsSeriesName(name)
    ensures t.Some? ==> t.value == ParseSeriesName(name)
  {
    if IsSeriesName(name) then Some(ParseSeriesName(name)) else None
  }

  /** The tags of a whole listing, position by position. */
  function Tags(listing: seq<string>): (ts: seq<Option<Result<Key>>>)
    ensures |ts| == |listing|
  {
    if |listing| == 0 then [] else Tags(listing[..|listing| - 1]) + [NameTag(listing[|listing| - 1])]
  }

  /** Tags(listing) holds the tag of each listed name at its position. */
  lemma {:induction false} TagsAt(listing: seq<string>, k: nat)
    requires k < |listing|
    ensures Tags(listing)[k] == NameTag(listing[k])
  {
    var n := |listing| - 1;
    if k < n {
      TagsAt(listing[..n], k);
    }
  }

  /** The `filtered_sla` values of each listed series file (empty for a skipped name). */
  function SeriesValues(listing: seq<string>, files: map<string, SeriesFile>): (vs: seq<seq<Option<real>>>)
    requires FilesAvailable(listing, files)
    ensures |vs| == |listing|
  {
    if |listing| == 0 then []
    else
      var n := |listing| - 1;
      assert FilesAvailable(listing[..n], files) by {
        assert forall k :: 0 <= k < n ==> listing[..n][k] == listing[k];
      }
      SeriesValues(listing[..n], files) + [if IsSeriesName(listing[n]) then files[listing[n]].filtered else []]
  }

  /** SeriesValues(listing, files) holds the values of each listed series file at its position. */
  lemma {:induction false} SeriesValuesAt(listing: seq<string>, files: map<string, SeriesFile>, k: nat)
    requires FilesAvailable(listing, files) && k < |listing| && IsSeriesName(listing[k])
    ensures SeriesValues(listing, files)[k] == files[listing[k]].filtered
  {
    var n := |listing| - 1;
    if k < n {
      assert listing[..n][k] == listing[k];
      assert FilesAvailable(listing[..n], files) by {
        assert forall m :: 0 <= m < n ==> listing[..n][m] == listing[m];
      }
      SeriesValuesAt(listing[..n], files, k);
    }
  }

  /** Position k of the listing holds a file with this key, and no later one does. */
  predicate LastWithKey(ts: seq<Option<Result<Key>>>, k: int, key: Key) {
    && 0 <= k < |ts| && ts[k] == Some(Ok(key))
    && forall m :: k < m < |ts| ==> ts[m] != Some(Ok(key))
  }

  /** Entry e holds the values of the last listed file with its key. */
  ghost predicate FromLast(ts: seq<Option<Result<Key>>>, vs: seq<seq<Option<real>>>, e: Entry)
    requires |ts| == |vs|
  {
    exists k :: LastWithKey(ts, k, e.key) && e.values == vs[k]
  }

  /** Each entry holds the values of the last listed file with its key. */
  ghost predicate EntriesFromLast(ts: seq<Option<Result<Key>>>, vs: seq<seq<Option<real>>>, d: seq<Entry>)
    requires |ts| == |vs|
  {
    forall p :: 0 <= p < |d| ==> FromLast(ts, vs, d[p])
  }

  /** A file listed later with another key (or a skipped name) leaves FromLast intact. */
  lemma FromLastExtend(ts: seq<Option<Result<Key>>>, vs: seq<seq<Option<real>>>, e: Entry,
                       t: Option<Result<Key>>, v: seq<Option<real>>)
    requires |ts| == |vs| && FromLast(ts, vs, e) && t != Some(Ok(e.key))
    ensures FromLast(ts + [t], vs + [v], e)
  {
    var k :| LastWithKey(ts, k, e.key) && e.values == vs[k];
    var ts', vs' := ts + [t], vs + [v];
    assert forall m :: 0 <= m < |ts| ==> ts'[m] == ts[m];
    assert LastWithKey(ts', k, e.key) && vs'[k] == vs[k];
  }

  /** Every listed series name yields a key, and that key is in the dictionary. */
  predicate KeysListed(ts: seq<Option<Result<Key>>>, d: seq<Entry>) {
    forall k :: 0 <= k < |ts| && ts[k].Some? ==> ts[k].value.Ok? && ts[k].value.value in Keys(d)
  }

  /** Storing under a key keeps every key already present and adds the new one. */
  lemma PutKeys(d0: seq<Entry>, key: Key, v: seq<Option<real>>)
    ensures key in Keys(Put(d0, key, v))
    ensures forall x :: x in Keys(d0) ==> x in Keys(Put(d0, key, v))
  {
  }

  /** Storing the values of one more series file keeps every listed key in the dictionary. */
  lemma LoadStepSeriesKeys(ts: seq<Option<Result<Key>>>, d0: seq<Entry>, key: Key, v: seq<Option<real>>)
    requires KeysListed(ts, d0)
    ensures KeysListed(ts + [Some(Ok(key))], Put(d0, key, v))
  {
    var ts' := ts + [Some(Ok(key))];
    PutKeys(d0, key, v);
    forall k | 0 <= k < |ts'| && ts'[k].Some?
      ensures ts'[k].value.Ok? && ts'[k].value.value in Keys(Put(d0, key, v))
    {
      if k < |ts| {
        assert ts'[k] == ts[k];
      }
    }
  }

  /** An entry whose key was not stored keeps its values. */
  lemma PutKeepsOther(d0: seq<Entry>, key: Key, v: seq<Option<real>>, p: nat)
    requires DistinctKeys(d0) && p < |Put(d0, key, v)| && Put(d0, key, v)[p].key != key
    ensures exists q :: 0 <= q < |d0| && d0[q] == Put(d0, key, v)[p]
  {
    var d := Put(d0, key, v);
    PutDistinct(d0, key, v);
    PutGet(d0, key, v);
    GetDistinct(d, p);
    var kp := d[p].key;
    assert kp in Keys(d0) by {
      assert Keys(d)[p] == kp;
    }
    var q :| 0 <= q < |d0| && Keys(d0)[q] == kp;
    GetDistinct(d0, q);
    assert d0[q] == Entry(kp, d0[q].values);
  }

  /** Storing the values of one more series file keeps each entry tied to the last file with its key. */
  lemma LoadStepSeriesEntries(ts: seq<Option<Result<Key>>>, vs: seq<seq<Option<real>>>, d0: seq<Entry>,
                              key: Key, v: seq<Option<real>>)
    requires |ts| == |vs|
    requires DistinctKeys(d0) && EntriesFromLast(ts, vs, d0)
    ensures EntriesFromLast(ts + [Some(Ok(key))], vs + [v], Put(d0, key, v))
  {
    var ts', vs', d := ts + [Some(Ok(key))], vs + [v], Put(d0, key, v);
    forall p | 0 <= p < |d|
      ensures FromLast(ts', vs', d[p])
    {
      if d[p].key == key {
        PutDistinct(d0, key, v);
        PutGet(d0, key, v);
        GetDistinct(d, p);
        assert LastWithKey(ts', |ts|, key) && d[p].values == vs'[|ts|];
      } else {
        PutKeepsOther(d0, key, v, p);
        var q :| 0 <= q < |d0| && d0[q] == d[p];
        assert FromLast(ts, vs, d0[q]);
        FromLastExtend(ts, vs, d[p], Some(Ok(key)), v);
      }
    }
  }

  /** Skipping a name keeps the loading invariants. */
  lemma LoadStepOther(ts: seq<Option<Result<Key>>>, vs: seq<seq<Option<real>>>, d: seq<Entry>, v: seq<Option<real>>)
    requires |ts| == |vs|
    requires EntriesFromLast(ts, vs, d) && KeysListed(ts, d)
    ensures EntriesFromLast(ts + [None], vs + [v], d) && KeysListed(ts + [None], d)
  {
    forall p | 0 <= p < |d|
      ensures FromLast(ts + [None], vs + [v], d[p])
    {
      FromLastExtend(ts, vs, d[p], None, v);
    }
    var ts' := ts + [None];
    assert forall k :: 0 <= k < |ts| ==> ts'[k] == ts[k];
  }

  /**
    What loading promises about the dictionary: its keys are distinct and
    include the key of every listed series name, and each key holds the
    values of the last listed file with that key (a later file overwrites an
    earlier one without moving its key).
   */
  lemma {:induction false} LoadAllSpec(listing: seq<string>, files: map<string, SeriesFile>)
    requires FilesAvailable(listing, files) && LoadAll(listing, files).Ok?
    ensures var d := LoadAll(listing, files).value.dict;
      && DistinctKeys(d)
      && EntriesFromLast(Tags(listing), SeriesValues(listing, files), d)
      && KeysListed(Tags(listing), d)
  {
    if |listing| > 0 {
      var n := |listing| - 1;
      var pre := listing[..n];
      assert FilesAvailable(pre, files) by {
        assert forall k :: 0 <= k < n ==> pre[k] == listing[k];
      }
      LoadAllSpec(pre, files);
      var d0 := LoadAll(pre, files).value.dict;
      var ts, vs := Tags(pre), SeriesValues(pre, files);
      var v := if IsSeriesName(listing[n]) then files[listing[n]].filtered else [];
      assert SeriesValues(listing, files) == vs + [v];
      if IsSeriesName(listing[n]) {
        var key := ParseSeriesName(listing[n]).value;
        assert Tags(listing) == ts + [Some(Ok(key))];
        PutDistinct(d0, key, v);
        LoadStepSeriesKeys(ts, d0, key, v);
        LoadStepSeriesEntries(ts, vs, d0, key, v);
      } else {
        assert Tags(listing) == ts + [None];
        LoadStepOther(ts, vs, d0, v);
      }
    }
  }

  /** Position k holds the last series name of the listing. */
  predicate LastSeries(listing: seq<string>, k: int) {
    0 <= k < |listing| && IsSeriesName(listing[k]) && forall m :: k < m < |listing| ==> !IsSeriesName(listing[m])
  }

  /**
    The time axis left behind by loading is that of the last series name
    listed (`ds` stays bound to the last file opened), and it is empty, with
    an empty dictionary, when no listed name is one.
   */
  lemma {:induction false} LoadAllLastTime(listing: seq<string>, files: map<string, SeriesFile>)
    requires FilesAvailable(listing, files) && LoadAll(listing, files).Ok?
    ensures forall k :: LastSeries(listing, k) ==> LoadAll(listing, files).value.lastTime == files[listing[k]].time
    ensures (forall k :: 0 <= k < |listing| ==> !IsSeriesName(listing[k])) ==> LoadAll(listing, files).value == Loaded([], [])
  {
    if |listing| > 0 {
      var n := |listing| - 1;
      var pre := listing[..n];
      assert forall k :: 0 <= k < n ==> pre[k] == listing[k];
      assert FilesAvailable(pre, files);
      LoadAllLastTime(pre, files);
      forall k | LastSeries(listing, k)
        ensures LoadAll(listing, files).value.lastTime == files[listing[k]].time
      {
        if k < n {
          assert LastSeries(pre, k);
        }
      }
    }
  }

  /** With distinct keys, looking up the key of entry p finds entry p. */
  lemma {:induction false} GetDistinct(d: seq<Entry>, p: nat)
    requires DistinctKeys(d) && p < |d|
    ensures Get(d, d[p].key) == Some(d[p].values)
  {
    if p > 0 {
      assert d[1..][p - 1] == d[p];
      GetDistinct(d[1..], p - 1);
    }
  }

  // ---------------------------------------------------------------------
  // One cell of one day
  // ---------------------------------------------------------------------

  /** Position m is the first occurrence of day on the time axis. */
  predicate FirstAt(time: seq<int>, day: int, m: int) {
    0 <= m < |time| && time[m] == day && forall m' :: 0 <= m' < m ==> time[m'] != day
  }

  /** `np.where(time_values == day)[0][0]` when the day occurs on the axis. */
  function IndexOf(time: seq<int>, day: int): (r: Option<nat>)
    ensures r.Some? <==> day in time
    ensures r.Some? ==> FirstAt(time, day, r.value)
  {
    if |time| == 0 then None
    else if time[0] == day then Some(0)
    else
      match IndexOf(time[1..], day)
      case None => None
      case Some(m) => Some(m + 1)
  }

  /**
    What one entry close to the cell yields for a day: `Miss` when the day is
    not on the time axis, or when its index is past the end of the entry's
    values (the IndexError the loop catches and reports before going on),
    otherwise the value found there.
   */
  datatype Lookup = Miss | Hit(value: Option<real>)

  function DayLookup(time: seq<int>, values: seq<Option<real>>, day: int): Lookup
  {
    match IndexOf(time, day)
    case None => Miss
    case Some(m) => if m < |values| then Hit(values[m]) else Miss
  }

  /** The first occurrence of a day on the time axis is unique. */
  lemma FirstAtUnique(time: seq<int>, day: int, m: int, m': int)
    requires FirstAt(time, day, m) && FirstAt(time, day, m')
    ensures m == m'
  {
  }

  /**
    A lookup hits exactly when the day's first index on the time axis is an
    index of the values, and then it yields the value there.
   */
  lemma DayLookupSpec(time: seq<int>, values: seq<Option<real>>, day: int, m: int)
    requires FirstAt(time, day, m)
    ensures DayLookup(time, values, day).Hit? <==> m < |values|
    ensures m < |values| ==> DayLookup(time, values, day) == Hit(values[m])
  {
    FirstAtUnique(time, day, m, IndexOf(time, day).value);
  }

  /** A day missing from the time axis always misses. */
  lemma DayLookupAbsent(time: seq<int>, values: seq<Option<real>>, day: int)
    requires day !in time
    ensures DayLookup(time, values, day) == Miss
  {
  }

  /** Entry e's key is within tolerance of the cell on both coordinates and its lookup for the day hits. */
  predicate Serves(e: Entry, lat: real, lon: real, time: seq<int>, day: int) {
    IsClose(lat, e.key.lat) && IsClose(lon, e.key.lon) && DayLookup(time, e.values, day).Hit?
  }

  /**
    The scan over the dictionary from entry e on, for one cell and one day:
    the lookup of the first entry that serves the cell, `Miss` when none does.
    Every lookup uses `time`, the time axis of the last file loaded.
   */
  function CellScan(d: seq<Entry>, e: nat, lat: real, lon: real, time: seq<int>, day: int): Lookup
    requires e <= |d|
    decreases |d| - e
  {
    if e == |d| then Miss
    else if Serves(d[e], lat, lon, time, day) then DayLookup(time, d[e].values, day)
    else CellScan(d, e + 1, lat, lon, time, day)
  }

  /** The scan misses exactly when no entry from e on serves the cell. */
  lemma {:induction false} CellScanMiss(d: seq<Entry>, e: nat, lat: real, lon: real, time: seq<int>, day: int)
    requires e <= |d|
    ensures CellScan(d, e, lat, lon, time, day).Miss? <==> forall p :: e <= p < |d| ==> !Serves(d[p], lat, lon, time, day)
    decreases |d| - e
  {
    if e < |d| && !Serves(d[e], lat, lon, time, day) {
      CellScanMiss(d, e + 1, lat, lon, time, day);
    }
  }

  /** The first entry from e on that serves the cell decides the scan: it yields that entry's lookup. */
  lemma {:induction false} CellScanHit(d: seq<Entry>, e: nat, p: nat, lat: real, lon: real, time: seq<int>, day: int)
    requires e <= p < |d| && Serves(d[p], lat, lon, time, day)
    requires forall q :: e <= q < p ==> !Serves(d[q], lat, lon, time, day)
    ensures CellScan(d, e, lat, lon, time, day) == DayLookup(time, d[p].values, day)
    decreases p - e
  {
    if e < p {
      CellScanHit(d, e + 1, p, lat, lon, time, day);
    }
  }

  /** The value a day's grid holds at a cell: the first serving entry's value, NaN when none serves. */
  function CellValue(d: seq<Entry>, lat: real, lon: real, time: seq<int>, day: int): Option<real> {
    match CellScan(d, 0, lat, lon, time, day)
    case Hit(v) => v
    case Miss => None
  }

  /** The innermost loop over `time_series_data.items()` for one cell, stopping at the first value found. */
  method FindCellValue(d: seq<Entry>, lat: real, lon: real, time: seq<int>, day: int) returns (found: bool, v: Option<real>)
    ensures found <==> CellScan(d, 0, lat, lon, time, day).Hit?
    ensures v == CellValue(d, lat, lon, time, day)
  {
    found, v := false, None;
    var e := 0;
    while e < |d|
      invariant e <= |d| && !found
      invariant CellScan(d, 0, lat, lon, time, day) == CellScan(d, e, lat, lon, time, day)
      decreases |d| - e
    {
      var entry := d[e];
      if IsClose(lat, entry.key.lat) && IsClose(lon, entry.key.lon) {
        var dayIndex := IndexOf(time, day);
        if dayIndex.Some? && dayIndex.value < |entry.values| {
          v := entry.values[dayIndex.value];
          found := true;
          break;
        }
      }
      e := e + 1;
    }
  }

  // ---------------------------------------------------------------------
  // One day's grid
  // ---------------------------------------------------------------------

  /** The grid of one day as the cell values define it, indexed [latitude][longitude]. */
  function ExpectedGrid(d: seq<Entry>, lats: seq<real>, lons: seq<real>, time: seq<int>, day: int): (g: seq<seq<Option<real>>>)
    ensures |g| == |lats| && forall i :: 0 <= i < |lats| ==> |g[i]| == |lons|
  {
    seq(|lats|, (i: nat) requires i < |lats| =>
      seq(|lons|, (j: nat) requires j < |lons| => CellValue(d, lats[i], lons[j], time, day)))
  }

  /** The rows of a two-dimensional array. */
  function GridRows(g: array2<Option<real>>): (rows: seq<seq<Option<real>>>)
    reads g
    ensures |rows| == g.Length0 && forall i :: 0 <= i < g.Length0 ==> |rows[i]| == g.Length1
  {
    seq(g.Length0, (i: nat) reads g requires i < g.Length0 =>
      seq(g.Length1, (j: nat) reads g requires i < g.Length0 && j < g.Length1 => g[i, j]))
  }

  /** A grid whose every cell holds its cell value has the expected rows. */
  lemma GridRowsExpected(grid: array2<Option<real>>, d: seq<Entry>, lats: seq<real>, lons: seq<real>, time: seq<int>, day: int)
    requires grid.Length0 == |lats| && grid.Length1 == |lons|
    requires forall i, j :: 0 <= i < |lats| && 0 <= j < |lons| ==> grid[i, j] == CellValue(d, lats[i], lons[j], time, day)
    ensures GridRows(grid) == ExpectedGrid(d, lats, lons, time, day)
  {
    assert forall i :: 0 <= i < |lats| ==> GridRows(grid)[i] == ExpectedGrid(d, lats, lons, time, day)[i];
  }

  /** The loop over the longitudes of latitude row i: every cell of the row, still NaN, gets its cell value. */
  method FillRow(grid: array2<Option<real>>, d: seq<Entry>, lats: seq<real>, lons: seq<real>, time: seq<int>, day: int, i: nat)
    requires grid.Length0 == |lats| && grid.Length1 == |lons| && i < |lats|
    requires forall j :: 0 <= j < |lons| ==> grid[i, j] == None
    modifies grid
    ensures forall j :: 0 <= j < |lons| ==> grid[i, j] == CellValue(d, lats[i], lons[j], time, day)
    ensures forall i', j :: 0 <= i' < |lats| && i' != i && 0 <= j < |lons| ==> grid[i', j] == old(grid[i', j])
  {
    for j := 0 to |lons|
      invariant forall j' :: 0 <= j' < j ==> grid[i, j'] == CellValue(d, lats[i], lons[j'], time, day)
      invariant forall j' :: j <= j' < |lons| ==> grid[i, j'] == None
      invariant forall i', j' :: 0 <= i' < |lats| && i' != i && 0 <= j' < |lons| ==> grid[i', j'] == old(grid[i', j'])
    {
      var found, v := FindCellValue(d, lats[i], lons[j], time, day);
      if found {
        grid[i, j] := v;
      }
    }
  }

  /**
    One day's grid: start from all NaN and, for each cell, assign the value
    the dictionary scan finds, if any.
   */
  method FillDay(d: seq<Entry>, lats: seq<real>, lons: seq<real>, time: seq<int>, day: int) returns (grid: array2<Option<real>>)
    ensures fresh(grid) && grid.Length0 == |lats| && grid.Length1 == |lons|
    ensures GridRows(grid) == ExpectedGrid(d, lats, lons, time, day)
  {
    grid := new Option<real>[|lats|, |lons|]((i, j) => None);
    for i := 0 to |lats|
      invariant forall i', j' :: 0 <= i' < i && 0 <= j' < |lons| ==> grid[i', j'] == CellValue(d, lats[i'], lons[j'], time, day)
      invariant forall i', j' :: i <= i' < |lats| && 0 <= j' < |lons| ==> grid[i', j'] == None
    {
      FillRow(grid, d, lats, lons, time, day, i);
    }
    GridRowsExpected(grid, d, lats, lons, time, day);
  }

  // ---------------------------------------------------------------------
  // The reconstruction
  // ---------------------------------------------------------------------

  /** One reconstructed daily file: its day, its axes and its `sla` grid. */
  datatype DailyGrid = DailyGrid(day: int, lats: seq<real>, lons: seq<real>, sla: seq<seq<Option<real>>>)

  /** `pd.date_range(start, end, freq='D')`: the number of days from start to end inclusive. */
  function DayCount(start: int, end: int): nat {
    if end < start then 0 else end - start + 1
  }

  /** The grids of n consecutive days from start, all on the same axes. */
  function DayGrids(d: seq<Entry>, lats: seq<real>, lons: seq<real>, time: seq<int>, start: int, n: nat): (gs: seq<DailyGrid>)
    ensures |gs| == n
  {
    seq(n, (k: nat) => DailyGrid(start + k, lats, lons, ExpectedGrid(d, lats, lons, time, start + k)))
  }

  /**
    `reconstruct_daily_grids`: the region axes of the sample grid (numpy
    refuses to index with the empty index list when no point is in the
    region), the outcome of loading the per-point files, then one grid per
    day from start to end.
   */
  function Reconstruction(original: Snapshot, loaded: Result<Loaded>, start: int, end: int, vs: seq<Vertex>): Result<seq<DailyGrid>>
    requires |vs| > 0
  {
    var latIdx := RegionLatIndices(original.lats, original.lons, vs);
    var lonIdx := RegionLonIndices(original.lats, original.lons, vs);
    if |latIdx| == 0 || |lonIdx| == 0 then Failure("arrays used as indices must be of integer (or boolean) type")
    else
      match loaded
      case Failure(e) => Failure(e)
      case Ok(ld) =>
        var lats, lons := Pick(original.lats, latIdx), Pick(original.lons, lonIdx);
        Ok(DayGrids(ld.dict, lats, lons, ld.lastTime, start, DayCount(start, end)))
  }

  /** The body of `reconstruct_daily_grids`. */
  method ReconstructDailyGrids(original: Snapshot, listing: seq<string>, files: map<string, SeriesFile>,
                               start: int, end: int, vs: seq<Vertex>) returns (r: Result<seq<DailyGrid>>)
    requires |vs| > 0 && FilesAvailable(listing, files)
    ensures r == Reconstruction(original, LoadAll(listing, files), start, end, vs)
  {
    var latIdx, lonIdx := RegionAxes(original.lats, original.lons, vs);
    if |latIdx| == 0 || |lonIdx| == 0 {
      return Failure("arrays used as indices must be of integer (or boolean) type");
    }
    var lats, lons := Pick(original.lats, latIdx), Pick(original.lons, lonIdx);
    var loaded := LoadSeriesFiles(listing, files);
    if loaded.Failure? {
      return Failure(loaded.error);
    }
    var ld := loaded.value;
    var grids := BuildDays(ld.dict, lats, lons, ld.lastTime, start, DayCount(start, end));
    r := Ok(grids);
  }

  /** The loop over `time_range`: one grid per day, in order. */
  method BuildDays(d: seq<Entry>, lats: seq<real>, lons: seq<real>, time: seq<int>, start: int, n: nat)
    returns (grids: seq<DailyGrid>)
    ensures grids == DayGrids(d, lats, lons, time, start, n)
  {
    grids := [];
    for k := 0 to n
      invariant grids == DayGrids(d, lats, lons, time, start, k)
    {
      var grid := FillDay(d, lats, lons, time, start + k);
      grids := grids + [DailyGrid(start + k, lats, lons, GridRows(grid))];
      assert grids == DayGrids(d, lats, lons, time, start, k + 1);
    }
  }

  // ---------------------------------------------------------------------
  // Properties of the reconstruction
  // ---------------------------------------------------------------------

  /** The region has a valid latitude exactly when it has a valid longitude. */
  lemma RegionIndicesTogether(lats: seq<real>, lons: seq<real>, vs: seq<Vertex>)
    requires |vs| > 0
    ensures |RegionLatIndices(lats, lons, vs)| == 0 <==> |RegionLonIndices(lats, lons, vs)| == 0
  {
    var latIdx, lonIdx := RegionLatIndices(lats, lons, vs), RegionLonIndices(lats, lons, vs);
    if |latIdx| > 0 {
      var x := latIdx[0];
      assert LatInRegion(lats, lons, vs, x, |lons|);
      var j :| 0 <= j < |lons| && InsideScalar(lats[x], lons[j], vs);
      assert LonInRegion(lats, lons, vs, j, |lats|);
      assert j in lonIdx;
    }
    if |lonIdx| > 0 {
      var y := lonIdx[0];
      assert LonInRegion(lats, lons, vs, y, |lats|);
      var i :| 0 <= i < |lats| && InsideScalar(lats[i], lons[y], vs);
      assert LatInRegion(lats, lons, vs, i, |lons|);
      assert i in latIdx;
    }
  }

  /** The day grids are the days from start on, in order, each on the given axes and of their shape. */
  lemma DayGridsShape(d: seq<Entry>, lats: seq<real>, lons: seq<real>, time: seq<int>, start: int, n: nat)
    ensures forall k :: 0 <= k < n ==> (
      var g := DayGrids(d, lats, lons, time, start, n)[k];
      && g.day == start + k && g.lats == lats && g.lons == lons
      && |g.sla| == |lats| && forall i :: 0 <= i < |lats| ==> |g.sla[i]| == |lons|)
  {
    var gs := DayGrids(d, lats, lons, time, start, n);
    forall k | 0 <= k < n
      ensures gs[k].day == start + k && gs[k].lats == lats && gs[k].lons == lons
      ensures |gs[k].sla| == |lats| && forall i :: 0 <= i < |lats| ==> |gs[k].sla[i]| == |lons|
    {
      assert gs[k] == DailyGrid(start + k, lats, lons, ExpectedGrid(d, lats, lons, time, start + k));
    }
  }

  /**
    A reconstruction fails exactly when the region holds no grid point or
    loading fails; otherwise it holds one grid per day from start to end, in
    order, each on the region axes.
   */
  lemma ReconstructionShape(original: Snapshot, loaded: Result<Loaded>, start: int, end: int, vs: seq<Vertex>)
    requires |vs| > 0
    ensures var r := Reconstruction(original, loaded, start, end, vs);
      r.Failure? <==> |RegionLatIndices(original.lats, original.lons, vs)| == 0 || loaded.Failure?
    ensures var r := Reconstruction(original, loaded, start, end, vs);
      r.Ok? ==> |r.value| == DayCount(start, end)
    ensures var r := Reconstruction(original, loaded, start, end, vs);
      forall k :: r.Ok? && 0 <= k < |r.value| ==> (
        && r.value[k].day == start + k
        && r.value[k].lats == Pick(original.lats, RegionLatIndices(original.lats, original.lons, vs))
        && r.value[k].lons == Pick(original.lons, RegionLonIndices(original.lats, original.lons, vs))
        && |r.value[k].sla| == |r.value[k].lats|
        && forall i :: 0 <= i < |r.value[k].lats| ==> |r.value[k].sla[i]| == |r.value[k].lons|)
  {
    var latIdx := RegionLatIndices(original.lats, original.lons, vs);
    var lonIdx := RegionLonIndices(original.lats, original.lons, vs);
    RegionIndicesTogether(original.lats, original.lons, vs);
    if |latIdx| > 0 && loaded.Ok? {
      var ld := loaded.value;
      var lats, lons := Pick(original.lats, latIdx), Pick(original.lons, lonIdx);
      DayGridsShape(ld.dict, lats, lons, ld.lastTime, start, DayCount(start, end));
    }
  }

  /** A listing without series names loads to the empty dictionary. */
  lemma {:induction false} LoadAllNoSeries(listing: seq<string>, files: map<string, SeriesFile>)
    requires FilesAvailable(listing, files)
    requires forall k :: 0 <= k < |listing| ==> !IsSeriesName(listing[k])
    ensures LoadAll(listing, files) == Ok(Loaded([], []))
  {
    if |listing| > 0 {
      var n := |listing| - 1;
      assert forall k :: 0 <= k < n ==> listing[..n][k] == listing[k];
      LoadAllNoSeries(listing[..n], files);
    }
  }

  /**
    With an empty dictionary (no series file listed, by `LoadAllNoSeries`),
    every cell of every day is NaN.
   */
  lemma EmptyDictionaryAllNan(original: Snapshot, time: seq<int>, start: int, end: int, vs: seq<Vertex>)
    requires |vs| > 0
    ensures var r := Reconstruction(original, Ok(Loaded([], time)), start, end, vs);
      forall k, i, j :: r.Ok? && 0 <= k < |r.value| && 0 <= i < |r.value[k].sla| && 0 <= j < |r.value[k].sla[i]| ==>
        r.value[k].sla[i][j] == None
  {
    var latIdx := RegionLatIndices(original.lats, original.lons, vs);
    var lonIdx := RegionLonIndices(original.lats, original.lons, vs);
    if |latIdx| > 0 && |lonIdx| > 0 {
      DayGridsEmpty(Pick(original.lats, latIdx), Pick(original.lons, lonIdx), time, start, DayCount(start, end));
    }
  }

  /** Day grids over an empty dictionary hold only NaN. */
  lemma DayGridsEmpty(lats: seq<real>, lons: seq<real>, time: seq<int>, start: int, n: nat)
    ensures var gs := DayGrids([], lats, lons, time, start, n);
      forall k, i, j :: 0 <= k < n && 0 <= i < |gs[k].sla| && 0 <= j < |gs[k].sla[i]| ==> gs[k].sla[i][j] == None
  {
    var gs := DayGrids([], lats, lons, time, start, n);
    forall k, i, j | 0 <= k < n && 0 <= i < |gs[k].sla| && 0 <= j < |gs[k].sla[i]|
      ensures gs[k].sla[i][j] == None
    {
      assert gs[k].sla == ExpectedGrid([], lats, lons, time, start + k);
      assert gs[k].sla[i][j] == CellValue([], lats[i], lons[j], time, start + k);
    }
  }

  /** A listing with a series name has a last one. */
  lemma {:induction false} LastSeriesExists(listing: seq<string>, k: nat)
    requires k < |listing| && IsSeriesName(listing[k])
    ensures exists k' :: LastSeries(listing, k')
  {
    var n := |listing| - 1;
    if !IsSeriesName(listing[n]) {
      assert k < n && listing[..n][k] == listing[k];
      LastSeriesExists(listing[..n], k);
      var k' :| LastSeries(listing[..n], k');
      assert LastSeries(listing, k');
    } else {
      assert LastSeries(listing, n);
    }
  }

  /**
    When every series file shares one time axis, as the files the extraction
    writes for one run do, the axis the lookups use is that shared axis, so
    each series is read on its own time axis.
   */
  lemma SharedTimeAxis(listing: seq<string>, files: map<string, SeriesFile>, time: seq<int>, k: nat)
    requires FilesAvailable(listing, files) && LoadAll(listing, files).Ok?
    requires forall m :: 0 <= m < |listing| && IsSeriesName(listing[m]) ==> files[listing[m]].time == time
    requires k < |listing| && IsSeriesName(listing[k])
    ensures LoadAll(listing, files).value.lastTime == time
  {
    LastSeriesExists(listing, k);
    LoadAllLastTime(listing, files);
  }

  /**
    The round trip of the two scripts for one point: the file the extraction
    saves for (lat, lon) loads under the rounded coordinates, and the cell at
    (lat, lon) of a day's grid holds the filtered value of that day, or NaN
    for a day not on the file's time axis.
   */
  lemma SavedSeriesRoundTrip(lat: real, lon: real, time: seq<int>, filtered: seq<Option<real>>, day: int)
    requires |filtered| == |time|
    ensures var name := SaveFileName(lat, lon);
      var files := map[name := SeriesFile(time, filtered)];
      && FilesAvailable([name], files)
      && LoadAll([name], files) == Ok(Loaded([Entry(Key(RoundTo2(lat), RoundTo2(lon)), filtered)], time))
    ensures day !in time ==> CellValue([Entry(Key(RoundTo2(lat), RoundTo2(lon)), filtered)], lat, lon, time, day) == None
    ensures forall m :: FirstAt(time, day, m) ==>
      CellValue([Entry(Key(RoundTo2(lat), RoundTo2(lon)), filtered)], lat, lon, time, day) == filtered[m]
  {
    var name := SaveFileName(lat, lon);
    var files := map[name := SeriesFile(time, filtered)];
    ParseSavedName(lat, lon);
    assert [name][..0] == [];
    var e := Entry(Key(RoundTo2(lat), RoundTo2(lon)), filtered);
    assert IsClose(lat, e.key.lat) && IsClose(lon, e.key.lon);
    assert CellScan([e], 1, lat, lon, time, day) == Miss;
  }

  /**
    The file `process_grid_point` saves for a point it extracts, loaded on
    its own: it is stored under the point's rounded coordinates, its time
    axis is the one the lookups use, and the point's cell holds, on each
    collected date, the filtered value at that date's first position, and
    NaN on every other day.
   */
  lemma ExtractedFileRoundTrip(lat: real, lon: real, files: seq<DateFile>, store: map<string, Snapshot>, filter: CtwFunctions.Filter, day: int)
    requires StoreHas(files, store)
    requires ExtractPoint(lat, lon, files, store, filter).Ok? && ExtractPoint(lat, lon, files, store, filter).value.Extracted?
    ensures var r := ExtractPoint(lat, lon, files, store, filter).value;
      var saved := SavedFile(r).value;
      var written := map[saved.0 := SeriesFile(saved.1.time, saved.1.filtered)];
      && FilesAvailable([saved.0], written)
      && LoadAll([saved.0], written).Ok?
      && LoadAll([saved.0], written).value.dict == [Entry(Key(RoundTo2(lat), RoundTo2(lon)), r.filtered)]
      && LoadAll([saved.0], written).value.lastTime == r.dates
      && (forall m :: FirstAt(r.dates, day, m) ==>
            CellValue(LoadAll([saved.0], written).value.dict, lat, lon, r.dates, day) == r.filtered[m])
      && (day !in r.dates ==> CellValue(LoadAll([saved.0], written).value.dict, lat, lon, r.dates, day) == None)
  {
    var r := ExtractPoint(lat, lon, files, store, filter).value;
    ExtractPointSpec(lat, lon, files, store, filter);
    assert r.lat == lat && r.lon == lon;
    SavedSeriesRoundTrip(lat, lon, r.dates, r.filtered, day);
  }

  /** `pd.date_range(datetime(2023, 8, 29), datetime(2023, 11, 30))` holds 94 days. */
  lemma WindowDays()
    ensures DayCount(WindowStart, WindowEnd) == 94
  {
    assert DaysBeforeMonth(2023, 8) == 212;
    assert DaysBeforeMonth(2023, 11) == 304;
  }

  // ---------------------------------------------------------------------
  // main
  // ---------------------------------------------------------------------

  /** `[f for f in os.listdir(dir) if f.endswith('.nc')]`. */
  function NcNames(listing: seq<string>): (r: seq<string>)
    ensures forall x :: x in r <==> x in listing && EndsWith(x, ".nc")
    ensures |r| > 0 ==>
      exists k :: 0 <= k < |listing| && listing[k] == r[0] && forall m :: 0 <= m < k ==> !EndsWith(listing[m], ".nc")
  {
    if |listing| == 0 then []
    else
      var rest := NcNames(listing[1..]);
      if EndsWith(listing[0], ".nc") then [listing[0]] + rest
      else
        assert forall m :: 1 <= m < |listing| ==> listing[m] == listing[1..][m - 1];
        rest
  }

  /**
    `main`: take the first `.nc` name of the sample-grid directory (raising
    when there is none), then reconstruct the daily grids of the extraction
    window over the East Australia region.
   */
  method RebuildGrids(gridListing: seq<string>, originals: map<string, Snapshot>,
                      listing: seq<string>, files: map<string, SeriesFile>) returns (r: Result<seq<DailyGrid>>)
    requires forall x :: x in gridListing && EndsWith(x, ".nc") ==> x in originals
    requires FilesAvailable(listing, files)
    ensures |NcNames(gridListing)| == 0 ==> r == Failure("No original grid files found in the specified directory.")
    ensures |NcNames(gridListing)| > 0 ==>
      r == Reconstruction(originals[NcNames(gridListing)[0]], LoadAll(listing, files), WindowStart, WindowEnd, EastAustralia)
  {
    var gridFiles := NcNames(gridListing);
    if |gridFiles| == 0 {
      return Failure("No original grid files found in the specified directory.");
    }
    var original := originals[gridFiles[0]];
    r := ReconstructDailyGrids(original, listing, files, WindowStart, WindowEnd, EastAustralia);
  }
}

