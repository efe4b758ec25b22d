# Coastal trapped waves: sea-level-anomaly extraction and grid reconstruction

This Dafny project models the discrete part of a two-stage pipeline over daily
gridded sea-level-anomaly (SLA) products.

1. `create_filtered_time_series.py` runs first. It picks the grid points of a
   region (the East Australia box) from a sample snapshot, lists the daily
   snapshot files of the extraction window in date order, and builds one
   series per point. A point whose nearest sample cell is defined gets the
   value of its nearest cell on each day. When that cell is NaN, it gets the
   value of the first defined cell of an expanding ring of radius 1..5 (see
   `find_nearest_non_nan` in `ctw_functions.py`). The series goes through the
   "at most 90 % NaN" policy: fill the gaps by linear interpolation
   (`interpolate_nan`), then apply the band-pass filter. Each series is saved
   as `filtered_sla_lat_<lat>_lon_<lon>.nc`.
2. `create_filtered_grids.py` runs second. It reads those per-point files back
   into a dictionary keyed by the rounded coordinates in their names. It then
   rebuilds one grid per day of the window over the region's axes. Each cell
   takes the day's value from the first dictionary entry, in insertion order,
   whose key lies strictly within 0.01 of the cell on both coordinates and
   whose day lookup succeeds: the day is on the time axis and its index is
   within the entry's values. An entry whose lookup fails is passed over.

## Representation

- NaN is `None` in `Common.Option`. A grid is a sequence of rows of
  `Option<real>`, indexed [latitude][longitude].
- Every code path that raises is a `Common.Result.Failure` carrying the
  Python error text.
- Dates are day ordinals, numbered as `date.toordinal()` numbers them.
  `Dates.OrdinalOrder` shows that comparing ordinals is comparing the dates.
- Coordinates are `real`. `f"{x:.2f}"` becomes `Decimal.FormatFixed2` of
  `Decimal.Round2`: round half to even, to whole hundredths. `float(s)` becomes
  `Decimal.ParseDecimal` on plain decimal notation.
- The Butterworth band-pass filter is an uninterpreted parameter of type
  `CtwFunctions.Filter`. `None` stands for a filter call that raises.
- Files are maps from path to contents: `Snapshot` for the daily products and
  `SeriesFile` for the per-point files. Directory listings are sequences of
  names, in listing order.
- A Python `dict` is a sequence of entries. Assigning to a key that is already
  present keeps its position (`FilteredGrids.Put`).
- The process pool becomes a sequential map in submission order.

Four behaviours of the code are kept as written.

- **Time axis of the last file.** In `create_filtered_grids.py`, the day
  index of every matched series is looked up in the time axis of the file
  opened last in the loading loop (lines 69 and 91), not in the series' own
  axis. `FilteredGrids.CellScan` takes that axis as its `time` argument.
  `LoadAllLastTime` shows which file the axis comes from. `SharedTimeAxis`
  shows the quirk does no harm when all per-point files share one axis, as
  the files of one extraction run do.
- **Swallowed lookup errors.** An index past the end of a series raises, the
  error is printed, and the scan goes on to the next entry (lines 101-102).
  `DayLookup` reports such a lookup as a `Miss`.
- **Empty region.** When no grid point lies in the region, `lat_indices` is
  an empty list. numpy refuses to index with it (lines 48-49), so
  `Reconstruction` fails before any file is loaded.
- **Failed tasks are re-raised.** `main` of the extraction calls
  `future.result()` on every task in submission order (lines 153-154). That
  call re-raises the first task failure, which ends the run: failures are not
  isolated per point. `GatherResults` keeps every outcome, and `FirstFailure`
  names the failure `main` re-raises.

The filtered series of a point has one value per collected date. When the
filter returns a series of another length, building the dataset to save
raises (create_filtered_time_series.py:84-90). `ExtractPoint` reports that
case as a failure.

## Model

| member | source | states |
|---|---|---|
| CtwFunctions.Interpolated | ctw_functions.py:21-25 | the filled series has the input's length, has no undefined entry, and keeps every defined entry's value |
| CtwFunctions.InterpolateNan | ctw_functions.py:21-25 | the in-place loop leaves the array equal to the interpolation of its old contents |
| CtwFunctions.InterpolatedBetween | ctw_functions.py:24 | an undefined entry k between the nearest defined entries i < k < j becomes y_i + (k - i)(y_j - y_i)/(j - i) |
| CtwFunctions.InterpolatedLeftEdge | ctw_functions.py:24 | entries before the first defined entry take its value (np.interp clamps on the left) |
| CtwFunctions.InterpolatedRightEdge | ctw_functions.py:24 | entries after the last defined entry take its value (np.interp clamps on the right) |
| CtwFunctions.InterpolatedFullyDefined | ctw_functions.py:23-25 | a series with no NaN is left unchanged |
| CtwFunctions.InterpolatedExample | ctw_functions.py:24 | [1, NaN, 3] becomes [1, 2, 3] |
| CtwFunctions.FindNearestNonNan | ctw_functions.py:27-40 | the triple loop over radius, dlat and dlon, with its bounds guard and early return, yields the ring search's result |
| CtwFunctions.SearchFinds | ctw_functions.py:29-39 | from any loop position, the search returns nothing iff every remaining candidate is undefined, and otherwise the first defined candidate in scan order |
| CtwFunctions.NearestNonNanNone | ctw_functions.py:30-40 | the result is undefined iff every in-bounds cell at Chebyshev distance 1..5 is undefined |
| CtwFunctions.NearestNonNanFirst | ctw_functions.py:30-39 | a defined result is the value of an in-bounds cell at distance 1..5; every in-bounds cell earlier in (ring, dlat, dlon) order is undefined, in particular every cell of a nearer ring |
| CtwFunctions.SearchIgnoresCentre | ctw_functions.py:33 | the centre cell is never examined: two grids that differ only there give the same result |
| FilteredTimeSeries.BoundingBox | create_filtered_time_series.py:23-24 | the four bounds are attained by some vertex and enclose every vertex (column min and max) |
| FilteredTimeSeries.EastAustraliaBox | create_filtered_time_series.py:13-25 | for the configured vertices, a point is inside iff -38 <= lat <= -25 and 149 <= lon <= 158, edges included |
| FilteredTimeSeries.MeshGrid | create_filtered_time_series.py:110 | both grids have one row per longitude; the first repeats the latitudes, the second holds the row's longitude |
| FilteredTimeSeries.InsideMask | create_filtered_time_series.py:21-25 | the mask has the grid's shape and is true exactly where the point lies in the closed bounding box |
| FilteredTimeSeries.SelectedCells | create_filtered_time_series.py:110-115 | the selected cells are exactly the in-box cells of the latitude-by-longitude product, each once, longitude-major |
| FilteredTimeSeries.CellsUpToSpec | create_filtered_time_series.py:110-115 | the cells of the first m longitude rows are in the box, include every in-box cell of those rows, and come longitude-major |
| FilteredTimeSeries.MaskSelectCells | create_filtered_time_series.py:114-115 | boolean indexing of a masked meshgrid reads the grid at the selected cells, row-major, one value per cell |
| FilteredTimeSeries.RegionPointsAreSelectedCells | create_filtered_time_series.py:110-115 | the zipped (valid_lats, valid_lons) pairs are the coordinates of the selected cells, in order |
| FilteredTimeSeries.NearestIndex | create_filtered_time_series.py:36-37 | the first index at which the axis is closest to the target (argmin keeps the first minimum) |
| FilteredTimeSeries.NearestIndexOfAxisValue | create_filtered_time_series.py:144-145 | looking up an axis value finds its first occurrence, which is its own index on an axis without repeats |
| FilteredTimeSeries.SampleAtNone | create_filtered_time_series.py:36-51 | a day gives no value iff the nearest cell and every in-bounds cell within five rings of it are undefined |
| FilteredTimeSeries.KeptDays | create_filtered_time_series.py:32-51 | the kept days are days that give a value, in strictly increasing file order |
| FilteredTimeSeries.KeptDaysComplete | create_filtered_time_series.py:32-51 | every day that gives a value is kept |
| FilteredTimeSeries.CollectIsKeptDays | create_filtered_time_series.py:32-51 | the p-th collected date and value come from the p-th day that gives a value; only defined values are collected |
| FilteredTimeSeries.NanCount | create_filtered_time_series.py:64 | the count is zero iff no entry is undefined, and below the length iff some entry is defined |
| FilteredTimeSeries.NanPolicyCases | create_filtered_time_series.py:63-71 | defined entries are kept; at most 90 % NaN (inclusive) fills every gap and filters; more than that leaves the series and makes the filtered series all NaN of the same length |
| FilteredTimeSeries.NanPolicyDefined | create_filtered_time_series.py:63-69 | a series without NaN reaches the filter unchanged |
| FilteredTimeSeries.ApplyNanPolicy | create_filtered_time_series.py:63-71 | the in-place policy leaves the array and returns the filtered series as the policy prescribes |
| FilteredTimeSeries.ExtractPointSpec | create_filtered_time_series.py:28-76 | no data iff no day gives a value; otherwise the dates are the kept days, the series is their values with no NaN, the filter always runs on exactly those values, and a success has one filtered value per date |
| FilteredTimeSeries.ProcessGridPoint | create_filtered_time_series.py:28-76 | the loop with its two appends, then the policy, the filter and the size check, yields the point's outcome |
| FilteredTimeSeries.SaveFileName | create_filtered_time_series.py:80 | the name starts with "filtered_sla_lat_" and ends with ".nc" |
| FilteredTimeSeries.SavedFile | create_filtered_time_series.py:55-74 | a file is written iff the point has data, and it holds the point's coordinates, dates and both series; `FilteredGrids.ExtractedFileRoundTrip` relates that file to what the reconstruction reads |
| FilteredTimeSeries.DateField | create_filtered_time_series.py:123 | the second-to-last "_" field when there are at least two fields, otherwise the index error |
| Text.SplitAppend | create_filtered_time_series.py:123 | splitting at a one-character separator distributes over a join at that separator |
| Text.SplitJoin | create_filtered_time_series.py:123 | the parts of `s.split(c)` hold no c, and joining them with c gives back s |
| Text.JoinSplit | create_filtered_time_series.py:123 | parts without c, joined with c, split back into exactly those parts |
| FilteredTimeSeries.DateFieldNone | create_filtered_time_series.py:123 | `split('_')[-2]` raises iff the name holds no "_" |
| FilteredTimeSeries.DateFieldOne | create_filtered_time_series.py:123 | in a name with one "_", the date field is the part before it |
| FilteredTimeSeries.DateFieldOf | create_filtered_time_series.py:123 | in `prefix_field_suffix`, with no "_" in field or suffix, the date field is field, whatever the prefix holds |
| FilteredTimeSeries.FileDateOfName | create_filtered_time_series.py:123-124 | a name `prefix_YYYYMMDD_suffix` of a date in years 1..9999 is dated by that date's ordinal |
| FilteredTimeSeries.FileDateRefuses | create_filtered_time_series.py:123-124 | a name whose date field is no YYYYMMDD spelling of a date fails with strptime's error |
| FilteredTimeSeries.SelectDateFiles | create_filtered_time_series.py:121-127 | fails iff some ".nc" name has no readable date; otherwise holds exactly the ".nc" names dated inside the window, inclusive, with their dates |
| FilteredTimeSeries.SelectFailureSticks | create_filtered_time_series.py:121-127 | the first name that raises ends the loop with its error |
| FilteredTimeSeries.SortedUnique | create_filtered_time_series.py:129 | two sorted arrangements of the same (date, path) tuples are equal, so the sorted list is determined |
| FilteredTimeSeries.SortDateFiles | create_filtered_time_series.py:129 | the result is sorted by (date, path) and is a permutation of the input |
| FilteredTimeSeries.ListDateFiles | create_filtered_time_series.py:118-129 | the failure of the selection loop, or its files sorted |
| FilteredTimeSeries.Submitted | create_filtered_time_series.py:138-150 | a point is submitted iff it is a region point whose nearest sample cell is defined |
| FilteredTimeSeries.SubmittedOrder | create_filtered_time_series.py:138-150 | the submitted points are the region points at exactly the positions whose nearest sample cell is defined, in increasing position order, so order and repeats are kept |
| FilteredTimeSeries.ReferenceDefinedAtCell | create_filtered_time_series.py:143-148 | on a sample without repeated axis values, a region point is submitted iff its own cell is defined |
| FilteredTimeSeries.SubmitPoints | create_filtered_time_series.py:136-150 | the submission loop produces the submitted points in order |
| FilteredTimeSeries.GatherResults | create_filtered_time_series.py:153-154 | one outcome per submitted point, in submission order |
| FilteredTimeSeries.FirstFailure | create_filtered_time_series.py:153-154 | none iff every task succeeded; otherwise the error of the first failed task, all earlier ones having succeeded |
| FilteredTimeSeries.ExtractTimeSeries | create_filtered_time_series.py:97-155 | fails iff the directory is empty or a ".nc" name has no readable date; otherwise the files are sorted and dated inside the window, and there is one outcome per submitted region point of the sample |
| Dates.ParseYmdRoundTrip | create_filtered_time_series.py:124 | every date of years 1..9999, spelled as YYYYMMDD, parses to its ordinal |
| Dates.ParseYmdOnlyDates | create_filtered_time_series.py:124 | only the YYYYMMDD spelling of a calendar date parses |
| Dates.ParseYmdRefusesFeb30 | create_filtered_time_series.py:124 | eight digits that name no calendar date are refused |
| Dates.OrdinalOrder | create_filtered_time_series.py:125 | ordinals compare exactly as calendar dates do, and distinct dates have distinct ordinals |
| Dates.YearBoundary | create_filtered_grids.py:52 | 1 January follows 31 December: ordinals count days without gaps across years |
| Dates.MonthBoundary | create_filtered_grids.py:52 | the first of a month follows the last of the month before it |
| Decimal.Round2 | create_filtered_time_series.py:80 | the whole number of hundredths nearest to x, within half a hundredth |
| Decimal.ParseFormatted | create_filtered_grids.py:66 | a coordinate formatted with two decimals reads back as exactly its hundredths |
| FilteredGrids.InsideScalarIsInBox | create_filtered_grids.py:13-21 | the scalar test with its early returns is the closed-box rule |
| FilteredGrids.InsideScalarAgreesWithMask | create_filtered_grids.py:13-21 | the scalar test and the vectorised mask agree on every meshgrid cell |
| FilteredGrids.IsCloseStrict | create_filtered_grids.py:25-27 | close iff the difference lies strictly between -0.01 and 0.01; symmetric; a difference of exactly 0.01 is not close |
| FilteredGrids.Unique | create_filtered_grids.py:48-49 | np.unique keeps each index once, in ascending order |
| FilteredGrids.RegionAxes | create_filtered_grids.py:40-49 | the double loop and np.unique give the latitude and longitude indices that occur in some in-region pair |
| FilteredGrids.ScanLatitude | create_filtered_grids.py:42-45 | the inner loop appends exactly the in-region pairs of one latitude |
| FilteredGrids.RegionAxesCoverSelectedCells | create_filtered_grids.py:40-49 | a cell's two indices are both valid iff the extraction selected that cell |
| FilteredGrids.RoundTo2 | create_filtered_grids.py:66 | round(x, 2) is a whole number of hundredths within 0.005 of x |
| FilteredGrids.ParseSavedName | create_filtered_grids.py:63-66 | the name the extraction saves for (lat, lon) is read by the loading loop and parses to the key (round(lat, 2), round(lon, 2)) |
| FilteredGrids.Get | create_filtered_grids.py:70 | a lookup misses iff the key is not in the dictionary |
| FilteredGrids.Put | create_filtered_grids.py:70 | an existing key keeps its position; a new key goes last |
| FilteredGrids.PutGet | create_filtered_grids.py:70 | after storing, the key holds the new values and every other key keeps its values |
| FilteredGrids.PutDistinct | create_filtered_grids.py:70 | storing never duplicates a key |
| FilteredGrids.LoadSeriesFiles | create_filtered_grids.py:59-71 | the loading loop yields the dictionary and the time axis of the last file opened, or the first parse error |
| FilteredGrids.LoadFailureSticks | create_filtered_grids.py:62-66 | the first unparsable series name ends loading with its error |
| FilteredGrids.LoadAllSpec | create_filtered_grids.py:62-70 | keys are distinct, every listed series name has its key stored, and each key holds the values of the last listed file with that key |
| FilteredGrids.LoadAllLastTime | create_filtered_grids.py:69-71 | the time axis left behind is that of the last series name listed; with no series name, the dictionary is empty |
| FilteredGrids.IndexOf | create_filtered_grids.py:94 | the first index of the day on the time axis, present iff the day occurs |
| FilteredGrids.DayLookupSpec | create_filtered_grids.py:89-102 | a lookup succeeds iff the day's first index is within the values, and then yields the value there; a failing index is absorbed as a miss |
| FilteredGrids.CellScanMiss | create_filtered_grids.py:86-102 | a cell stays NaN iff no entry is within tolerance on both coordinates with a successful lookup |
| FilteredGrids.CellScanHit | create_filtered_grids.py:86-99 | the first entry, in dictionary order, that is within tolerance and whose lookup succeeds decides the cell |
| FilteredGrids.FindCellValue | create_filtered_grids.py:83-102 | the loop over the dictionary items, with its break, yields the cell's value and found flag |
| FilteredGrids.FillRow | create_filtered_grids.py:82-102 | each cell of the row gets its value; other rows are unchanged |
| FilteredGrids.FillDay | create_filtered_grids.py:78-102 | a fresh all-NaN grid of shape (valid lats, valid lons), each cell then holding its value |
| FilteredGrids.BuildDays | create_filtered_grids.py:74-102 | one grid per day, in day order |
| FilteredGrids.ReconstructDailyGrids | create_filtered_grids.py:30-123 | the method's outcome is the reconstruction of the sample grid's region from the loaded files |
| FilteredGrids.RegionIndicesTogether | create_filtered_grids.py:40-49 | there is a valid latitude iff there is a valid longitude |
| FilteredGrids.ReconstructionShape | create_filtered_grids.py:48-52 | fails iff the region is empty or loading fails; otherwise one grid per day of the inclusive range, in order, each of shape (valid lats, valid lons) on the region axes |
| FilteredGrids.DayGridsEmpty | create_filtered_grids.py:78 | with an empty dictionary every cell stays NaN |
| FilteredGrids.EmptyDictionaryAllNan | create_filtered_grids.py:78 | a reconstruction from an empty dictionary holds only NaN |
| FilteredGrids.LoadAllNoSeries | create_filtered_grids.py:62-63 | a listing without series names loads to the empty dictionary |
| FilteredGrids.SharedTimeAxis | create_filtered_grids.py:91 | when every series file shares one time axis, the lookups use that axis |
| FilteredGrids.SavedSeriesRoundTrip | create_filtered_grids.py:62-99 | a point's saved file loads under its rounded key, and the cell at the point holds the file's value for each day on its axis and NaN for any other day |
| FilteredGrids.ExtractedFileRoundTrip | create_filtered_time_series.py:78-93 | the file saved for an extracted point loads under its rounded key with the point's dates as time axis; the point's cell holds the filtered value at a date's first position and NaN on any other day |
| FilteredGrids.WindowDays | create_filtered_grids.py:149-150 | the configured window holds 94 days |
| FilteredGrids.NcNames | create_filtered_grids.py:141 | the ".nc" names of the listing; the first of them is the first ".nc" name listed |
| FilteredGrids.RebuildGrids | create_filtered_grids.py:141-161 | fails when no ".nc" name is listed; otherwise reconstructs the window over East Australia from the first one |

## Left out

- The Butterworth design and zero-phase filtering (ctw_functions.py:9-19) are
  scipy floating-point numerics. The filter is an uninterpreted parameter, so
  nothing is claimed about its output's length or values.
- netCDF and xarray I/O (`open_dataset`, `to_netcdf`, `Dataset` construction,
  `close`) is left out. Snapshots and per-point files are values handed to the
  model, and the saved files are values it returns.
- Filesystem calls (`os.listdir`, `os.makedirs`, `os.path.join`) are left
  out. Listings are inputs, and a path is the listed name itself.
- The process pool is left out: tasks run as a sequential map in submission
  order.
- Timers and `print` calls are left out, as is the `test_days` parameter,
  which the code does not use.
- The daily output file name `filtered_grid_YYYYMMDD.nc` and the writing of
  the daily grids (create_filtered_grids.py:109-123) are left out. The model
  returns the grids.
- IEEE floating point is not modelled: coordinates and values are exact
  reals. NumPy's rounding of 0.9 * len and of the tolerance comparison is not
  modelled; the policy test is the exact 10 * nan_count <= 9 * len.
- Decimal.ParseDecimal reads only plain decimal notation with an optional
  sign. Exponents, "nan", "inf", underscores and whitespace are not modelled,
  since saved names never contain them.
- FilteredTimeSeries.SaveFileName: the sign of a coordinate that rounds to
  zero from below is not modelled (Python writes "-0.00").
- Dates.ParseYmd accepts only eight digits. strptime's looser forms, such as
  single-digit months, are not modelled.
- Snapshots with an empty axis are excluded (`Snapshot.Usable`). There,
  `argmin` raises on the empty axis.
- Unreadable or missing files are not modelled. Every listed snapshot and
  series file is assumed to open (`StoreHas`, `ListingReadable`,
  `FilesAvailable`).
- `np.datetime64(day)` against the stored time axis is modelled as ordinal
  equality. Time-of-day components are not modelled.
