# Global mean soil-temperature maps for one climate-model run

The script `parallel_plot_global_mean_map.py` is run once per climate-model run
(GCM), typically as one element of a batch job array. It proceeds as follows:

- It takes a 1-based run number from the command line and looks the run's tag up in the
  catalog `data_info.GCMs()`.
- For every year from 1850 to 2100 it builds the path of that year's dump file from a
  template, reads the variable `t_soil` from it and averages the top five soil layers
  into one value per land point.
- It stacks the 251 yearly rows and reduces them to three results:
  - the mean over the years (a value per land point);
  - the mean year-to-year change (a value per land point);
  - the mean over the land points (a value per year).
- It spreads the two per-land-point results onto the latitude/longitude grid through the
  masked integer array `land_index`, and saves two maps and one time-series plot under
  names derived from the run's tag.

This project models that pipeline in Dafny. Each part follows the form it has in the
source:

- **`Python`**: the list indexing the script relies on. Negative indices count from
  the end, and any other index out of range is an `IndexError`.
- **`Text`**: `str.replace`, modelled as a left-to-right scan that replaces every
  non-overlapping occurrence, and `str(n)` for natural numbers, with its decimal round trip.
- **`Catalog`**: the constant list of 34 run tags returned by `GCMs()`. Each tag is
  `CEN_<centre>_MOD_<model>`, so the list is written as the 34 (centre, model) pairs in
  source order, joined by `Tag`. This spells exactly the strings of the source list.
- **`Reductions`**, over exact reals:
  - `np.mean` along axis 0 (`ColumnMeans`) and along axis 1 (`RowMeans`);
  - the difference `data[1:,:] - data[:-1,:]` (`RowDiffs`);
  - the depth mean of a layer slice (`DepthMean`).
- **`Remap`**: the masked gather `np.ma.masked_array(x[grid_index], mask=grid_index.mask)`.
- **`GlobalMeanMap`**: the script itself:
  - run selection;
  - path templating;
  - the year loop, as a method with loop invariants, proved against the function
    `Series`;
  - output names and titles;
  - the end-to-end method `PlotGlobalMeanMap`.

File reads are a parameter `read: string -> seq<seq<real>>`. It maps a path to that
file's variable, layers by land points. The land-index grid is a parameter too.

Three behaviours of the script are easy to miss, and the model keeps them:

- **Run selection is not range-checked.** `GCMs[int(argv[1]) - 1]` uses Python
  indexing, so the arguments −33 … 0 wrap around and 0 selects the last run. Only
  arguments outside −33 … 34 raise `IndexError`.
- **Masked cells are not skipped.** numpy's fancy indexing reads every stored index,
  masked cells included.
  - A negative index wraps around. Any index outside the land array raises
    `IndexError`, even under the mask and even when every cell is masked.
  - A masked cell therefore holds whatever land value its stored index selects.
- **The year count is a constant.** It is fixed at 251, so the growth-rate mean always
  averages 250 differences and is never taken over an empty array.

## Model

| member | source | states |
|---|---|---|
| Python.Index | HPC/Materials/Jasmin_Python_example/parallel_plot_global_mean_map.py:38 | Python list indexing succeeds exactly for −len ≤ i < len. A non-negative i gives `s[i]` and a negative i gives `s[len + i]`; otherwise the result is IndexError. |
| Text.Replace | HPC/Materials/Jasmin_Python_example/parallel_plot_global_mean_map.py:44 | `str.replace` with a non-empty pattern: a left-to-right scan replacing each non-overlapping occurrence, without rescanning inserted text. Its properties are the `Replace…` lemmas below. |
| Text.ReplaceAbsent | HPC/Materials/Jasmin_Python_example/parallel_plot_global_mean_map.py:44 | `str.replace` leaves a string without the pattern unchanged. |
| Text.ReplaceWhole | HPC/Materials/Jasmin_Python_example/parallel_plot_global_mean_map.py:44 | `str.replace` on the pattern itself gives the replacement. |
| Text.ReplaceConcat | HPC/Materials/Jasmin_Python_example/parallel_plot_global_mean_map.py:44 | `str.replace` distributes over a concatenation when no occurrence can straddle the seam. |
| Text.Contains | HPC/Materials/Jasmin_Python_example/parallel_plot_global_mean_map.py:44 | Whether the pattern occurs in a string, the condition under which `str.replace` changes anything. |
| Text.ContainsOccurrence | HPC/Materials/Jasmin_Python_example/parallel_plot_global_mean_map.py:44 | `Contains(s, pat)` holds iff `s[i:i+len(pat)] == pat` for some position i, i.e. Python's `pat in s`. |
| Text.ContainsConcat | HPC/Materials/Jasmin_Python_example/parallel_plot_global_mean_map.py:44 | Without a straddling occurrence, a concatenation contains the pattern iff one of its parts does. |
| Text.NatToString | HPC/Materials/Jasmin_Python_example/parallel_plot_global_mean_map.py:43 | `str(year)` is a non-empty string of decimal digits with no leading zero. |
| Text.ParseNatToString | HPC/Materials/Jasmin_Python_example/parallel_plot_global_mean_map.py:43 | Reading the digits of `str(n)` back gives n. |
| Text.NatToStringInjective | HPC/Materials/Jasmin_Python_example/parallel_plot_global_mean_map.py:43 | Distinct years give distinct strings. |
| Text.NatToStringFourDigits | HPC/Materials/Jasmin_Python_example/parallel_plot_global_mean_map.py:43 | Every year in 1000 … 9999 is written with exactly four digits. |
| Catalog.Tag | HPC/Materials/Jasmin_Python_example/data_info.py:6-39 | A catalog tag is `CEN_` + centre + `_MOD_` + model. |
| Catalog.Runs | HPC/Materials/Jasmin_Python_example/data_info.py:6-39 | The 34 (centre, model) pairs behind the tags, in source order. |
| Catalog.GCMs | HPC/Materials/Jasmin_Python_example/data_info.py:1-42 | The catalog holds one tag `CEN_<centre>_MOD_<model>` per run, in source order. |
| Catalog.CatalogSize | HPC/Materials/Jasmin_Python_example/data_info.py:5-40 | The catalog has exactly 34 tags. |
| Catalog.CatalogFirst | HPC/Materials/Jasmin_Python_example/data_info.py:6 | The first tag is `CEN_BCC_MOD_bcc-csm1-1`. |
| Catalog.CatalogLast | HPC/Materials/Jasmin_Python_example/data_info.py:39 | The last tag is `CEN_NSF-DOE-NCAR_MOD_CESM1-WACCM`. |
| Catalog.CatalogTagShape | HPC/Materials/Jasmin_Python_example/data_info.py:6-39 | Every tag starts with `CEN_` and contains `_MOD_`. |
| Catalog.CatalogPlaceholderFree | HPC/Materials/Jasmin_Python_example/data_info.py:6-39 | No tag contains `DUMMYGCM` or `DUMMYYEAR`. |
| Catalog.CatalogDistinct | HPC/Materials/Jasmin_Python_example/data_info.py:6-39 | The tags are pairwise distinct. |
| Catalog.TagInjective | HPC/Materials/Jasmin_Python_example/data_info.py:6-39 | A tag determines its centre and model when the centres have no underscore. |
| Reductions.Sum | HPC/Materials/Jasmin_Python_example/parallel_plot_global_mean_map.py:52-58 | The sum of a vector, accumulated from the left, on which every mean is built. |
| Reductions.Mean | HPC/Materials/Jasmin_Python_example/parallel_plot_global_mean_map.py:52-58 | `np.mean` of a non-empty vector: its sum divided by its length. |
| Reductions.MeanConstant | HPC/Materials/Jasmin_Python_example/parallel_plot_global_mean_map.py:56 | The mean of a constant vector is that constant. |
| Reductions.Column | HPC/Materials/Jasmin_Python_example/parallel_plot_global_mean_map.py:56 | `m[:, j]` has one entry per row, and entry i is `m[i][j]`. |
| Reductions.ColumnMeans | HPC/Materials/Jasmin_Python_example/parallel_plot_global_mean_map.py:56 | `np.mean(data, axis=0)` has one entry per land point: entry j is the sum over the years of `data[i][j]`, divided by the number of years N. |
| Reductions.RowMeans | HPC/Materials/Jasmin_Python_example/parallel_plot_global_mean_map.py:58 | `np.mean(data, axis=1)` has one entry per year: entry i is the sum of row i over the land points, divided by their number. |
| Reductions.RowDiffs | HPC/Materials/Jasmin_Python_example/parallel_plot_global_mean_map.py:57 | `data[1:,:] - data[:-1,:]` has one row fewer and the same width. |
| Reductions.MeanGrowth | HPC/Materials/Jasmin_Python_example/parallel_plot_global_mean_map.py:57 | The mean growth rate has one entry per land point. |
| Reductions.MeanGrowthTelescopes | HPC/Materials/Jasmin_Python_example/parallel_plot_global_mean_map.py:57 | The mean of the N−1 yearly changes at j equals `(data[N-1][j] - data[0][j]) / (N-1)`. |
| Reductions.DiffsTelescope | HPC/Materials/Jasmin_Python_example/parallel_plot_global_mean_map.py:57 | Consecutive differences sum to the last value minus the first. |
| Reductions.MeanGrowthTwoYears | HPC/Materials/Jasmin_Python_example/parallel_plot_global_mean_map.py:57 | Over two years the mean growth rate is the single difference. |
| Reductions.SumByRowsOrColumns | HPC/Materials/Jasmin_Python_example/parallel_plot_global_mean_map.py:56-58 | Summing the stacked series row by row or column by column gives the same total. |
| Reductions.GrandMean | HPC/Materials/Jasmin_Python_example/parallel_plot_global_mean_map.py:56-58 | The mean of the time series `TS_data` equals the mean of the map `mean_data`. |
| Reductions.ColumnMeansOfIdenticalRows | HPC/Materials/Jasmin_Python_example/parallel_plot_global_mean_map.py:56 | When every year has the same row, the mean over years is that row. |
| Reductions.ColumnMeansBounds | HPC/Materials/Jasmin_Python_example/parallel_plot_global_mean_map.py:56 | Every entry of `np.mean(data, axis=0)` lies between any lower and upper bound of its column over the years. |
| Reductions.DepthMean | HPC/Materials/Jasmin_Python_example/parallel_plot_global_mean_map.py:48-52 | `np.mean(var[z:z+n,:], axis=0)` has one entry per land point. |
| Reductions.DepthMeanAt | HPC/Materials/Jasmin_Python_example/parallel_plot_global_mean_map.py:48-52 | Entry j of the depth mean is the sum of layers z … z+n−1 at j, divided by n. |
| Reductions.DepthMeanSingleLayer | HPC/Materials/Jasmin_Python_example/parallel_plot_global_mean_map.py:48-52 | Averaging a single layer returns that layer. |
| Remap.Gather | HPC/Materials/Jasmin_Python_example/parallel_plot_global_mean_map.py:60 | The gather succeeds iff every stored index, masked or not, is a valid Python index. On success the mask equals `grid_index.mask` and the shape is the grid's. |
| Remap.GatherCell | HPC/Materials/Jasmin_Python_example/parallel_plot_global_mean_map.py:60 | Each cell holds what Python indexing of the land array with that cell's index yields. |
| Remap.GatherUnmasked | HPC/Materials/Jasmin_Python_example/parallel_plot_global_mean_map.py:60 | An unmasked cell with index k ≥ 0 holds `land[k]`. |
| Remap.GatherSharedMask | HPC/Materials/Jasmin_Python_example/parallel_plot_global_mean_map.py:60-67 | For land arrays of one length, the two gathers succeed or fail together and share mask and shape. |
| Remap.GatherOutOfRange | HPC/Materials/Jasmin_Python_example/parallel_plot_global_mean_map.py:60 | One out-of-range index anywhere, masked or not, makes the gather an IndexError. |
| Remap.GatherDependsOnSelected | HPC/Materials/Jasmin_Python_example/parallel_plot_global_mean_map.py:60 | Land arrays that agree at every selected position give the same map. |
| Remap.GatherExample | HPC/Materials/Jasmin_Python_example/parallel_plot_global_mean_map.py:60 | Land `[10,20,30]` with index `[[0,1],[2,-1]]` and the last cell masked gives `[[10,20],[30,30]]` with that mask. |
| GlobalMeanMap.SelectModel | HPC/Materials/Jasmin_Python_example/parallel_plot_global_mean_map.py:13-38 | Argument k selects a run iff −33 ≤ k ≤ 34. 1 ≤ k ≤ 34 gives `GCMs()[k-1]`, −33 ≤ k ≤ 0 gives `GCMs()[33+k]`, and anything else is IndexError. |
| GlobalMeanMap.SelectZeroIsLast | HPC/Materials/Jasmin_Python_example/parallel_plot_global_mean_map.py:13-38 | Argument 0 silently selects the last run. |
| GlobalMeanMap.SelectOneIsFirst | HPC/Materials/Jasmin_Python_example/parallel_plot_global_mean_map.py:13-38 | Argument 1 selects the first run. |
| GlobalMeanMap.InputPath | HPC/Materials/Jasmin_Python_example/parallel_plot_global_mean_map.py:44 | `data_dir + FILETAG.replace('DUMMYGCM', gcm).replace('DUMMYYEAR', str(year))` starts with `data_dir`. Its closed form is `InputPathClosedForm`. |
| GlobalMeanMap.ModelSubstituted | HPC/Materials/Jasmin_Python_example/parallel_plot_global_mean_map.py:16-44 | Both `DUMMYGCM` occurrences of the template are replaced by the tag, and `DUMMYYEAR` is left in place. |
| GlobalMeanMap.YearSubstituted | HPC/Materials/Jasmin_Python_example/parallel_plot_global_mean_map.py:44 | The second replacement substitutes only the year placeholder. |
| GlobalMeanMap.InputPathClosedForm | HPC/Materials/Jasmin_Python_example/parallel_plot_global_mean_map.py:14-44 | The path is `data_dir + gcm + "/BL_" + gcm + ".dump." + str(year) + "0101.0.nc"` for a tag without `DUMMYYEAR`. |
| GlobalMeanMap.InputPathPlaceholderFree | HPC/Materials/Jasmin_Python_example/parallel_plot_global_mean_map.py:44 | The path contains no placeholder when the tag contains none. |
| GlobalMeanMap.InputPathInjective | HPC/Materials/Jasmin_Python_example/parallel_plot_global_mean_map.py:44 | For four-digit years, two paths are equal iff tags and years are equal. |
| GlobalMeanMap.CatalogPathsDistinct | HPC/Materials/Jasmin_Python_example/parallel_plot_global_mean_map.py:41-44 | Every (catalog run, loop year) pair reads its own placeholder-free file. |
| GlobalMeanMap.Arange | HPC/Materials/Jasmin_Python_example/parallel_plot_global_mean_map.py:28 | `np.arange(lo, hi)` holds hi − lo consecutive integers from lo, or nothing when hi < lo. |
| GlobalMeanMap.PlotYears | HPC/Materials/Jasmin_Python_example/parallel_plot_global_mean_map.py:28 | `plot_years = np.arange(START_YEAR, END_YEAR + 1)`, the years plotted against the time series. |
| GlobalMeanMap.PlotYearsCoverRange | HPC/Materials/Jasmin_Python_example/parallel_plot_global_mean_map.py:25-28 | `plot_years` has `nYEARS` = 251 strictly increasing entries, exactly the years 1850 … 2100, with entry i equal to 1850 + i. |
| GlobalMeanMap.YearRow | HPC/Materials/Jasmin_Python_example/parallel_plot_global_mean_map.py:48-52 | Each yearly row has one value per land point. |
| GlobalMeanMap.Series | HPC/Materials/Jasmin_Python_example/parallel_plot_global_mean_map.py:55 | The stacked series has 251 rows of equal width. |
| GlobalMeanMap.SeriesEntryIsLayerMean | HPC/Materials/Jasmin_Python_example/parallel_plot_global_mean_map.py:41-52 | Row i, land point j, is the mean of layers 0 … 4 of year 1850 + i's file at j. |
| GlobalMeanMap.LoadSeries | HPC/Materials/Jasmin_Python_example/parallel_plot_global_mean_map.py:40-55 | The loop visits the years of `plot_years` in order. It returns exactly one row per year, where row i is that year's depth mean, as `Series` defines. |
| GlobalMeanMap.MeanMapFile | HPC/Materials/Jasmin_Python_example/parallel_plot_global_mean_map.py:64 | The mean-map file name is the tag plus 34 fixed characters. |
| GlobalMeanMap.GrowthMapFile | HPC/Materials/Jasmin_Python_example/parallel_plot_global_mean_map.py:71 | The growth-map file name is the tag plus 40 fixed characters. |
| GlobalMeanMap.TimeseriesFile | HPC/Materials/Jasmin_Python_example/parallel_plot_global_mean_map.py:75 | The time-series file name is the tag plus 41 fixed characters. |
| GlobalMeanMap.TagInName | HPC/Materials/Jasmin_Python_example/parallel_plot_global_mean_map.py:64-75 | `out_dir + tag + suffix` determines the tag. |
| GlobalMeanMap.OutputKindsDistinct | HPC/Materials/Jasmin_Python_example/parallel_plot_global_mean_map.py:64-75 | A mean-map, growth-map and time-series name never coincide, for any two tags. |
| GlobalMeanMap.OutputNamesInjective | HPC/Materials/Jasmin_Python_example/parallel_plot_global_mean_map.py:64-75 | Each kind of output name is equal for two tags iff the tags are equal. |
| GlobalMeanMap.OutputFilesDistinct | HPC/Materials/Jasmin_Python_example/parallel_plot_global_mean_map.py:64-75 | No two output files coincide: names of different kinds differ for any two tags, and names of one kind are equal iff the tags are. |
| GlobalMeanMap.MeanMapTitle | HPC/Materials/Jasmin_Python_example/parallel_plot_global_mean_map.py:63 | The mean map's title `variable + ' Global Mean (' + str(START_YEAR) + '-' + str(END_YEAR) + ')'`. |
| GlobalMeanMap.MeanMapTitleText | HPC/Materials/Jasmin_Python_example/parallel_plot_global_mean_map.py:63 | The mean map is titled `t_soil Global Mean (1850-2100)`. |
| GlobalMeanMap.GrowthMapTitleAsWritten | HPC/Materials/Jasmin_Python_example/parallel_plot_global_mean_map.py:70 | The growth map's title as the script writes it, the same expression as line 63. |
| GlobalMeanMap.GrowthTitleAsWrittenIsMeanTitle | HPC/Materials/Jasmin_Python_example/parallel_plot_global_mean_map.py:63-70 | As written, the growth map's title equals the mean map's title. |
| GlobalMeanMap.GrowthMapTitle | HPC/Materials/Jasmin_Python_example/parallel_plot_global_mean_map.py:70 | The growth-map title evidently intended, naming the mean growth over the same years. |
| GlobalMeanMap.MapTitlesDistinct | HPC/Materials/Jasmin_Python_example/parallel_plot_global_mean_map.py:63-70 | The corrected growth-map title differs from the mean-map title. |
| GlobalMeanMap.PlotGlobalMeanMap | HPC/Materials/Jasmin_Python_example/parallel_plot_global_mean_map.py:13-75 | The run succeeds iff the argument selects a run and every grid index is a valid land index; otherwise it fails with IndexError. On success the maps are the gathers of the mean and growth reductions of `Series`, both carrying `grid_index`'s mask. The titles are the mean-map title and the growth-map title as written (equal, by `GrowthTitleAsWrittenIsMeanTitle`). The time series is the per-year mean over `plot_years`, and the files are the three names derived from the run's tag. |

## Left out

- The netCDF reads of `grid_info.nc` and of the yearly files (lines 32-36 and 47-49) are
  foreign library I/O. They are the parameters `grid` and `read`. A missing file,
  variable or field is not modelled as an error.
- The latitude and longitude arrays (lines 34-35) are read but never used in a
  computation, so they are not modelled.
- The `gunzip`/`gzip` shell calls (lines 45 and 50) are process side effects. The script
  does not recompress a file whose read fails, and the model makes no claim about
  compression state.
- Plotting and saving with matplotlib (lines 7-9, 61-62, 65, 68-69, 72-74 and 76) is
  rendering I/O. Only the titles and file names are modelled, inside `Figures`.
- `print` and `del` (lines 31, 46 and 53) do not affect results.
- Parsing `sys.argv[1]` with `int` (line 13) is not modelled. The argument is the
  integer it parses to, and a missing or non-numeric argument is not an error of the
  model.
- `np.mean` is modelled over exact reals, not IEEE doubles, so rounding is not modelled.
- GlobalMeanMap.PlotGlobalMeanMap: requires at least one land point. With none,
  `np.mean(data, axis=1)` yields NaN with a warning, and that behaviour is not
  modelled.
- GlobalMeanMap.LoadSeries: requires every yearly file to have at least five layers of
  equal width. Python slicing would silently return fewer layers, and ragged widths would
  make `np.array` build an object array. Both depend on file contents the model does not
  have.
- Remap.Gather: requires a mask with the grid's shape. When `land_index` carries no mask,
  numpy gives `nomask`, and the model represents that as an all-false grid of the same
  shape. The values stored under masked cells are whatever the file holds, and the model
  reads them like any other cell.
- Catalog.GCMs: each call to `GCMs()` builds a fresh list. Dafny sequences are
  immutable values, so the fact that mutating one result cannot affect another holds by
  construction and is not stated as a lemma.

## Findings

| source | as written | input that shows it | evidently intended | confidence | as-written member | corrected member |
|---|---|---|---|---|---|---|
| HPC/Materials/Jasmin_Python_example/parallel_plot_global_mean_map.py:70 | The growth-rate map is titled `variable+' Global Mean ('+…+')'`, the same expression as the mean map's title on line 63. | Any run: both maps are titled `t_soil Global Mean (1850-2100)`, while the files are `…_Global_Mean_…` and `…_Global_MeanGrowth_…`. | A title that names the mean growth rate, distinct from the mean map's. | medium; not executed | GlobalMeanMap.GrowthTitleAsWrittenIsMeanTitle | GlobalMeanMap.MapTitlesDistinct |

`PlotGlobalMeanMap` keeps the title as written, `GrowthMapTitleAsWritten`. The corrected definition is `GrowthMapTitle`, and `MapTitlesDistinct` proves that it tells the two maps apart.
