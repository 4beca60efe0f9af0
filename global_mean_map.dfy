/** The script `parallel_plot_global_mean_map.py`: select one model run from the
    catalog by its 1-based command-line number, read one file per year, average
    the top soil layers, and reduce the yearly series to a mean map, a mean
    growth-rate map and a global time series, each written to a named output file. */
module GlobalMeanMap {
  import Python
  import Text
  import Catalog
  import Reductions
  import Remap

  /** The data directory `/work/scratch/tomaug/BSUB_EXAMPLE_python/data/`, spelled by its components. */
  const DATA_DIR := "/work/" + "scratch/" + "tomaug/" + "BSUB_EXAMPLE_python/" + "data/"
  const OUT_DIR := "output/"
  const GCM_PLACEHOLDER := "DUMMYGCM"
  const YEAR_PLACEHOLDER := "DUMMYYEAR"
  /** The per-year file template `DUMMYGCM/BL_DUMMYGCM.dump.DUMMYYEAR0101.0.nc`, spelled by its pieces. */
  const FILETAG := GCM_PLACEHOLDER + "/BL_" + GCM_PLACEHOLDER + ".dump." + YEAR_PLACEHOLDER + "0101.0.nc"
  const VARIABLE := "t_soil"
  const Z_LAYER: nat := 0
  const N_LAYERS: nat := 5
  const START_YEAR: nat := 1850
  const END_YEAR: nat := 2100
  const N_YEARS: nat := END_YEAR - START_YEAR + 1

  // ---- Model selection ----

  /** `GCMs[int(sys.argv[1]) - 1]`: the argument is 1-based, and Python's negative
      indexing applies to the shifted value without any range check. */
  function SelectModel(argument: int): (r: Python.Result<string>)
    ensures r.Ok? <==> -33 <= argument <= 34
    ensures 1 <= argument <= 34 ==> r == Python.Ok(Catalog.GCMs()[argument - 1])
    ensures -33 <= argument <= 0 ==> r == Python.Ok(Catalog.GCMs()[33 + argument])
  {
    Catalog.CatalogSize();
    Python.Index(Catalog.GCMs(), argument - 1)
  }

  /** An argument of 0 silently selects the last run of the catalog. */
  lemma SelectZeroIsLast()
    ensures SelectModel(0) == Python.Ok("CEN_NSF-DOE-NCAR_MOD_CESM1-WACCM")
  {
    Catalog.CatalogLast();
  }

  /** An argument of 1 selects the first run of the catalog. */
  lemma SelectOneIsFirst()
    ensures SelectModel(1) == Python.Ok("CEN_BCC_MOD_bcc-csm1-1")
  {
    Catalog.CatalogFirst();
  }

  // ---- Input path templating ----

  /** `data_dir + FILETAG.replace('DUMMYGCM', gcm).replace('DUMMYYEAR', str(year))`. */
  function InputPath(gcm: string, year: nat): (path: string)
    ensures DATA_DIR <= path
  {
    DATA_DIR + Text.Replace(Text.Replace(FILETAG, GCM_PLACEHOLDER, gcm), YEAR_PLACEHOLDER, Text.NatToString(year))
  }

  /** A non-empty piece that holds no `p` and whose end characters are not in `p`,
      so that no occurrence of `p` can straddle its edges either. */
  predicate Inert(s: string, p: string) {
    s != [] && s[0] !in p && s[|s| - 1] !in p && !Text.Contains(s, p)
  }

  // Facts about the literal pieces, each kept in a lemma of its own.

  lemma PlaceholderChars()
    ensures GCM_PLACEHOLDER != [] && YEAR_PLACEHOLDER != []
    ensures 'D' in GCM_PLACEHOLDER && 'D' in YEAR_PLACEHOLDER
    ensures 'G' in GCM_PLACEHOLDER && 'G' !in YEAR_PLACEHOLDER
    ensures forall c :: c in GCM_PLACEHOLDER ==> 'A' <= c <= 'Z'
    ensures forall c :: c in YEAR_PLACEHOLDER ==> 'A' <= c <= 'Z'
  {
  }

  /** A piece without the letter `D` contains neither placeholder. */
  lemma WithoutD(s: string)
    requires 'D' !in s
    ensures !Text.Contains(s, GCM_PLACEHOLDER) && !Text.Contains(s, YEAR_PLACEHOLDER)
  {
    PlaceholderChars();
    Text.MissingCharNotContained(s, GCM_PLACEHOLDER, 'D');
    Text.MissingCharNotContained(s, YEAR_PLACEHOLDER, 'D');
  }

  /** A piece without `D` whose end characters are not upper-case letters is inert for both placeholders. */
  lemma InertPiece(s: string)
    requires s != [] && 'D' !in s && !('A' <= s[0] <= 'Z') && !('A' <= s[|s| - 1] <= 'Z')
    ensures Inert(s, GCM_PLACEHOLDER) && Inert(s, YEAR_PLACEHOLDER)
  {
    PlaceholderChars();
    WithoutD(s);
  }

  lemma SeparatorInert()
    ensures Inert("/BL_", GCM_PLACEHOLDER) && Inert("/BL_", YEAR_PLACEHOLDER)
  {
    InertPiece("/BL_");
  }

  lemma DumpInert()
    ensures Inert(".dump.", GCM_PLACEHOLDER) && Inert(".dump.", YEAR_PLACEHOLDER)
  {
    InertPiece(".dump.");
  }

  lemma SuffixInert()
    ensures Inert("0101.0.nc", GCM_PLACEHOLDER) && Inert("0101.0.nc", YEAR_PLACEHOLDER)
  {
    InertPiece("0101.0.nc");
  }

  lemma DataDirInert()
    ensures Inert(DATA_DIR, GCM_PLACEHOLDER) && Inert(DATA_DIR, YEAR_PLACEHOLDER)
  {
    assert 'D' !in "/work/" && 'D' !in "scratch/" && 'D' !in "tomaug/";
    assert 'D' !in "BSUB_EXAMPLE_python/" && 'D' !in "data/";
    InertPiece(DATA_DIR);
  }

  /** A year string is inert for both placeholders. */
  lemma YearInert(year: nat)
    ensures Inert(Text.NatToString(year), GCM_PLACEHOLDER) && Inert(Text.NatToString(year), YEAR_PLACEHOLDER)
  {
    var y := Text.NatToString(year);
    assert 'D' !in y;
    InertPiece(y);
  }

  /** What follows the second model placeholder in the template holds no model placeholder. */
  lemma YearTailInert()
    ensures Inert(".dump." + YEAR_PLACEHOLDER + "0101.0.nc", GCM_PLACEHOLDER)
  {
    var rest := ".dump." + YEAR_PLACEHOLDER + "0101.0.nc";
    PlaceholderChars();
    assert 'G' !in rest;
    Text.MissingCharNotContained(rest, GCM_PLACEHOLDER, 'G');
  }

  // Generic rewriting steps, over abstract strings.

  /** Re-brackets a six-piece concatenation to the right. */
  lemma Nest(a: string, b: string, c: string, d: string, e: string, f: string)
    ensures a + b + c + d + e + f == a + (b + (c + (d + (e + f))))
  {
  }

  /** A prefix without `p` and without a seam match passes through the replacement unchanged. */
  lemma ReplaceFreePrefix(a: string, b: string, p: string, y: string)
    requires p != [] && !Text.Contains(a, p) && Text.Seamless(a, b, p)
    ensures Text.Replace(a + b, p, y) == a + Text.Replace(b, p, y)
  {
    Text.ReplaceConcat(a, b, p, y);
    Text.ReplaceAbsent(a, p, y);
  }

  /** Replacing `p` in `p + mid + p + rest` substitutes both occurrences. */
  lemma ReplaceTwice(p: string, mid: string, rest: string, g: string)
    requires p != [] && Inert(mid, p) && Inert(rest, p)
    ensures Text.Replace(p + mid + p + rest, p, g) == g + mid + g + rest
  {
    ReplaceAfterDot(mid, p, rest, g);
    ReplaceFirstOccurrence(p, mid + (p + rest), g);
    Nest4(p, mid, p, rest);
    Nest4(g, mid, g, rest);
  }

  /** Replacing a leading `p` in `p + tail`, when `tail` starts with a character not in `p`. */
  lemma ReplaceFirstOccurrence(p: string, tail: string, y: string)
    requires p != [] && tail != [] && tail[0] !in p
    ensures Text.Replace(p + tail, p, y) == y + Text.Replace(tail, p, y)
  {
    Text.ReplaceConcat(p, tail, p, y);
    Text.ReplaceWhole(p, y);
  }

  lemma Nest4(a: string, b: string, c: string, d: string)
    ensures a + b + c + d == a + (b + (c + d))
  {
  }

  /** Replacing `p` in `p + tail`, when `tail` holds no `p`. */
  lemma ReplaceLeading(p: string, tail: string, y: string)
    requires p != [] && Inert(tail, p)
    ensures Text.Replace(p + tail, p, y) == y + tail
  {
    Text.ReplaceConcat(p, tail, p, y);
    Text.ReplaceWhole(p, y);
    Text.ReplaceAbsent(tail, p, y);
  }

  /** Replacing `p` in `dot + (p + tail)`. */
  lemma ReplaceAfterDot(dot: string, p: string, tail: string, y: string)
    requires p != [] && Inert(dot, p) && Inert(tail, p)
    ensures Text.Replace(dot + (p + tail), p, y) == dot + (y + tail)
  {
    ReplaceLeading(p, tail, y);
    ReplaceFreePrefix(dot, p + tail, p, y);
  }

  /** Replacing `p` in `g + (dot + (p + tail))`. */
  lemma ReplaceAfterTag(g: string, dot: string, p: string, tail: string, y: string)
    requires p != [] && !Text.Contains(g, p) && Inert(dot, p) && Inert(tail, p)
    ensures Text.Replace(g + (dot + (p + tail)), p, y) == g + (dot + (y + tail))
  {
    ReplaceAfterDot(dot, p, tail, y);
    ReplaceFreePrefix(g, dot + (p + tail), p, y);
  }

  /** Replacing `p` in `mid + (g + (dot + (p + tail)))`. */
  lemma ReplaceAfterMid(mid: string, g: string, dot: string, p: string, tail: string, y: string)
    requires p != [] && !Text.Contains(g, p) && Inert(mid, p) && Inert(dot, p) && Inert(tail, p)
    ensures Text.Replace(mid + (g + (dot + (p + tail))), p, y) == mid + (g + (dot + (y + tail)))
  {
    ReplaceAfterTag(g, dot, p, tail, y);
    ReplaceFreePrefix(mid, g + (dot + (p + tail)), p, y);
  }

  /** Replacing `p` in `g + mid + g + dot + p + tail`, where only the one `p` occurs. */
  lemma ReplaceOnce(g: string, mid: string, dot: string, p: string, tail: string, y: string)
    requires p != [] && !Text.Contains(g, p) && Inert(mid, p) && Inert(dot, p) && Inert(tail, p)
    ensures Text.Replace(g + mid + g + dot + p + tail, p, y) == g + mid + g + dot + y + tail
  {
    var s1 := mid + (g + (dot + (p + tail)));
    ReplaceAfterMid(mid, g, dot, p, tail, y);
    ReplaceFreePrefix(g, s1, p, y);
    Nest(g, mid, g, dot, p, tail);
    Nest(g, mid, g, dot, y, tail);
  }

  /** No piece contains `p` and no seam creates it, so the whole does not contain it. */
  lemma PiecesFree(d: string, g: string, mid: string, dot: string, y: string, tail: string, p: string)
    requires p != [] && !Text.Contains(g, p)
    requires Inert(d, p) && Inert(mid, p) && Inert(dot, p) && Inert(y, p) && Inert(tail, p)
    ensures !Text.Contains(d + (g + mid + g + dot + y + tail), p)
  {
    var s5 := y + tail;
    var s4 := dot + s5;
    var s3 := g + s4;
    var s2 := mid + s3;
    var s1 := g + s2;
    Text.ContainsConcat(y, tail, p);
    Text.ContainsConcat(dot, s5, p);
    Text.ContainsConcat(g, s4, p);
    Text.ContainsConcat(mid, s3, p);
    Text.ContainsConcat(g, s2, p);
    Text.ContainsConcat(d, s1, p);
    Nest(g, mid, g, dot, y, tail);
  }

  /** In `d + (g + mid + g + dot + y + tail)` with `|y|` fixed, `g` and `y` can be read back. */
  lemma PiecesInjective(d: string, mid: string, dot: string, tail: string,
                        g1: string, y1: string, g2: string, y2: string)
    requires |y1| == |y2|
    requires d + (g1 + mid + g1 + dot + y1 + tail) == d + (g2 + mid + g2 + dot + y2 + tail)
    ensures g1 == g2 && y1 == y2
  {
    var x1 := d + (g1 + mid + g1 + dot + y1 + tail);
    var x2 := d + (g2 + mid + g2 + dot + y2 + tail);
    assert |g1| == |g2| by { assert |x1| == |x2|; }
    assert x1[|d|..|d| + |g1|] == g1;
    assert x2[|d|..|d| + |g2|] == g2;
    var k := |d| + |g1| + |mid| + |g1| + |dot|;
    assert x1[k..k + |y1|] == y1;
    assert x2[k..k + |y2|] == y2;
  }

  /** Both occurrences of the model placeholder are replaced, leaving the year placeholder. */
  lemma ModelSubstituted(gcm: string)
    ensures Text.Replace(FILETAG, GCM_PLACEHOLDER, gcm)
         == gcm + "/BL_" + gcm + (".dump." + YEAR_PLACEHOLDER + "0101.0.nc")
  {
    SeparatorInert();
    YearTailInert();
    assert FILETAG == GCM_PLACEHOLDER + "/BL_" + GCM_PLACEHOLDER + (".dump." + YEAR_PLACEHOLDER + "0101.0.nc");
    ReplaceTwice(GCM_PLACEHOLDER, "/BL_", ".dump." + YEAR_PLACEHOLDER + "0101.0.nc", gcm);
  }

  /** Only the year placeholder is replaced in the second step. */
  lemma YearSubstituted(gcm: string, y: string)
    requires !Text.Contains(gcm, YEAR_PLACEHOLDER)
    ensures Text.Replace(gcm + "/BL_" + gcm + (".dump." + YEAR_PLACEHOLDER + "0101.0.nc"), YEAR_PLACEHOLDER, y)
         == gcm + "/BL_" + gcm + ".dump." + y + "0101.0.nc"
  {
    SeparatorInert();
    DumpInert();
    SuffixInert();
    PlaceholderChars();
    assert gcm + "/BL_" + gcm + (".dump." + YEAR_PLACEHOLDER + "0101.0.nc")
        == gcm + "/BL_" + gcm + ".dump." + YEAR_PLACEHOLDER + "0101.0.nc";
    ReplaceOnce(gcm, "/BL_", ".dump.", YEAR_PLACEHOLDER, "0101.0.nc", y);
  }

  /** The path in closed form, for a model tag that does not itself contain the year placeholder. */
  lemma InputPathClosedForm(gcm: string, year: nat)
    requires !Text.Contains(gcm, YEAR_PLACEHOLDER)
    ensures InputPath(gcm, year)
         == DATA_DIR + (gcm + "/BL_" + gcm + ".dump." + Text.NatToString(year) + "0101.0.nc")
  {
    ModelSubstituted(gcm);
    YearSubstituted(gcm, Text.NatToString(year));
  }

  /** The path holds neither placeholder when the tag holds neither. */
  lemma InputPathPlaceholderFree(gcm: string, year: nat)
    requires Catalog.PlaceholderFree(gcm)
    ensures Catalog.PlaceholderFree(InputPath(gcm, year))
  {
    var y := Text.NatToString(year);
    InputPathClosedForm(gcm, year);
    PlaceholderChars();
    SeparatorInert();
    DumpInert();
    SuffixInert();
    DataDirInert();
    YearInert(year);
    PiecesFree(DATA_DIR, gcm, "/BL_", ".dump.", y, "0101.0.nc", GCM_PLACEHOLDER);
    PiecesFree(DATA_DIR, gcm, "/BL_", ".dump.", y, "0101.0.nc", YEAR_PLACEHOLDER);
  }

  /** Distinct (tag, four-digit year) pairs read distinct files. */
  lemma InputPathInjective(g1: string, y1: nat, g2: string, y2: nat)
    requires !Text.Contains(g1, YEAR_PLACEHOLDER) && !Text.Contains(g2, YEAR_PLACEHOLDER)
    requires 1000 <= y1 <= 9999 && 1000 <= y2 <= 9999
    ensures InputPath(g1, y1) == InputPath(g2, y2) <==> g1 == g2 && y1 == y2
  {
    if InputPath(g1, y1) == InputPath(g2, y2) {
      InputPathClosedForm(g1, y1);
      InputPathClosedForm(g2, y2);
      Text.NatToStringFourDigits(y1);
      Text.NatToStringFourDigits(y2);
      PiecesInjective(DATA_DIR, "/BL_", ".dump.", "0101.0.nc",
                      g1, Text.NatToString(y1), g2, Text.NatToString(y2));
      Text.NatToStringInjective(y1, y2);
    }
  }

  /** Every run in the catalog and every year of the loop give a distinct, placeholder-free path. */
  lemma CatalogPathsDistinct(i: nat, y1: nat, j: nat, y2: nat)
    requires i < |Catalog.GCMs()| && j < |Catalog.GCMs()|
    requires START_YEAR <= y1 <= END_YEAR && START_YEAR <= y2 <= END_YEAR
    ensures Catalog.PlaceholderFree(InputPath(Catalog.GCMs()[i], y1))
    ensures InputPath(Catalog.GCMs()[i], y1) == InputPath(Catalog.GCMs()[j], y2) <==> i == j && y1 == y2
  {
    Catalog.CatalogPlaceholderFree();
    Catalog.CatalogDistinct();
    InputPathPlaceholderFree(Catalog.GCMs()[i], y1);
    InputPathInjective(Catalog.GCMs()[i], y1, Catalog.GCMs()[j], y2);
  }

  // ---- Years ----

  /** `np.arange(lo, hi)`: the integers from `lo` up to but excluding `hi`. */
  function Arange(lo: int, hi: int): (r: seq<int>)
    ensures |r| == if lo <= hi then hi - lo else 0
    ensures forall i :: 0 <= i < |r| ==> r[i] == lo + i
  {
    if lo <= hi then seq(hi - lo, i requires 0 <= i < hi - lo => lo + i) else []
  }

  /** `plot_years`, the x axis of the time series. */
  function PlotYears(): seq<int> {
    Arange(START_YEAR, END_YEAR + 1)
  }

  /** The plotted years are exactly the `nYEARS` = 251 years 1850 .. 2100, strictly increasing,
      and year `y` is at position `y - START_YEAR`. */
  lemma PlotYearsCoverRange()
    ensures N_YEARS == 251 && |PlotYears()| == N_YEARS
    ensures forall i, j :: 0 <= i < j < |PlotYears()| ==> PlotYears()[i] < PlotYears()[j]
    ensures forall y :: y in PlotYears() <==> START_YEAR <= y <= END_YEAR
    ensures forall i :: 0 <= i < |PlotYears()| ==> PlotYears()[i] == START_YEAR + i
  {
    var ys := PlotYears();
    forall y | START_YEAR <= y <= END_YEAR ensures y in ys {
      assert ys[y - START_YEAR] == y;
    }
  }

  // ---- The year loop ----

  /** Every year's file has at least `z_layer + nlayers` layers of `width` land points each. */
  predicate YearFilesReadable(gcm: string, width: nat, read: string -> seq<seq<real>>) {
    forall year: nat :: START_YEAR <= year <= END_YEAR ==>
      Z_LAYER + N_LAYERS <= |read(InputPath(gcm, year))| &&
      Reductions.Rectangular(read(InputPath(gcm, year)), width)
  }

  /** The row the loop computes for `year`: the depth mean of that year's file. */
  function YearRow(gcm: string, width: nat, read: string -> seq<seq<real>>, year: nat): (row: seq<real>)
    requires YearFilesReadable(gcm, width, read) && START_YEAR <= year <= END_YEAR
    ensures |row| == width
  {
    Reductions.DepthMean(read(InputPath(gcm, year)), width, Z_LAYER, N_LAYERS)
  }

  /** `np.array(data)` after the loop: row `i` belongs to year `START_YEAR + i`. */
  function Series(gcm: string, width: nat, read: string -> seq<seq<real>>): (data: seq<seq<real>>)
    requires YearFilesReadable(gcm, width, read)
    ensures |data| == N_YEARS && Reductions.Rectangular(data, width)
  {
    var data := seq(N_YEARS, i requires 0 <= i < N_YEARS => YearRow(gcm, width, read, START_YEAR + i));
    assert forall i :: 0 <= i < N_YEARS ==> data[i] == YearRow(gcm, width, read, START_YEAR + i);
    data
  }

  /** Entry `j` of a yearly row is the mean of layers `z_layer .. z_layer+nlayers-1`
      of that year's variable at land point `j`. */
  lemma SeriesEntryIsLayerMean(gcm: string, width: nat, read: string -> seq<seq<real>>, i: nat, j: nat)
    requires YearFilesReadable(gcm, width, read) && i < N_YEARS && j < width
    ensures var v := read(InputPath(gcm, START_YEAR + i));
      Series(gcm, width, read)[i][j]
        == Reductions.Sum(seq(N_LAYERS, k requires 0 <= k < N_LAYERS => v[Z_LAYER + k][j])) / (N_LAYERS as real)
  {
    var v := read(InputPath(gcm, START_YEAR + i));
    assert Series(gcm, width, read)[i] == YearRow(gcm, width, read, START_YEAR + i);
    Reductions.DepthMeanAt(v, width, Z_LAYER, N_LAYERS, j);
  }

  /** Lines 40-55: for each year in turn, build the path, read the layers, average them
      over depth and append the row. Also returns the years in the order visited. */
  method LoadSeries(gcm: string, width: nat, read: string -> seq<seq<real>>)
    returns (data: seq<seq<real>>, visited: seq<int>)
    requires YearFilesReadable(gcm, width, read)
    ensures visited == PlotYears()
    ensures data == Series(gcm, width, read)
  {
    data := [];
    visited := [];
    var iyear := 0;
    while iyear < N_YEARS
      invariant 0 <= iyear <= N_YEARS
      invariant |data| == iyear && |visited| == iyear
      invariant forall i :: 0 <= i < iyear ==> visited[i] == START_YEAR + i
      invariant forall i :: 0 <= i < iyear ==> data[i] == YearRow(gcm, width, read, START_YEAR + i)
    {
      var year := START_YEAR + iyear;
      var strYear := Text.NatToString(year);
      var infile := DATA_DIR + Text.Replace(Text.Replace(FILETAG, GCM_PLACEHOLDER, gcm), YEAR_PLACEHOLDER, strYear);
      assert infile == InputPath(gcm, year);
      var indata := read(infile)[Z_LAYER..Z_LAYER + N_LAYERS];
      data := data + [Reductions.ColumnMeans(indata, width)];
      visited := visited + [year];
      iyear := iyear + 1;
    }
    assert visited == PlotYears();
  }

  // ---- Output names and titles ----

  /** Line 64. */
  function MeanMapFile(gcm: string): (f: string)
    ensures |f| == |gcm| + 34
  {
    OUT_DIR + gcm + "_Global_Mean_" + VARIABLE + "_Map.png"
  }

  /** Line 71. */
  function GrowthMapFile(gcm: string): (f: string)
    ensures |f| == |gcm| + 40
  {
    OUT_DIR + gcm + "_Global_MeanGrowth_" + VARIABLE + "_Map.png"
  }

  /** Line 75. */
  function TimeseriesFile(gcm: string): (f: string)
    ensures |f| == |gcm| + 41
  {
    OUT_DIR + gcm + "_Global_Mean_" + VARIABLE + "_Timeseries.png"
  }

  /** `out_dir + g + suffix` determines `g`. */
  lemma TagInName(g1: string, g2: string, suffix: string)
    requires OUT_DIR + g1 + suffix == OUT_DIR + g2 + suffix
    ensures g1 == g2
  {
    var x1 := OUT_DIR + g1 + suffix;
    var x2 := OUT_DIR + g2 + suffix;
    assert |g1| == |g2| by { assert |x1| == |x2|; }
    assert x1[|OUT_DIR|..|OUT_DIR| + |g1|] == g1;
    assert x2[|OUT_DIR|..|OUT_DIR| + |g2|] == g2;
  }

  /** Character `k` of `suffix` sits at the same distance from the end of `prefix + suffix`. */
  lemma SuffixChar(prefix: string, suffix: string, k: nat)
    requires k < |suffix|
    ensures (prefix + suffix)[|prefix + suffix| - |suffix| + k] == suffix[k]
  {
  }

  lemma MapSuffixFacts()
    ensures |"_Global_Mean_" + VARIABLE + "_Map.png"| == 27
    ensures ("_Global_Mean_" + VARIABLE + "_Map.png")[0] == '_'
    ensures ("_Global_Mean_" + VARIABLE + "_Map.png")[19] == '_'
  {
  }

  lemma GrowthSuffixFacts()
    ensures |"_Global_MeanGrowth_" + VARIABLE + "_Map.png"| == 33
    ensures ("_Global_MeanGrowth_" + VARIABLE + "_Map.png")[6] == 'l'
    ensures ("_Global_MeanGrowth_" + VARIABLE + "_Map.png")[25] == '_'
  {
  }

  lemma TimeseriesSuffixFacts()
    ensures |"_Global_Mean_" + VARIABLE + "_Timeseries.png"| == 34
    ensures ("_Global_Mean_" + VARIABLE + "_Timeseries.png")[26] == 'r'
  {
  }

  /** The three kinds of output name never collide, whatever the two runs are:
      the mean map's name has `_` where the growth map's has `l`, 27 characters
      from the end, and both have `_` where the time series's has `r`, 8 from the end. */
  lemma OutputKindsDistinct(g1: string, g2: string)
    ensures MeanMapFile(g1) != GrowthMapFile(g2)
    ensures MeanMapFile(g1) != TimeseriesFile(g2)
    ensures GrowthMapFile(g1) != TimeseriesFile(g2)
  {
    var m := "_Global_Mean_" + VARIABLE + "_Map.png";
    var gr := "_Global_MeanGrowth_" + VARIABLE + "_Map.png";
    var t := "_Global_Mean_" + VARIABLE + "_Timeseries.png";
    MapSuffixFacts();
    GrowthSuffixFacts();
    TimeseriesSuffixFacts();
    assert MeanMapFile(g1) == (OUT_DIR + g1) + m;
    assert GrowthMapFile(g1) == (OUT_DIR + g1) + gr;
    assert GrowthMapFile(g2) == (OUT_DIR + g2) + gr;
    assert TimeseriesFile(g2) == (OUT_DIR + g2) + t;
    SuffixChar(OUT_DIR + g1, m, 0);
    SuffixChar(OUT_DIR + g1, m, 19);
    SuffixChar(OUT_DIR + g2, gr, 6);
    SuffixChar(OUT_DIR + g1, gr, 25);
    SuffixChar(OUT_DIR + g2, t, 26);
  }

  /** Each kind of output name determines its run. */
  lemma OutputNamesInjective(g1: string, g2: string)
    ensures MeanMapFile(g1) == MeanMapFile(g2) <==> g1 == g2
    ensures GrowthMapFile(g1) == GrowthMapFile(g2) <==> g1 == g2
    ensures TimeseriesFile(g1) == TimeseriesFile(g2) <==> g1 == g2
  {
    MeanMapFileInjective(g1, g2);
    GrowthMapFileInjective(g1, g2);
    TimeseriesFileInjective(g1, g2);
  }

  lemma MeanMapFileInjective(g1: string, g2: string)
    ensures MeanMapFile(g1) == MeanMapFile(g2) ==> g1 == g2
  {
    var m := "_Global_Mean_" + VARIABLE + "_Map.png";
    if MeanMapFile(g1) == MeanMapFile(g2) {
      assert MeanMapFile(g1) == OUT_DIR + g1 + m && MeanMapFile(g2) == OUT_DIR + g2 + m;
      TagInName(g1, g2, m);
    }
  }

  lemma GrowthMapFileInjective(g1: string, g2: string)
    ensures GrowthMapFile(g1) == GrowthMapFile(g2) ==> g1 == g2
  {
    var gr := "_Global_MeanGrowth_" + VARIABLE + "_Map.png";
    if GrowthMapFile(g1) == GrowthMapFile(g2) {
      assert GrowthMapFile(g1) == OUT_DIR + g1 + gr && GrowthMapFile(g2) == OUT_DIR + g2 + gr;
      TagInName(g1, g2, gr);
    }
  }

  lemma TimeseriesFileInjective(g1: string, g2: string)
    ensures TimeseriesFile(g1) == TimeseriesFile(g2) ==> g1 == g2
  {
    var t := "_Global_Mean_" + VARIABLE + "_Timeseries.png";
    if TimeseriesFile(g1) == TimeseriesFile(g2) {
      assert TimeseriesFile(g1) == OUT_DIR + g1 + t && TimeseriesFile(g2) == OUT_DIR + g2 + t;
      TagInName(g1, g2, t);
    }
  }

  /** No two output files coincide: the three files of one run are pairwise distinct,
      each kind of name determines its run, and names of different kinds never collide. */
  lemma OutputFilesDistinct(g1: string, g2: string)
    ensures MeanMapFile(g1) != GrowthMapFile(g2)
    ensures MeanMapFile(g1) != TimeseriesFile(g2)
    ensures GrowthMapFile(g1) != TimeseriesFile(g2)
    ensures MeanMapFile(g1) == MeanMapFile(g2) <==> g1 == g2
    ensures GrowthMapFile(g1) == GrowthMapFile(g2) <==> g1 == g2
    ensures TimeseriesFile(g1) == TimeseriesFile(g2) <==> g1 == g2
  {
    OutputKindsDistinct(g1, g2);
    OutputNamesInjective(g1, g2);
  }

  /** Line 63: the title of the mean map. */
  function MeanMapTitle(): string {
    VARIABLE + " Global Mean (" + Text.NatToString(START_YEAR) + "-" + Text.NatToString(END_YEAR) + ")"
  }

  /** The mean map is titled `t_soil Global Mean (1850-2100)`. */
  lemma MeanMapTitleText()
    ensures MeanMapTitle() == "t_soil Global Mean (1850-2100)"
  {
    StartYearText();
    EndYearText();
  }

  lemma StartYearText()
    ensures Text.NatToString(START_YEAR) == "1850"
  {
    assert Text.NatToString(18) == "18";
    assert Text.NatToString(185) == "185";
  }

  lemma EndYearText()
    ensures Text.NatToString(END_YEAR) == "2100"
  {
    assert Text.NatToString(21) == "21";
    assert Text.NatToString(210) == "210";
  }

  /** Line 70 as written: the growth map is given the mean map's title expression. */
  function GrowthMapTitleAsWritten(): string {
    VARIABLE + " Global Mean (" + Text.NatToString(START_YEAR) + "-" + Text.NatToString(END_YEAR) + ")"
  }

  /** The growth-rate map as written carries the same title as the mean map. */
  lemma GrowthTitleAsWrittenIsMeanTitle()
    ensures GrowthMapTitleAsWritten() == MeanMapTitle()
  {
  }

  /** The title the growth-rate map evidently should carry, naming it as the mean growth. */
  function GrowthMapTitle(): string {
    VARIABLE + " Global Mean Growth (" + Text.NatToString(START_YEAR) + "-" + Text.NatToString(END_YEAR) + ")"
  }

  /** The corrected titles tell the two maps apart. */
  lemma MapTitlesDistinct()
    ensures GrowthMapTitle() != MeanMapTitle()
  {
    assert |GrowthMapTitle()| == |MeanMapTitle()| + 7;
  }

  // ---- The whole script ----

  /** What the script produces: the two masked maps and the time series it plots,
      the titles and the file names they are saved under. */
  datatype Figures = Figures(
    meanMap: Remap.Masked<real>, growthMap: Remap.Masked<real>,
    years: seq<int>, series: seq<real>,
    meanMapTitle: string, growthMapTitle: string,
    meanMapFile: string, growthMapFile: string, timeseriesFile: string)

  /** The script for command-line argument `argument`, land-index grid `grid` and per-file
      reads `read`. Fails with IndexError when the argument selects no run (line 38) or when
      the grid holds an index outside the land array (line 60). */
  method PlotGlobalMeanMap(argument: int, grid: Remap.Masked<int>, width: nat, read: string -> seq<seq<real>>)
    returns (r: Python.Result<Figures>)
    requires Remap.WellFormed(grid) && width > 0
    requires SelectModel(argument).Ok? ==> YearFilesReadable(SelectModel(argument).value, width, read)
    ensures r.Ok? <==> SelectModel(argument).Ok? && Remap.InRange(width, grid.data)
    ensures r.Err? ==> r.error == Python.IndexError
    ensures r.Ok? ==>
      var gcm := SelectModel(argument).value;
      var data := Series(gcm, width, read);
      r.value.meanMap == Remap.Gather(Reductions.ColumnMeans(data, width), grid).value &&
      r.value.growthMap == Remap.Gather(Reductions.MeanGrowth(data, width), grid).value &&
      r.value.years == PlotYears() &&
      r.value.series == Reductions.RowMeans(data, width) &&
      r.value.meanMapTitle == MeanMapTitle() && r.value.growthMapTitle == GrowthMapTitleAsWritten() &&
      r.value.meanMapFile == MeanMapFile(gcm) && r.value.growthMapFile == GrowthMapFile(gcm) &&
      r.value.timeseriesFile == TimeseriesFile(gcm)
    ensures r.Ok? ==>
      r.value.meanMap.mask == grid.mask && r.value.growthMap.mask == grid.mask &&
      |r.value.years| == |r.value.series| == N_YEARS
  {
    var selected := SelectModel(argument);
    if selected.Err? {
      return Python.Err(selected.error);
    }
    var gcm := selected.value;
    var data, visited := LoadSeries(gcm, width, read);
    var meanData := Reductions.ColumnMeans(data, width);
    var meanGrowthRate := Reductions.MeanGrowth(data, width);
    var tsData := Reductions.RowMeans(data, width);
    var meanMap := Remap.Gather(meanData, grid);
    if meanMap.Err? {
      return Python.Err(meanMap.error);
    }
    var growthMap := Remap.Gather(meanGrowthRate, grid);
    Remap.GatherSharedMask(meanData, meanGrowthRate, grid);
    PlotYearsCoverRange();
    r := Python.Ok(Figures(meanMap.value, growthMap.value, PlotYears(), tsData,
                           MeanMapTitle(), GrowthMapTitleAsWritten(),
                           MeanMapFile(gcm), GrowthMapFile(gcm), TimeseriesFile(gcm)));
  }
}
