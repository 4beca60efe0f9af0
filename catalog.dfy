/** The catalog of climate-model run tags (`data_info.GCMs()`). */
module Catalog {
  import Text

  /** The tag of one model run: `CEN_<centre>_MOD_<model>`. */
  function Tag(centre: string, model: string): string {
    "CEN_" + centre + "_MOD_" + model
  }

  /** The (centre, model) pair behind each tag, in catalog order. */
  function Runs(): seq<(string, string)> {
    [
      ("BCC", "bcc-csm1-1"),
      ("BCC", "bcc-csm1-1-m"),
      ("BNU", "BNU-ESM"),
      ("CCCma", "CanESM2"),
      ("CMCC", "CMCC-CMS"),
      ("CNRM-CERFACS", "CNRM-CM5"),
      ("CSIRO-BOM", "ACCESS1-0"),
      ("CSIRO-BOM", "ACCESS1-3"),
      ("CSIRO-QCCCE", "CSIRO-Mk3-6-0"),
      ("INM", "inmcm4"),
      ("IPSL", "IPSL-CM5A-LR"),
      ("IPSL", "IPSL-CM5A-MR"),
      ("IPSL", "IPSL-CM5B-LR"),
      ("MIROC", "MIROC5"),
      ("MIROC", "MIROC-ESM"),
      ("MIROC", "MIROC-ESM-CHEM"),
      ("MOHC", "HadGEM2-CC"),
      ("MOHC", "HadGEM2-ES"),
      ("MPI-M", "MPI-ESM-LR"),
      ("MPI-M", "MPI-ESM-MR"),
      ("MRI", "MRI-CGCM3"),
      ("NASA-GISS", "GISS-E2-H"),
      ("NASA-GISS", "GISS-E2-H-CC"),
      ("NASA-GISS", "GISS-E2-R"),
      ("NASA-GISS", "GISS-E2-R-CC"),
      ("NCAR", "CCSM4"),
      ("NCC", "NorESM1-M"),
      ("NCC", "NorESM1-ME"),
      ("NOAA-GFDL", "GFDL-CM3"),
      ("NOAA-GFDL", "GFDL-ESM2G"),
      ("NOAA-GFDL", "GFDL-ESM2M"),
      ("NSF-DOE-NCAR", "CESM1-BGC"),
      ("NSF-DOE-NCAR", "CESM1-CAM5"),
      ("NSF-DOE-NCAR", "CESM1-WACCM")
    ]
  }

  /** The ordered list of tags that `data_info.GCMs()` returns. Dafny
      sequences are values: every call yields the same contents and no caller
      can change what a later call sees. */
  function GCMs(): (tags: seq<string>)
    ensures |tags| == |Runs()|
    ensures forall i :: 0 <= i < |tags| ==> tags[i] == Tag(Runs()[i].0, Runs()[i].1)
  {
    seq(|Runs()|, i requires 0 <= i < |Runs()| => Tag(Runs()[i].0, Runs()[i].1))
  }

  /** A tag of the form `CEN_<centre>_MOD_<model>`. */
  predicate TagShape(t: string) {
    "CEN_" <= t && Text.Contains(t, "_MOD_")
  }

  /** A tag in which neither file-name placeholder occurs. */
  predicate PlaceholderFree(t: string) {
    !Text.Contains(t, "DUMMYGCM") && !Text.Contains(t, "DUMMYYEAR")
  }

  /** The catalog holds 34 tags. */
  lemma CatalogSize()
    ensures |GCMs()| == 34
  {
  }

  /** The order is fixed: `bcc-csm1-1` first. */
  lemma CatalogFirst()
    ensures GCMs()[0] == "CEN_BCC_MOD_bcc-csm1-1"
  {
  }

  /** The order is fixed: `CESM1-WACCM` last. */
  lemma CatalogLast()
    ensures GCMs()[|GCMs()| - 1] == "CEN_NSF-DOE-NCAR_MOD_CESM1-WACCM"
  {
  }

  /** Every tag is `CEN_<centre>_MOD_<model>`. */
  lemma CatalogTagShape()
    ensures forall i :: 0 <= i < |GCMs()| ==> TagShape(GCMs()[i])
  {
    forall i | 0 <= i < |GCMs()| ensures TagShape(GCMs()[i]) {
      Text.ContainsInfix("CEN_" + Runs()[i].0, "_MOD_", Runs()[i].1);
      assert GCMs()[i] == "CEN_" + Runs()[i].0 + "_MOD_" + Runs()[i].1;
    }
  }

  /** No tag contains either placeholder, because no centre or model name
      contains a capital `Y` and both placeholders do. */
  lemma CatalogPlaceholderFree()
    ensures forall i :: 0 <= i < |GCMs()| ==> PlaceholderFree(GCMs()[i])
  {
    RunsWithoutY();
    forall i | 0 <= i < |GCMs()| ensures PlaceholderFree(GCMs()[i]) {
      var t := GCMs()[i];
      assert 'Y' !in t;
      Text.MissingCharNotContained(t, "DUMMYGCM", 'Y');
      Text.MissingCharNotContained(t, "DUMMYYEAR", 'Y');
    }
  }

  /** No tag is listed twice: the model names differ, and a tag determines
      its model name because no centre name holds an underscore. */
  lemma CatalogDistinct()
    ensures forall i, j :: 0 <= i < j < |GCMs()| ==> GCMs()[i] != GCMs()[j]
  {
    ModelsDistinct();
    CentresWithoutUnderscore();
    forall i, j | 0 <= i < j < |GCMs()| ensures GCMs()[i] != GCMs()[j] {
      TagInjective(Runs()[i].0, Runs()[i].1, Runs()[j].0, Runs()[j].1);
    }
  }

  /** With underscore-free centre names, the tag gives back centre and model. */
  lemma TagInjective(c1: string, m1: string, c2: string, m2: string)
    requires '_' !in c1 && '_' !in c2
    ensures Tag(c1, m1) == Tag(c2, m2) ==> c1 == c2 && m1 == m2
  {
    if Tag(c1, m1) == Tag(c2, m2) {
      var t := Tag(c1, m1);
      FirstUnderscore(c1, m1);
      FirstUnderscore(c2, m2);
      assert |c1| == |c2|;
      assert c1 == t[4..4 + |c1|] == c2;
      assert m1 == t[9 + |c1|..] == m2;
    }
  }

  /** After `CEN_`, the first underscore of a tag ends its centre name. */
  lemma FirstUnderscore(centre: string, model: string)
    requires '_' !in centre
    ensures Tag(centre, model)[4 + |centre|] == '_'
    ensures forall k :: 4 <= k < 4 + |centre| ==> Tag(centre, model)[k] != '_'
  {
    var t := Tag(centre, model);
    forall k | 4 <= k < 4 + |centre| ensures t[k] != '_' {
      assert t[k] == centre[k - 4];
    }
  }

  // Facts about the literal names, a few at a time.

  lemma RunsWithoutY()
    ensures forall i :: 0 <= i < |Runs()| ==> 'Y' !in Runs()[i].0 && 'Y' !in Runs()[i].1
  {
  }

  lemma CentresWithoutUnderscore()
    ensures forall i :: 0 <= i < |Runs()| ==> '_' !in Runs()[i].0
  {
  }

  lemma ModelsDistinct()
    ensures forall i, j :: 0 <= i < j < |Runs()| ==> Runs()[i].1 != Runs()[j].1
  {
    ModelsDistinctFirstHalf();
    ModelsDistinctSecondHalf();
    ModelsDistinctAcross();
  }

  lemma ModelsDistinctFirstHalf()
    ensures forall i, j :: 0 <= i < j < 17 ==> Runs()[i].1 != Runs()[j].1
  {
  }

  lemma ModelsDistinctSecondHalf()
    ensures forall i, j :: 17 <= i < j < |Runs()| ==> Runs()[i].1 != Runs()[j].1
  {
  }

  lemma ModelsDistinctAcross()
    ensures forall i, j :: 0 <= i < 17 <= j < |Runs()| ==> Runs()[i].1 != Runs()[j].1
  {
  }
}
