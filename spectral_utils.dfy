/**
  The platform dispatch of the spectral-index helpers: the band table a
  satellite platform offers to `ee.Image.expression`, the kernel images built
  from two of those bands, the filter that drops `None` entries from a
  dictionary, and the tasseled-cap coefficient tables.

  Earth Engine images stay opaque: an image is a value of the type parameter
  `I`, `img.select(name)` is recorded as `Select(img, name)` and
  `img.expression(formula, vars)` as `Expression(img, formula, vars)`.
*/
module SpectralUtils {
  import opened Wrappers

  /** What an entry of an expression map stands for. */
  datatype Value<I> =
    | Select(image: I, band: string)
    | Expression(image: I, formula: string, vars: map<string, Value<I>>)
    | Number(number: real)

  /** The two exceptions the dispatch raises: a missing dictionary key, and a
      platform with no table. */
  datatype Error = KeyError(key: string) | UnsupportedPlatform(platform: string)

  // ---------------------------------------------------------------------------
  // _get_expression_map

  const S2Bands: map<string, string> := map[
    "A" := "B1", "B" := "B2", "G" := "B3", "R" := "B4", "RE1" := "B5", "RE2" := "B6",
    "RE3" := "B7", "N" := "B8", "RE4" := "B8A", "WV" := "B9", "S1" := "B11", "S2" := "B12"]

  const L8Bands: map<string, string> := map[
    "A" := "B1", "B" := "B2", "G" := "B3", "R" := "B4", "N" := "B5", "S1" := "B6",
    "S2" := "B7", "T1" := "B10", "T2" := "B11"]

  const L8C2Bands: map<string, string> := map[
    "A" := "SR_B1", "B" := "SR_B2", "G" := "SR_B3", "R" := "SR_B4", "N" := "SR_B5",
    "S1" := "SR_B6", "S2" := "SR_B7", "T1" := "ST_B10"]

  const L457Bands: map<string, string> := map[
    "B" := "B1", "G" := "B2", "R" := "B3", "N" := "B4", "S1" := "B5", "T1" := "B6", "S2" := "B7"]

  const L457C2Bands: map<string, string> := map[
    "B" := "SR_B1", "G" := "SR_B2", "R" := "SR_B3", "N" := "SR_B4", "S1" := "SR_B5",
    "T1" := "ST_B6", "S2" := "SR_B7"]

  const MOD09GQBands: map<string, string> := map["R" := "sur_refl_b01", "N" := "sur_refl_b02"]

  const MOD09GABands: map<string, string> := map[
    "B" := "sur_refl_b03", "G" := "sur_refl_b04", "R" := "sur_refl_b01", "N" := "sur_refl_b02",
    "S1" := "sur_refl_b06", "S2" := "sur_refl_b07"]

  const MCD43A4Bands: map<string, string> := map[
    "B" := "Nadir_Reflectance_Band3", "G" := "Nadir_Reflectance_Band4",
    "R" := "Nadir_Reflectance_Band1", "N" := "Nadir_Reflectance_Band2",
    "S1" := "Nadir_Reflectance_Band6", "S2" := "Nadir_Reflectance_Band7"]

  /** The eight local `lookup…` functions; each selects the bands of one table. */
  datatype BandLookup =
    | LookupS2 | LookupL8 | LookupL8C2 | LookupL457 | LookupL457C2
    | LookupMOD09GQ | LookupMOD09GA | LookupMCD43A4

  /** The band table a lookup function selects from: expression variable to band name. */
  function Bands(l: BandLookup): map<string, string>
  {
    match l
    case LookupS2 => S2Bands
    case LookupL8 => L8Bands
    case LookupL8C2 => L8C2Bands
    case LookupL457 => L457Bands
    case LookupL457C2 => L457C2Bands
    case LookupMOD09GQ => MOD09GQBands
    case LookupMOD09GA => MOD09GABands
    case LookupMCD43A4 => MCD43A4Bands
  }

  /** `lookupPlatform`, entry by entry in the order of the dictionary literal. */
  const LookupPlatform: seq<(string, BandLookup)> := [
    ("COPERNICUS/S2", LookupS2),
    ("COPERNICUS/S2_SR", LookupS2),
    ("LANDSAT/LC08/C01/T1_SR", LookupL8),
    ("LANDSAT/LC08/C01/T2_SR", LookupL8),
    ("LANDSAT/LC08/C02/T1_L2", LookupL8C2),
    ("LANDSAT/LE07/C01/T1_SR", LookupL457),
    ("LANDSAT/LE07/C01/T2_SR", LookupL457),
    ("LANDSAT/LE07/C02/T1_L2", LookupL457C2),
    ("LANDSAT/LT05/C01/T1_SR", LookupL457),
    ("LANDSAT/LT05/C01/T2_SR", LookupL457),
    ("LANDSAT/LT05/C02/T1_L2", LookupL457C2),
    ("LANDSAT/LT04/C01/T1_SR", LookupL457),
    ("LANDSAT/LT04/C01/T2_SR", LookupL457),
    ("LANDSAT/LT04/C02/T1_L2", LookupL457C2),
    ("MODIS/006/MOD09GQ", LookupMOD09GQ),
    ("MODIS/006/MYD09GQ", LookupMOD09GQ),
    ("MODIS/006/MOD09GA", LookupMOD09GA),
    ("MODIS/006/MYD09GA", LookupMOD09GA),
    ("MODIS/006/MOD09Q1", LookupMOD09GQ),
    ("MODIS/006/MYD09Q1", LookupMOD09GQ),
    ("MODIS/006/MOD09A1", LookupMOD09GA),
    ("MODIS/006/MYD09A1", LookupMOD09GA),
    ("MODIS/006/MCD43A4", LookupMCD43A4)]

  /** Looking a key up in a dictionary literal given entry by entry, from
      entry `i` on: the value of the first entry with that key, or `None`
      when no entry has it. */
  function FindFrom<V>(entries: seq<(string, V)>, key: string, i: nat): (r: Option<V>)
    requires i <= |entries|
    ensures r.None? <==> forall j :: i <= j < |entries| ==> entries[j].0 != key
    ensures r.Some? ==> exists j :: i <= j < |entries| && entries[j] == (key, r.value)
    decreases |entries| - i
  {
    if i == |entries| then None
    else if entries[i].0 == key then Some(entries[i].1)
    else FindFrom(entries, key, i + 1)
  }

  /** No entry from `i` up to `j` has key `key`. */
  predicate KeyAbsent<V>(entries: seq<(string, V)>, key: string, i: nat, j: nat)
    requires i <= j <= |entries|
    decreases j - i
  {
    i == j || (entries[i].0 != key && KeyAbsent(entries, key, i + 1, j))
  }

  /** Entries with other keys do not change the lookup. */
  lemma {:induction false} FindSkip<V>(entries: seq<(string, V)>, key: string, i: nat, j: nat)
    requires i <= j <= |entries| && KeyAbsent(entries, key, i, j)
    ensures FindFrom(entries, key, i) == FindFrom(entries, key, j)
    decreases j - i
  {
    if i < j {
      FindSkip(entries, key, i + 1, j);
    }
  }

  /** No two entries of a dictionary literal share a key. */
  predicate DistinctKeys<V>(entries: seq<(string, V)>)
  {
    forall i, j :: 0 <= i < j < |entries| ==> entries[i].0 != entries[j].0
  }

  /** Looking a key up in a dictionary literal given entry by entry. */
  function Find<V>(entries: seq<(string, V)>, key: string): Option<V>
  {
    FindFrom(entries, key, 0)
  }

  /** With distinct keys the lookup finds the one entry that has the key,
      which is also the value a Python dictionary literal keeps. */
  lemma {:induction false} FindDistinct<V>(entries: seq<(string, V)>, key: string, i: nat)
    requires DistinctKeys(entries) && i < |entries| && entries[i].0 == key
    ensures Find(entries, key) == Some(entries[i].1)
  {
    var r := Find(entries, key);
    assert r.Some?;
    var j :| 0 <= j < |entries| && entries[j] == (key, r.value);
    if j < i {
      assert entries[j].0 != entries[i].0;
    } else if i < j {
      assert entries[i].0 != entries[j].0;
    }
  }

  /** Every band of a table, selected from `img`. */
  function SelectAll<I>(img: I, table: map<string, string>): (m: map<string, Value<I>>)
    ensures m.Keys == table.Keys
    ensures forall k :: k in m ==> m[k] == Select(img, table[k])
  {
    map k | k in table :: Select(img, table[k])
  }

  /** `_get_expression_map`. */
  function ExpressionMap<I>(img: I, platformDict: map<string, string>): Result<map<string, Value<I>>, Error>
  {
    if "platform" !in platformDict then Failure(KeyError("platform"))
    else
      match Find(LookupPlatform, platformDict["platform"])
      case None => Failure(UnsupportedPlatform(platformDict["platform"]))
      case Some(l) => Success(SelectAll(img, Bands(l)))
  }

  /** A platform is listed in `lookupPlatform`. */
  predicate Supported(platform: string)
  {
    exists i :: 0 <= i < |LookupPlatform| && LookupPlatform[i].0 == platform
  }

  /** The expression map raises exactly for a dictionary without a platform
      or with a platform that has no table, and otherwise selects every band
      of the table listed for that platform. */
  lemma {:induction false} ExpressionMapSpec<I>(img: I, platformDict: map<string, string>)
    ensures ExpressionMap(img, platformDict).Failure? <==>
      "platform" !in platformDict || !Supported(platformDict["platform"])
    ensures "platform" !in platformDict ==> ExpressionMap(img, platformDict) == Failure(KeyError("platform"))
    ensures ExpressionMap(img, platformDict).Success? ==>
      forall i :: 0 <= i < |LookupPlatform| && LookupPlatform[i].0 == platformDict["platform"] ==>
        ExpressionMap(img, platformDict).value == SelectAll(img, Bands(LookupPlatform[i].1))
  {
    if "platform" in platformDict {
      var platform := platformDict["platform"];
      DistinctPlatforms();
      forall i | 0 <= i < |LookupPlatform| && LookupPlatform[i].0 == platform
        ensures Find(LookupPlatform, platform) == Some(LookupPlatform[i].1)
      {
        FindDistinct(LookupPlatform, platform, i);
      }
    }
  }

  /** The keys of `lookupPlatform`, in order, as a plain sequence. */
  const PlatformKeys: seq<string> := [
    "COPERNICUS/S2", "COPERNICUS/S2_SR",
    "LANDSAT/LC08/C01/T1_SR", "LANDSAT/LC08/C01/T2_SR", "LANDSAT/LC08/C02/T1_L2",
    "LANDSAT/LE07/C01/T1_SR", "LANDSAT/LE07/C01/T2_SR", "LANDSAT/LE07/C02/T1_L2",
    "LANDSAT/LT05/C01/T1_SR", "LANDSAT/LT05/C01/T2_SR", "LANDSAT/LT05/C02/T1_L2",
    "LANDSAT/LT04/C01/T1_SR", "LANDSAT/LT04/C01/T2_SR", "LANDSAT/LT04/C02/T1_L2",
    "MODIS/006/MOD09GQ", "MODIS/006/MYD09GQ", "MODIS/006/MOD09GA", "MODIS/006/MYD09GA",
    "MODIS/006/MOD09Q1", "MODIS/006/MYD09Q1", "MODIS/006/MOD09A1", "MODIS/006/MYD09A1",
    "MODIS/006/MCD43A4"]

  /** `PlatformKeys` lists the keys of `lookupPlatform`. */
  lemma {:induction false} PlatformKeysMatch()
    ensures |PlatformKeys| == |LookupPlatform|
    ensures forall i :: 0 <= i < |LookupPlatform| ==> LookupPlatform[i].0 == PlatformKeys[i]
  {
  }

  /** No platform name is listed twice. */
  lemma {:induction false} PlatformKeysDistinct()
    ensures forall i, j :: 0 <= i < j < |PlatformKeys| ==> PlatformKeys[i] != PlatformKeys[j]
  {
  }

  /** The keys of `lookupPlatform` are distinct. */
  lemma {:induction false} DistinctPlatforms()
    ensures DistinctKeys(LookupPlatform)
  {
    PlatformKeysMatch();
    PlatformKeysDistinct();
  }

  /** A platform whose first entry in `lookupPlatform` is entry `i` gets
      that entry's lookup function. */
  lemma {:induction false} ExpressionMapAt<I>(img: I, platform: string, i: nat, l: BandLookup)
    requires i < |LookupPlatform| && LookupPlatform[i] == (platform, l)
    requires KeyAbsent(LookupPlatform, platform, 0, i)
    ensures ExpressionMap(img, map["platform" := platform]) == Success(SelectAll(img, Bands(l)))
  {
    FindSkip(LookupPlatform, platform, 0, i);
    assert map["platform" := platform]["platform"] == platform;
  }

  /** Both Sentinel-2 collections use `lookupS2`, which reads the near
      infrared from band B8. */
  lemma {:induction false} ExpressionMapSentinel2<I>(img: I)
    ensures ExpressionMap(img, map["platform" := "COPERNICUS/S2"]) == Success(SelectAll(img, Bands(LookupS2)))
    ensures ExpressionMap(img, map["platform" := "COPERNICUS/S2_SR"]) == Success(SelectAll(img, Bands(LookupS2)))
    ensures "N" in Bands(LookupS2) && Bands(LookupS2)["N"] == "B8"
  {
    ExpressionMapAt(img, "COPERNICUS/S2", 0, LookupS2);
    ExpressionMapAt(img, "COPERNICUS/S2_SR", 1, LookupS2);
  }

  /** `lookupMOD09GQ` offers exactly red and near infrared. */
  lemma {:induction false} ModisBandsRedNir()
    ensures Bands(LookupMOD09GQ).Keys == {"R", "N"}
  {
  }

  /** No Landsat entry from the fourth Landsat 7 one on is the MODIS 250 m product. */
  lemma {:induction false} ModisAbsentFromLandsat(key: string)
    requires key == "MODIS/006/MOD09GQ"
    ensures KeyAbsent(LookupPlatform, key, 7, 14)
  {
    assert KeyAbsent(LookupPlatform, key, 13, 14);
    assert KeyAbsent(LookupPlatform, key, 12, 14);
    assert KeyAbsent(LookupPlatform, key, 11, 14);
    assert KeyAbsent(LookupPlatform, key, 10, 14);
    assert KeyAbsent(LookupPlatform, key, 9, 14);
    assert KeyAbsent(LookupPlatform, key, 8, 14);
  }

  /** No entry before the first MODIS one is the MODIS 250 m product. */
  lemma {:induction false} ModisAbsentBefore(key: string)
    requires key == "MODIS/006/MOD09GQ" && KeyAbsent(LookupPlatform, key, 7, 14)
    ensures KeyAbsent(LookupPlatform, key, 0, 14)
  {
    assert KeyAbsent(LookupPlatform, key, 6, 14);
    assert KeyAbsent(LookupPlatform, key, 5, 14);
    assert KeyAbsent(LookupPlatform, key, 4, 14);
    assert KeyAbsent(LookupPlatform, key, 3, 14);
    assert KeyAbsent(LookupPlatform, key, 2, 14);
    assert KeyAbsent(LookupPlatform, key, 1, 14);
  }

  /** The MODIS 250 m product uses `lookupMOD09GQ`. */
  lemma {:induction false} ExpressionMapModis<I>(img: I)
    ensures ExpressionMap(img, map["platform" := "MODIS/006/MOD09GQ"]) == Success(SelectAll(img, Bands(LookupMOD09GQ)))
  {
    var key := "MODIS/006/MOD09GQ";
    ModisAbsentFromLandsat(key);
    ModisAbsentBefore(key);
    ExpressionMapAt(img, key, 14, LookupMOD09GQ);
  }

  /** A top-of-atmosphere Landsat collection has no band table. */
  lemma {:induction false} ExpressionMapUnsupported<I>(img: I)
    ensures ExpressionMap(img, map["platform" := "LANDSAT/LC08/C01/T1_TOA"])
         == Failure(UnsupportedPlatform("LANDSAT/LC08/C01/T1_TOA"))
  {
    var key := "LANDSAT/LC08/C01/T1_TOA";
    assert KeyAbsent(LookupPlatform, key, 22, 23);
    assert KeyAbsent(LookupPlatform, key, 21, 23);
    assert KeyAbsent(LookupPlatform, key, 20, 23);
    assert KeyAbsent(LookupPlatform, key, 19, 23);
    assert KeyAbsent(LookupPlatform, key, 18, 23);
    assert KeyAbsent(LookupPlatform, key, 17, 23);
    assert KeyAbsent(LookupPlatform, key, 16, 23);
    assert KeyAbsent(LookupPlatform, key, 15, 23);
    assert KeyAbsent(LookupPlatform, key, 14, 23);
    assert KeyAbsent(LookupPlatform, key, 13, 23);
    assert KeyAbsent(LookupPlatform, key, 12, 23);
    assert KeyAbsent(LookupPlatform, key, 11, 23);
    assert KeyAbsent(LookupPlatform, key, 10, 23);
    assert KeyAbsent(LookupPlatform, key, 9, 23);
    assert KeyAbsent(LookupPlatform, key, 8, 23);
    assert KeyAbsent(LookupPlatform, key, 7, 23);
    assert KeyAbsent(LookupPlatform, key, 6, 23);
    assert KeyAbsent(LookupPlatform, key, 5, 23);
    assert KeyAbsent(LookupPlatform, key, 4, 23);
    assert KeyAbsent(LookupPlatform, key, 3, 23);
    assert KeyAbsent(LookupPlatform, key, 2, 23);
    assert KeyAbsent(LookupPlatform, key, 1, 23);
    assert KeyAbsent(LookupPlatform, key, 0, 23);
    FindSkip(LookupPlatform, key, 0, 23);
  }

  /** A band table with red and near infrared and without `"L"`. */
  predicate RedNirNoL(table: map<string, string>)
  {
    "R" in table && "N" in table && "L" !in table
  }

  /** The Sentinel-2 and Landsat band tables. */
  lemma {:induction false} SentinelLandsatTablesRedNir()
    ensures RedNirNoL(S2Bands) && RedNirNoL(L8Bands) && RedNirNoL(L8C2Bands)
    ensures RedNirNoL(L457Bands) && RedNirNoL(L457C2Bands)
  {
  }

  /** The MODIS band tables. */
  lemma {:induction false} ModisTablesRedNir()
    ensures RedNirNoL(MOD09GQBands) && RedNirNoL(MOD09GABands) && RedNirNoL(MCD43A4Bands)
  {
  }

  /** Each of the eight band tables offers red and near infrared, and none offers `"L"`. */
  lemma {:induction false} EachBandTableHasRedNir()
    ensures forall l :: RedNirNoL(Bands(l))
  {
    SentinelLandsatTablesRedNir();
    ModisTablesRedNir();
    forall l ensures RedNirNoL(Bands(l)) {
      match l
      case LookupS2 =>
      case LookupL8 =>
      case LookupL8C2 =>
      case LookupL457 =>
      case LookupL457C2 =>
      case LookupMOD09GQ =>
      case LookupMOD09GA =>
      case LookupMCD43A4 =>
    }
  }

  /** Every platform's band table offers red and near infrared and none
      offers `"L"`; so does every expression map. */
  lemma {:induction false} BandTablesCoverRedAndNir<I>(img: I, platformDict: map<string, string>)
    ensures forall i :: 0 <= i < |LookupPlatform| ==> RedNirNoL(Bands(LookupPlatform[i].1))
    ensures ExpressionMap(img, platformDict).Success? ==>
      var m := ExpressionMap(img, platformDict).value;
      "R" in m && "N" in m && "L" !in m
  {
    EachBandTableHasRedNir();
  }

  // ---------------------------------------------------------------------------
  // _get_kernel_image and _get_kernel_parameters

  /** The `sigma` argument: a band expression or a number. */
  datatype Sigma = SigmaExpression(formula: string) | SigmaNumber(value: real)

  /** The `kernels` table: the formula of each supported kernel. */
  const Kernels: map<string, string> := map[
    "linear" := "a * b",
    "RBF" := "exp((-1.0 * (a - b) ** 2.0)/(2.0 * sigma ** 2.0))",
    "poly" := "((a * b) + c) ** p"]

  /** `_get_kernel_image`: `Success(None)` for the source's `None`, and the
      `KeyError` of an unknown kernel. */
  function KernelImage<I>(img: I, lookup: map<string, Value<I>>, kernel: string, sigma: Sigma, a: string, b: string)
    : Result<Option<Value<I>>, Error>
  {
    if a !in lookup || b !in lookup then Success(None)
    else
      var lookupab := map["a" := lookup[a], "b" := lookup[b]];
      var sigmaValue := match sigma
        case SigmaExpression(f) => Expression(img, f, lookupab)
        case SigmaNumber(v) => Number(v);
      var vars := lookup + lookupab + map["sigma" := sigmaValue];
      if kernel !in Kernels then Failure(KeyError(kernel))
      else Success(Some(Expression(img, Kernels[kernel], vars)))
  }

  /** The kernel image is `None` exactly when one of its bands is missing; with
      both present it raises exactly for an unknown kernel. */
  lemma {:induction false} KernelImageSpec<I>(img: I, lookup: map<string, Value<I>>, kernel: string, sigma: Sigma, a: string, b: string)
    ensures var r := KernelImage(img, lookup, kernel, sigma, a, b);
      && (r == Success(None) <==> a !in lookup || b !in lookup)
      && (r.Failure? <==> a in lookup && b in lookup && kernel !in Kernels)
      && (r.Failure? ==> r.error == KeyError(kernel))
  {
  }

  /** The entries of `kernelParameters`, in order: the key and its two bands. */
  const KernelPairs: seq<(string, string, string)> := [
    ("kNN", "N", "N"), ("kNR", "N", "R"), ("kNB", "N", "B"), ("kNL", "N", "L"),
    ("kGG", "G", "G"), ("kGR", "G", "R"), ("kGB", "G", "B"),
    ("kBB", "B", "B"), ("kBR", "B", "R"), ("kBL", "B", "L"),
    ("kRR", "R", "R"), ("kRB", "R", "B"), ("kRL", "R", "L"),
    ("kLL", "L", "L")]

  /** A dictionary literal whose entries are kernel images, built entry by
      entry; the first entry that raises makes the whole literal raise. */
  function KernelDict<I>(img: I, lookup: map<string, Value<I>>, kernel: string, sigma: Sigma,
                         pairs: seq<(string, string, string)>)
    : Result<map<string, Option<Value<I>>>, Error>
    decreases |pairs|
  {
    if pairs == [] then Success(map[])
    else
      match KernelDict(img, lookup, kernel, sigma, pairs[..|pairs| - 1])
      case Failure(e) => Failure(e)
      case Success(m) =>
        var (key, a, b) := pairs[|pairs| - 1];
        match KernelImage(img, lookup, kernel, sigma, a, b)
        case Failure(e) => Failure(e)
        case Success(v) => Success(m[key := v])
  }

  /** `_get_kernel_parameters`. */
  function KernelParameters<I>(img: I, lookup: map<string, Value<I>>, kernel: string, sigma: Sigma)
    : Result<map<string, Option<Value<I>>>, Error>
  {
    KernelDict(img, lookup, kernel, sigma, KernelPairs)
  }

  /** Some entry has both of its bands in `lookup`. */
  predicate SomePairPresent<I>(lookup: map<string, Value<I>>, pairs: seq<(string, string, string)>)
  {
    exists i :: 0 <= i < |pairs| && pairs[i].1 in lookup && pairs[i].2 in lookup
  }

  /** The dictionary raises exactly when the kernel is unknown and some entry
      has both of its bands, and then with `KeyError(kernel)`. */
  lemma {:induction false} KernelDictSpec<I>(img: I, lookup: map<string, Value<I>>, kernel: string, sigma: Sigma,
                                            pairs: seq<(string, string, string)>)
    ensures var r := KernelDict(img, lookup, kernel, sigma, pairs);
      && (r.Failure? <==> kernel !in Kernels && SomePairPresent(lookup, pairs))
      && (r.Failure? ==> r.error == KeyError(kernel))
    decreases |pairs|
  {
    if pairs != [] {
      var init := pairs[..|pairs| - 1];
      KernelDictSpec(img, lookup, kernel, sigma, init);
      var (key, a, b) := pairs[|pairs| - 1];
      KernelImageSpec(img, lookup, kernel, sigma, a, b);
      if SomePairPresent(lookup, init) {
        var i :| 0 <= i < |init| && init[i].1 in lookup && init[i].2 in lookup;
        assert pairs[i] == init[i];
      }
      if SomePairPresent(lookup, pairs) && !SomePairPresent(lookup, init) {
        var i :| 0 <= i < |pairs| && pairs[i].1 in lookup && pairs[i].2 in lookup;
        assert i == |init|;
      }
    }
  }

  /** When the dictionary is built its keys are the entries' keys. */
  lemma {:induction false} KernelDictKeys<I>(img: I, lookup: map<string, Value<I>>, kernel: string, sigma: Sigma,
                                            pairs: seq<(string, string, string)>)
    ensures var r := KernelDict(img, lookup, kernel, sigma, pairs);
      r.Success? ==> r.value.Keys == (set i | 0 <= i < |pairs| :: pairs[i].0)
    decreases |pairs|
  {
    if pairs != [] {
      var init := pairs[..|pairs| - 1];
      KernelDictKeys(img, lookup, kernel, sigma, init);
      var key := pairs[|pairs| - 1].0;
      if KernelDict(img, lookup, kernel, sigma, pairs).Success? {
        assert forall i :: 0 <= i < |init| ==> init[i] == pairs[i];
        assert (set i | 0 <= i < |pairs| :: pairs[i].0)
            == (set i | 0 <= i < |init| :: init[i].0) + {key};
      }
    }
  }

  /** The last entry with a given key wins. */
  lemma {:induction false} KernelDictEntry<I>(img: I, lookup: map<string, Value<I>>, kernel: string, sigma: Sigma,
                                             pairs: seq<(string, string, string)>, j: nat)
    requires j < |pairs|
    requires forall i :: j < i < |pairs| ==> pairs[i].0 != pairs[j].0
    requires KernelDict(img, lookup, kernel, sigma, pairs).Success?
    ensures pairs[j].0 in KernelDict(img, lookup, kernel, sigma, pairs).value
    ensures Success(KernelDict(img, lookup, kernel, sigma, pairs).value[pairs[j].0])
         == KernelImage(img, lookup, kernel, sigma, pairs[j].1, pairs[j].2)
    decreases |pairs|
  {
    var init := pairs[..|pairs| - 1];
    if j < |pairs| - 1 {
      assert forall i :: j < i < |init| ==> init[i] == pairs[i];
      KernelDictEntry(img, lookup, kernel, sigma, init, j);
    }
  }

  /** Every kernel parameter built on the band `"L"` is `None` when `lookup`
      has no `"L"`, which holds for every expression map. */
  lemma {:induction false} KernelParametersWithoutL<I>(img: I, lookup: map<string, Value<I>>, kernel: string, sigma: Sigma)
    requires "L" !in lookup
    requires KernelParameters(img, lookup, kernel, sigma).Success?
    ensures var m := KernelParameters(img, lookup, kernel, sigma).value;
      && "kNL" in m && "kBL" in m && "kRL" in m && "kLL" in m
      && m["kNL"] == None && m["kBL"] == None && m["kRL"] == None && m["kLL"] == None
  {
    var ps := KernelPairs;
    assert ps[3] == ("kNL", "N", "L") && ps[9] == ("kBL", "B", "L");
    assert ps[12] == ("kRL", "R", "L") && ps[13] == ("kLL", "L", "L");
    KernelDictEntry(img, lookup, kernel, sigma, ps, 3);
    KernelDictEntry(img, lookup, kernel, sigma, ps, 9);
    KernelDictEntry(img, lookup, kernel, sigma, ps, 12);
    KernelDictEntry(img, lookup, kernel, sigma, ps, 13);
  }

  // ---------------------------------------------------------------------------
  // _remove_none_dict

  /** The entries of `d` whose value is not `None`. */
  function WithoutNone<K, V>(d: map<K, Option<V>>): (r: map<K, Option<V>>)
    ensures forall k :: k in r ==> r[k].Some?
  {
    map k | k in d && d[k].Some? :: d[k]
  }

  /** `_remove_none_dict`: a copy of the dictionary from which each key with
      a `None` value is deleted, visiting the keys in any order. The argument
      is a value and so stays as it was. */
  method RemoveNoneDict<K, V>(dictionary: map<K, Option<V>>) returns (newDictionary: map<K, Option<V>>)
    ensures newDictionary == WithoutNone(dictionary)
  {
    newDictionary := dictionary;
    var keys := dictionary.Keys;
    while keys != {}
      invariant keys <= dictionary.Keys
      invariant newDictionary == map k | k in dictionary && (k in keys || dictionary[k].Some?) :: dictionary[k]
      decreases |keys|
    {
      var key :| key in keys;
      if dictionary[key].None? {
        newDictionary := newDictionary - {key};
      }
      keys := keys - {key};
    }
  }

  /** Removing `None` values keeps exactly the keys with a value, each with
      its original value, and adds no key. */
  lemma {:induction false} WithoutNoneSpec<K, V>(d: map<K, Option<V>>)
    ensures forall k :: k in WithoutNone(d) <==> k in d && d[k] != None
    ensures forall k :: k in WithoutNone(d) ==> WithoutNone(d)[k] == d[k]
    ensures None !in WithoutNone(d).Values
  {
  }

  /** Removing `None` values twice is the same as once. */
  lemma {:induction false} WithoutNoneIdempotent<K, V>(d: map<K, Option<V>>)
    ensures WithoutNone(WithoutNone(d)) == WithoutNone(d)
  {
  }

  /** The result is the largest part of the argument without `None` values:
      any such part of `d` is part of it. */
  lemma {:induction false} WithoutNoneLargest<K, V>(d: map<K, Option<V>>, m: map<K, Option<V>>)
    requires forall k :: k in m ==> k in d && m[k] == d[k] && m[k].Some?
    ensures forall k :: k in m ==> k in WithoutNone(d) && WithoutNone(d)[k] == m[k]
  {
  }

  // ---------------------------------------------------------------------------
  // _get_tc_coefficients

  /** A tasseled-cap table: band names and, band by band, the brightness,
      greenness and wetness coefficients in ten-thousandths. */
  datatype TcTable = TcTable(bands: seq<string>, tcb: seq<int>, tcg: seq<int>, tcw: seq<int>)

  const Sentinel2_1C := TcTable(
    ["B1", "B2", "B3", "B4", "B5", "B6", "B7", "B8", "B8A", "B9", "B10", "B11", "B12"],
    [2381, 2569, 2934, 3020, 3099, 3740, 4180, 3580, 3834, 103, 20, 896, 780],
    [-2266, -2818, -3020, -4283, -2959, 1602, 3127, 3138, 4261, 1454, -17, -1341, -2538],
    [1825, 1763, 1615, 486, 170, 223, 219, -755, -910, -1369, 3, -7701, -5293])

  const Landsat8Toa := TcTable(
    ["B2", "B3", "B4", "B5", "B6", "B7"],
    [3029, 2786, 4733, 5599, 5080, 1872],
    [-2941, -2430, -5424, 7276, 713, -1608],
    [1511, 1973, 3283, 3407, -7117, -4559])

  const Landsat7Toa := TcTable(
    ["B1", "B2", "B3", "B4", "B5", "B7"],
    [3561, 3972, 3904, 6966, 2286, 1596],
    [-3344, -3544, -4556, 6966, -242, -2630],
    [2626, 2141, 926, 656, -7629, -5388])

  const Landsat4Dn := TcTable(
    ["B1", "B2", "B3", "B4", "B5", "B7"],
    [3037, 2793, 4743, 5585, 5082, 1863],
    [-2848, -2435, -5435, 7243, 840, -1800],
    [1509, 1973, 3279, 3406, -7112, -4572])

  const Landsat4Sr := TcTable(
    ["SR_B1", "SR_B2", "SR_B3", "SR_B4", "SR_B5", "SR_B7"],
    [2043, 4158, 5524, 5741, 3124, 2303],
    [-1603, -2819, -4934, 7940, -2, -1446],
    [315, 2021, 3102, 1594, -6806, -6109])

  const Landsat5Dn := TcTable(
    ["B1", "B2", "B3", "B4", "B5", "B7"],
    [2909, 2493, 4806, 5568, 4438, 1706],
    [-2728, -2174, -5508, 7221, 733, -1648],
    [1446, 1761, 3322, 3396, -6210, -4186])

  const ModisNbar := TcTable(
    ["Nadir_Reflectance_Band1", "Nadir_Reflectance_Band2", "Nadir_Reflectance_Band3",
     "Nadir_Reflectance_Band4", "Nadir_Reflectance_Band5", "Nadir_Reflectance_Band6",
     "Nadir_Reflectance_Band7"],
    [4395, 5945, 2460, 3918, 3506, 2136, 2678],
    [-4064, 5129, -2744, -2893, 4882, -36, -4169],
    [1147, 2489, 2408, 3132, -3122, -6416, -5087])

  /** `platformCoeffs`, entry by entry in the order of the dictionary literal. */
  const PlatformCoeffs: seq<(string, TcTable)> := [
    ("COPERNICUS/S2", Sentinel2_1C),
    ("MODIS/006/MCD43A4", ModisNbar),
    ("LANDSAT/LC08/C01/T1_TOA", Landsat8Toa),
    ("LANDSAT/LC08/C01/T1_RT_TOA", Landsat8Toa),
    ("LANDSAT/LC08/C01/T2_TOA", Landsat8Toa),
    ("LANDSAT/LE07/C01/T1_TOA", Landsat7Toa),
    ("LANDSAT/LE07/C01/T1_RT_TOA", Landsat7Toa),
    ("LANDSAT/LE07/C01/T2_TOA", Landsat7Toa),
    ("LANDSAT/LT05/C01/T1", Landsat5Dn),
    ("LANDSAT/LT05/C01/T2", Landsat5Dn),
    ("LANDSAT/LT04/C02/T1_L2", Landsat4Sr),
    ("LANDSAT/LT04/C02/T2_L2", Landsat4Sr),
    ("LANDSAT/LT04/C01/T1", Landsat4Dn),
    ("LANDSAT/LT04/C01/T2", Landsat4Dn)]

  /** `_get_tc_coefficients`. */
  function TcCoefficients(platformDict: map<string, string>): Result<TcTable, Error>
  {
    if "platform" !in platformDict then Failure(KeyError("platform"))
    else
      match Find(PlatformCoeffs, platformDict["platform"])
      case None => Failure(UnsupportedPlatform(platformDict["platform"]))
      case Some(t) => Success(t)
  }

  /** The bands of a table each have one coefficient of each kind. */
  predicate Aligned(t: TcTable)
  {
    |t.tcb| == |t.bands| && |t.tcg| == |t.bands| && |t.tcw| == |t.bands|
  }

  /** Each of the seven coefficient tables is aligned. */
  lemma {:induction false} EachTcTableAligned()
    ensures Aligned(Sentinel2_1C) && |Sentinel2_1C.bands| == 13
    ensures Aligned(Landsat8Toa) && Aligned(Landsat7Toa) && Aligned(Landsat4Dn)
    ensures Aligned(Landsat4Sr) && Aligned(Landsat5Dn) && Aligned(ModisNbar)
  {
  }

  /** The keys of `platformCoeffs` are distinct. */
  lemma {:induction false} DistinctCoeffPlatforms()
    ensures DistinctKeys(PlatformCoeffs)
  {
  }

  /** The coefficients raise exactly for a dictionary without a platform or
      with a platform that has no table, and otherwise return the table
      listed for that platform, whose bands and coefficients line up. */
  lemma {:induction false} TcCoefficientsSpec(platformDict: map<string, string>)
    ensures TcCoefficients(platformDict).Failure? <==>
      "platform" !in platformDict
      || forall i :: 0 <= i < |PlatformCoeffs| ==> PlatformCoeffs[i].0 != platformDict["platform"]
    ensures TcCoefficients(platformDict).Success? ==>
      && Aligned(TcCoefficients(platformDict).value)
      && forall i :: 0 <= i < |PlatformCoeffs| && PlatformCoeffs[i].0 == platformDict["platform"] ==>
           TcCoefficients(platformDict).value == PlatformCoeffs[i].1
  {
    EachTcTableAligned();
    if "platform" in platformDict {
      var platform := platformDict["platform"];
      DistinctCoeffPlatforms();
      forall i | 0 <= i < |PlatformCoeffs| && PlatformCoeffs[i].0 == platform
        ensures Find(PlatformCoeffs, platform) == Some(PlatformCoeffs[i].1)
      {
        FindDistinct(PlatformCoeffs, platform, i);
      }
    }
  }

  /** Matching is strict: the Sentinel-2 level-1C table serves `COPERNICUS/S2`
      but not the surface-reflectance collection, and no surface-reflectance
      Landsat 8 collection has coefficients although it has a band table. */
  lemma {:induction false} TcCoefficientsExamples()
    ensures TcCoefficients(map["platform" := "COPERNICUS/S2"]) == Success(Sentinel2_1C)
    ensures TcCoefficients(map["platform" := "COPERNICUS/S2_SR"]).Failure?
    ensures TcCoefficients(map["platform" := "LANDSAT/LC08/C01/T1_SR"]).Failure?
  {
  }
}
