/**
 * The inD data loader (InD.py): the dataset wrapper, the lazily filled
 * cache of observation sites, and `_load_observation_site`, which chains the
 * parser, the normalisation, the train/test split and the mask.
 *
 * Randomness (the sample permutation and the per-sample mask permutations)
 * enters as parameters; file reading, the background image path, the pixel
 * scale and the `DataLoader` batching are not modelled.
 */
module InD {
  import opened Wrappers
  import Normalization
  import Windowing
  import Split
  import Masking

  /** `InDDataset`: positions and features with the same number of samples. */
  datatype Dataset<T> = Dataset(input: seq<T>, feature: seq<T>)
  {
    /** The invariant the constructor's assert establishes. */
    predicate Valid() { |input| == |feature| }

    /** `__len__`: the input's size. */
    function Len(): nat { |input| }
  }

  datatype DatasetError = SizeMismatch

  /** `InDDataset(input, feature)`: rejected when the leading sizes differ. */
  function NewDataset<T>(input: seq<T>, feature: seq<T>): (r: Result<Dataset<T>, DatasetError>)
    ensures r.Success? <==> |input| == |feature|
    ensures r.Success? ==> r.value.Valid() && r.value.input == input && r.value.feature == feature
    ensures r.Success? ==> r.value.Len() == |input|
  {
    if |input| != |feature| then Failure(SizeMismatch) else Success(Dataset(input, feature))
  }

  /**
   * `__getitem__(index)`: the pair at that index, where -n .. -1 count from
   * the end as tensor indexing does, and anything else is an IndexError.
   */
  function GetItem<T>(ds: Dataset<T>, index: int): (r: Option<(T, T)>)
    requires ds.Valid()
    ensures r.Some? <==> 0 <= ds.Len() + index && index < ds.Len()
    ensures 0 <= index < ds.Len() ==> r == Some((ds.input[index], ds.feature[index]))
    ensures index < 0 <= ds.Len() + index ==> r == Some((ds.input[ds.Len() + index], ds.feature[ds.Len() + index]))
  {
    var n: int := ds.Len();
    if 0 <= index < n then Some((ds.input[index], ds.feature[index]))
    else if -n <= index < 0 then Some((ds.input[n + index], ds.feature[n + index]))
    else None
  }

  /** Every item of the dataset, in index order, as iteration yields them. */
  function Items<T>(ds: Dataset<T>): (r: seq<(T, T)>)
    requires ds.Valid()
    ensures |r| == ds.Len()
  {
    seq(ds.Len(), i requires 0 <= i < ds.Len() => GetItem(ds, i).value)
  }

  /** Indexing from the end reaches the same items as indexing from the front. */
  lemma NegativeIndexAlias<T>(ds: Dataset<T>, i: nat)
    requires ds.Valid() && i < ds.Len()
    ensures GetItem(ds, i - ds.Len()) == GetItem(ds, i)
  {
  }

  /** Iterating over a dataset gives back exactly the arrays it was built from. */
  lemma ItemsUnzip<T>(input: seq<T>, feature: seq<T>)
    requires |input| == |feature|
    ensures var ds := NewDataset(input, feature).value;
            && (seq(ds.Len(), i requires 0 <= i < ds.Len() => Items(ds)[i].0)) == input
            && (seq(ds.Len(), i requires 0 <= i < ds.Len() => Items(ds)[i].1)) == feature
  {
  }

  /** What `_load_observation_site` returns, without the image path, pixel scale and loaders. */
  datatype Site = Site(boundaries: Normalization.Boundaries,
                       train: Dataset<Masking.Sample>,
                       test: Dataset<Masking.Sample>)

  datatype LoadError =
    | ParseFailed(parse: Windowing.ParseError)
    | NormalizeFailed(norm: Normalization.NormError)
    | MaskFailed(mask: Masking.MaskError)
    | DatasetFailed(dataset: DatasetError)
    | EmptyLoader   // `DataLoader(..., shuffle=True)` on an empty dataset: its random sampler raises ValueError

  /** `normalize` applied to an (N, T, C) array: every window's points. */
  function NormalizeAll(data: seq<seq<seq<real>>>, bounds: Normalization.Boundaries): (r: Result<seq<seq<seq<real>>>, Normalization.NormError>)
    ensures r.Success? ==> |r.value| == |data|
    ensures r.Success? ==> forall n :: 0 <= n < |data| ==> Normalization.Normalize(data[n], bounds) == Success(r.value[n])
  {
    if |data| == 0 then Success([])
    else
      match Normalization.Normalize(data[0], bounds)
      case Failure(e) => Failure(e)
      case Success(first) =>
        match NormalizeAll(data[1..], bounds)
        case Failure(e) => Failure(e)
        case Success(rest) =>
          assert forall n :: 1 <= n < |data| ==> data[n] == data[1..][n - 1];
          Success([first] + rest)
  }

  /** `normalize` succeeds on every window whose points all have one value per boundary. */
  lemma {:induction false} NormalizeAllSucceeds(data: seq<seq<seq<real>>>, bounds: Normalization.Boundaries)
    requires Normalization.NonDegenerate(bounds)
    requires forall n, t :: 0 <= n < |data| && 0 <= t < |data[n]| ==> |data[n][t]| == |bounds|
    ensures NormalizeAll(data, bounds).Success?
  {
    if |data| > 0 {
      Normalization.NormalizeSucceeds(data[0], bounds);
      assert forall n, t :: 0 <= n < |data| - 1 && 0 <= t < |data[1..][n]| ==> |data[1..][n][t]| == |bounds| by {
        assert forall n :: 0 <= n < |data| - 1 ==> data[1..][n] == data[n + 1];
      }
      NormalizeAllSucceeds(data[1..], bounds);
    }
  }

  /**
   * The random draws `_load_observation_site` consumes. `_mask` builds a
   * fresh, unseeded `torch.Generator` on each call, and a fresh generator
   * starts from the same default seed, so the training and the test call
   * draw the same sequence of `randperm(100)`s: `mask(i)` is the mask
   * permutation of sample i in both.
   */
  datatype Draws = Draws(
    permutation: nat -> seq<int>,   // np.random.permutation(n)
    mask: nat -> seq<int>)          // the i-th torch.randperm(100) of a fresh generator
  {
    /** The draws are what the generators promise: permutations. */
    ghost predicate Valid() {
      && (forall n :: Split.IsPermutation(permutation(n), n))
      && (forall i :: Masking.IsStepPermutation(mask(i)))
    }
  }

  /** The mask permutations of samples 0 .. n-1. */
  function MaskDraws(draw: nat -> seq<int>, n: nat): (r: seq<seq<int>>)
    ensures |r| == n && forall i :: 0 <= i < n ==> r[i] == draw(i)
  {
    seq(n, i requires 0 <= i < n => draw(i))
  }

  /**
   * Dataset ds holds, at position k, window idx[k] of both arrays, masked at
   * the steps drawn for sample k.
   */
  predicate HoldsWindows(ds: Dataset<Masking.Sample>, input: seq<seq<seq<real>>>, features: seq<seq<seq<real>>>,
                         idx: seq<int>, draw: nat -> seq<int>, missingRate: real)
  {
    && |input| == |features|
    && ds.Valid() && ds.Len() == |idx|
    && forall k :: 0 <= k < |idx| ==>
         && 0 <= idx[k] < |input|
         && Masking.MaskedAt(Masking.FromReals(input[idx[k]]), ds.input[k], Masking.MaskIndices(draw(k), missingRate))
         && Masking.MaskedAt(Masking.FromReals(features[idx[k]]), ds.feature[k], Masking.MaskIndices(draw(k), missingRate))
  }

  /** One half of the split, gathered, masked and wrapped as a dataset. */
  function BuildPart(input: seq<seq<seq<real>>>, features: seq<seq<seq<real>>>, idx: seq<int>,
                     draw: nat -> seq<int>, missingRate: real): (r: Result<Dataset<Masking.Sample>, LoadError>)
    requires |input| == |features|
    requires forall k :: 0 <= k < |idx| ==> 0 <= idx[k] < |input|
    ensures r.Success? ==> HoldsWindows(r.value, input, features, idx, draw, missingRate)
  {
    var inputPart := Masking.ToSamples(Split.Gather(input, idx));
    var featurePart := Masking.ToSamples(Split.Gather(features, idx));
    var draws := MaskDraws(draw, |idx|);
    match Masking.MaskAll(inputPart, featurePart, draws, missingRate)
    case Failure(e) => Failure(MaskFailed(e))
    case Success((maskedInput, maskedFeatures)) =>
      match NewDataset(maskedInput, maskedFeatures)
      case Failure(e) => Failure(DatasetFailed(e))
      case Success(ds) =>
        assert forall k :: 0 <= k < |idx| ==>
                 inputPart[k] == Masking.FromReals(input[idx[k]]) && featurePart[k] == Masking.FromReals(features[idx[k]])
                 && draws[k] == draw(k);
        Success(ds)
  }

  /**
   * `DataLoader(dataset=ds, batch_size=..., shuffle=True)`: the shuffling
   * sampler rejects a dataset with no samples; otherwise the loader serves
   * exactly the dataset's samples.
   */
  function ShuffledLoader<T>(ds: Dataset<T>): (r: Result<Dataset<T>, LoadError>)
    ensures r.Success? <==> ds.Len() > 0
    ensures r.Success? ==> r.value == ds
  {
    if ds.Len() == 0 then Failure(EmptyLoader) else Success(ds)
  }

  /** Every window holds 200 time steps, in both arrays. */
  predicate WindowShaped(input: seq<seq<seq<real>>>, features: seq<seq<seq<real>>>) {
    && |input| == |features|
    && forall n :: 0 <= n < |input| ==> |input[n]| == Windowing.MovingWindow && |features[n]| == Windowing.MovingWindow
  }

  /**
   * The split of the normalised windows into a training and a test dataset,
   * each masked; both halves consume the same mask stream. Each dataset is
   * then wrapped in a shuffling loader, so an empty part is an error.
   */
  function SplitSite(input: seq<seq<seq<real>>>, features: seq<seq<seq<real>>>, trainRatio: real,
                     missingRate: real, draws: Draws): (r: Result<Site, LoadError>)
    requires |input| == |features| && draws.Valid()
    ensures r.Success? ==> r.value.boundaries == Normalization.SpatialBoundaries
    ensures r.Success? ==> r.value.train.Len() > 0 && r.value.test.Len() > 0
    ensures r.Success? ==>
              var (trainIdx, testIdx) := Split.TrainTestSplit(draws.permutation(|input|), trainRatio);
              && HoldsWindows(r.value.train, input, features, trainIdx, draws.mask, missingRate)
              && HoldsWindows(r.value.test, input, features, testIdx, draws.mask, missingRate)
  {
    var perm := draws.permutation(|input|);
    var (trainIdx, testIdx) := Split.TrainTestSplit(perm, trainRatio);
    Split.SplitInRange(perm, |input|, trainRatio);
    match BuildPart(input, features, trainIdx, draws.mask, missingRate)
    case Failure(e) => Failure(e)
    case Success(train) =>
      match BuildPart(input, features, testIdx, draws.mask, missingRate)
      case Failure(e) => Failure(e)
      case Success(test) =>
        match ShuffledLoader(train)
        case Failure(e) => Failure(e)
        case Success(trainLoader) =>
          match ShuffledLoader(test)
          case Failure(e) => Failure(e)
          case Success(testLoader) => Success(Site(Normalization.SpatialBoundaries, trainLoader, testLoader))
  }

  /** The parsed windows, normalised with the loader's boundaries. */
  function NormalizedParse(meta: seq<Windowing.TrackMeta>, rows: seq<Windowing.TrackRow>)
    : (r: Result<(seq<seq<seq<real>>>, seq<seq<seq<real>>>), LoadError>)
    ensures r.Success? ==> Windowing.Parse(meta, rows).Success? && |r.value.0| == |r.value.1|
    ensures r.Success? ==>
              var (rawInput, rawFeatures) := Windowing.Parse(meta, rows).value;
              && NormalizeAll(rawInput, Normalization.SpatialBoundaries) == Success(r.value.0)
              && NormalizeAll(rawFeatures, Normalization.FeatureBoundaries) == Success(r.value.1)
  {
    match Windowing.Parse(meta, rows)
    case Failure(e) => Failure(ParseFailed(e))
    case Success((rawInput, rawFeatures)) =>
      match NormalizeAll(rawInput, Normalization.SpatialBoundaries)
      case Failure(e) => Failure(NormalizeFailed(e))
      case Success(input) =>
        match NormalizeAll(rawFeatures, Normalization.FeatureBoundaries)
        case Failure(e) => Failure(NormalizeFailed(e))
        case Success(features) => Success((input, features))
  }

  /**
   * `_load_observation_site` on the site's tables, with the given random
   * draws: the training dataset holds the normalised windows the
   * permutation's first part names, the test dataset those its second part
   * names, each masked.
   */
  function LoadSite(meta: seq<Windowing.TrackMeta>, rows: seq<Windowing.TrackRow>, trainRatio: real,
                    missingRate: real, draws: Draws): (r: Result<Site, LoadError>)
    requires draws.Valid()
    ensures r.Success? ==> r.value.boundaries == Normalization.SpatialBoundaries
    ensures r.Success? ==>
              && NormalizedParse(meta, rows).Success?
              && var (input, features) := NormalizedParse(meta, rows).value;
                 var (trainIdx, testIdx) := Split.TrainTestSplit(draws.permutation(|input|), trainRatio);
                 && HoldsWindows(r.value.train, input, features, trainIdx, draws.mask, missingRate)
                 && HoldsWindows(r.value.test, input, features, testIdx, draws.mask, missingRate)
  {
    match NormalizedParse(meta, rows)
    case Failure(e) => Failure(e)
    case Success((input, features)) => SplitSite(input, features, trainRatio, missingRate, draws)
  }

  /** Gathered windows keep the window shape. */
  lemma GatherShape(data: seq<seq<seq<real>>>, idx: seq<int>, len: nat)
    requires forall k :: 0 <= k < |idx| ==> 0 <= idx[k] < |data|
    requires forall n :: 0 <= n < |data| ==> |data[n]| == len
    ensures forall k :: 0 <= k < |idx| ==> |Masking.ToSamples(Split.Gather(data, idx))[k]| == len
  {
  }

  /** A part built from 200-step windows always passes the mask. */
  lemma BuildPartSucceeds(input: seq<seq<seq<real>>>, features: seq<seq<seq<real>>>, idx: seq<int>,
                          draw: nat -> seq<int>, missingRate: real)
    requires WindowShaped(input, features)
    requires forall k :: 0 <= k < |idx| ==> 0 <= idx[k] < |input|
    requires forall i :: Masking.IsStepPermutation(draw(i))
    ensures BuildPart(input, features, idx, draw, missingRate).Success?
  {
    GatherShape(input, idx, Windowing.MovingWindow);
    GatherShape(features, idx, Windowing.MovingWindow);
    var inputPart := Masking.ToSamples(Split.Gather(input, idx));
    var featurePart := Masking.ToSamples(Split.Gather(features, idx));
    Masking.MaskAllOnWindows(inputPart, featurePart, MaskDraws(draw, |idx|), missingRate);
  }

  /**
   * Splitting 200-step windows succeeds exactly when neither part is empty,
   * and every window index is named exactly once: by one position of one of
   * the two parts.
   */
  lemma SplitSiteSucceeds(input: seq<seq<seq<real>>>, features: seq<seq<seq<real>>>, trainRatio: real,
                          missingRate: real, draws: Draws)
    requires WindowShaped(input, features) && draws.Valid()
    ensures var (trainIdx, testIdx) := Split.TrainTestSplit(draws.permutation(|input|), trainRatio);
            SplitSite(input, features, trainRatio, missingRate, draws).Success? <==> |trainIdx| > 0 && |testIdx| > 0
    ensures SplitSite(input, features, trainRatio, missingRate, draws).Success? ==>
              var site := SplitSite(input, features, trainRatio, missingRate, draws).value;
              site.train.Len() + site.test.Len() == |input|
    ensures var (trainIdx, testIdx) := Split.TrainTestSplit(draws.permutation(|input|), trainRatio);
            && (forall n :: 0 <= n < |input| ==> (n in trainIdx) != (n in testIdx))
            && Masking.Distinct(trainIdx) && Masking.Distinct(testIdx)
  {
    var perm := draws.permutation(|input|);
    var (trainIdx, testIdx) := Split.TrainTestSplit(perm, trainRatio);
    Split.SplitInRange(perm, |input|, trainRatio);
    BuildPartSucceeds(input, features, trainIdx, draws.mask, missingRate);
    BuildPartSucceeds(input, features, testIdx, draws.mask, missingRate);
    Split.SplitNamesOnce(perm, |input|, trainRatio);
  }

  /** Parsed windows normalise without error, and keep their 200 time steps. */
  lemma NormalizeParsed(meta: seq<Windowing.TrackMeta>, rows: seq<Windowing.TrackRow>)
    requires Windowing.Parse(meta, rows).Success?
    ensures NormalizedParse(meta, rows).Success?
    ensures var (input, features) := NormalizedParse(meta, rows).value;
            |input| == |Windowing.Parse(meta, rows).value.0| && WindowShaped(input, features)
  {
    var (rawInput, rawFeatures) := Windowing.Parse(meta, rows).value;
    Windowing.ParseShape(meta, rows);
    Normalization.LoaderBoundaries();
    NormalizeAllSucceeds(rawInput, Normalization.SpatialBoundaries);
    NormalizeAllSucceeds(rawFeatures, Normalization.FeatureBoundaries);
    var input := NormalizeAll(rawInput, Normalization.SpatialBoundaries).value;
    var features := NormalizeAll(rawFeatures, Normalization.FeatureBoundaries).value;
    forall n | 0 <= n < |input|
      ensures |input[n]| == Windowing.MovingWindow && |features[n]| == Windowing.MovingWindow
    {
      assert Normalization.Normalize(rawInput[n], Normalization.SpatialBoundaries) == Success(input[n]);
      assert Normalization.Normalize(rawFeatures[n], Normalization.FeatureBoundaries) == Success(features[n]);
    }
  }

  /**
   * Loading succeeds exactly when the tables parse and the split leaves
   * neither part empty. Then every window index is named exactly once by the
   * split, so (with `LoadSite`'s contract) every window lands, masked, at
   * exactly one position of exactly one of the two datasets.
   */
  lemma LoadSiteSucceeds(meta: seq<Windowing.TrackMeta>, rows: seq<Windowing.TrackRow>, trainRatio: real,
                         missingRate: real, draws: Draws)
    requires draws.Valid()
    ensures LoadSite(meta, rows, trainRatio, missingRate, draws).Success? <==>
              && Windowing.Parse(meta, rows).Success?
              && var n := |Windowing.Parse(meta, rows).value.0|;
                 var (trainIdx, testIdx) := Split.TrainTestSplit(draws.permutation(n), trainRatio);
                 |trainIdx| > 0 && |testIdx| > 0
    ensures LoadSite(meta, rows, trainRatio, missingRate, draws).Success? ==>
              var site := LoadSite(meta, rows, trainRatio, missingRate, draws).value;
              var n := |Windowing.Parse(meta, rows).value.0|;
              var (trainIdx, testIdx) := Split.TrainTestSplit(draws.permutation(n), trainRatio);
              && site.train.Len() + site.test.Len() == n
              && (forall w :: 0 <= w < n ==> (w in trainIdx) != (w in testIdx))
              && Masking.Distinct(trainIdx) && Masking.Distinct(testIdx)
  {
    if Windowing.Parse(meta, rows).Success? {
      NormalizeParsed(meta, rows);
      var (input, features) := NormalizedParse(meta, rows).value;
      SplitSiteSucceeds(input, features, trainRatio, missingRate, draws);
    }
  }
  /**
   * A training ratio of 0, or of 1 or more, never yields a site: one part is
   * always empty, and its shuffling loader raises.
   */
  lemma DegenerateRatioNeverLoads(meta: seq<Windowing.TrackMeta>, rows: seq<Windowing.TrackRow>, trainRatio: real,
                                  missingRate: real, draws: Draws)
    requires draws.Valid() && (trainRatio == 0.0 || 1.0 <= trainRatio)
    ensures LoadSite(meta, rows, trainRatio, missingRate, draws).Failure?
  {
    LoadSiteSucceeds(meta, rows, trainRatio, missingRate, draws);
    if Windowing.Parse(meta, rows).Success? {
      var perm := draws.permutation(|Windowing.Parse(meta, rows).value.0|);
      if trainRatio == 0.0 {
        Split.SplitSizes(perm, trainRatio);
      } else {
        Split.WholeRatioEmptiesTest(perm, trainRatio);
      }
    }
  }


  /** The cache of loaded observation sites, keyed by the two-digit site number. */
  type Cache = map<string, Site>

  /**
   * `_get_observation_site`: load and store the site on its first access,
   * return the stored site afterwards. A load that raises propagates its
   * error and stores nothing, so the cache is returned as it was.
   */
  function GetObservationSite(cache: Cache, key: string, load: string -> Result<Site, LoadError>)
    : (r: (Result<Site, LoadError>, Cache))
    ensures key in cache ==> r == (Success(cache[key]), cache)
    ensures key !in cache ==> r.0 == load(key)
    ensures r.0.Success? ==> key in r.1 && r.1[key] == r.0.value && r.1.Keys == cache.Keys + {key}
    ensures r.0.Failure? ==> r.1 == cache && key !in r.1
    ensures forall k :: k in cache ==> k in r.1 && r.1[k] == cache[k]
  {
    if key in cache then (Success(cache[key]), cache)
    else
      match load(key)
      case Failure(e) => (Failure(e), cache)
      case Success(site) => (Success(site), cache[key := site])
  }

  /**
   * After a successful access, later accesses return the same site without
   * loading, whatever a fresh load would now produce, and leave the cache
   * as it is.
   */
  lemma SecondAccessIsCached(cache: Cache, key: string, load: string -> Result<Site, LoadError>,
                             reload: string -> Result<Site, LoadError>)
    requires GetObservationSite(cache, key, load).0.Success?
    ensures var (site, cache1) := GetObservationSite(cache, key, load);
            GetObservationSite(cache1, key, reload) == (site, cache1)
  {
  }

  /** After a failed load nothing is stored, so the next access loads again. */
  lemma FailedLoadIsRetried(cache: Cache, key: string, load: string -> Result<Site, LoadError>,
                            reload: string -> Result<Site, LoadError>)
    requires GetObservationSite(cache, key, load).0.Failure?
    ensures var cache1 := GetObservationSite(cache, key, load).1;
            GetObservationSite(cache1, key, reload).0 == reload(key)
  {
  }

  /**
   * A site whose tables yield no window (or fail the lifetime check) raises
   * on its first access, and its key stays out of the cache.
   */
  lemma UnparsableSiteNotCached(cache: Cache, key: string, load: string -> Result<Site, LoadError>,
                                meta: seq<Windowing.TrackMeta>, rows: seq<Windowing.TrackRow>,
                                trainRatio: real, missingRate: real, draws: Draws)
    requires draws.Valid() && key !in cache
    requires load(key) == LoadSite(meta, rows, trainRatio, missingRate, draws)
    requires Windowing.Parse(meta, rows).Failure?
    ensures GetObservationSite(cache, key, load).0.Failure?
    ensures GetObservationSite(cache, key, load).1 == cache
  {
  }

  /** Accessing one site leaves every other site's entry (and its absence) as it was. */
  lemma OtherSitesUnchanged(cache: Cache, key: string, other: string, load: string -> Result<Site, LoadError>)
    requires other != key
    ensures var cache1 := GetObservationSite(cache, key, load).1;
            (other in cache1 <==> other in cache) && (other in cache ==> cache1[other] == cache[other])
  {
  }

  /** The number of sites, each reached through its own property. */
  const SiteCount: nat := 32

  /** The key of observation site n: its number with two digits, "01" .. "32". */
  function SiteKey(n: nat): (key: string)
    requires 1 <= n <= SiteCount
    ensures |key| == 2 && '0' <= key[0] <= '3' && '0' <= key[1] <= '9'
  {
    [(n / 10) as char + '0', (n % 10) as char + '0']
  }

  /** The number a two-digit key stands for. */
  function KeyNumber(key: string): int
    requires |key| == 2
  {
    (key[0] as int - '0' as int) * 10 + (key[1] as int - '0' as int)
  }

  /** Reading a site key back gives its number, so different sites never share a cache entry. */
  lemma SiteKeyRoundTrip(n: nat)
    requires 1 <= n <= SiteCount
    ensures KeyNumber(SiteKey(n)) == n
  {
  }

  /** Distinct sites have distinct keys. */
  lemma SiteKeysDistinct(n: nat, m: nat)
    requires 1 <= n <= SiteCount && 1 <= m <= SiteCount && n != m
    ensures SiteKey(n) != SiteKey(m)
  {
    SiteKeyRoundTrip(n);
    SiteKeyRoundTrip(m);
  }
}
