/**
 * The train/test split of the inD loader (InD.py, `_load_observation_site`):
 * a random permutation of the sample indices is cut after
 * `int(n * train_ratio)` entries, with Python's truncating `int` and numpy's
 * slice rules, so that any ratio (even one outside [0, 1]) is accepted.
 *
 * The permutation itself comes from the random number generator and is a
 * parameter here.
 */
module Split {

  /** Python's `int()` on a float: truncation toward zero. */
  function Trunc(x: real): (r: int)
    ensures x >= 0.0 ==> r as real <= x < r as real + 1.0
    ensures x < 0.0 ==> r as real - 1.0 < x <= r as real
  {
    if x >= 0.0 then x.Floor else -((-x).Floor)
  }

  /** A slice bound normalised the way numpy does it for a sequence of length n. */
  function SliceBound(i: int, n: nat): (b: nat)
    ensures b <= n
    ensures 0 <= i <= n ==> b == i
    ensures i > n ==> b == n
    ensures i < 0 && i + n >= 0 ==> b == i + n
    ensures i + n < 0 ==> b == 0
  {
    if i < 0 then (if i + n < 0 then 0 else i + n) else if i > n then n else i
  }

  /** `s[a:b]` with numpy's rules: bounds are normalised and an empty range gives an empty slice. */
  function Slice<T>(s: seq<T>, a: int, b: int): (r: seq<T>)
    ensures var lo := SliceBound(a, |s|);
            var hi := SliceBound(b, |s|);
            r == if lo <= hi then s[lo..hi] else []
  {
    var lo := SliceBound(a, |s|);
    var hi := SliceBound(b, |s|);
    if lo <= hi then s[lo..hi] else []
  }

  /** `n_train = int(n_data * train_ratio)`: the floor for a non-negative ratio, so at most n_data for a ratio in [0, 1]. */
  function TrainCount(n: nat, ratio: real): (c: int)
    ensures 0.0 <= ratio ==> c == (n as real * ratio).Floor
    ensures 0.0 <= ratio <= 1.0 ==> 0 <= c <= n
    ensures ratio < 0.0 ==> c <= 0
  {
    ScaledBelow(n as real, ratio);
    Trunc(n as real * ratio)
  }

  /** Scaling a non-negative amount by a ratio in [0, 1] keeps it in [0, amount]; a negative ratio makes it non-positive. */
  lemma ScaledBelow(x: real, ratio: real)
    requires 0.0 <= x
    ensures 0.0 <= ratio <= 1.0 ==> 0.0 <= x * ratio <= x
    ensures ratio < 0.0 ==> x * ratio <= 0.0
  {
    if 0.0 <= ratio <= 1.0 {
      assert x * ratio <= x * 1.0;
    }
  }

  /** `(randidx[:n_train], randidx[n_train:n_train + n_test])` with `n_test = n - n_train`. */
  function TrainTestSplit<T>(perm: seq<T>, ratio: real): (r: (seq<T>, seq<T>))
    ensures |r.0| + |r.1| == |perm|
  {
    var n := |perm|;
    var nTrain := TrainCount(n, ratio);
    var nTest := n - nTrain;
    (Slice(perm, 0, nTrain), Slice(perm, nTrain, nTrain + nTest))
  }

  /** Whatever the ratio, the two parts put together are the permutation, in order. */
  lemma SplitIsPartition<T>(perm: seq<T>, ratio: real)
    ensures var (train, test) := TrainTestSplit(perm, ratio);
            train + test == perm
  {
    var n := |perm|;
    var cut := SliceBound(TrainCount(n, ratio), n);
    assert Slice(perm, 0, TrainCount(n, ratio)) == perm[..cut];
    assert Slice(perm, TrainCount(n, ratio), n) == perm[cut..];
  }

  /** For a ratio in [0, 1] the training part has floor(n * ratio) entries and the test part the rest. */
  lemma SplitSizes<T>(perm: seq<T>, ratio: real)
    requires 0.0 <= ratio <= 1.0
    ensures var (train, test) := TrainTestSplit(perm, ratio);
            && |train| == (|perm| as real * ratio).Floor
            && |test| == |perm| - |train|
            && train == perm[..|train|]
  {
    var n := |perm| as real;
    assert 0.0 <= n * ratio <= n by {
      assert n * ratio <= n * 1.0;
    }
    SplitIsPartition(perm, ratio);
  }

  /** For a ratio in [0, 1] both parts have entries exactly when 0 < `n_train` < n. */
  lemma PartsNonEmpty<T>(perm: seq<T>, ratio: real)
    requires 0.0 <= ratio <= 1.0
    ensures var (train, test) := TrainTestSplit(perm, ratio);
            (|train| > 0 && |test| > 0) <==> 0 < TrainCount(|perm|, ratio) < |perm|
  {
    SplitSizes(perm, ratio);
  }

  /** A ratio of 1 or more leaves the test part empty: `n_train` reaches n. */
  lemma WholeRatioEmptiesTest<T>(perm: seq<T>, ratio: real)
    requires 1.0 <= ratio
    ensures |TrainTestSplit(perm, ratio).1| == 0
  {
    var n := |perm| as real;
    assert n <= n * ratio by {
      assert n * 1.0 <= n * ratio;
    }
  }

  /** `np.random.permutation(n)`: every index in [0, n) exactly once. */
  predicate IsPermutation(perm: seq<int>, n: nat) {
    && |perm| == n
    && (forall i :: 0 <= i < n ==> 0 <= perm[i] < n)
    && (forall i, j :: 0 <= i < j < n ==> perm[i] != perm[j])
    && (forall k :: 0 <= k < n ==> k in perm)
  }

  /** The entries of a sequence, as a set. */
  function Elements(s: seq<int>): (e: set<int>)
    ensures forall x :: x in e <==> x in s
  {
    set x | x in s
  }

  /** No entry of a permutation's training part reappears in its test part. */
  lemma SplitDisjoint(perm: seq<int>, n: nat, ratio: real)
    requires IsPermutation(perm, n)
    ensures var (train, test) := TrainTestSplit(perm, ratio);
            forall i, j :: 0 <= i < |train| && 0 <= j < |test| ==> train[i] != test[j]
  {
    var (train, test) := TrainTestSplit(perm, ratio);
    SplitIsPartition(perm, ratio);
    forall i, j | 0 <= i < |train| && 0 <= j < |test|
      ensures train[i] != test[j]
    {
      assert train[i] == perm[i] && test[j] == perm[|train| + j];
    }
  }

  /** Every index of a permutation is in one of the two parts. */
  lemma SplitCover(perm: seq<int>, n: nat, ratio: real, k: int)
    requires IsPermutation(perm, n) && 0 <= k < n
    ensures var (train, test) := TrainTestSplit(perm, ratio);
            k in train || k in test
  {
    assert k in perm;
    InSomePart(perm, ratio, k);
  }

  /** An entry of the permutation is in one of the parts. */
  lemma InSomePart<T>(perm: seq<T>, ratio: real, x: T)
    requires x in perm
    ensures var (train, test) := TrainTestSplit(perm, ratio);
            x in train || x in test
  {
    var (train, test) := TrainTestSplit(perm, ratio);
    SplitIsPartition(perm, ratio);
    assert x in train + test;
  }

  /**
   * For a permutation, no sample is both a training and a test sample, and
   * every sample is one of the two.
   */
  lemma SplitDisjointCover(perm: seq<int>, n: nat, ratio: real)
    requires IsPermutation(perm, n)
    ensures var (train, test) := TrainTestSplit(perm, ratio);
            && Elements(train) * Elements(test) == {}
            && (forall k :: k in Elements(train) + Elements(test) <==> 0 <= k < n)
            && |train| + |test| == n
  {
    var (train, test) := TrainTestSplit(perm, ratio);
    SplitDisjoint(perm, n, ratio);
    SplitInRange(perm, n, ratio);
    forall k | 0 <= k < n
      ensures k in train || k in test
    {
      SplitCover(perm, n, ratio, k);
    }
  }

  /** Two sequences that concatenate to one without repeats have no repeats of their own. */
  lemma PartsDistinct(whole: seq<int>, a: seq<int>, b: seq<int>)
    requires a + b == whole
    requires forall i, j :: 0 <= i < j < |whole| ==> whole[i] != whole[j]
    ensures forall i, j :: 0 <= i < j < |a| ==> a[i] != a[j]
    ensures forall i, j :: 0 <= i < j < |b| ==> b[i] != b[j]
  {
    assert forall i :: 0 <= i < |a| ==> a[i] == whole[i];
    assert forall i :: 0 <= i < |b| ==> b[i] == whole[|a| + i];
  }

  /**
   * Every index of a permutation is named exactly once by its split: it is
   * in one part and not the other, and neither part repeats an entry.
   */
  lemma SplitNamesOnce(perm: seq<int>, n: nat, ratio: real)
    requires IsPermutation(perm, n)
    ensures var (train, test) := TrainTestSplit(perm, ratio);
            && (forall k :: 0 <= k < n ==> (k in train) != (k in test))
            && (forall i, j :: 0 <= i < j < |train| ==> train[i] != train[j])
            && (forall i, j :: 0 <= i < j < |test| ==> test[i] != test[j])
  {
    var (train, test) := TrainTestSplit(perm, ratio);
    SplitDisjoint(perm, n, ratio);
    forall k | 0 <= k < n
      ensures (k in train) != (k in test)
    {
      SplitCover(perm, n, ratio, k);
    }
    SplitIsPartition(perm, ratio);
    PartsDistinct(perm, train, test);
  }

  /** Both parts of a permutation's split index the data. */
  lemma SplitInRange(perm: seq<int>, n: nat, ratio: real)
    requires IsPermutation(perm, n)
    ensures var (train, test) := TrainTestSplit(perm, ratio);
            && (forall k :: 0 <= k < |train| ==> 0 <= train[k] < n)
            && (forall k :: 0 <= k < |test| ==> 0 <= test[k] < n)
  {
    var (train, test) := TrainTestSplit(perm, ratio);
    SplitIsPartition(perm, ratio);
    assert forall k :: 0 <= k < |train| ==> train[k] == perm[k];
    assert forall k :: 0 <= k < |test| ==> test[k] == perm[|train| + k];
  }

  /** `data[idx]`: the rows of data at the given indices, in index order. */
  function Gather<T>(data: seq<T>, idx: seq<int>): (r: seq<T>)
    requires forall k :: 0 <= k < |idx| ==> 0 <= idx[k] < |data|
    ensures |r| == |idx|
    ensures forall k :: 0 <= k < |idx| ==> r[k] == data[idx[k]]
  {
    seq(|idx|, k requires 0 <= k < |idx| => data[idx[k]])
  }

  /** Gathering the training rows and then the test rows gives the data reordered by the permutation. */
  lemma GatherSplit<T>(data: seq<T>, perm: seq<int>, ratio: real)
    requires IsPermutation(perm, |data|)
    ensures var (train, test) := TrainTestSplit(perm, ratio);
            Gather(data, train) + Gather(data, test) == Gather(data, perm)
  {
    SplitIsPartition(perm, ratio);
  }
}
