/**
 * The missing-value mask of the inD loader (InD.py, `_mask`): for every
 * sample, the first `int(100 * missing_rate)` entries of a random
 * permutation of 0 .. 99 are sorted and those time steps are overwritten
 * with NaN, in the positions and in the features alike.
 *
 * Each sample's permutation comes from the random number generator and is a
 * parameter here; NaN is a value of its own, so a cell is a number or NaN.
 */
module Masking {
  import opened Wrappers
  import Split

  /** The number of time steps the mask draws from (`seq_len`). */
  const SeqLen: nat := 100

  /** One entry of a tensor: a number, or the NaN the mask writes. */
  datatype Cell = Num(v: real) | NaN

  /** One time step: the values of its channels. */
  type Step = seq<Cell>

  /** One sample: its time steps. */
  type Sample = seq<Step>

  /** A whole time step of NaN, as wide as the original step. */
  function NaNStep(width: nat): (s: Step)
    ensures |s| == width && forall c :: 0 <= c < width ==> s[c] == NaN
  {
    seq(width, _ => NaN)
  }

  /** A sample of numbers, before masking. */
  function FromReals(rows: seq<seq<real>>): (s: Sample)
    ensures |s| == |rows|
    ensures forall t :: 0 <= t < |rows| ==> |s[t]| == |rows[t]| && forall c :: 0 <= c < |rows[t]| ==> s[t][c] == Num(rows[t][c])
  {
    seq(|rows|, t requires 0 <= t < |rows| => seq(|rows[t]|, c requires 0 <= c < |rows[t]| => Num(rows[t][c])))
  }

  /** A batch of numeric samples, before masking. */
  function ToSamples(batch: seq<seq<seq<real>>>): (r: seq<Sample>)
    ensures |r| == |batch| && forall n :: 0 <= n < |batch| ==> r[n] == FromReals(batch[n])
  {
    seq(|batch|, n requires 0 <= n < |batch| => FromReals(batch[n]))
  }

  predicate Sorted(s: seq<int>) {
    forall i, j :: 0 <= i < j < |s| ==> s[i] <= s[j]
  }

  predicate Distinct(s: seq<int>) {
    forall i, j :: 0 <= i < j < |s| ==> s[i] != s[j]
  }

  /** `torch.randperm(100)`: every time step 0 .. 99 exactly once. */
  predicate IsStepPermutation(perm: seq<int>) {
    && |perm| == SeqLen
    && (forall i :: 0 <= i < |perm| ==> 0 <= perm[i] < SeqLen)
    && Distinct(perm)
  }

  /** Inserts x into an ascending sequence, before the first entry not below it. */
  function Insert(x: int, s: seq<int>): (r: seq<int>)
    ensures |r| == |s| + 1
    ensures multiset(r) == multiset(s) + multiset{x}
  {
    if |s| == 0 then [x]
    else if x <= s[0] then [x] + s
    else
      assert s == [s[0]] + s[1..];
      [s[0]] + Insert(x, s[1..])
  }

  /** The entries after inserting x are x and the old entries. */
  lemma InsertMembers(x: int, s: seq<int>)
    ensures forall y :: y in Insert(x, s) <==> y == x || y in s
  {
    forall y ensures y in Insert(x, s) <==> y in multiset(Insert(x, s)) {}
  }

  /** Putting a value no larger than any entry in front of an ascending sequence keeps it ascending. */
  lemma ConsSorted(a: int, s: seq<int>)
    requires Sorted(s) && forall y :: y in s ==> a <= y
    ensures Sorted([a] + s)
  {
    var r := [a] + s;
    forall i, j | 0 <= i < j < |r| ensures r[i] <= r[j] {
      assert r[j] == s[j - 1] && s[j - 1] in s;
      if i > 0 {
        assert r[i] == s[i - 1];
      }
    }
  }

  /** Inserting into an ascending sequence keeps it ascending. */
  lemma {:induction false} InsertSorted(x: int, s: seq<int>)
    requires Sorted(s)
    ensures Sorted(Insert(x, s))
  {
    if |s| > 0 && x > s[0] {
      var rest := Insert(x, s[1..]);
      InsertSorted(x, s[1..]);
      InsertMembers(x, s[1..]);
      ConsSorted(s[0], rest);
    }
  }

  /** Inserting a new value into a sequence without repeats gives one without repeats. */
  lemma {:induction false} InsertDistinct(x: int, s: seq<int>)
    requires Distinct(s) && x !in s
    ensures Distinct(Insert(x, s))
  {
    if |s| > 0 && x > s[0] {
      var rest := Insert(x, s[1..]);
      InsertDistinct(x, s[1..]);
      assert s[0] !in rest by {
        assert s[0] in rest <==> s[0] in multiset(rest);
        assert s[0] !in s[1..];
      }
    }
  }

  /** `.sort().values` on a sequence of indices: insertion sort. */
  function SortAscending(s: seq<int>): (r: seq<int>)
    ensures |r| == |s|
    ensures multiset(r) == multiset(s)
  {
    if |s| == 0 then []
    else
      assert s == [s[0]] + s[1..];
      Insert(s[0], SortAscending(s[1..]))
  }

  /** The sorted sequence is ascending, and has no repeats when the input has none. */
  lemma {:induction false} SortAscendingSorted(s: seq<int>)
    ensures Sorted(SortAscending(s))
    ensures Distinct(s) ==> Distinct(SortAscending(s))
  {
    if |s| > 0 {
      var rest := SortAscending(s[1..]);
      SortAscendingSorted(s[1..]);
      InsertSorted(s[0], rest);
      if Distinct(s) {
        assert Distinct(s[1..]);
        assert s[0] !in rest by {
          assert s[0] in rest <==> s[0] in multiset(rest);
          assert s[0] !in s[1..];
        }
        InsertDistinct(s[0], rest);
      }
    }
  }

  /** The size of the prefix: `int(100 * missing_rate)`. */
  function MissingCount(rate: real): int {
    Split.Trunc(SeqLen as real * rate)
  }

  /** The mask of one sample: `randperm(100)[:int(100 * rate)].sort().values`. */
  function MaskIndices(perm: seq<int>, rate: real): (m: seq<int>)
    ensures multiset(m) == multiset(Split.Slice(perm, 0, MissingCount(rate)))
    ensures Sorted(m)
  {
    var prefix := Split.Slice(perm, 0, MissingCount(rate));
    SortAscendingSorted(prefix);
    SortAscending(prefix)
  }

  /**
   * For a rate in [0, 1] the mask holds exactly floor(100 * rate) distinct
   * time steps in [0, 100), in strictly ascending order.
   */
  lemma MaskIndicesShape(perm: seq<int>, rate: real)
    requires IsStepPermutation(perm) && 0.0 <= rate <= 1.0
    ensures var m := MaskIndices(perm, rate);
            && |m| == (SeqLen as real * rate).Floor
            && (forall i :: 0 <= i < |m| ==> 0 <= m[i] < SeqLen)
            && (forall i, j :: 0 <= i < j < |m| ==> m[i] < m[j])
  {
    var prefix := Split.Slice(perm, 0, MissingCount(rate));
    assert 0.0 <= SeqLen as real * rate <= SeqLen as real by {
      assert SeqLen as real * rate <= SeqLen as real * 1.0;
    }
    assert prefix == perm[..|prefix|];
    assert Distinct(prefix);
    SortAscendingSorted(prefix);
    var m := MaskIndices(perm, rate);
    forall i | 0 <= i < |m| ensures 0 <= m[i] < SeqLen {
      assert m[i] in multiset(prefix);
    }
  }

  /** Whatever the rate, the mask never holds more than the 100 time steps. */
  lemma MaskIndicesBounded(perm: seq<int>, rate: real)
    requires IsStepPermutation(perm)
    ensures var m := MaskIndices(perm, rate);
            |m| <= SeqLen && forall i :: 0 <= i < |m| ==> 0 <= m[i] < SeqLen
  {
    var prefix := Split.Slice(perm, 0, MissingCount(rate));
    var m := MaskIndices(perm, rate);
    forall i | 0 <= i < |m| ensures 0 <= m[i] < SeqLen {
      assert m[i] in multiset(prefix);
    }
  }

  /** Every masked time step exists in the sample. */
  predicate InRange(mask: seq<int>, sample: Sample) {
    forall i :: 0 <= i < |mask| ==> 0 <= mask[i] < |sample|
  }

  /** `sample[mask] = nan`: the listed time steps become NaN, the others are kept. */
  function MaskSample(sample: Sample, mask: seq<int>): (r: Sample)
    requires InRange(mask, sample)
    ensures |r| == |sample|
    ensures forall t :: 0 <= t < |sample| ==> |r[t]| == |sample[t]|
  {
    seq(|sample|, t requires 0 <= t < |sample| => if t in mask then NaNStep(|sample[t]|) else sample[t])
  }

  /** What masking promises: listed steps are NaN, every other step is untouched. */
  predicate MaskedAt(before: Sample, after: Sample, mask: seq<int>) {
    && |after| == |before|
    && forall t :: 0 <= t < |before| ==>
         after[t] == (if t in mask then NaNStep(|before[t]|) else before[t])
  }

  /** Masking writes NaN over exactly the listed steps. */
  lemma MaskSampleMasks(sample: Sample, mask: seq<int>)
    requires InRange(mask, sample)
    ensures MaskedAt(sample, MaskSample(sample, mask), mask)
  {
  }

  /** Masking twice with the same indices is masking once. */
  lemma MaskSampleIdempotent(sample: Sample, mask: seq<int>)
    requires InRange(mask, sample)
    ensures MaskSample(MaskSample(sample, mask), mask) == MaskSample(sample, mask)
  {
  }

  /** The error `_mask` raises: a mask index past the end of a sample. */
  datatype MaskError = StepOutOfRange

  /** The mask of every sample fits the positions and the features of that sample. */
  predicate AllInRange(data: seq<Sample>, features: seq<Sample>, perms: seq<seq<int>>, rate: real)
    requires |features| == |data| == |perms|
  {
    forall i :: 0 <= i < |data| ==> InRange(MaskIndices(perms[i], rate), data[i]) && InRange(MaskIndices(perms[i], rate), features[i])
  }

  /** Every sample masked with the indices drawn for it. */
  function MaskBatch(samples: seq<Sample>, perms: seq<seq<int>>, rate: real): (r: seq<Sample>)
    requires |samples| == |perms|
    requires forall i :: 0 <= i < |samples| ==> InRange(MaskIndices(perms[i], rate), samples[i])
    ensures |r| == |samples|
  {
    seq(|samples|, i requires 0 <= i < |samples| => MaskSample(samples[i], MaskIndices(perms[i], rate)))
  }

  /**
   * `_mask` over a batch: sample i of the positions and of the features is
   * masked with the indices drawn from perms[i].
   */
  function MaskAll(data: seq<Sample>, features: seq<Sample>, perms: seq<seq<int>>, rate: real): (r: Result<(seq<Sample>, seq<Sample>), MaskError>)
    requires |features| == |data| == |perms|
    ensures r.Success? <==> AllInRange(data, features, perms, rate)
    ensures r.Success? ==> |r.value.0| == |data| && |r.value.1| == |data|
    ensures r.Success? ==> forall i :: 0 <= i < |data| ==>
              && MaskedAt(data[i], r.value.0[i], MaskIndices(perms[i], rate))
              && MaskedAt(features[i], r.value.1[i], MaskIndices(perms[i], rate))
  {
    if !AllInRange(data, features, perms, rate) then Failure(StepOutOfRange)
    else Success((MaskBatch(data, perms, rate), MaskBatch(features, perms, rate)))
  }

  /** Input and features lose the same time steps: a step is NaN in both or untouched in both. */
  lemma SameStepsMasked(data: seq<Sample>, features: seq<Sample>, perms: seq<seq<int>>, rate: real, i: nat, t: nat)
    requires |features| == |data| == |perms|
    requires MaskAll(data, features, perms, rate).Success?
    requires i < |data| && t < |data[i]| && t < |features[i]|
    ensures var (d, f) := MaskAll(data, features, perms, rate).value;
            (d[i][t] == NaNStep(|data[i][t]|) && f[i][t] == NaNStep(|features[i][t]|)) || (d[i][t] == data[i][t] && f[i][t] == features[i][t])
  {
  }

  /**
   * On windows of at least 100 steps the mask always applies (and, by
   * `MaskIndicesShape`, hides floor(100 * rate) steps of each sample).
   */
  lemma MaskAllOnWindows(data: seq<Sample>, features: seq<Sample>, perms: seq<seq<int>>, rate: real)
    requires |features| == |data| == |perms|
    requires forall i :: 0 <= i < |perms| ==> IsStepPermutation(perms[i])
    requires forall i :: 0 <= i < |data| ==> |data[i]| >= SeqLen && |features[i]| >= SeqLen
    ensures MaskAll(data, features, perms, rate).Success?
  {
    forall i | 0 <= i < |data|
      ensures InRange(MaskIndices(perms[i], rate), data[i]) && InRange(MaskIndices(perms[i], rate), features[i])
    {
      MaskIndicesBounded(perms[i], rate);
    }
  }

  /** The first n samples are masked, each with the indices drawn for it, into out. */
  predicate MaskedPrefix(samples: seq<Sample>, perms: seq<seq<int>>, rate: real, out: seq<Sample>, n: nat)
    requires n <= |samples| == |perms| && n <= |out|
  {
    forall k :: 0 <= k < n ==> InRange(MaskIndices(perms[k], rate), samples[k]) && out[k] == MaskSample(samples[k], MaskIndices(perms[k], rate))
  }

  /** Masking one more sample extends the masked prefix. */
  lemma MaskedPrefixStep(samples: seq<Sample>, perms: seq<seq<int>>, rate: real, out: seq<Sample>, n: nat)
    requires n < |samples| == |perms| && n == |out|
    requires MaskedPrefix(samples, perms, rate, out, n)
    requires InRange(MaskIndices(perms[n], rate), samples[n])
    ensures MaskedPrefix(samples, perms, rate, out + [MaskSample(samples[n], MaskIndices(perms[n], rate))], n + 1)
  {
  }

  /** A fully masked prefix is the masked batch. */
  lemma MaskedPrefixComplete(samples: seq<Sample>, perms: seq<seq<int>>, rate: real, out: seq<Sample>)
    requires |samples| == |perms| == |out|
    requires MaskedPrefix(samples, perms, rate, out, |out|)
    ensures forall i :: 0 <= i < |samples| ==> InRange(MaskIndices(perms[i], rate), samples[i])
    ensures out == MaskBatch(samples, perms, rate)
  {
  }

  /** The loop of `_mask`, sample after sample, computing what `MaskAll` specifies. */
  method MaskLoop(data: seq<Sample>, features: seq<Sample>, perms: seq<seq<int>>, rate: real)
      returns (r: Result<(seq<Sample>, seq<Sample>), MaskError>)
    requires |features| == |data| == |perms|
    ensures r == MaskAll(data, features, perms, rate)
  {
    var d: seq<Sample> := [];
    var f: seq<Sample> := [];
    var i := 0;
    while i < |data|
      invariant 0 <= i <= |data|
      invariant |d| == i && |f| == i
      invariant MaskedPrefix(data, perms, rate, d, i)
      invariant MaskedPrefix(features, perms, rate, f, i)
    {
      var m := MaskIndices(perms[i], rate);
      if !InRange(m, data[i]) || !InRange(m, features[i]) {
        assert !AllInRange(data, features, perms, rate);
        return Failure(StepOutOfRange);
      }
      MaskedPrefixStep(data, perms, rate, d, i);
      MaskedPrefixStep(features, perms, rate, f, i);
      d := d + [MaskSample(data[i], m)];
      f := f + [MaskSample(features[i], m)];
      i := i + 1;
    }
    MaskedPrefixComplete(data, perms, rate, d);
    MaskedPrefixComplete(features, perms, rate, f);
    r := Success((d, f));
  }
}
