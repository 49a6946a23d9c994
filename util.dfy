/** `calculate_expected_sum` of util.c: the closed-form sum 0 + 1 + ... + (L - 1)
    over the logical range L = num_ranks * PER_RANK_ARRAY_SIZE that all ranks'
    buffers together should cover. */
module Util {
  import opened Word

  /** PER_RANK_ARRAY_SIZE, the per-rank buffer length: a positive compile-time
      constant that also bounds an `int` loop counter. */
  type PerRankSize = s: int | 0 < s < TWO31 witness 1

  /** The arithmetic series 0 + 1 + ... + (n - 1), defined by recursion; the
      reference the parity-split closed form is checked against. */
  function SeriesSum(n: nat): nat {
    if n == 0 then 0 else SeriesSum(n - 1) + (n - 1)
  }

  lemma {:induction false} SeriesSumClosedForm(n: nat)
    ensures 2 * SeriesSum(n) == n * (n - 1)
  {
    if n > 0 {
      SeriesSumClosedForm(n - 1);
      assert (n - 1) * (n - 2) + 2 * (n - 1) == n * (n - 1);
    }
  }

  /** The series over a + k terms is the series over the first a terms plus
      k terms that each start at a. */
  lemma {:induction false} SeriesSumSplit(a: nat, k: nat)
    ensures SeriesSum(a + k) == SeriesSum(a) + k * a + SeriesSum(k)
  {
    if k > 0 {
      SeriesSumSplit(a, k - 1);
      assert (k - 1) * a + a == k * a;
    }
  }

  lemma SeriesSumMonotone(m: nat, n: nat)
    requires m <= n
    ensures SeriesSum(m) <= SeriesSum(n)
  {
    SeriesSumSplit(m, n - m);
    assert (n - m) * m >= 0;
  }

  /** `arr_len`: the number of ranks cast to `unsigned long`, times the
      per-rank size, in 64-bit unsigned arithmetic. */
  function TotalLength(numRanks: i32, size: PerRankSize): u64 {
    Wrap(Wrap(numRanks) * size)
  }

  /** `calculate_expected_sum(num_ranks)`: halve whichever of L and L - 1 is
      even, then multiply, every step in 64-bit unsigned arithmetic (L - 1
      wraps when L is 0, but is then multiplied by L / 2 == 0). */
  function ExpectedSum(numRanks: i32, size: PerRankSize): u64 {
    var arrLen := TotalLength(numRanks, size);
    if arrLen % 2 == 0 then Wrap((arrLen / 2) * Wrap(arrLen - 1))
    else Wrap(arrLen * ((arrLen - 1) / 2))
  }

  lemma TotalLengthExact(numRanks: i32, size: PerRankSize)
    requires 0 <= numRanks
    ensures TotalLength(numRanks, size) == numRanks * size
  {
    ProductBound(numRanks, size);
  }

  /** In the even branch, L / 2 is exact and (L / 2) * (L - 1) is the series. */
  lemma EvenBranchExact(len: nat)
    requires len % 2 == 0
    ensures (len / 2) * 2 == len
    ensures (len / 2) * (len - 1) == SeriesSum(len) == len * (len - 1) / 2
  {
    SeriesSumClosedForm(len);
    var h := len / 2;
    assert len * (len - 1) == 2 * (h * (len - 1));
  }

  /** In the odd branch, (L - 1) / 2 is exact and L * ((L - 1) / 2) is the series. */
  lemma OddBranchExact(len: nat)
    requires len % 2 == 1
    ensures ((len - 1) / 2) * 2 == len - 1
    ensures len * ((len - 1) / 2) == SeriesSum(len) == len * (len - 1) / 2
  {
    SeriesSumClosedForm(len);
    var h := (len - 1) / 2;
    assert len - 1 == 2 * h;
    assert len * (len - 1) == len * (2 * h) == 2 * (len * h);
  }

  /** For every input, both branches agree with the series over arr_len,
      reduced modulo 2^64. */
  lemma ExpectedSumIsSeries(numRanks: i32, size: PerRankSize)
    ensures ExpectedSum(numRanks, size) == Wrap(SeriesSum(TotalLength(numRanks, size)))
  {
    var len := TotalLength(numRanks, size);
    if len % 2 == 0 {
      EvenBranchExact(len);
      if len > 0 {
        assert Wrap(len - 1) == len - 1;
      }
    } else {
      OddBranchExact(len);
    }
  }

  /** Without 64-bit overflow, the result is exactly L(L - 1)/2 and the series
      0 + 1 + ... + (L - 1) with L = num_ranks * PER_RANK_ARRAY_SIZE. */
  lemma ExpectedSumExact(numRanks: i32, size: PerRankSize)
    requires 0 <= numRanks
    requires (numRanks * size) * (numRanks * size - 1) / 2 < TWO64
    ensures ExpectedSum(numRanks, size) == SeriesSum(numRanks * size)
    ensures ExpectedSum(numRanks, size) == (numRanks * size) * (numRanks * size - 1) / 2
  {
    var len := numRanks * size;
    TotalLengthExact(numRanks, size);
    ExpectedSumIsSeries(numRanks, size);
    SeriesSumClosedForm(len);
    assert SeriesSum(len) == len * (len - 1) / 2;
    assert Wrap(SeriesSum(len)) == SeriesSum(len);
  }

  /** No ranks means an empty range and an expected sum of 0. */
  lemma ExpectedSumZeroRanks(size: PerRankSize)
    ensures ExpectedSum(0, size) == 0
  {
  }

  /** Without overflow, more ranks never give a smaller expected sum. */
  lemma ExpectedSumMonotone(m: i32, n: i32, size: PerRankSize)
    requires 0 <= m <= n
    requires (n * size) * (n * size - 1) / 2 < TWO64
    ensures ExpectedSum(m, size) <= ExpectedSum(n, size)
  {
    assert m * size <= n * size;
    SeriesSumMonotone(m * size, n * size);
    SeriesSumClosedForm(m * size);
    SeriesSumClosedForm(n * size);
    ExpectedSumExact(n, size);
    ExpectedSumExact(m, size);
  }
}
