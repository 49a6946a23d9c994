/** mpi_impl.c: each rank fills a buffer of PER_RANK_ARRAY_SIZE unsigned
    longs, folds it into a local sum, and the local sums of all ranks are
    added by an all-reduce. Both fill rules are here: the intended sequential
    one and the strided one the file actually builds. */
module MpiImpl {
  import opened Word
  import opened Util

  /** A rank as `MPI_Comm_rank` reports it: a non-negative `int`. */
  type Rank = r: int | 0 <= r < TWO31

  /** The fold of a sequence with addition, exact (no wrap-around). */
  function Sum(s: seq<int>): int {
    if |s| == 0 then 0 else Sum(s[..|s| - 1]) + s[|s| - 1]
  }

  /** The value both fill rules store for loop index i: `base + i` with
      `base = (unsigned long)rank * PER_RANK_ARRAY_SIZE`. Neither step wraps,
      because rank * size + i < 2^62. */
  function SlotValue(rank: Rank, size: PerRankSize, i: nat): u64
    requires i < size
  {
    ProductBound(rank, size);
    rank * size + i
  }

  /** The buffer contents the intended fill rule produces: rank `rank` owns
      the consecutive values rank * size, ..., (rank + 1) * size - 1. */
  function SequentialBlock(rank: Rank, size: PerRankSize): (block: seq<u64>)
    ensures |block| == size
    ensures block[0] == rank * size && block[size - 1] == (rank + 1) * size - 1
    ensures forall i, j :: 0 <= i < j < size ==> block[i] < block[j]
  {
    seq(size, i requires 0 <= i < size => SlotValue(rank, size, i))
  }

  /** The slot the as-built fill writes at loop index i: `i * (rank + 1)`. */
  function StrideIndex(rank: Rank, i: nat): nat {
    i * (rank + 1)
  }

  /** Every write of the as-built fill lands inside the buffer. */
  predicate StridedInBounds(rank: Rank, size: PerRankSize) {
    forall i :: 0 <= i < size ==> StrideIndex(rank, i) < size
  }

  /** For rank >= 1 and size >= 2 the last write of the as-built fill, at
      index (size - 1) * (rank + 1), is past the end of the buffer. */
  lemma LastStrideOutOfBounds(rank: Rank, size: PerRankSize)
    requires rank >= 1 && size >= 2
    ensures StrideIndex(rank, size - 1) >= size
  {
    var m := size - 1;
    assert StrideIndex(rank, m) == m * rank + m;
    assert m * rank - m == m * (rank - 1);
    assert m * (rank - 1) >= 0;
  }

  /** The as-built fill stays in bounds exactly when rank is 0 or the buffer
      has a single slot. */
  lemma StridedInBoundsIff(rank: Rank, size: PerRankSize)
    ensures StridedInBounds(rank, size) <==> (rank == 0 || size == 1)
  {
    if rank >= 1 && size >= 2 {
      LastStrideOutOfBounds(rank, size);
    } else if rank == 0 {
      forall i | 0 <= i < size
        ensures StrideIndex(rank, i) < size
      {
        assert StrideIndex(rank, i) == i;
      }
    } else {
      forall i | 0 <= i < size
        ensures StrideIndex(rank, i) < size
      {
        assert i == 0;
      }
    }
  }

  /** Rank 1 with a two-slot buffer already writes out of bounds (slot 2). */
  lemma StridedRankOneOutOfBounds()
    ensures !StridedInBounds(1, 2)
  {
    assert StrideIndex(1, 1) == 2;
  }

  /** `initialize_array` with the intended rule `array[i] = base + i`: slot i,
      written at iteration i, holds rank * size + i. */
  method InitializeArraySequential(a: array<u64>, rank: Rank, size: PerRankSize)
    requires a.Length == size
    modifies a
    ensures forall i :: 0 <= i < size ==> a[i] == rank * size + i
    ensures a[..] == SequentialBlock(rank, size)
  {
    ProductBound(rank, size);
    var base: u64 := rank * size;
    for i := 0 to size
      invariant forall j :: 0 <= j < i ==> a[j] == SlotValue(rank, size, j)
    {
      a[i] := base + i;
    }
  }

  /** `initialize_array` as built: `array[i * (rank + 1)] = base + i`. Its
      precondition is that every write is in bounds, which by
      StridedInBoundsIff only rank 0 (or a one-slot buffer) meets; there it
      leaves the same contents as the intended rule. */
  method InitializeArrayStrided(a: array<u64>, rank: Rank, size: PerRankSize)
    requires a.Length == size
    requires StridedInBounds(rank, size)
    modifies a
    ensures forall i :: 0 <= i < size ==> a[StrideIndex(rank, i)] == rank * size + i
    ensures a[..] == SequentialBlock(rank, size)
  {
    StridedInBoundsIff(rank, size);
    ProductBound(rank, size);
    var base: u64 := rank * size;
    for i := 0 to size
      invariant forall j :: 0 <= j < i ==> a[StrideIndex(rank, j)] == SlotValue(rank, size, j)
    {
      assert StrideIndex(rank, i) == i;
      a[StrideIndex(rank, i)] := base + i;
    }
    forall i | 0 <= i < size
      ensures a[i] == SlotValue(rank, size, i)
    {
      assert StrideIndex(rank, i) == i;
    }
  }

  /** The local-sum loop of `process_array_and_calculate_sum`:
      `local_sum += array[i]` over the whole buffer, in 64-bit unsigned
      arithmetic. */
  method LocalSum(a: array<u64>, size: PerRankSize) returns (localSum: u64)
    requires a.Length == size
    ensures localSum == Wrap(Sum(a[..]))
  {
    localSum := 0;
    for i := 0 to size
      invariant localSum == Wrap(Sum(a[..i]))
    {
      assert a[..i + 1][..i] == a[..i];
      WrapAdd(Sum(a[..i]), a[i]);
      localSum := Wrap(localSum + a[i]);
    }
    assert a[..size] == a[..];
  }

  /** `MPI_Allreduce` with `MPI_SUM` on `MPI_UNSIGNED_LONG`: the sum of every
      rank's contribution, wrapping modulo 2^64. */
  function Allreduce(localSums: seq<u64>): u64 {
    Wrap(Sum(localSums))
  }

  /** The local sum rank `rank` contributes when its buffer was filled by
      the intended rule. */
  function IntendedLocalSum(rank: Rank, size: PerRankSize): u64 {
    Wrap(Sum(SequentialBlock(rank, size)))
  }

  /** The contributions of ranks 0 .. numRanks - 1 under the intended rule. */
  function IntendedLocalSums(numRanks: nat, size: PerRankSize): (sums: seq<u64>)
    requires numRanks <= TWO31
    ensures |sums| == numRanks
  {
    seq(numRanks, r requires 0 <= r < numRanks => IntendedLocalSum(r, size))
  }

  lemma {:induction false} SequentialPrefixSum(rank: Rank, size: PerRankSize, k: nat)
    requires k <= size
    ensures Sum(SequentialBlock(rank, size)[..k]) == k * (rank * size) + SeriesSum(k)
  {
    if k > 0 {
      var block := SequentialBlock(rank, size);
      assert block[..k][..k - 1] == block[..k - 1];
      SequentialPrefixSum(rank, size, k - 1);
      assert (k - 1) * (rank * size) + rank * size == k * (rank * size);
    }
  }

  /** Under the intended rule, rank r's buffer sums to
      r * SIZE * SIZE + SIZE * (SIZE - 1) / 2. */
  lemma SequentialBlockSum(rank: Rank, size: PerRankSize)
    ensures Sum(SequentialBlock(rank, size)) == rank * size * size + size * (size - 1) / 2
  {
    var block := SequentialBlock(rank, size);
    SequentialPrefixSum(rank, size, size);
    assert block[..size] == block;
    SeriesSumClosedForm(size);
    assert size * (rank * size) == rank * size * size;
  }

  /** Rank r's intended block carries the series from r * size on to
      (r + 1) * size. */
  lemma SequentialBlockIsSeriesStep(rank: Rank, size: PerRankSize)
    ensures SeriesSum(rank * size) + Sum(SequentialBlock(rank, size)) == SeriesSum((rank + 1) * size)
  {
    var block := SequentialBlock(rank, size);
    SequentialPrefixSum(rank, size, size);
    assert block[..size] == block;
    SeriesSumSplit(rank * size, size);
    assert rank * size + size == (rank + 1) * size;
  }

  /** Adding rank n - 1 to the first n - 1 intended contributions. */
  lemma IntendedLocalSumsStep(n: nat, size: PerRankSize)
    requires 0 < n <= TWO31
    ensures Sum(IntendedLocalSums(n, size)) == Sum(IntendedLocalSums(n - 1, size)) + IntendedLocalSum(n - 1, size)
  {
    assert IntendedLocalSums(n, size)[..n - 1] == IntendedLocalSums(n - 1, size);
  }

  /** The reduced sum of the first n intended contributions is the series
      over the first n * size values, modulo 2^64. */
  lemma {:induction false} IntendedPrefixSum(n: nat, size: PerRankSize)
    requires n <= TWO31
    ensures Allreduce(IntendedLocalSums(n, size)) == Wrap(SeriesSum(n * size))
  {
    if n > 0 {
      var r: Rank := n - 1;
      var rest := Sum(IntendedLocalSums(r, size));
      var block := Sum(SequentialBlock(r, size));
      calc {
        Allreduce(IntendedLocalSums(n, size));
        { IntendedLocalSumsStep(n, size); }
        Wrap(Wrap(block) + rest);
        { WrapAdd(block, rest); }
        Wrap(rest + block);
        { WrapAdd(rest, block); }
        Wrap(Wrap(rest) + block);
        { IntendedPrefixSum(r, size); }
        Wrap(Wrap(SeriesSum(r * size)) + block);
        { WrapAdd(SeriesSum(r * size), block); }
        Wrap(SeriesSum(r * size) + block);
        { SequentialBlockIsSeriesStep(r, size); }
        Wrap(SeriesSum(n * size));
      }
    }
  }

  /** The law the program checks: with the intended fill on every rank, the
      all-reduced sum over ranks 0 .. N - 1 equals calculate_expected_sum(N),
      so the reported difference is 0. Both sides wrap modulo 2^64, so this
      holds even where the sums overflow. */
  lemma GlobalSumMatchesExpected(numRanks: i32, size: PerRankSize)
    requires 0 <= numRanks
    ensures Allreduce(IntendedLocalSums(numRanks, size)) == ExpectedSum(numRanks, size)
  {
    IntendedPrefixSum(numRanks, size);
    ExpectedSumIsSeries(numRanks, size);
    TotalLengthExact(numRanks, size);
  }

  lemma {:induction false} SumConcat(s: seq<int>, t: seq<int>)
    ensures Sum(s + t) == Sum(s) + Sum(t)
  {
    if |t| == 0 {
      assert s + t == s;
    } else {
      assert (s + t)[..|s + t| - 1] == s + t[..|t| - 1];
      SumConcat(s, t[..|t| - 1]);
    }
  }

  /** Taking element k out of a sequence takes t[k] off its sum. */
  lemma SumRemove(t: seq<int>, k: nat)
    requires k < |t|
    ensures Sum(t) == Sum(t[..k] + t[k + 1..]) + t[k]
  {
    var before, after := t[..k], t[k + 1..];
    assert t == (before + [t[k]]) + after;
    SumConcat(before + [t[k]], after);
    assert (before + [t[k]])[..|before|] == before;
    SumConcat(before, after);
  }

  /** Taking element k out of a sequence takes one copy of t[k] out of its multiset. */
  lemma MultisetRemove(t: seq<int>, k: nat)
    requires k < |t|
    ensures multiset(t[..k] + t[k + 1..]) == multiset(t) - multiset{t[k]}
  {
    var before, after := t[..k], t[k + 1..];
    assert t == before + [t[k]] + after;
    assert multiset(t) == multiset(before) + multiset{t[k]} + multiset(after);
  }

  /** The fold gives the same total in any order. */
  lemma {:induction false} SumPermutation(s: seq<int>, t: seq<int>)
    requires multiset(s) == multiset(t)
    ensures Sum(s) == Sum(t)
  {
    if |s| == 0 {
      assert |t| == |multiset(t)| == 0;
    } else {
      var last := |s| - 1;
      assert s[last] in multiset(t);
      var k :| 0 <= k < |t| && t[k] == s[last];
      MultisetRemove(s, last);
      MultisetRemove(t, k);
      assert s[..last] + s[last + 1..] == s[..last];
      SumPermutation(s[..last], t[..k] + t[k + 1..]);
      SumRemove(t, k);
    }
  }

  /** The reduction does not depend on the order in which the ranks'
      contributions are combined. */
  lemma AllreduceOrderIndependent(xs: seq<u64>, ys: seq<u64>)
    requires multiset(xs) == multiset(ys)
    ensures Allreduce(xs) == Allreduce(ys)
  {
    SumPermutation(xs, ys);
  }

  /** How `initialize_array` fills the buffer. */
  datatype FillStrategy = Sequential | StridedDefective

  /** `process_array_and_calculate_sum(rank)`: allocate the buffer, fill it,
      sum it, and all-reduce. `contributions[r]` is what rank r supplies to
      the all-reduce; this rank's own entry is replaced by the local sum it
      computes. */
  method ProcessArrayAndCalculateSum(rank: Rank, size: PerRankSize, fill: FillStrategy, contributions: seq<u64>)
    returns (globalSum: u64)
    requires rank < |contributions| < TWO31
    requires fill == StridedDefective ==> StridedInBounds(rank, size)
    ensures globalSum == Allreduce(contributions[rank := IntendedLocalSum(rank, size)])
    ensures (forall r :: 0 <= r < |contributions| && r != rank ==> contributions[r] == IntendedLocalSum(r, size))
            ==> globalSum == ExpectedSum(|contributions|, size)
  {
    var buffer := new u64[size];
    match fill {
      case Sequential => InitializeArraySequential(buffer, rank, size);
      case StridedDefective => InitializeArrayStrided(buffer, rank, size);
    }
    var localSum := LocalSum(buffer, size);
    var all := contributions[rank := localSum];
    globalSum := Allreduce(all);
    GlobalSumMatchesExpected(|contributions|, size);
    if forall r :: 0 <= r < |contributions| && r != rank ==> contributions[r] == IntendedLocalSum(r, size) {
      assert all == IntendedLocalSums(|contributions|, size);
    }
  }
}
