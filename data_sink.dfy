/** The body callback of main.c: it discards the body bytes and adds the
    chunk length to an `int` counter the caller owns (`int written`). */
module DataSink {
  import opened CTypes

  /** Total of a list of chunk lengths. */
  function Sum(chunks: seq<nat>): nat {
    if chunks == [] then 0 else Sum(chunks[..|chunks| - 1]) + chunks[|chunks| - 1]
  }

  /** The counter value after each chunk: the values the callback reports
      as cumulative progress. */
  function RunningTotals(chunks: seq<nat>): (r: seq<int>)
    ensures |r| == |chunks|
  {
    if chunks == [] then []
    else RunningTotals(chunks[..|chunks| - 1]) + [ToInt(Sum(chunks))]
  }

  /** Each running total is the converted sum of the chunks up to and
      including that one. */
  lemma {:induction false} RunningTotalsArePrefixSums(chunks: seq<nat>, i: nat)
    requires i < |chunks|
    ensures RunningTotals(chunks)[i] == ToInt(Sum(chunks[..i + 1]))
  {
    var init := chunks[..|chunks| - 1];
    if i < |chunks| - 1 {
      RunningTotalsArePrefixSums(init, i);
      assert init[..i + 1] == chunks[..i + 1];
    } else {
      assert chunks[..i + 1] == chunks;
    }
  }

  /** A longer prefix of the chunks never sums to less. */
  lemma {:induction false} SumPrefixMonotone(chunks: seq<nat>, n: nat, m: nat)
    requires n <= m <= |chunks|
    ensures Sum(chunks[..n]) <= Sum(chunks[..m])
  {
    if n < m {
      SumPrefixMonotone(chunks, n, m - 1);
      assert chunks[..m][..m - 1] == chunks[..m - 1];
    }
  }

  /** While the total fits in `int` the running totals are the exact prefix
      sums and never decrease. */
  lemma RunningTotalsExact(chunks: seq<nat>)
    requires Sum(chunks) <= IntMax
    ensures forall i :: 0 <= i < |chunks| ==> RunningTotals(chunks)[i] == Sum(chunks[..i + 1])
    ensures forall i, j :: 0 <= i <= j < |chunks| ==> RunningTotals(chunks)[i] <= RunningTotals(chunks)[j]
  {
    assert chunks[..|chunks|] == chunks;
    forall i | 0 <= i < |chunks|
      ensures RunningTotals(chunks)[i] == Sum(chunks[..i + 1])
    {
      RunningTotalsArePrefixSums(chunks, i);
      SumPrefixMonotone(chunks, i + 1, |chunks|);
    }
    forall i, j | 0 <= i <= j < |chunks|
      ensures RunningTotals(chunks)[i] <= RunningTotals(chunks)[j]
    {
      SumPrefixMonotone(chunks, i + 1, j + 1);
    }
  }

  /** The chunk sizes 100, 250 and 4096 are reported as 100, 350 and 4446. */
  lemma ThreeChunks()
    ensures RunningTotals([100, 250, 4096]) == [100, 350, 4446]
  {
    var c: seq<nat> := [100, 250, 4096];
    assert c[..2] == [100, 250];
    assert c[..2][..1] == [100];
    assert [100][..0] == [];
  }

  /** The caller's `int written`, with the chunks counted into it so far. */
  class BodyCounter {
    var written: int
    ghost var chunks: seq<nat>

    ghost predicate Valid()
      reads this
    {
      written == ToInt(Sum(chunks))
    }

    /** `int written = 0;` */
    constructor ()
      ensures Valid() && written == 0 && chunks == []
    {
      written := 0;
      chunks := [];
    }

    /** dataCallback. `written += size * nmemb` converts `written` to
        `size_t`, adds the `size_t` product and converts the sum back to
        `int`; the body bytes are neither read nor changed, and the whole
        chunk is reported as consumed. */
    method DataCallback(data: seq<Byte>, size: SizeT, nmemb: SizeT) returns (consumed: SizeT)
      requires Valid()
      modifies this
      ensures Valid()
      ensures consumed == MulSize(size, nmemb)
      ensures chunks == old(chunks) + [consumed]
      ensures written == ToInt(old(written) + consumed)
      ensures old(written) + consumed <= IntMax ==> written == old(written) + consumed
    {
      var product := MulSize(size, nmemb);
      var asSize := written % SizeModulus;
      var sum := (asSize + product) % SizeModulus;
      ghost var a := written / SizeModulus;
      ghost var b := (asSize + product) / SizeModulus;
      assert written == a * SizeModulus + asSize;
      assert asSize + product == b * SizeModulus + sum;
      ghost var k := (a + b) * 0x1_0000_0000;
      assert sum == written + product - k * IntModulus;
      ToIntCongruent(written + product, sum, k);
      written := ToInt(sum);
      ToIntAdd(Sum(chunks), product);
      chunks := chunks + [product];
      assert chunks[..|chunks| - 1] == old(chunks);
      return product;
    }
  }

  /** A whole body delivered as chunks of the given sizes to a fresh
      counter: the values the counter takes after each chunk are the
      running totals of the sizes. */
  method Transfer(sizes: seq<SizeT>) returns (totals: seq<int>)
    ensures totals == RunningTotals(sizes)
  {
    var counter := new BodyCounter();
    totals := [];
    for i := 0 to |sizes|
      invariant counter.Valid() && counter.chunks == sizes[..i]
      invariant totals == RunningTotals(sizes[..i])
    {
      // The callback never reads the body bytes, so none are passed.
      var n := counter.DataCallback([], sizes[i], 1);
      totals := totals + [counter.written];
      assert sizes[..i + 1][..i] == sizes[..i];
    }
    assert sizes[..|sizes|] == sizes;
  }

  /** Three chunks fed one after another to a fresh counter, as the engine
      delivers them: the counter reads 100, 350 and 4446. */
  method ThreeChunkTransfer() returns (totals: seq<int>)
    ensures totals == [100, 350, 4446]
  {
    totals := Transfer([100, 250, 4096]);
    ThreeChunks();
  }
}
