/**
 * The decode driver: the final latent batch is decoded in sub-batches of
 * `decoding_batch_size`, one `chroma.decode` call per slice
 * `x_t[i : i + bs]` for i in `range(0, n_images, bs)`, the results appended
 * in order to `decoded` and later joined by `mx.concatenate`.
 *
 * The decoder itself is uninterpreted: a function from one latent to one
 * image, applied to every element of the sub-batch.
 */
module Decoding {
  import opened Common

  /** `chroma.decode(batch, latent_size)`: every latent of the batch decoded, in order. */
  function DecodeBatch<L, P>(decode: L -> P, batch: seq<L>): (images: seq<P>)
    ensures |images| == |batch|
    ensures forall k :: 0 <= k < |batch| ==> images[k] == decode(batch[k])
  {
    seq(|batch|, k requires 0 <= k < |batch| => decode(batch[k]))
  }

  /** One decode call per sub-batch, in order. */
  function DecodeEach<L, P>(decode: L -> P, batches: seq<seq<L>>): seq<seq<P>>
  {
    seq(|batches|, k requires 0 <= k < |batches| => DecodeBatch(decode, batches[k]))
  }

  /**
   * The slices `xs[i : i + bs]` for i in `range(start, |xs|, bs)`, in order;
   * the last one may be shorter than bs.
   */
  function SubBatchesFrom<T>(xs: seq<T>, bs: nat, start: nat): (batches: seq<seq<T>>)
    requires bs > 0
    ensures |batches| == 0 <==> start >= |xs|
    ensures forall k :: 0 <= k < |batches| ==> 0 < |batches[k]| <= bs
    decreases |xs| - start
  {
    if start >= |xs| then [] else [xs[start..Min(start + bs, |xs|)]] + SubBatchesFrom(xs, bs, start + bs)
  }

  /** The contiguous sub-batches of size bs of xs, one per i in `range(0, |xs|, bs)`. */
  function SubBatches<T>(xs: seq<T>, bs: nat): (batches: seq<seq<T>>)
    requires bs > 0
    ensures |batches| == 0 <==> |xs| == 0
    ensures forall k :: 0 <= k < |batches| ==> 0 < |batches[k]| <= bs
  {
    SubBatchesFrom(xs, bs, 0)
  }

  /** Decoding commutes with concatenation: per-element decoding cannot see sub-batch boundaries. */
  lemma DecodeBatchAppend<L, P>(decode: L -> P, a: seq<L>, b: seq<L>)
    ensures DecodeBatch(decode, a + b) == DecodeBatch(decode, a) + DecodeBatch(decode, b)
  {
  }

  lemma {:induction false} DecodeEachFlatten<L, P>(decode: L -> P, batches: seq<seq<L>>)
    ensures Flatten(DecodeEach(decode, batches)) == DecodeBatch(decode, Flatten(batches))
  {
    if |batches| > 0 {
      DecodeEachFlatten(decode, batches[1..]);
      assert DecodeEach(decode, batches)[1..] == DecodeEach(decode, batches[1..]);
      DecodeBatchAppend(decode, batches[0], Flatten(batches[1..]));
    }
  }

  lemma {:induction false} SubBatchesFromCover<T>(xs: seq<T>, bs: nat, start: nat)
    requires bs > 0 && start <= |xs|
    ensures Flatten(SubBatchesFrom(xs, bs, start)) == xs[start..]
    decreases |xs| - start
  {
    if start < |xs| {
      if start + bs <= |xs| {
        SubBatchesFromCover(xs, bs, start + bs);
        assert xs[start..] == xs[start..start + bs] + xs[start + bs..];
      } else {
        assert SubBatchesFrom(xs, bs, start + bs) == [];
      }
    }
  }

  /** The sub-batches cover xs exactly once, in order. */
  lemma SubBatchesCover<T>(xs: seq<T>, bs: nat)
    requires bs > 0
    ensures Flatten(SubBatches(xs, bs)) == xs
  {
    SubBatchesFromCover(xs, bs, 0);
    assert xs[0..] == xs;
  }

  lemma {:induction false} SubBatchesFromCount<T>(xs: seq<T>, bs: nat, start: nat)
    requires bs > 0 && start <= |xs|
    ensures (|SubBatchesFrom(xs, bs, start)| - 1) * bs < |xs| - start <= |SubBatchesFrom(xs, bs, start)| * bs
    decreases |xs| - start
  {
    if start < |xs| {
      var n := |SubBatchesFrom(xs, bs, start + bs)|;
      assert |SubBatchesFrom(xs, bs, start)| == 1 + n;
      assert (1 + n) * bs == bs + n * bs;
      if start + bs <= |xs| {
        SubBatchesFromCount(xs, bs, start + bs);
      } else {
        assert n == 0;
      }
    }
  }

  /** There are ceil(|xs| / bs) sub-batches: the fewest slices of size bs that reach |xs|. */
  lemma SubBatchesCount<T>(xs: seq<T>, bs: nat)
    requires bs > 0
    ensures (|SubBatches(xs, bs)| - 1) * bs < |xs| <= |SubBatches(xs, bs)| * bs
  {
    SubBatchesFromCount(xs, bs, 0);
  }

  lemma MulPred(k: nat, bs: nat)
    requires k > 0
    ensures k * bs == (k - 1) * bs + bs
  {
  }

  /** k * bs, counted out one sub-batch at a time. */
  function Offset(k: nat, bs: nat): nat
  {
    if k == 0 then 0 else Offset(k - 1, bs) + bs
  }

  lemma {:induction false} OffsetIsProduct(k: nat, bs: nat)
    ensures Offset(k, bs) == k * bs
  {
    if k > 0 {
      OffsetIsProduct(k - 1, bs);
      MulPred(k, bs);
    }
  }

  lemma {:induction false} SubBatchFromAt<T>(xs: seq<T>, bs: nat, start: nat, k: nat)
    requires bs > 0 && k < |SubBatchesFrom(xs, bs, start)|
    ensures start + Offset(k, bs) < |xs|
    ensures SubBatchesFrom(xs, bs, start)[k] ==
            xs[start + Offset(k, bs) .. Min(start + Offset(k, bs) + bs, |xs|)]
    decreases |xs| - start
  {
    if k > 0 {
      assert SubBatchesFrom(xs, bs, start)[k] == SubBatchesFrom(xs, bs, start + bs)[k - 1];
      SubBatchFromAt(xs, bs, start + bs, k - 1);
      assert Offset(k, bs) == Offset(k - 1, bs) + bs;
    }
  }

  /** Sub-batch k is the slice [k * bs, min(k * bs + bs, |xs|)), which starts inside xs. */
  lemma SubBatchAt<T>(xs: seq<T>, bs: nat, k: nat)
    requires bs > 0 && k < |SubBatches(xs, bs)|
    ensures k * bs < |xs|
    ensures SubBatches(xs, bs)[k] == xs[k * bs .. Min(k * bs + bs, |xs|)]
  {
    SubBatchFromAt(xs, bs, 0, k);
    OffsetIsProduct(k, bs);
  }

  lemma {:induction false} SubBatchFromLength<T>(xs: seq<T>, bs: nat, start: nat, k: nat)
    requires bs > 0 && k < |SubBatchesFrom(xs, bs, start)|
    ensures |SubBatchesFrom(xs, bs, start)[k]| > 0
    ensures k < |SubBatchesFrom(xs, bs, start)| - 1 ==> |SubBatchesFrom(xs, bs, start)[k]| == bs
    decreases |xs| - start
  {
    var c := SubBatchesFrom(xs, bs, start);
    if k > 0 {
      assert c[k] == SubBatchesFrom(xs, bs, start + bs)[k - 1];
      SubBatchFromLength(xs, bs, start + bs, k - 1);
    } else if |c| > 1 {
      assert start + bs < |xs|;
    }
  }

  /** Every sub-batch is non-empty, and every one but the last holds exactly bs latents. */
  lemma SubBatchLength<T>(xs: seq<T>, bs: nat, k: nat)
    requires bs > 0 && k < |SubBatches(xs, bs)|
    ensures |SubBatches(xs, bs)[k]| > 0
    ensures k < |SubBatches(xs, bs)| - 1 ==> |SubBatches(xs, bs)[k]| == bs
  {
    SubBatchFromLength(xs, bs, 0, k);
  }

  /** The next slice the loop takes, `xs[i : i + bs]`, is the first sub-batch of what is left. */
  lemma SubBatchesStep<T>(xs: seq<T>, bs: nat, i: nat)
    requires bs > 0 && i < |xs|
    ensures SubBatchesFrom(xs, bs, i) == [Slice(xs, i, i + bs)] + SubBatchesFrom(xs, bs, i + bs)
  {
  }

  lemma DecodeEachCons<L, P>(decode: L -> P, b: seq<L>, bs: seq<seq<L>>)
    ensures DecodeEach(decode, [b] + bs) == [DecodeBatch(decode, b)] + DecodeEach(decode, bs)
  {
  }

  /** The sub-batch decodings concatenate to the whole-batch decoding, with ceil(n / bs) calls. */
  lemma DecodedWhole<L, P>(decode: L -> P, latents: seq<L>, bs: nat)
    requires bs > 0
    ensures var decoded := DecodeEach(decode, SubBatches(latents, bs));
            Flatten(decoded) == DecodeBatch(decode, latents) &&
            (|decoded| - 1) * bs < |latents| <= |decoded| * bs
  {
    SubBatchesCover(latents, bs);
    SubBatchesCount(latents, bs);
    DecodeEachFlatten(decode, SubBatches(latents, bs));
  }

  /**
   * The loop at lines 117-120. A step of 0 makes `range` raise; a negative
   * step gives an empty range, so nothing is decoded.
   */
  method DecodeAll<L, P>(latents: seq<L>, bs: int, decode: L -> P)
    returns (r: Result<seq<seq<P>>, Failure>)
    ensures bs == 0 <==> r == Err(ZeroStep)
    ensures bs < 0 ==> r == Ok([])
    ensures bs > 0 ==> r == Ok(DecodeEach(decode, SubBatches(latents, bs)))
    ensures bs > 0 ==> Flatten(r.value) == DecodeBatch(decode, latents)
    ensures bs > 0 ==> (|r.value| - 1) * bs < |latents| <= |r.value| * bs
  {
    if bs == 0 {
      return Err(ZeroStep);
    } else if bs < 0 {
      return Ok([]);
    }
    ghost var whole := DecodeEach(decode, SubBatches(latents, bs));
    var decoded: seq<seq<P>> := [];
    var i: nat := 0;
    while i < |latents|
      invariant whole == decoded + DecodeEach(decode, SubBatchesFrom(latents, bs, i))
      decreases |latents| - i
    {
      SubBatchesStep(latents, bs, i);
      DecodeEachCons(decode, Slice(latents, i, i + bs), SubBatchesFrom(latents, bs, i + bs));
      ghost var later := DecodeEach(decode, SubBatchesFrom(latents, bs, i + bs));
      var images := DecodeBatch(decode, Slice(latents, i, i + bs));
      assert decoded + ([images] + later) == (decoded + [images]) + later;
      decoded := decoded + [images];
      i := i + bs;
    }
    assert DecodeEach(decode, SubBatchesFrom(latents, bs, i)) == [];
    assert decoded == whole;
    DecodedWhole(decode, latents, bs);
    r := Ok(decoded);
  }

  /** `mx.concatenate(decoded, axis=0)`: raises on an empty list. */
  function Concatenate<P>(parts: seq<seq<P>>): (r: Result<seq<P>, Failure>)
    ensures r.Ok? <==> |parts| > 0
    ensures r.Ok? ==> r.value == Flatten(parts)
  {
    if |parts| == 0 then Err(NothingToConcatenate) else Ok(Flatten(parts))
  }
}
