/**
 * Shared vocabulary of the txt2image model: the outcome of an operation that
 * can raise, the failures the orchestration code can raise, and Python's
 * slicing and list concatenation on sequences.
 */
module Common {

  datatype Option<+T> = None | Some(value: T)

  datatype Result<+T, +E> = Ok(value: T) | Err(error: E)

  /** The exceptions the orchestration core can raise; each one ends the run. */
  datatype Failure =
    | ZeroStep              // range(0, n, 0): "range() arg 3 must not be zero"
    | NothingToConcatenate  // mx.concatenate of an empty list
    | ZeroRows              // B // n_rows with n_rows == 0: ZeroDivisionError
    | BadReshape            // reshape to a shape with another element count, or a negative extent

  function Min(a: int, b: int): int
  {
    if a <= b then a else b
  }

  /** Python's `xs[lo:hi]` for 0 <= lo, hi: bounds past the end are cut back to it. */
  function Slice<T>(xs: seq<T>, lo: nat, hi: nat): (s: seq<T>)
    ensures hi <= |xs| && lo <= hi ==> s == xs[lo..hi]
    ensures lo < |xs| && lo <= hi ==> s == xs[lo..Min(hi, |xs|)]
    ensures |s| == if Min(lo, |xs|) <= Min(hi, |xs|) then Min(hi, |xs|) - Min(lo, |xs|) else 0
  {
    var l, h := Min(lo, |xs|), Min(hi, |xs|);
    if l <= h then xs[l..h] else []
  }

  /** Concatenation of a list of sequences, in order (`mx.concatenate(parts, axis=0)`). */
  function Flatten<T>(ss: seq<seq<T>>): seq<T>
  {
    if |ss| == 0 then [] else ss[0] + Flatten(ss[1..])
  }

  lemma {:induction false} FlattenAppend<T>(a: seq<seq<T>>, b: seq<seq<T>>)
    ensures Flatten(a + b) == Flatten(a) + Flatten(b)
  {
    if |a| == 0 {
      assert a + b == b;
    } else {
      assert (a + b)[1..] == a[1..] + b;
      FlattenAppend(a[1..], b);
    }
  }

  /** Concatenating pieces that all have length `len` gives |ss| * len elements. */
  lemma {:induction false} FlattenUniformLength<T>(ss: seq<seq<T>>, len: nat)
    requires forall i :: 0 <= i < |ss| ==> |ss[i]| == len
    ensures |Flatten(ss)| == |ss| * len
  {
    if |ss| > 0 {
      FlattenUniformLength(ss[1..], len);
      assert |ss| * len == len + (|ss| - 1) * len;
    }
  }

  /** Element j of piece k sits at k * len + j of the concatenation of equal-length pieces. */
  lemma {:induction false} FlattenUniformAt<T>(ss: seq<seq<T>>, len: nat, k: nat, j: nat)
    requires forall i :: 0 <= i < |ss| ==> |ss[i]| == len
    requires k < |ss| && j < len
    ensures k * len + j < |Flatten(ss)|
    ensures Flatten(ss)[k * len + j] == ss[k][j]
  {
    FlattenUniformLength(ss, len);
    if k > 0 {
      FlattenUniformAt(ss[1..], len, k - 1, j);
      assert k * len + j == len + ((k - 1) * len + j);
    }
  }

  /** A property of every element of every piece holds of every element of the concatenation. */
  lemma {:induction false} FlattenAll<T>(ss: seq<seq<T>>, p: T -> bool)
    requires forall i, j :: 0 <= i < |ss| && 0 <= j < |ss[i]| ==> p(ss[i][j])
    ensures forall k :: 0 <= k < |Flatten(ss)| ==> p(Flatten(ss)[k])
  {
    if |ss| > 0 {
      FlattenAll(ss[1..], p);
      forall k | 0 <= k < |Flatten(ss)| ensures p(Flatten(ss)[k]) {
        if k >= |ss[0]| {
          assert Flatten(ss)[k] == Flatten(ss[1..])[k - |ss[0]|];
        } else {
          assert Flatten(ss)[k] == ss[0][k];
        }
      }
    }
  }
}
