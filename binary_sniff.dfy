/** `isBinary` of packages/cli/src/ui/utils/textUtils.ts: a buffer is taken
    to be binary when a NUL byte occurs among its first `sampleSize`
    bytes. */
module BinarySniff {
  import opened JsStrings

  /** The default of the `sampleSize` parameter. */
  const DEFAULT_SAMPLE_SIZE: int := 512

  /** The number of leading bytes examined: the whole buffer unless it is
      longer than `sampleSize`, then `data.subarray(0, sampleSize)`. */
  function SampleLength(len: nat, sampleSize: int): (n: nat)
    ensures n <= len
    ensures 0 <= sampleSize ==> n == if len < sampleSize then len else sampleSize
  {
    if len > sampleSize then RelativeIndex(sampleSize, len) else len
  }

  /** The verdict `isBinary` is meant to give: the buffer is present and a
      NUL occurs within the sample. */
  predicate NulInSample(data: Option<seq<Byte>>, sampleSize: int) {
    data.Some? && exists i :: 0 <= i < SampleLength(|data.value|, sampleSize) && data.value[i] == 0
  }

  /** `isBinary(data, sampleSize)`; `None` stands for `null` or
      `undefined`. */
  method IsBinary(data: Option<seq<Byte>>, sampleSize: int) returns (binary: bool)
    ensures binary <==> NulInSample(data, sampleSize)
  {
    if data.None? {
      return false;
    }
    var buffer := data.value;
    var sample := if |buffer| > sampleSize then buffer[..RelativeIndex(sampleSize, |buffer|)] else buffer;
    var i := 0;
    while i < |sample|
      invariant 0 <= i <= |sample|
      invariant forall k :: 0 <= k < i ==> sample[k] != 0
    {
      if sample[i] == 0 {
        return true;
      }
      i := i + 1;
    }
    return false;
  }

  /** A missing buffer is never binary. */
  lemma AbsentIsText(sampleSize: int)
    ensures !NulInSample(None, sampleSize)
  {
  }

  /** With a non-negative sample size the verdict is "some byte among the
      first `min(length, sampleSize)` is 0". */
  lemma NulInPrefix(data: seq<Byte>, sampleSize: int)
    requires 0 <= sampleSize
    ensures NulInSample(Some(data), sampleSize) <==>
            exists i :: 0 <= i < |data| && i < sampleSize && data[i] == 0
  {
  }

  /** Called without a sample size, `isBinary` looks at the first 512
      bytes. */
  lemma DefaultSampleSize(data: seq<Byte>)
    ensures NulInSample(Some(data), DEFAULT_SAMPLE_SIZE) <==>
            exists i :: 0 <= i < |data| && i < 512 && data[i] == 0
  {
    NulInPrefix(data, DEFAULT_SAMPLE_SIZE);
  }

  /** Bytes past the sample never change the verdict. */
  lemma BeyondSampleIgnored(data: seq<Byte>, extra: seq<Byte>, sampleSize: int)
    requires 0 <= sampleSize <= |data|
    ensures NulInSample(Some(data + extra), sampleSize) == NulInSample(Some(data), sampleSize)
  {
    assert forall i :: 0 <= i < sampleSize ==> (data + extra)[i] == data[i];
  }

  /** A negative sample size counts from the end: all but the last
      `-sampleSize` bytes are examined. */
  lemma NegativeSampleSize(data: seq<Byte>, sampleSize: int)
    requires sampleSize < 0
    ensures NulInSample(Some(data), sampleSize) <==>
            exists i :: 0 <= i < |data| + sampleSize && data[i] == 0
  {
  }
}
