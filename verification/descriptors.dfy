/**
 * The binary descriptor file read by `readDescFromBinFile` and the reshape
 * of its flat value vector into 128-value descriptors. The element type `T`
 * stands for the 32-bit floats, which are only copied, never computed with.
 */
module Descriptors {
  import opened Outcomes

  /** Every SIFT descriptor has this many values. */
  const DescriptorLength: nat := 128

  /**
   * A descriptor file: the count `n` decoded from its `size_t` header, and
   * the values that follow the header, in file order.
   */
  datatype DescFile<T> = DescFile(count: nat, values: seq<T>)

  /** Why a descriptor file cannot be decoded: it holds fewer values than it declares. */
  datatype DecodeError = Truncated(declared: nat, available: nat)

  ghost predicate WellShaped<T>(rows: seq<seq<T>>)
  {
    forall a :: 0 <= a < |rows| ==> |rows[a]| == DescriptorLength
  }

  /**
   * The read loop as written: `n` reads of one value each. `cur` is declared
   * inside the loop body without an initialiser, so a read past the end of
   * the file fails and leaves it indeterminate, and it is pushed anyway.
   * Every such indeterminate value is modelled as the one value `stale`.
   */
  function ReadValuesAsWritten<T>(values: seq<T>, n: nat, stale: T): (r: seq<T>)
    ensures |r| == n
    ensures forall k :: 0 <= k < n && k < |values| ==> r[k] == values[k]
    ensures forall k :: |values| <= k < n ==> r[k] == stale
  {
    if n == 0 then []
    else ReadValuesAsWritten(values, n - 1, stale) + [if n - 1 < |values| then values[n - 1] else stale]
  }

  /** `readDescFromBinFile` as written: always `128 * count` values. */
  function ReadDescAsWritten<T>(f: DescFile<T>, stale: T): (r: seq<T>)
    ensures |r| == DescriptorLength * f.count
    ensures forall k :: 0 <= k < |r| && k < |f.values| ==> r[k] == f.values[k]
  {
    ReadValuesAsWritten(f.values, DescriptorLength * f.count, stale)
  }

  /** A file declaring one descriptor but holding no values still yields 128 values, all stale. */
  lemma ShortFileYieldsStaleValues<T>(stale: T)
    ensures ReadDescAsWritten(DescFile(1, []), stale) == seq(DescriptorLength, _ => stale)
  {
  }

  /**
   * The checked decoder: exactly the first `128 * count` values when the
   * file holds them, otherwise a truncation error. Values beyond them are
   * ignored, as the source never reads them.
   */
  function DecodeDescriptors<T>(f: DescFile<T>): (r: Result<seq<T>, DecodeError>)
    ensures r.Ok? <==> |f.values| >= DescriptorLength * f.count
    ensures r.Ok? ==> |r.value| == DescriptorLength * f.count && r.value <= f.values
    ensures r.Err? ==> r.error == Truncated(f.count, |f.values|)
  {
    if |f.values| < DescriptorLength * f.count then Err(Truncated(f.count, |f.values|))
    else Ok(f.values[..DescriptorLength * f.count])
  }

  /** On a file that is not short, the checked decoder returns what the source reads. */
  lemma DecodeAgreesOnCompleteFiles<T>(f: DescFile<T>, stale: T)
    requires |f.values| >= DescriptorLength * f.count
    ensures DecodeDescriptors(f) == Ok(ReadDescAsWritten(f, stale))
  {
    var n := DescriptorLength * f.count;
    assert f.values[..n] == ReadDescAsWritten(f, stale);
  }

  /** Descriptors laid out one after another. */
  function Flatten<T>(rows: seq<seq<T>>): seq<T>
  {
    if |rows| == 0 then [] else rows[0] + Flatten(rows[1..])
  }

  /** The file a writer produces for `rows`: the count, then every value row after row. */
  function Encode<T>(rows: seq<seq<T>>): DescFile<T>
  {
    DescFile(|rows|, Flatten(rows))
  }

  /**
   * The reshape loop after loading: `|flat| / 128` rows of 128 values, row
   * `a` holding `flat[128 * a .. 128 * a + 128]`; a trailing partial chunk
   * is dropped.
   */
  function Reshape<T>(flat: seq<T>): (rows: seq<seq<T>>)
    ensures |rows| == |flat| / DescriptorLength
    ensures WellShaped(rows)
    ensures forall a, b :: 0 <= a < |rows| && 0 <= b < DescriptorLength ==>
      rows[a][b] == flat[DescriptorLength * a + b]
    decreases |flat|
  {
    if |flat| < DescriptorLength then []
    else [flat[..DescriptorLength]] + Reshape(flat[DescriptorLength..])
  }

  lemma {:induction false} FlattenLength<T>(rows: seq<seq<T>>)
    requires WellShaped(rows)
    ensures |Flatten(rows)| == DescriptorLength * |rows|
  {
    if |rows| > 0 {
      FlattenLength(rows[1..]);
    }
  }

  /** Reshaping descriptors laid out one after another gives them back. */
  lemma {:induction false} ReshapeFlatten<T>(rows: seq<seq<T>>)
    requires WellShaped(rows)
    ensures Reshape(Flatten(rows)) == rows
  {
    if |rows| > 0 {
      FlattenLength(rows);
      var flat := Flatten(rows);
      assert flat[..DescriptorLength] == rows[0];
      assert flat[DescriptorLength..] == Flatten(rows[1..]);
      ReshapeFlatten(rows[1..]);
    }
  }

  /** Laying the reshaped rows out again gives the input without its trailing partial chunk. */
  lemma {:induction false} FlattenReshape<T>(flat: seq<T>)
    ensures Flatten(Reshape(flat)) == flat[..DescriptorLength * (|flat| / DescriptorLength)]
    decreases |flat|
  {
    if |flat| >= DescriptorLength {
      var rest := flat[DescriptorLength..];
      FlattenReshape(rest);
      assert DescriptorLength * (|flat| / DescriptorLength)
        == DescriptorLength + DescriptorLength * (|rest| / DescriptorLength);
      assert Reshape(flat)[1..] == Reshape(rest);
      assert flat[..DescriptorLength * (|flat| / DescriptorLength)]
        == flat[..DescriptorLength] + rest[..DescriptorLength * (|rest| / DescriptorLength)];
    }
  }

  /** A decoded vector, whose length is a multiple of 128, reshapes without loss. */
  lemma ReshapeWhole<T>(flat: seq<T>)
    requires |flat| % DescriptorLength == 0
    ensures Flatten(Reshape(flat)) == flat
  {
    FlattenReshape(flat);
    assert DescriptorLength * (|flat| / DescriptorLength) == |flat|;
  }

  /**
   * Writing descriptors and loading them back yields exactly `n` rows of 128
   * values, each equal to the one written.
   */
  lemma EncodeDecodeRoundTrip<T>(rows: seq<seq<T>>)
    requires WellShaped(rows)
    ensures DecodeDescriptors(Encode(rows)) == Ok(Flatten(rows))
    ensures Reshape(Flatten(rows)) == rows
  {
    FlattenLength(rows);
    var flat := Flatten(rows);
    assert flat[..DescriptorLength * |rows|] == flat;
    ReshapeFlatten(rows);
  }
}
