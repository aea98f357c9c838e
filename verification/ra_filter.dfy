/** The rolling-average filter as the C keeps it: a record whose sample buffer is a heap array (or
    NULL), updated in place. Each operation is proved to act exactly as the value-level model in
    `RollingAverage` does, so every property proved there holds of this object. Like that model,
    `Run` returns the corrected signed division, not the unsigned one the C evaluates (see
    `RollingAverage.AverageAsWritten`). */
module RaFilterObject {
  import opened Optional
  import opened CInt
  import RollingAverage

  class RaFilter {
    var size: nat
    var index: nat
    var count: nat
    var sum: int
    var values: array?<int>

    /** The record seen as a value. */
    ghost function Model(): RollingAverage.Filter
      reads this, values
    {
      RollingAverage.Filter(size, index, count, sum, if values == null then None else Some(values[..]))
    }

    ghost predicate Valid()
      reads this, values
    {
      RollingAverage.Valid(Model())
    }

    /** The zero-initialised static record, before `ra_filter_init` has run: it has no storage, so
        every sample fed to it passes through unchanged. */
    constructor ()
      ensures Valid() && Model() == RollingAverage.Filter(0, 0, 0, 0, None)
      ensures forall xs :: RollingAverage.Feed(Model(), xs) == (Model(), xs)
    {
      size, index, count, sum, values := 0, 0, 0, 0, null;
      new;
      forall xs: seq<int> ensures RollingAverage.Feed(Model(), xs) == (Model(), xs) {
        RollingAverage.PassThrough(Model(), xs);
      }
    }

    /** `ra_filter_init(filter, sampleSize)`; `mallocOk` is the outcome of `malloc`, and the result is
        false where the C returns NULL. */
    method Init(sampleSize: nat, mallocOk: bool) returns (ok: bool)
      requires sampleSize == 0 ==> !mallocOk
      modifies this
      ensures Valid()
      ensures Model() == RollingAverage.Init(sampleSize, mallocOk)
      ensures ok == mallocOk
      ensures ok ==> fresh(values)
    {
      size, index, count, sum, values := 0, 0, 0, 0, null;
      if !mallocOk {
        return false;
      }
      var buffer := new int[sampleSize](_ => 0);
      assert buffer[..] == seq(sampleSize, _ => 0);
      values := buffer;
      size := sampleSize;
      RollingAverage.SumOfZeros(sampleSize);
      ok := true;
    }

    /** `ra_filter_run(filter, value)`, statement by statement, except that the final division is the
        corrected signed one (truncating toward zero) rather than the C's unsigned `int / size_t`. */
    method Run(value: int) returns (average: int)
      requires Valid()
      modifies this, values
      ensures Valid()
      ensures values == old(values)
      ensures RollingAverage.Run(old(Model()), value) == RollingAverage.Step(Model(), average)
    {
      if values == null {
        return value;
      }
      ghost var before := Model();
      ghost var expected := RollingAverage.Run(before, value);
      ghost var i := index;
      sum := sum - values[index];
      values[index] := value;
      sum := sum + values[index];
      index := index + 1;
      index := index % size;
      if count < size {
        count := count + 1;
      }
      assert values[..] == before.values.value[i := value];
      assert Model().values == expected.filter.values;
      RollingAverage.SumOfUpdate(before.values.value, i, value);
      assert Model() == expected.filter;
      average := TruncDiv(sum, count);
    }
  }
}
