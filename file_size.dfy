/**
 * `calculateFileSize(size:)` of FileManager+Ex.swift: a byte count scaled down
 * by 1024 until it is at most 1024, with the unit that many steps up the
 * table. `Double` is taken as exact; the `"%4.2f %@"` formatting is not part of
 * this model.
 */
module FileSize {

  /** The unit names, bytes first. */
  const Units: seq<string> := ["bytes", "KB", "MB", "GB", "TB", "PB", "EB", "ZB", "YB"]

  /** The largest `UInt64`, plus one. */
  const UInt64Bound: nat := 0x1_0000_0000_0000_0000

  /** 1024 to the power `k`. */
  function Pow1024(k: nat): (p: real)
    ensures p >= 1.0
  {
    if k == 0 then 1.0 else 1024.0 * Pow1024(k - 1)
  }

  /** `value` is `size` after `idx` divisions by 1024, each of which the loop
    * took because the value was still above 1024. */
  predicate Reached(size: nat, value: real, idx: nat)
  {
    idx <= 6 && value * Pow1024(idx) == size as real
    && forall k: nat :: k < idx ==> size as real > 1024.0 * Pow1024(k)
  }

  /** `calculateFileSize(size:)`: the scaled value and its unit. */
  method CalculateFileSize(size: nat) returns (value: real, unit: string)
    requires size < UInt64Bound
    ensures value <= 1024.0
    ensures exists idx: nat :: idx <= 6 && unit == Units[idx] && Reached(size, value, idx)
  {
    var idx := 0;
    value := size as real;
    var values := Units;
    while value > 1024.0
      invariant idx <= 6 && Reached(size, value, idx)
      decreases 6 - idx
    {
      StepDown(size, value, idx);
      value := value / 1024.0;
      idx := idx + 1;
    }
    unit := values[idx];
    assert unit == Units[idx];
  }

  /** The loop's invariant survives one more division by 1024. */
  lemma StepDown(size: nat, value: real, idx: nat)
    requires size < UInt64Bound && value > 1024.0 && Reached(size, value, idx)
    ensures idx + 1 <= 6 && Reached(size, value / 1024.0, idx + 1)
  {
    ScaledAbove(size, value, Pow1024(idx));
    TooLargeForSeven(size, idx);
    Scale(value, Pow1024(idx));
    assert Pow1024(idx + 1) == 1024.0 * Pow1024(idx);
  }

  /** One more step down the table: the value shrinks by 1024 while the power
    * grows by 1024. */
  lemma Scale(value: real, p: real)
    ensures value / 1024.0 * (1024.0 * p) == value * p
  {
  }

  /** A value above 1024 means the size is above 1024 times the power. */
  lemma ScaledAbove(size: nat, value: real, p: real)
    requires value > 1024.0 && p >= 1.0 && value * p == size as real
    ensures size as real > 1024.0 * p
  {
    assert (value - 1024.0) * p > 0.0;
  }

  /** A `UInt64` never needs a seventh step: 1024^7 is 2^70. */
  lemma TooLargeForSeven(size: nat, idx: nat)
    requires size < UInt64Bound && idx <= 6
    requires size as real > 1024.0 * Pow1024(idx)
    ensures idx < 6
  {
    if idx == 6 {
      assert false;
    }
  }

  /** `idx` is the least number of steps after which the value is at most
    * 1024; exactly 1024 bytes stay in bytes, because the test is strict. */
  lemma LeastSteps(size: nat, idx: nat, value: real)
    requires value <= 1024.0 && Reached(size, value, idx)
    ensures size as real <= 1024.0 * Pow1024(idx)
    ensures size <= 1024 ==> idx == 0 && value == size as real
  {
    ScaleBelow(size, value, Pow1024(idx));
    assert 1024.0 * Pow1024(0) == 1024.0;
    if size <= 1024 && idx > 0 {
      assert false;
    }
  }

  lemma ScaleBelow(size: nat, value: real, p: real)
    requires value <= 1024.0 && p >= 1.0 && value * p == size as real
    ensures size as real <= 1024.0 * p
  {
    assert (1024.0 - value) * p >= 0.0;
  }
}
