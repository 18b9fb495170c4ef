/** Saturating unsigned 64-bit arithmetic. */
module U64 {
  const U64_MAX: nat := 0xffff_ffff_ffff_ffff

  function SatAdd(a: nat, b: nat): nat { if a + b > U64_MAX then U64_MAX else a + b }

  function SatSub(a: nat, b: nat): nat { if a < b then 0 else a - b }
}
