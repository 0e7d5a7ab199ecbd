/** The fixed-width integer types of the Java program, over Dafny's unbounded `int`. */
module JavaInt {

  const Int32Min: int := -0x8000_0000
  const Int32Max: int := 0x7fff_ffff
  const Int64Min: int := -0x8000_0000_0000_0000
  const Int64Max: int := 0x7fff_ffff_ffff_ffff

  predicate InInt32(v: int) { Int32Min <= v <= Int32Max }

  predicate InInt64(v: int) { Int64Min <= v <= Int64Max }

  /** The value a Java `int` operation yields for the mathematical result `v`:
      `v` reduced modulo 2^32 into the two's-complement range. */
  function Wrap32(v: int): (r: int)
    ensures InInt32(r)
    ensures (r - v) % 0x1_0000_0000 == 0
    ensures InInt32(v) <==> r == v
  {
    var m := v % 0x1_0000_0000;
    if m <= Int32Max then m else m - 0x1_0000_0000
  }
}
