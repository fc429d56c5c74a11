/** The machine's bytes, and the ranges of its words. */
module MachineWords {

  type byte = bv8

  const TWO_TO_THE_32 := 0x1_0000_0000
  const TWO_TO_THE_64 := 0x1_0000_0000_0000_0000

  /** The conversion to a signed word of 32 bits. */
  function ToInt32(n: nat): (r: int)
    ensures -0x8000_0000 <= r < 0x8000_0000 && r <= n
    ensures r == n <==> n < 0x8000_0000
  {
    var low := n % TWO_TO_THE_32;
    if low < 0x8000_0000 then low else low - TWO_TO_THE_32
  }
}
