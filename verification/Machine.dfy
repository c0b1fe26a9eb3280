/** Machine words: the ranges of unsigned integers and their wrapping subtraction. */
module Machine {

  const TWO32 := 0x1_0000_0000
  const TWO64 := 0x1_0000_0000_0000_0000

  function Wrap32(n: nat): nat { n % TWO32 }

  /** Unsigned subtraction as the machine does it. */
  function Sub32(a: int, b: int): nat { (a - b) % TWO32 }
  function Sub64(a: int, b: int): nat { (a - b) % TWO64 }

  function Min(a: nat, b: nat): nat { if a <= b then a else b }
}
