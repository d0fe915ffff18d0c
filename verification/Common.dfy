/** Machine words, optional values and small arithmetic shared by all modules. */
module Common {

  type U32 = n: nat | n < 0x1_0000_0000
  type U64 = n: nat | n < 0x1_0000_0000_0000_0000

  datatype Option<+T> = None | Some(value: T)

  function Max(a: nat, b: nat): nat {
    if a < b then b else a
  }

  /** Saturating difference of two readings of a clock. */
  function Since(start: nat, now: nat): nat {
    if start <= now then now - start else 0
  }

  /** Release-mode `+ 1` on a 32-bit counter. */
  function Increment(n: U32): U32 {
    if n == 0xFFFF_FFFF then 0 else n + 1
  }

  /** Counters are compared after being incremented, so a threshold of zero acts like one. */
  function AtLeastOne(n: nat): nat {
    if n == 0 then 1 else n
  }
}
