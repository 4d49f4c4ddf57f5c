/** set_power_limit of tools/RAPL/RaplSetPower.c, and how the limit is read back. */
module RaplPowerLimit {

  /** set_power_limit: the word written to MSR_PKG_RAPL_POWER_LIMIT, from the word read.
      The set point is a uint32. */
  function Limited(reg: bv64, setpoint: bv32): bv64 {
    var first := (reg & 0xFFFF_FFFF_FFFF_0000) | setpoint as bv64 | 0x8000;
    (first & 0xFFFF_FFFF_0000_FFFF) | 0xD_0000
  }

  /** Bits 0 to 14, which a reader multiplies with the power unit. */
  function Decoded(reg: bv64): bv64 {
    reg & 0x7FFF
  }

  /** The upper half stays, the enable bit is set, the bits above it hold 0xD, and the limit reads back exactly if
      it fits its 15 bits; a larger one is cut to them. */
  lemma LimitedWord(reg: bv64, setpoint: bv32)
    ensures Limited(reg, setpoint) >> 32 == reg >> 32
    ensures Limited(reg, setpoint) & 0x8000 == 0x8000
    ensures (Limited(reg, setpoint) >> 16) & 0xFFFF == 0xD
    ensures Decoded(Limited(reg, setpoint)) == setpoint as bv64 & 0x7FFF
    ensures Decoded(Limited(reg, setpoint)) == setpoint as bv64 <==> setpoint < 0x8000
  {
  }

  function AfterLimits(reg: bv64, setpoints: seq<bv32>): bv64 {
    if setpoints == [] then reg
    else Limited(AfterLimits(reg, setpoints[..|setpoints| - 1]), setpoints[|setpoints| - 1])
  }

  lemma OneMoreLimit(reg: bv64, front: seq<bv32>, last: bv32)
    ensures AfterLimits(reg, front + [last]) == Limited(AfterLimits(reg, front), last)
  {
    assert (front + [last])[..|front|] == front;
  }

  lemma {:induction false} UpperHalfStays(reg: bv64, setpoints: seq<bv32>)
    ensures AfterLimits(reg, setpoints) >> 32 == reg >> 32
  {
    if setpoints != [] {
      UpperHalfStays(reg, setpoints[..|setpoints| - 1]);
      LimitedWord(AfterLimits(reg, setpoints[..|setpoints| - 1]), setpoints[|setpoints| - 1]);
    }
  }

  /** After any sequence of calls the register decodes to exactly the last set point
      if and only if that one is below 2^15. */
  lemma LastLimitIsRead(reg: bv64, before: seq<bv32>, last: bv32)
    ensures Decoded(AfterLimits(reg, before + [last])) == last as bv64 <==> last < 0x8000
  {
    OneMoreLimit(reg, before, last);
    LimitedWord(AfterLimits(reg, before), last);
  }
}
