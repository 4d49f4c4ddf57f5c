/** IDXPerfVirtualFilterRegister: five filter registers of an accelerator counter,
    packed into one config1 word. */
module IdxFilter {

  datatype Filter = Wq | Tc | PgSz | XferSz | Eng

  /** What the assignment operator makes of config1. */
  function Updated(config1: bv64, f: Filter, val: bv64): bv64 {
    match f
    case Wq => (config1 & 0xFFF_FFFF_0000_0000) | (val & 0xFFFF_FFFF)
    case Tc => (config1 & 0xFFF_FF00_FFFF_FFFF) | ((val & 0xFF) << 32)
    case PgSz => (config1 & 0xFFF_F0FF_FFFF_FFFF) | ((val & 0xF) << 40)
    case XferSz => (config1 & 0xFF0_0FFF_FFFF_FFFF) | ((val & 0xFF) << 44)
    case Eng => (config1 & 0x00F_FFFF_FFFF_FFFF) | ((val & 0xFF) << 52)
  }

  /** The field of config1 that a filter register stands for: wq:32, tc:8, pg_sz:4,
      xfer_sz:8, eng:8, from bit 0 up. */
  function FieldOf(config1: bv64, f: Filter): bv64 {
    match f
    case Wq => config1 & 0xFFFF_FFFF
    case Tc => (config1 >> 32) & 0xFF
    case PgSz => (config1 >> 40) & 0xF
    case XferSz => (config1 >> 44) & 0xFF
    case Eng => (config1 >> 52) & 0xFF
  }

  function Masked(f: Filter, val: bv64): bv64 {
    match f
    case Wq => val & 0xFFFF_FFFF
    case PgSz => val & 0xF
    case _ => val & 0xFF
  }

  /** A control register of a counter; its filter registers share it. */
  class ControlRegister {
    var config1: bv64

    constructor ()
      ensures config1 == 0
    {
      config1 := 0;
    }
  }

  /** `filterNr` may be anything; other numbers than 0 to 4 change no field. */
  function FilterOf(filterNr: int): Filter
    requires 0 <= filterNr <= 4
  {
    if filterNr == 0 then Wq
    else if filterNr == 1 then Tc
    else if filterNr == 2 then PgSz
    else if filterNr == 3 then XferSz
    else Eng
  }

  /** Where the fields of the five filter numbers are. */
  lemma FieldOfNumber(config1: bv64)
    ensures FieldOf(config1, FilterOf(0)) == config1 & 0xFFFF_FFFF
    ensures FieldOf(config1, FilterOf(1)) == (config1 >> 32) & 0xFF
    ensures FieldOf(config1, FilterOf(2)) == (config1 >> 40) & 0xF
    ensures FieldOf(config1, FilterOf(3)) == (config1 >> 44) & 0xFF
    ensures FieldOf(config1, FilterOf(4)) == (config1 >> 52) & 0xFF
  {
  }

  /** How much of a value each of them takes. */
  lemma MaskOfNumber(val: bv64)
    ensures Masked(FilterOf(0), val) == val & 0xFFFF_FFFF
    ensures Masked(FilterOf(1), val) == val & 0xFF && Masked(FilterOf(2), val) == val & 0xF
    ensures Masked(FilterOf(3), val) == val & 0xFF && Masked(FilterOf(4), val) == val & 0xFF
  {
  }

  class FilterRegister {
    const controlReg: ControlRegister
    const filterNr: int
    var lastValue: bv64

    constructor (controlReg: ControlRegister, filterNr: int)
      ensures this.controlReg == controlReg && this.filterNr == filterNr && lastValue == 0
    {
      this.controlReg, this.filterNr, lastValue := controlReg, filterNr, 0;
    }

    /** The assignment operator: of the shared word it changes its own field and the
        unused upper bits, whatever the other fields hold. */
    method Assign(val: bv64)
      modifies this`lastValue, controlReg
      ensures lastValue == val
      ensures !(0 <= filterNr <= 4) ==> controlReg.config1 == old(controlReg.config1)
      ensures 0 <= filterNr <= 4 ==>
        && controlReg.config1 == Updated(old(controlReg.config1), FilterOf(filterNr), val)
        && FieldOf(controlReg.config1, FilterOf(filterNr)) == Masked(FilterOf(filterNr), val)
        && forall f :: f != FilterOf(filterNr) ==> FieldOf(controlReg.config1, f) == FieldOf(old(controlReg.config1), f)
    {
      lastValue := val;
      if 0 <= filterNr <= 4 {
        forall f {
          UpdatingOneField(controlReg.config1, FilterOf(filterNr), val, f);
        }
        controlReg.config1 := Updated(controlReg.config1, FilterOf(filterNr), val);
      }
    }

    /** The conversion operator gives back the unmasked value. */
    method Value() returns (val: bv64)
      ensures val == lastValue
    {
      val := lastValue;
    }
  }

  lemma UpdatingWq(config1: bv64, val: bv64, g: Filter)
    ensures Updated(config1, Wq, val) & 0xF000_0000_0000_0000 == 0
    ensures FieldOf(Updated(config1, Wq, val), g) == if g == Wq then Masked(Wq, val) else FieldOf(config1, g)
  {
    match g
    case Wq =>
    case Tc =>
    case PgSz =>
    case XferSz =>
    case Eng =>
  }

  lemma UpdatingTc(config1: bv64, val: bv64, g: Filter)
    ensures Updated(config1, Tc, val) & 0xF000_0000_0000_0000 == 0
    ensures FieldOf(Updated(config1, Tc, val), g) == if g == Tc then Masked(Tc, val) else FieldOf(config1, g)
  {
    match g
    case Wq =>
    case Tc =>
    case PgSz =>
    case XferSz =>
    case Eng =>
  }

  lemma UpdatingPgSz(config1: bv64, val: bv64, g: Filter)
    ensures Updated(config1, PgSz, val) & 0xF000_0000_0000_0000 == 0
    ensures FieldOf(Updated(config1, PgSz, val), g) == if g == PgSz then Masked(PgSz, val) else FieldOf(config1, g)
  {
    match g
    case Wq =>
    case Tc =>
    case PgSz =>
    case XferSz =>
    case Eng =>
  }

  lemma UpdatingXferSz(config1: bv64, val: bv64, g: Filter)
    ensures Updated(config1, XferSz, val) & 0xF000_0000_0000_0000 == 0
    ensures FieldOf(Updated(config1, XferSz, val), g)
         == if g == XferSz then Masked(XferSz, val) else FieldOf(config1, g)
  {
    match g
    case Wq =>
    case Tc =>
    case PgSz =>
    case XferSz =>
    case Eng =>
  }

  lemma UpdatingEng(config1: bv64, val: bv64, g: Filter)
    ensures Updated(config1, Eng, val) & 0xF000_0000_0000_0000 == 0
    ensures FieldOf(Updated(config1, Eng, val), g) == if g == Eng then Masked(Eng, val) else FieldOf(config1, g)
  {
    match g
    case Wq =>
    case Tc =>
    case PgSz =>
    case XferSz =>
    case Eng =>
  }

  /** A write sets its own field to the masked value and leaves the others alone. */
  lemma UpdatingOneField(config1: bv64, f: Filter, val: bv64, g: Filter)
    ensures FieldOf(Updated(config1, f, val), g) == if f == g then Masked(f, val) else FieldOf(config1, g)
  {
    match f
    case Wq => UpdatingWq(config1, val, g);
    case Tc => UpdatingTc(config1, val, g);
    case PgSz => UpdatingPgSz(config1, val, g);
    case XferSz => UpdatingXferSz(config1, val, g);
    case Eng => UpdatingEng(config1, val, g);
  }

  lemma UpdatingClearsUpperBits(config1: bv64, f: Filter, val: bv64)
    ensures Updated(config1, f, val) & 0xF000_0000_0000_0000 == 0
  {
    match f
    case Wq => UpdatingWq(config1, val, f);
    case Tc => UpdatingTc(config1, val, f);
    case PgSz => UpdatingPgSz(config1, val, f);
    case XferSz => UpdatingXferSz(config1, val, f);
    case Eng => UpdatingEng(config1, val, f);
  }

  // --------------------------------------------------------------- sequences

  datatype FilterWrite = FilterWrite(filter: Filter, val: bv64)

  function After(config1: bv64, writes: seq<FilterWrite>): bv64 {
    if writes == [] then config1
    else
      var last := writes[|writes| - 1];
      Updated(After(config1, writes[..|writes| - 1]), last.filter, last.val)
  }

  /** The last value written to `f`, masked, or the start value. */
  function LastWritten(start: bv64, f: Filter, writes: seq<FilterWrite>): bv64 {
    if writes == [] then start
    else
      var last := writes[|writes| - 1];
      if last.filter == f then Masked(f, last.val) else LastWritten(start, f, writes[..|writes| - 1])
  }

  /** After any writes in any order every field holds the masked last value written to
      it, an unwritten one its start value. */
  lemma {:induction false} FieldsAreIndependent(config1: bv64, writes: seq<FilterWrite>, f: Filter)
    ensures FieldOf(After(config1, writes), f) == LastWritten(FieldOf(config1, f), f, writes)
  {
    if writes != [] {
      var front, last := writes[..|writes| - 1], writes[|writes| - 1];
      FieldsAreIndependent(config1, front, f);
      UpdatingOneField(After(config1, front), last.filter, last.val, f);
    }
  }

  function Packed(wq: bv64, tc: bv64, pgSz: bv64, xferSz: bv64, eng: bv64): bv64 {
    wq | (tc << 32) | (pgSz << 40) | (xferSz << 44) | (eng << 52)
  }

  lemma WordIsItsFields(config1: bv64)
    requires config1 & 0xF000_0000_0000_0000 == 0
    ensures config1 == Packed(FieldOf(config1, Wq), FieldOf(config1, Tc), FieldOf(config1, PgSz),
                              FieldOf(config1, XferSz), FieldOf(config1, Eng))
  {
  }

  /** So from the first write on the word is nothing but the five fields packed, with
      the four upper bits zero. */
  lemma WordRefinesFields(config1: bv64, writes: seq<FilterWrite>)
    requires writes != []
    ensures After(config1, writes) & 0xF000_0000_0000_0000 == 0
    ensures After(config1, writes)
         == Packed(LastWritten(FieldOf(config1, Wq), Wq, writes), LastWritten(FieldOf(config1, Tc), Tc, writes),
                   LastWritten(FieldOf(config1, PgSz), PgSz, writes),
                   LastWritten(FieldOf(config1, XferSz), XferSz, writes),
                   LastWritten(FieldOf(config1, Eng), Eng, writes))
  {
    var front, last := writes[..|writes| - 1], writes[|writes| - 1];
    UpdatingClearsUpperBits(After(config1, front), last.filter, last.val);
    WordIsItsFields(After(config1, writes));
    FieldsAreIndependent(config1, writes, Wq);
    FieldsAreIndependent(config1, writes, Tc);
    FieldsAreIndependent(config1, writes, PgSz);
    FieldsAreIndependent(config1, writes, XferSz);
    FieldsAreIndependent(config1, writes, Eng);
  }
}
