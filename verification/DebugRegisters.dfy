/** The four hardware debug registers and their control register DR7 (section 17.2.4 of the Intel SDM,
    volume 3B), as `set_hardware_stoppoint` and `clear_hardware_stoppoint` allocate them. */
module DebugRegisters {
  import opened Words

  type Slot = i: int | 0 <= i < 4

  datatype Mode = WriteAccess | ReadWrite | Execute

  // ----- Words as the sets of their one bits -----

  type Bits = set<int>

  predicate InWidth(b: int, width: nat) {
    0 <= b < width
  }

  /** `x << n` in a word of `width` bits. */
  function ShiftBits(x: Bits, n: nat, width: nat): Bits {
    set b | 0 <= b < width && InWidth(b, width) && b - n in x
  }

  predicate IsWord(x: Bits) {
    forall b :: b in x ==> 0 <= b < 64
  }

  /** `~x` for a 32-bit `int`. */
  function Complement32(x: Bits): Bits {
    set b | 0 <= b < 32 && b !in x
  }

  /** The conversion of a 32-bit `int` to a 64-bit word: the sign bit is spread. */
  function Widen(x: Bits): Bits {
    x + set b | 32 <= b < 64 && InWidth(b, 64) && 31 in x
  }

  function EncodeMode(mode: Mode): (bits: Bits)
    ensures bits <= {0, 1}
  {
    match mode
    case WriteAccess => {0}
    case ReadWrite => {0, 1}
    case Execute => {}
  }

  function EncodeSize(size: nat): (bits: Result<Bits>)
    ensures bits.Ok? ==> bits.value <= {0, 1}
  {
    match size
    case 1 => Ok({})
    case 2 => Ok({0})
    case 4 => Ok({0, 1})
    case 8 => Ok({1})
    case _ => Err(InvalidSize)
  }

  // ----- DR7 -----

  /** Bits 0 to 7 of DR7 hold two enable bits for each slot. */
  function EnableMask(slot: Slot): Bits {
    ShiftBits({0, 1}, slot * 2, 32)
  }

  /** `control & ~clear_mask`. The mask is an `int`; for slot 3 it is negative, so its complement is
      positive and the upper half of DR7 is cleared as well. */
  function Cleared(control: Bits, slot: Slot): Bits {
    control * Widen(Complement32(EnableMask(slot) + ShiftBits({0, 1, 2, 3}, slot * 4 + 16, 32)))
  }

  function Armed(control: Bits, slot: Slot, mode: Bits, size: Bits): Bits {
    Cleared(control, slot) + Widen(ShiftBits({0}, slot * 2, 32))
    + ShiftBits(mode, slot * 4 + 16, 64) + ShiftBits(size, slot * 4 + 18, 64)
  }

  predicate Free(control: Bits, slot: Slot) {
    control * Widen(EnableMask(slot)) == {}
  }

  /** What the processor sees of a slot: its enable bits and the four bits of its mode and size. */
  function EnableBits(control: Bits, slot: Slot): Bits {
    set b | 0 <= b < 2 && InWidth(b, 2) && slot * 2 + b in control
  }

  function ModeBits(control: Bits, slot: Slot): Bits {
    set b | 0 <= b < 2 && InWidth(b, 2) && slot * 4 + 16 + b in control
  }

  function SizeBits(control: Bits, slot: Slot): Bits {
    set b | 0 <= b < 2 && InWidth(b, 2) && slot * 4 + 18 + b in control
  }

  predicate SameSlot(a: Bits, b: Bits, slot: Slot) {
    EnableBits(a, slot) == EnableBits(b, slot) && ModeBits(a, slot) == ModeBits(b, slot) && SizeBits(a, slot) == SizeBits(b, slot)
  }

  function UpperHalf(control: Bits): Bits {
    set b | b in control && 32 <= b
  }

  lemma FreeIsDisabled(control: Bits, slot: Slot)
    ensures Free(control, slot) <==> EnableBits(control, slot) == {}
  {
    if !Free(control, slot) {
      var b :| b in control * Widen(EnableMask(slot));
      assert b - slot * 2 in EnableBits(control, slot);
    }
    if b :| b in EnableBits(control, slot) {
      assert slot * 2 + b in control * Widen(EnableMask(slot));
    }
  }

  /** The bits that clearing a slot removes: its own, and for slot 3 the upper half. */
  lemma ClearedBits(control: Bits, slot: Slot, b: int)
    requires 0 <= b < 64
    ensures b in Cleared(control, slot)
       <==> b in control && !(slot * 2 <= b < slot * 2 + 2) && !(slot * 4 + 16 <= b < slot * 4 + 20) && !(slot == 3 && b >= 32)
  {
  }

  lemma ArmedBits(control: Bits, slot: Slot, mode: Bits, size: Bits, b: int)
    requires 0 <= b < 64 && mode <= {0, 1} && size <= {0, 1}
    ensures b in Armed(control, slot, mode, size)
       <==> b in Cleared(control, slot) || b == slot * 2 || b - (slot * 4 + 16) in mode || b - (slot * 4 + 18) in size
  {
  }

  /** Clearing a slot disables it and leaves the others alone; the upper half of DR7 survives, except
      that clearing slot 3 clears it. */
  lemma ClearedSlot(control: Bits, slot: Slot, other: Slot)
    requires IsWord(control)
    ensures EnableBits(Cleared(control, slot), slot) == {}
    ensures other != slot ==> SameSlot(Cleared(control, slot), control, other)
    ensures UpperHalf(Cleared(control, slot)) == if slot == 3 then {} else UpperHalf(control)
    ensures IsWord(Cleared(control, slot))
  {
    forall b | 0 <= b < 64
      ensures b in Cleared(control, slot)
         <==> b in control && !(slot * 2 <= b < slot * 2 + 2) && !(slot * 4 + 16 <= b < slot * 4 + 20) && !(slot == 3 && b >= 32)
    {
      ClearedBits(control, slot, b);
    }
  }

  /** Arming a slot enables it with exactly this mode and size and leaves the others alone; the upper
      half fares as in clearing. */
  lemma ArmedSlot(control: Bits, slot: Slot, mode: Bits, size: Bits, other: Slot)
    requires IsWord(control) && mode <= {0, 1} && size <= {0, 1}
    ensures var armed := Armed(control, slot, mode, size);
            EnableBits(armed, slot) == {0} && ModeBits(armed, slot) == mode && SizeBits(armed, slot) == size
    ensures other != slot ==> SameSlot(Armed(control, slot, mode, size), control, other)
    ensures UpperHalf(Armed(control, slot, mode, size)) == if slot == 3 then {} else UpperHalf(control)
    ensures IsWord(Armed(control, slot, mode, size))
  {
    forall b | 0 <= b < 64
      ensures b in Armed(control, slot, mode, size)
         <==> (b in control && !(slot * 2 <= b < slot * 2 + 2) && !(slot * 4 + 16 <= b < slot * 4 + 20) && !(slot == 3 && b >= 32))
              || b == slot * 2 || b - (slot * 4 + 16) in mode || b - (slot * 4 + 18) in size
    {
      ClearedBits(control, slot, b);
      ArmedBits(control, slot, mode, size, b);
    }
  }
}
