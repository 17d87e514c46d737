/** The integer register file and program counter (src/cpu_state.cpp). */
module Cpu {
  import opened Options
  import opened Words

  const REGISTER_COUNT := 32

  /** x0 reads as zero because nothing ever writes it. */
  predicate RegistersValid(regs: seq<u32>) {
    |regs| == REGISTER_COUNT && regs[0] == 0
  }

  /** The register file after a write; writes to x0 are discarded. */
  function Written(regs: seq<u32>, index: nat, value: u32): (r: seq<u32>)
    requires RegistersValid(regs) && index < REGISTER_COUNT
    ensures RegistersValid(r)
    ensures forall i | 0 <= i < REGISTER_COUNT :: r[i] == if i == index && i != 0 then value else regs[i]
  {
    if index == 0 then regs else regs[index := value]
  }

  class CpuState {
    const registers: array<u32>
    var programCounter: u32

    ghost predicate Valid()
      reads registers
    {
      RegistersValid(registers[..])
    }

    ghost function Registers(): (regs: seq<u32>)
      reads registers
    {
      registers[..]
    }

    constructor ()
      ensures Valid() && fresh(registers)
      ensures Registers() == seq(REGISTER_COUNT, _ => 0) && programCounter == 0
    {
      registers := new u32[REGISTER_COUNT](_ => 0);
      programCounter := 0;
    }

    /** None stands for the out-of-range exception. */
    function ReadRegister(index: nat): (r: Option<u32>)
      requires Valid()
      reads registers
      ensures r == if index < REGISTER_COUNT then Some(Registers()[index]) else None
    {
      if index >= REGISTER_COUNT then None
      else if index == 0 then Some(0)
      else Some(registers[index])
    }

    method WriteRegister(index: nat, value: u32) returns (inRange: bool)
      requires Valid()
      modifies registers
      ensures Valid()
      ensures inRange == (index < REGISTER_COUNT)
      ensures Registers()
              == if index < REGISTER_COUNT then Written(old(Registers()), index, value) else old(Registers())
    {
      if index >= REGISTER_COUNT {
        return false;
      }
      if index != 0 {
        registers[index] := value;
      }
      assert registers[..] == Written(old(Registers()), index, value);
      inRange := true;
    }

    method SetProgramCounter(value: u32)
      modifies `programCounter
      ensures programCounter == value
    {
      programCounter := value;
    }

    method AdvanceProgramCounter(byteCount: u32)
      modifies `programCounter
      ensures programCounter == Wrap(old(programCounter) + byteCount)
    {
      programCounter := (programCounter + byteCount) % 0x1_0000_0000;
    }

    method Reset()
      requires registers.Length == REGISTER_COUNT
      modifies registers, `programCounter
      ensures Valid()
      ensures Registers() == seq(REGISTER_COUNT, _ => 0) && programCounter == 0
    {
      for i := 0 to REGISTER_COUNT
        invariant forall k :: 0 <= k < i ==> registers[k] == 0
      {
        registers[i] := 0;
      }
      programCounter := 0;
    }
  }
}
