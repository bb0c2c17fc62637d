/** The classic-BPF subset the filters use, and the machine that runs it
    (the Go emulator's `VM.Run`, which mirrors the kernel: an out-of-bounds
    load ends the program with verdict 0). */
module BpfMachine {
  import opened Common

  type Bytes = seq<bv8>

  datatype JumpTest =
    | JumpEqual
    | JumpNotEqual
    | JumpGreaterThan
    | JumpLessThan
    | JumpGreaterOrEqual
    | JumpLessOrEqual
    | JumpBitsSet
    | JumpBitsNotSet

  type LoadSize = s: nat | s == 1 || s == 2 || s == 4 witness 1

  datatype Instr =
    | LoadAbsolute(off: nat, size: LoadSize)
    | LoadIndirect(off: nat, size: LoadSize)
    | LoadMemShift(off: nat)
    | JumpIf(cond: JumpTest, val: bv32, skipTrue: nat, skipFalse: nat)
    | RetConstant(val: bv32)

  function Be16(b: Bytes, off: nat): bv16
    requires off + 2 <= |b|
  {
    ((b[off] as bv16) << 8) | (b[off + 1] as bv16)
  }

  function Be32(b: Bytes, off: nat): bv32
    requires off + 4 <= |b|
  {
    ((b[off] as bv32) << 24) | ((b[off + 1] as bv32) << 16) | ((b[off + 2] as bv32) << 8) | (b[off + 3] as bv32)
  }

  /** A big-endian load, or None when it leaves the frame. */
  function Load(frame: Bytes, off: nat, size: LoadSize): Option<bv32> {
    if off + size > |frame| then None
    else if size == 1 then Some(frame[off] as bv32)
    else if size == 2 then Some(Be16(frame, off) as bv32)
    else Some(Be32(frame, off))
  }

  /** The IPv4 header length encoded in a byte: the low nibble times four. */
  function HeaderLen(b: bv8): nat {
    ((b & 0x0f) as nat) * 4
  }

  predicate Holds(cond: JumpTest, a: bv32, val: bv32) {
    match cond
    case JumpEqual => a == val
    case JumpNotEqual => a != val
    case JumpGreaterThan => a > val
    case JumpLessThan => a < val
    case JumpGreaterOrEqual => a >= val
    case JumpLessOrEqual => a <= val
    case JumpBitsSet => a & val != 0
    case JumpBitsNotSet => a & val == 0
  }

  const REJECT: bv32 := 0
  const ACCEPT: bv32 := 0x40000

  datatype Regs = Regs(a: bv32, x: nat)

  /** The registers after a load, or None when it reads outside the frame. */
  function Exec(ins: Instr, r: Regs, frame: Bytes): Option<Regs>
    requires !ins.JumpIf? && !ins.RetConstant?
  {
    match ins
    case LoadAbsolute(off, size) =>
      var v := Load(frame, off, size);
      if v.None? then None else Some(Regs(v.value, r.x))
    case LoadIndirect(off, size) =>
      var v := Load(frame, off + r.x, size);
      if v.None? then None else Some(Regs(v.value, r.x))
    case LoadMemShift(off) =>
      if off >= |frame| then None else Some(Regs(r.a, HeaderLen(frame[off])))
  }

  /** The verdict of running `prog` from instruction `pc`. */
  function Run(prog: seq<Instr>, pc: nat, r: Regs, frame: Bytes): bv32
    decreases |prog| - pc
  {
    if pc >= |prog| then REJECT
    else if prog[pc].RetConstant? then prog[pc].val
    else if prog[pc].JumpIf? then
      Run(prog, pc + 1
          + (if Holds(prog[pc].cond, r.a, prog[pc].val) then prog[pc].skipTrue else prog[pc].skipFalse), r, frame)
    else
      match Exec(prog[pc], r, frame)
      case None => REJECT
      case Some(r') => Run(prog, pc + 1, r', frame)
  }
}
