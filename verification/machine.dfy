/** The processor state of the emulator (the C# `Machine` class): eight general registers,
    64K words of memory, the program counter, the stack pointer, the overflow register `O`
    and the one-shot `skip` flag. The array lengths of the C# class are part of the types
    here, so every 16-bit address and every register number is in range by construction.

    A `Location` is what a C# `ref ushort` into the machine can point at. */
module State {
  import opened Words

  /** The register names of `Machine.Regs`, in declaration order. */
  datatype Reg = A | B | C | X | Y | Z | I | J

  type RegIndex = i: int | 0 <= i < 8

  /** `(byte)r`: the position of a named register in the register file. */
  function IndexOf(r: Reg): (i: RegIndex)
  {
    match r
    case A => 0
    case B => 1
    case C => 2
    case X => 3
    case Y => 4
    case Z => 5
    case I => 6
    case J => 7
  }

  /** The register at a position of the register file. */
  function RegAt(i: RegIndex): (r: Reg)
    ensures IndexOf(r) == i
  {
    if i == 0 then A
    else if i == 1 then B
    else if i == 2 then C
    else if i == 3 then X
    else if i == 4 then Y
    else if i == 5 then Z
    else if i == 6 then I
    else J
  }

  /** The eight registers are named by exactly the eight positions of the register file. */
  lemma RegisterNaming(r: Reg, i: RegIndex)
    ensures RegAt(IndexOf(r)) == r
    ensures IndexOf(RegAt(i)) == i
    ensures IndexOf(r) == i <==> RegAt(i) == r
  {
  }

  /** `new ushort[8]` */
  type Registers = s: seq<Word> | |s| == 8
    witness [0, 0, 0, 0, 0, 0, 0, 0]

  /** `new ushort[0x10000]`: one word per 16-bit address. */
  type Memory = s: seq<Word> | |s| == 0x10000
    witness seq(0x10000, _ => 0)

  datatype Machine = Machine(regs: Registers, ram: Memory, pc: Word, sp: Word, o: Word, skip: bool)

  /** `new Machine()`: every array element and field takes its C# default. */
  function NewMachine(): (m: Machine)
    ensures forall i: RegIndex :: m.regs[i] == 0
    ensures forall addr: Word :: m.ram[addr] == 0
    ensures m.pc == 0 && m.sp == 0 && m.o == 0 && !m.skip
  {
    Machine(seq(8, _ => 0), seq(0x10000, _ => 0), 0, 0, 0, false)
  }

  /** A storage place an operand descriptor resolves to: the target of a C# `ref ushort`.
      A `Literal` is a local copy, so writes to it are lost. */
  datatype Location =
    | Register(index: RegIndex)
    | Cell(addr: Word)
    | StackPointer
    | ProgramCounter
    | Overflow
    | Literal(value: Word)

  function Read(m: Machine, loc: Location): Word
  {
    match loc
    case Register(i) => m.regs[i]
    case Cell(addr) => m.ram[addr]
    case StackPointer => m.sp
    case ProgramCounter => m.pc
    case Overflow => m.o
    case Literal(v) => v
  }

  /** Assignment through the reference. */
  function Write(m: Machine, loc: Location, v: Word): (m': Machine)
    ensures m'.skip == m.skip
    ensures loc.Literal? ==> m' == m
    ensures !loc.Literal? ==> Read(m', loc) == v
  {
    match loc
    case Register(i) => m.(regs := m.regs[i := v])
    case Cell(addr) => m.(ram := m.ram[addr := v])
    case StackPointer => m.(sp := v)
    case ProgramCounter => m.(pc := v)
    case Overflow => m.(o := v)
    case Literal(_) => m
  }

  /** Two locations name the same storage; a literal names none. */
  predicate SameStorage(l1: Location, l2: Location)
  {
    !l1.Literal? && l1 == l2
  }

  /** Writing one location changes what that location reads and nothing else. */
  lemma ReadOverWrite(m: Machine, loc: Location, other: Location, v: Word)
    ensures Read(Write(m, loc, v), other) == if SameStorage(loc, other) then v else Read(m, other)
  {
  }

  /** Writing back the value a location holds changes nothing. */
  lemma WriteBack(m: Machine, loc: Location)
    ensures Write(m, loc, Read(m, loc)) == m
  {
    match loc
    case Register(i) =>
      assert m.regs[i := m.regs[i]] == m.regs;
    case Cell(addr) =>
      assert m.ram[addr := m.ram[addr]] == m.ram;
    case _ =>
  }

  /** `machine.ram[--machine.sp] = value`: the stack grows downward. */
  function Push(m: Machine, v: Word): (m': Machine)
    ensures m'.sp == Dec(m.sp) && m'.ram[m'.sp] == v
    ensures forall addr: Word :: addr != m'.sp ==> m'.ram[addr] == m.ram[addr]
    ensures m'.regs == m.regs && m'.pc == m.pc && m'.o == m.o && m'.skip == m.skip
  {
    var sp := Dec(m.sp);
    m.(sp := sp, ram := m.ram[sp := v])
  }
}
