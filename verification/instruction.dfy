/** The instruction word layout `bbbbbbaaaaaaoooo` and the opcode tables of `DoCycle` and
    `extended` (DCPU16.cs). */
module Instruction {
  import opened Words

  datatype Option<T> = None | Some(value: T)

  /** A four-bit primary opcode. */
  type Nibble = x: int | 0 <= x < 16

  /** A six-bit operand descriptor, or the six-bit extended opcode of an extended instruction. */
  type Descriptor = x: int | 0 <= x < 64

  datatype Instruction = Instruction(op: Nibble, a: Descriptor, b: Descriptor)

  /** `instruction & 0xf`, `(instruction >> 4) & 0x3f` and `(instruction >> 10) & 0x3f`. */
  function Decode(w: Word): (ins: Instruction)
    ensures w == ins.op + 16 * ins.a + 1024 * ins.b
  {
    Instruction(w % 16, (w / 16) % 64, (w / 1024) % 64)
  }

  /** The word an assembler emits for an instruction. */
  function Encode(ins: Instruction): (w: Word)
    ensures Decode(w) == ins
  {
    var w := ins.op + 16 * ins.a + 1024 * ins.b;
    DivModUnique(w, 16, ins.a + 64 * ins.b, ins.op);
    DivModUnique(w / 16, 64, ins.b, ins.a);
    DivModUnique(w, 1024, ins.b, ins.op + 16 * ins.a);
    w
  }

  /** Every word is an instruction: decoding loses nothing. */
  lemma EncodeDecode(w: Word)
    ensures Encode(Decode(w)) == w
  {
  }

  /** The primary opcodes 0x1-0xf, in the order of the `switch` in `DoCycle`. */
  datatype BasicOp = Set | Add | Sub | Mul | Div | Mod | Shl | Shr | And | Or | Xor | Ife | Ifn | Ifg | Ifb

  /** The primary opcode a four-bit field selects; `None` is opcode 0, the extended form. */
  function BasicOpOf(code: Nibble): (r: Option<BasicOp>)
    ensures r.None? <==> code == 0
  {
    if code == 0x0 then None
    else if code == 0x1 then Some(Set)
    else if code == 0x2 then Some(Add)
    else if code == 0x3 then Some(Sub)
    else if code == 0x4 then Some(Mul)
    else if code == 0x5 then Some(Div)
    else if code == 0x6 then Some(Mod)
    else if code == 0x7 then Some(Shl)
    else if code == 0x8 then Some(Shr)
    else if code == 0x9 then Some(And)
    else if code == 0xa then Some(Or)
    else if code == 0xb then Some(Xor)
    else if code == 0xc then Some(Ife)
    else if code == 0xd then Some(Ifn)
    else if code == 0xe then Some(Ifg)
    else Some(Ifb)
  }

  /** The four-bit code an assembler writes for a primary opcode. */
  function CodeOf(op: BasicOp): (code: Nibble)
    ensures code != 0
    ensures BasicOpOf(code) == Some(op)
  {
    match op
    case Set => 0x1
    case Add => 0x2
    case Sub => 0x3
    case Mul => 0x4
    case Div => 0x5
    case Mod => 0x6
    case Shl => 0x7
    case Shr => 0x8
    case And => 0x9
    case Or => 0xa
    case Xor => 0xb
    case Ife => 0xc
    case Ifn => 0xd
    case Ifg => 0xe
    case Ifb => 0xf
  }

  /** The opcode table is a bijection between the fifteen codes 1-15 and the primary opcodes. */
  lemma OpcodeTable(code: Nibble)
    ensures code != 0 ==> BasicOpOf(code).Some? && CodeOf(BasicOpOf(code).value) == code
  {
  }

  /** The extended opcodes of `extended`: JSR is the only entry. */
  datatype ExtOp = Jsr

  function ExtOpOf(code: Descriptor): (r: Option<ExtOp>)
    ensures r.Some? <==> code == 0x01
  {
    if code == 0x01 then Some(Jsr) else None
  }
}
