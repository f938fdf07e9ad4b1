# DCPU-16 emulator step, in Dafny

A model of the C# DCPU-16 emulator core: the `Machine` state (eight 16-bit
registers A, B, C, X, Y, Z, I, J; 64K words of memory; PC, SP, the overflow
register O; the one-shot `skip` flag) and `Processor.DoCycle`, which fetches one
instruction word, decodes it into a 4-bit opcode and two 6-bit operand
descriptors, routes each descriptor to a storage location (register, memory
cell, SP, PC, O or a short literal), and applies one of the fifteen primary
operations or the one extended operation, JSR.

The model follows the C# code as written. In the places below, the code departs from
the DCPU-16 1.1 instruction set, or makes a choice the instruction set leaves open. In
each case the model does what the code does:

- DIV writes `(a / b) >> 16` to its destination, which is always 0.
- MOD computes the quotient `a / b`, puts the fractional bits in O, and throws on a
  zero divisor (after both operands' side effects), where DCPU-16 1.1 writes 0.
- SHR shifts `(int)a << 16` arithmetically, so a word at or above 0x8000 is sign-extended.
- Shift counts are taken modulo 32 (C# masks `int` shift counts to five bits).
- IFB skips the next instruction when `(a & b) != 0`, the inverse of its test.
- The indexed modes 0x10-0x17 index memory with an unwrapped `int` sum; a sum past
  0xffff throws after the offset word has been consumed.
- The `next word` mode 0x1f is a reference into the program: a write to it lands in the
  instruction stream. Only short literals 0x20-0x3f are discarded copies.
- A skipped JSR resolves its operand and then throws: the `noop` handler asks for a source
  operand that an extended instruction does not pass.
- An unknown extended opcode throws before its operand is routed, so it neither consumes
  operand words nor clears `skip`.
- Every operation that reads its destination reads it before forcing its source, except
  DIV, which forces the source first (SET never reads its destination). The difference shows when the destination is SP or PC
  and the source moves SP or consumes a word.

Where the C# code throws, `Step` returns `Err(fault, state)`. `state` is the machine
as it stood when the exception was raised. Mutations committed before the throw
(PC and SP increments, a cleared `skip`) are kept.

Layout:

- `words.dfy` (module `Words`) holds 16-bit words and the C# `int`/`uint` operators used
  by the handlers: wrapping casts, masked shifts, arithmetic `>>`, and `& | ^` defined bit
  by bit.
- `machine.dfy` (module `State`) holds the machine, the `Location` a C# `ref ushort` can
  point at, reads and writes through it, and the push of JSR.
- `instruction.dfy` (module `Instruction`) holds the instruction word layout and the opcode
  tables.
- `alu.dfy` (module `Alu`) holds the fifteen handlers on operand values, and lemmas that
  state each in plain arithmetic.
- `processor.dfy` (module `Processor`) holds operand resolution, `route`, `dispatch`,
  `extended` and `DoCycle`.
- `properties.dfy` (module `Properties`) holds whole-instruction properties of `Step`.

## Model

| member | source | states |
|---|---|---|
| Words.Inc | vm/csharp/dcpu16/vm/DCPU16.cs:31 | `pc++` (and `sp++`) on a `ushort` adds one and wraps 0xffff to 0 |
| Words.Dec | vm/csharp/dcpu16/vm/DCPU16.cs:123 | `--sp` subtracts one and wraps 0 to 0xffff |
| Words.Low16 | vm/csharp/dcpu16/vm/DCPU16.cs:178 | no contract of its own: `c & ushort.MaxValue`; `Alu.LowWord` states it is `c mod 2^16` |
| Words.ToUShort | vm/csharp/dcpu16/vm/DCPU16.cs:178 | no contract of its own: the `(ushort)` cast, the same truncation as `Words.Low16` |
| Words.ToUInt | vm/csharp/dcpu16/vm/DCPU16.cs:177 | the `(uint)` cast gives the one value in 0..2^32-1 congruent to its argument modulo 2^32 |
| Words.ToInt | vm/csharp/dcpu16/vm/DCPU16.cs:193 | unchecked `int` arithmetic gives the one value in -2^31..2^31-1 congruent to the exact result modulo 2^32 |
| Words.ShlInt | vm/csharp/dcpu16/vm/DCPU16.cs:225 | `x << n` on `int` is congruent to `x * 2^(n mod 32)` modulo 2^32 |
| Words.ShrInt | vm/csharp/dcpu16/vm/DCPU16.cs:233 | `x >> n` on `int` is the floor of `x / 2^(n mod 32)`: the result times the divisor is at most x, and x is below the next multiple |
| Words.ShrUInt | vm/csharp/dcpu16/vm/DCPU16.cs:179 | no contract of its own: `c >> 16` on `uint`; `Alu.HighWord` states it is `c / 2^16` |
| Words.IncDec | vm/csharp/dcpu16/vm/Machine.cs:13 | on 16-bit PC and SP, increment and decrement undo each other, wrap-around included |
| Words.AndBits | vm/csharp/dcpu16/vm/DCPU16.cs:239-243 | the `&` used by AND and IFB sets bit k exactly when both operands have bit k |
| Words.OrBits | vm/csharp/dcpu16/vm/DCPU16.cs:245-249 | the bitwise or used by OR sets bit k exactly when either operand has bit k |
| Words.XorBits | vm/csharp/dcpu16/vm/DCPU16.cs:251-255 | the `^` used by XOR sets bit k exactly when one operand alone has bit k |
| Words.XorInvolution | vm/csharp/dcpu16/vm/DCPU16.cs:251-255 | XOR with the same value twice gives back the original |
| Words.SelfBitwise | vm/csharp/dcpu16/vm/DCPU16.cs:239-255 | `a & a == a`, `Or(a, a) == a`, `a ^ a == 0` |
| Words.BitwiseCommutes | vm/csharp/dcpu16/vm/DCPU16.cs:239-255 | the three bitwise operators are symmetric in their operands |
| Words.BitAnd | vm/csharp/dcpu16/vm/DCPU16.cs:241 | no contract of its own: `(ushort)(a & b)`; `Words.AndBits` and `Alu.BitwiseMeaning` state its meaning |
| Words.BitOr | vm/csharp/dcpu16/vm/DCPU16.cs:247 | no contract of its own: `(ushort)(a | b)`; `Words.OrBits` and `Alu.BitwiseMeaning` state its meaning |
| Words.BitXor | vm/csharp/dcpu16/vm/DCPU16.cs:253 | no contract of its own: `(ushort)(a ^ b)`; `Words.XorBits` and `Words.XorInvolution` state its meaning |
| State.RegisterNaming | vm/csharp/dcpu16/vm/Machine.cs:10-11 | the names A..J and the eight slots of the register file correspond one to one |
| State.NewMachine | vm/csharp/dcpu16/vm/Machine.cs:11-14 | a new machine has every register, every memory word, PC, SP and O at 0, and `skip` clear |
| State.Write | vm/csharp/dcpu16/vm/DCPU16.cs:98-100 | a write through a short literal's reference changes nothing; a write anywhere else reads back as written and leaves `skip` alone |
| State.ReadOverWrite | vm/csharp/dcpu16/vm/DCPU16.cs:104-133 | a write through one reference changes only the storage that reference names |
| State.Push | vm/csharp/dcpu16/vm/DCPU16.cs:286 | `ram[--sp] = v` moves SP down by one (wrapping) and stores v there, leaving every other word and register as it was |
| Instruction.Decode | vm/csharp/dcpu16/vm/DCPU16.cs:31-34 | the word is `op + 16 * a + 1024 * b` of its three fields |
| Instruction.Encode | vm/csharp/dcpu16/vm/DCPU16.cs:32-34 | every opcode/descriptor triple is the decoding of some word |
| Instruction.EncodeDecode | vm/csharp/dcpu16/vm/DCPU16.cs:31-34 | decoding loses nothing: re-encoding a decoded word gives the word back |
| Instruction.BasicOpOf | vm/csharp/dcpu16/vm/DCPU16.cs:36-70 | opcode 0 is the extended form and every other code names a primary operation |
| Instruction.CodeOf | vm/csharp/dcpu16/vm/DCPU16.cs:40-69 | every primary operation has a nonzero code that selects it |
| Instruction.OpcodeTable | vm/csharp/dcpu16/vm/DCPU16.cs:36-70 | the opcode table is a bijection between codes 1-15 and the primary operations |
| Instruction.ExtOpOf | vm/csharp/dcpu16/vm/DCPU16.cs:143-152 | extended opcode 0x01 (JSR) is the only one defined |
| Alu.Execute | vm/csharp/dcpu16/vm/DCPU16.cs:169-279 | the handler kind of each opcode: SET, AND, OR and XOR write only the destination, IFE, IFN, IFG and IFB only set `skip`, and only MOD by zero fails |
| Alu.ReadsDestFirst | vm/csharp/dcpu16/vm/DCPU16.cs:199-209 | no contract of its own: DIV forces its source (line 201) before reading its destination (line 209); every other handler reads the destination first (as at line 177); `Properties.PrimaryStep` and `Properties.StackPointerReadOrder` state the consequence |
| Alu.AddEffect | vm/csharp/dcpu16/vm/DCPU16.cs:175-181 | no contract of its own: the C# expression of `add`; `Alu.AddMeaning` states what it computes |
| Alu.SubEffect | vm/csharp/dcpu16/vm/DCPU16.cs:183-189 | no contract of its own: the C# expression of `sub`; `Alu.SubMeaning` states what it computes |
| Alu.MulEffect | vm/csharp/dcpu16/vm/DCPU16.cs:191-197 | no contract of its own: the C# expression of `mul`; `Alu.MulMeaning` states what it computes |
| Alu.DivEffect | vm/csharp/dcpu16/vm/DCPU16.cs:199-213 | no contract of its own: the C# expression of `div`; `Alu.DivAsWritten` states what it computes |
| Alu.ModEffect | vm/csharp/dcpu16/vm/DCPU16.cs:215-221 | no contract of its own: the C# expression of `mod`; `Alu.ModAsWritten` states what it computes |
| Alu.ShlEffect | vm/csharp/dcpu16/vm/DCPU16.cs:223-229 | no contract of its own: the C# expression of `shl`; `Alu.ShlMeaning` states what it computes |
| Alu.ShrEffect | vm/csharp/dcpu16/vm/DCPU16.cs:231-237 | no contract of its own: the C# expression of `shr`; `Alu.ShrLogical`, `Alu.ShrSignExtends` and `Alu.ShrSignFills` state what it computes |
| Alu.AddMeaning | vm/csharp/dcpu16/vm/DCPU16.cs:175-181 | ADD writes `(a + b) mod 2^16` and sets O to 1 on a carry, 0 otherwise |
| Alu.SubMeaning | vm/csharp/dcpu16/vm/DCPU16.cs:183-189 | SUB writes `(a - b) mod 2^16` and sets O to 0xffff on a borrow, 0 otherwise |
| Alu.MulMeaning | vm/csharp/dcpu16/vm/DCPU16.cs:191-197 | MUL writes the low word of `a * b` and puts the high word in O, despite the `int` overflow of the product |
| Alu.DivAsWritten | vm/csharp/dcpu16/vm/DCPU16.cs:199-213 | DIV by 0 writes 0 and O = 0; otherwise the destination is always 0 and O is `(a * 2^16 / b) mod 2^16` |
| Alu.ModAsWritten | vm/csharp/dcpu16/vm/DCPU16.cs:215-221 | MOD fails exactly when the divisor is 0; otherwise it writes the quotient `a / b` with the fractional bits in O |
| Alu.ShlMeaning | vm/csharp/dcpu16/vm/DCPU16.cs:223-229 | SHL shifts by the count modulo 32, writes the low word and puts the next sixteen bits of the 32-bit result in O |
| Alu.ShrLogical | vm/csharp/dcpu16/vm/DCPU16.cs:231-237 | SHR of a word below 0x8000 is a logical shift by the count modulo 32, with the shifted-out bits in O |
| Alu.ShrSignExtends | vm/csharp/dcpu16/vm/DCPU16.cs:231-237 | SHR of a word at or above 0x8000 by up to 16 places fills the vacated top bits with ones |
| Alu.ShrSignFills | vm/csharp/dcpu16/vm/DCPU16.cs:231-237 | SHR of a word at or above 0x8000 by 17 to 31 places leaves 0xffff in the destination and the word shifted right by `s - 16` places, with ones above it, in O |
| Alu.ShrByOne | vm/csharp/dcpu16/vm/DCPU16.cs:231-237 | SHR by one of a word at or above 0x8000 keeps its top bit (0x8000 gives 0xc000) and puts the lost bit at the top of O |
| Alu.BitwiseMeaning | vm/csharp/dcpu16/vm/DCPU16.cs:239-255 | AND, OR and XOR write only the destination; XOR twice with one source restores it |
| Alu.ConditionalsSetSkip | vm/csharp/dcpu16/vm/DCPU16.cs:257-279 | IFE, IFN and IFG arm `skip` exactly when their test fails; IFB arms it exactly when its test holds |
| Processor.Resolve | vm/csharp/dcpu16/vm/DCPU16.cs:98-138 | resolving a descriptor commits exactly its PC/SP side effects; it fails exactly on an indexed address past 0xffff; the storage it names is stated by `Properties.SourceValue` for reads and `Properties.SetStoresRegister` for writes |
| Processor.Route | vm/csharp/dcpu16/vm/DCPU16.cs:92-96 | routing reports whether `skip` was set and always leaves it clear |
| Processor.Source | vm/csharp/dcpu16/vm/DCPU16.cs:155-159 | forcing the source `route(bbbbbb, get)` commits exactly its addressing side effects; it fails only on an indexed address past 0xffff, or with a null reference if `skip` was still set |
| Processor.Apply | vm/csharp/dcpu16/vm/DCPU16.cs:169-279 | a handler fails only while resolving its source, or as MOD by zero |
| Processor.Dispatch | vm/csharp/dcpu16/vm/DCPU16.cs:78-85 | a primary instruction fails only on an indexed address past 0xffff or as an unskipped MOD by zero; the order in which it resolves its operands is stated by `Properties.PrimaryStep` |
| Processor.JumpToSubroutine | vm/csharp/dcpu16/vm/DCPU16.cs:283-289 | `jsr` pushes PC below SP and changes no other memory word, register or O; the target is read after the push, so an operand naming SP or the new top of the stack sees the pushed state |
| Processor.Extended | vm/csharp/dcpu16/vm/DCPU16.cs:143-152 | an extended instruction throws InvalidOperationException exactly when its opcode is not JSR; it never divides by zero; a null reference needs `skip` set |
| Processor.Step | vm/csharp/dcpu16/vm/DCPU16.cs:29-70 | InvalidOperationException comes exactly from an extended opcode other than JSR, NullReferenceException only from a skipped JSR, DivideByZeroException only from an unskipped MOD |
| Processor.ApplyFrame | vm/csharp/dcpu16/vm/DCPU16.cs:169-279 | a primary handler writes its destination, O and `skip` and nothing else |
| Processor.Fetched | vm/csharp/dcpu16/vm/DCPU16.cs:31 | no contract of its own: the fetch `ram[pc++]`; `Properties.UnknownExtended` and `Properties.IndexedPastEnd` state that it is committed before any fault |
| Properties.AddressingSideEffects | vm/csharp/dcpu16/vm/DCPU16.cs:113-133 | descriptors 0x10-0x17, 0x1e and 0x1f consume one word; POP moves SP up and PUSH moves it down; no other addressing changes anything |
| Properties.SourceValue | vm/csharp/dcpu16/vm/DCPU16.cs:98-138 | forcing a source operand yields the value the DCPU-16 addressing table gives for its descriptor (register, memory through a register, indexed, POP, PEEK, PUSH, SP, PC, O, next word, literal) and fails exactly where that table has no value |
| Properties.SetLoadsRegister | vm/csharp/dcpu16/vm/DCPU16.cs:98-138 | `SET r, d` loads the addressing-table value of any descriptor into r, with only the descriptor's own PC/SP side effects, and fails exactly on an indexed address past 0xffff |
| Properties.SetStoresRegister | vm/csharp/dcpu16/vm/DCPU16.cs:98-138 | `SET d, r` writes r to the storage the destination table gives for any descriptor d (register, memory through a register, indexed, POP/PEEK top, PUSH top, SP, PC, O, `[next word]`, the operand word, or a discarded literal copy) after d's own PC/SP side effects, and fails exactly on an indexed address past 0xffff |
| Properties.PrimaryStep | vm/csharp/dcpu16/vm/DCPU16.cs:73-85 | an unskipped primary instruction resolves its destination and commits its side effects first, then resolves the source in that machine, reads the destination before the source's side effects (after them for DIV), and writes the result into the machine both left; an indexed destination past 0xffff throws before the source is resolved |
| Properties.SetIndirectFromNextWord | vm/csharp/dcpu16/vm/DCPU16.cs:130-133 | 0x7de1 (`SET [next word], next word`) stores the word after the address word at the address, and moves PC past all three words |
| Properties.SetProgramCounter | vm/csharp/dcpu16/vm/DCPU16.cs:126-127 | `SET PC, r` is a jump: PC becomes r and nothing else changes |
| Properties.PopIntoRegister | vm/csharp/dcpu16/vm/DCPU16.cs:118-119 | `SET r, POP` loads the old top of the stack into r and leaves SP one word higher |
| Properties.PeekIntoRegister | vm/csharp/dcpu16/vm/DCPU16.cs:120-121 | `SET r, PEEK` loads the top of the stack into r and leaves SP where it was |
| Properties.PushRegister | vm/csharp/dcpu16/vm/DCPU16.cs:122-123 | `SET PUSH, r` moves SP one word down and stores r there, changing no other word |
| Properties.SkippedInstruction | vm/csharp/dcpu16/vm/DCPU16.cs:92-96 | a skipped instruction clears `skip`, keeps both operands' PC/SP side effects, and changes no register, memory word or O |
| Properties.SkippedJsr | vm/csharp/dcpu16/vm/DCPU16.cs:143-165 | a skipped JSR always throws, after its operand's side effects and with `skip` cleared |
| Properties.UnknownExtended | vm/csharp/dcpu16/vm/DCPU16.cs:143-152 | an extended opcode other than JSR throws after the fetch alone, leaving `skip` as it was |
| Properties.SkipArmedOnlyByConditionals | vm/csharp/dcpu16/vm/DCPU16.cs:257-279 | a step leaves `skip` set only if it ran IFE, IFN, IFG or IFB on an unskipped instruction |
| Properties.JsrPushesReturnAddress | vm/csharp/dcpu16/vm/DCPU16.cs:283-289 | JSR pushes PC as it stands after the operand words, jumps to the operand read after the push, and changes no register, O or memory word other than the pushed one |
| Properties.JsrRegister | vm/csharp/dcpu16/vm/DCPU16.cs:283-289 | `JSR r` pushes the address of the next instruction and jumps to the value of r |
| Properties.JsrNextWord | vm/csharp/dcpu16/vm/DCPU16.cs:132-133 | `JSR next word` pushes the address after the operand word; when the push lands on that word, the jump goes to the pushed address |
| Properties.PlainInstruction | vm/csharp/dcpu16/vm/DCPU16.cs:98-110 | an instruction on registers and short literals moves PC by exactly one word, leaves SP and memory alone, and can only fail as MOD by zero |
| Properties.LiteralDestination | vm/csharp/dcpu16/vm/DCPU16.cs:98-100 | a short-literal destination discards the result for every source: no register or memory word changes; with a register or literal source PC moves one word and SP stays |
| Properties.NextWordIsWritable | vm/csharp/dcpu16/vm/DCPU16.cs:132-133 | `SET next word, r` overwrites the operand word of the program and moves PC past it |
| Properties.PushThenPop | vm/csharp/dcpu16/vm/DCPU16.cs:118-123 | `SET PUSH, x` then `SET y, POP` copies x into y and restores SP |
| Properties.AddReadsDestinationFirst | vm/csharp/dcpu16/vm/DCPU16.cs:175-181 | `ADD SP, POP` adds the top of the stack to SP as it was before POP moved it |
| Properties.DivReadsDestinationLast | vm/csharp/dcpu16/vm/DCPU16.cs:199-213 | `DIV SP, POP` divides the SP that POP has already moved |
| Properties.StackPointerReadOrder | vm/csharp/dcpu16/vm/DCPU16.cs:169-237 | with SP as destination and POP as source, every handler but DIV computes with SP as it was before POP moved it, and DIV with the moved SP |
| Properties.ModByZero | vm/csharp/dcpu16/vm/DCPU16.cs:215-221 | MOD by a zero literal throws with only the fetch committed and the destination untouched |
| Properties.IndexedPastEnd | vm/csharp/dcpu16/vm/DCPU16.cs:113-114 | an indexed destination whose sum passes 0xffff throws after the offset word is consumed |
| Properties.RegisterOperation | vm/csharp/dcpu16/vm/DCPU16.cs:36-85 | on two registers a step applies the handler's effect to the destination register, O or `skip` and advances PC by one; MOD by a zero register throws with only the fetch committed |
| Properties.WriteOnlyDestination | vm/csharp/dcpu16/vm/DCPU16.cs:169-173 | SET, AND, OR and XOR leave O unchanged unless O is the destination |
| Properties.ConditionalTouchesOnlySkip | vm/csharp/dcpu16/vm/DCPU16.cs:257-279 | IFE, IFN, IFG and IFB change only `skip` beyond their operands' addressing |
| Properties.ConditionalsOnRegisters | vm/csharp/dcpu16/vm/DCPU16.cs:257-279 | on two registers, IFE skips on inequality, IFN on equality, IFG on `a <= b`, IFB on a shared set bit |
| Properties.SetRegisterToLiteral | vm/csharp/dcpu16/vm/DCPU16.cs:169-173 | the word 0x8401 (`SET A, 1`) sets A to 1, advances PC and leaves O alone |
| Properties.AddCarries | vm/csharp/dcpu16/vm/DCPU16.cs:175-181 | the word 0x8402 (`ADD A, 1`) on A = 0xffff leaves A = 0 and O = 1 |

## Left out

- `Processor.Main` (vm/csharp/dcpu16/vm/DCPU16.cs:292-427) is a console demo. It loads a sample program into memory and calls `DoCycle` until PC reaches 0x1a, printing nothing. It then calls the `add` through `xor` handlers directly on local words and prints each result and O. The model has no program loader or run loop, and no console output. The handlers it calls are `Alu.Execute`, and `Properties.AddCarries` covers the case of its first example, 0xffff + 1.
- The `Lazy<ushort>` source operand and the `Debug.Assert` calls (DCPU16.cs:77-85, 157, 285) are replaced by explicit two-phase resolution. The destination is routed first, then the source; `Apply` reads the destination before or after the source, as each handler does. The asserts check that `dispatch` forced the source and that `get` and `jsr` were given none. Both hold on every path of the model.
- The `default: throw new InvalidOperationException()` arms of `route` (DCPU16.cs:134-138) cannot be reached. A 6-bit descriptor below 0x20 always has a mode in 0-3 and a register in 0-7. `Resolve` covers all 64 descriptors by cases.
- C# exceptions are not unwound through the call stack. A fault is a value, `Err(fault, state)`, and nothing runs after it.
- The translator and the LLVM-based emulator under `translator/llvm/` are not part of this model: they are a separate compiler and the host program it links against.
- Properties.PushThenPop: requires that the pushed word does not overwrite the second instruction. Without that, the second fetch reads the pushed value.
- Properties.JsrNextWord: states the pushed address and the jump target only. Registers, O and the rest of memory are covered by `Properties.JsrPushesReturnAddress`.

