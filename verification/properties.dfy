/** What one `DoCycle` does, stated over whole instructions: the addressing side effects of
    the operand descriptors, the `skip` protocol, the stack discipline of PUSH, POP and JSR,
    and the places where this implementation behaves differently from a plain reading of
    the instruction set (writable next-word operands, discarded literal destinations, the
    read order of DIV, the faults). */
module Properties {
  import opened Words
  import opened State
  import opened Instruction
  import opened Alu
  import opened Processor

  /** The instruction at the program counter. */
  function Current(m: Machine): Instruction
  {
    Decode(m.ram[m.pc])
  }

  // ---------------------------------------------------------------------------
  // Addressing side effects.

  /** The indexed modes, `[next word]` and `next word` consume one instruction word each;
      POP moves SP up, PUSH moves it down; nothing else moves PC or SP, and addressing never
      writes a register, a memory cell, `O` or `skip`. */
  lemma AddressingSideEffects(m: Machine, d: Descriptor)
    ensures Addressed(m, d).pc == if 0x10 <= d < 0x18 || d == 0x1e || d == 0x1f then Inc(m.pc) else m.pc
    ensures Addressed(m, d).sp == if d == 0x18 then Inc(m.sp) else if d == 0x1a then Dec(m.sp) else m.sp
    ensures Addressed(m, d).regs == m.regs && Addressed(m, d).ram == m.ram
    ensures Addressed(m, d).o == m.o && Addressed(m, d).skip == m.skip
  {
  }

  /** The value a source descriptor stands for, read in the machine `f` in which it is
      resolved: register, `[register]`, `[next word + register]`, POP, PEEK, PUSH, SP, PC, O,
      `[next word]`, `next word`, and the literals 0-31. `None` where the indexed address
      lies past the end of memory. */
  function OperandValue(f: Machine, d: Descriptor): Option<Word>
  {
    if d < 0x08 then Some(f.regs[d])
    else if d < 0x10 then Some(f.ram[f.regs[d - 0x08]])
    else if d < 0x18 then
      var addr := f.regs[d - 0x10] as int + f.ram[f.pc];
      if addr < 0x10000 then Some(f.ram[addr]) else None
    else if d == 0x18 || d == 0x19 then Some(f.ram[f.sp])
    else if d == 0x1a then Some(f.ram[Dec(f.sp)])
    else if d == 0x1b then Some(f.sp)
    else if d == 0x1c then Some(f.pc)
    else if d == 0x1d then Some(f.o)
    else if d == 0x1e then Some(f.ram[f.ram[f.pc]])
    else if d == 0x1f then Some(f.ram[f.pc])
    else Some(d - 0x20)
  }

  /** Forcing a source operand yields the value of the addressing table, and fails exactly
      where the table has none. */
  lemma SourceValue(f: Machine, d: Descriptor)
    requires !f.skip
    ensures Source(f, d).Ok? <==> OperandValue(f, d).Some?
    ensures Source(f, d).Ok? ==> Source(f, d).value == Operand(OperandValue(f, d).value, Addressed(f, d))
  {
    assert f.(skip := false) == f;
  }

  /** `SET r, d` loads the value of any source descriptor into register `r`, with the
      descriptor's addressing side effects; it fails exactly on an indexed address past the
      end of memory. */
  lemma SetLoadsRegister(m: Machine, r: RegIndex, d: Descriptor)
    requires !m.skip && Current(m) == Instruction(0x1, r, d)
    ensures Step(m).Ok? <==> OperandValue(Fetched(m), d).Some?
    ensures Step(m).Ok? ==>
      Step(m).value == Addressed(Fetched(m), d).(regs := m.regs[r := OperandValue(Fetched(m), d).value])
  {
    var f := Fetched(m);
    UnskippedStep(m);
    RoutePlain(f, r);
    assert Step(m) == Apply(Set, Register(r), f, d);
    SourceValue(f, d);
  }

  /** The storage a destination descriptor names, in the machine `f` in which it is
      resolved: a register, memory through a register, `[next word + register]`, the top
      of the stack for POP and PEEK, the new top for PUSH, SP, PC, O, `[next word]`, the
      operand word itself for `next word`, and a discarded copy for a literal. `None`
      where the indexed address lies past the end of memory. */
  function DestinationOf(f: Machine, d: Descriptor): Option<Location>
  {
    if d < 0x08 then Some(Register(d))
    else if d < 0x10 then Some(Cell(f.regs[d - 0x08]))
    else if d < 0x18 then
      var addr := f.regs[d - 0x10] as int + f.ram[f.pc];
      if addr < 0x10000 then Some(Cell(addr)) else None
    else if d == 0x18 || d == 0x19 then Some(Cell(f.sp))
    else if d == 0x1a then Some(Cell(Dec(f.sp)))
    else if d == 0x1b then Some(StackPointer)
    else if d == 0x1c then Some(ProgramCounter)
    else if d == 0x1d then Some(Overflow)
    else if d == 0x1e then Some(Cell(f.ram[f.pc]))
    else if d == 0x1f then Some(Cell(f.pc))
    else Some(Literal(d - 0x20))
  }

  /** `SET d, r` stores register `r` where the destination table says, after the
      descriptor's own addressing side effects: `SET PC, r` is a jump, `SET O, r` sets the
      overflow register, `SET POP, r` writes the old top of the stack. It fails exactly on
      an indexed address past the end of memory. */
  lemma SetStoresRegister(m: Machine, d: Descriptor, r: RegIndex)
    requires !m.skip && Current(m) == Instruction(0x1, d, r)
    ensures Step(m).Ok? <==> DestinationOf(Fetched(m), d).Some?
    ensures Step(m).Ok? ==>
      Step(m).value == Write(Addressed(Fetched(m), d), DestinationOf(Fetched(m), d).value, m.regs[r])
  {
    UnskippedStep(m);
    ResolveLocation(Fetched(m), d);
  }

  /** `SET PC, r` is an unconditional jump: PC takes the value of `r` and nothing else changes. */
  lemma SetProgramCounter(m: Machine, r: RegIndex)
    requires !m.skip && Current(m) == Instruction(0x1, 0x1c, r)
    ensures Step(m) == Ok(m.(pc := m.regs[r]))
  {
  }

  /** The order of a primary instruction that is not skipped: the destination is resolved
      first and its addressing side effects are committed; the source is then resolved in
      that machine; the handler reads the destination before the source's side effects,
      except DIV, which reads it after; the result lands in the machine both operands left.
      An indexed destination past the end of memory throws before the source is looked at. */
  lemma PrimaryStep(m: Machine)
    requires !m.skip && Current(m).op != 0
    ensures var ins := Current(m); var f := Fetched(m);
      DestinationOf(f, ins.a).None? ==> Step(m) == Err(IndexOutOfRangeException, Addressed(f, ins.a))
    ensures var ins := Current(m); var f := Fetched(m); var f1 := Addressed(f, ins.a);
      DestinationOf(f, ins.a).Some? && OperandValue(f1, ins.b).None? ==>
        Step(m) == Err(IndexOutOfRangeException, Addressed(f1, ins.b))
    ensures var ins := Current(m); var f := Fetched(m); var f1 := Addressed(f, ins.a);
      var f2 := Addressed(f1, ins.b);
      DestinationOf(f, ins.a).Some? && OperandValue(f1, ins.b).Some? ==>
        var dest := DestinationOf(f, ins.a).value;
        var op := BasicOpOf(ins.op).value;
        var x := if op != Div then Read(f1, dest) else Read(f2, dest);
        Step(m) == match Execute(op, x, OperandValue(f1, ins.b).value)
          case WriteDest(v) => Ok(Write(f2, dest, v))
          case WriteDestAndO(v, o) => Ok(Write(f2, dest, v).(o := o))
          case SetSkip(k) => Ok(f2.(skip := k))
          case DivideByZero => Err(DivideByZeroException, f2)
  {
    var ins := Current(m);
    var f := Fetched(m);
    UnskippedStep(m);
    ResolveLocation(f, ins.a);
    if Resolve(f, ins.a).Ok? {
      var f1 := Addressed(f, ins.a);
      assert Route(f, ins.a).value.m == f1;
      SourceValue(f1, ins.b);
    }
  }

  /** 0x7de1 is `SET [next word], next word`: the address word is consumed before the
      source, so the value stored is the word after the address, and PC moves past both. */
  lemma SetIndirectFromNextWord(m: Machine)
    requires !m.skip && m.ram[m.pc] == 0x7de1
    ensures Step(m) == Ok(m.(pc := Inc(Inc(Inc(m.pc))), ram := m.ram[m.ram[Inc(m.pc)] := m.ram[Inc(Inc(m.pc))]]))
  {
    assert Current(m) == Instruction(0x1, 0x1e, 0x1f);
  }

  // ---------------------------------------------------------------------------
  // The `skip` flag.

  /** A skipped primary instruction clears `skip`, runs no operation, and still performs the
      addressing side effects of both operands, destination first; it can only fail on an
      indexed address past the end of memory. */
  lemma SkippedInstruction(m: Machine)
    requires m.skip && Current(m).op != 0
    ensures Step(m).Ok? ==>
      Step(m).value == Addressed(Addressed(Fetched(m), Current(m).a), Current(m).b).(skip := false)
    ensures Step(m).Ok? ==> Step(m).value.regs == m.regs && Step(m).value.ram == m.ram && Step(m).value.o == m.o
    ensures Step(m).Err? ==> Step(m).fault == IndexOutOfRangeException && !Step(m).state.skip
  {
    var ins := Current(m);
    var f := Fetched(m);
    assert Step(m) == Dispatch(f, BasicOpOf(ins.op).value, ins.a, ins.b);
    match Route(f, ins.a)
    case Err(_, _) =>
    case Ok(r) =>
      assert r.skipped && r.m == Addressed(f, ins.a).(skip := false);
      match Route(r.m, ins.b)
      case Err(_, _) =>
      case Ok(s) =>
        assert !s.skipped;
  }

  /** A skipped JSR resolves its operand, clears `skip`, and then throws: the handler that
      replaces it asks for a source operand that an extended instruction does not have. */
  lemma SkippedJsr(m: Machine)
    requires m.skip && Current(m).op == 0 && Current(m).a == 0x01
    ensures Step(m).Err?
    ensures Step(m).fault in {NullReferenceException, IndexOutOfRangeException}
    ensures Step(m).state == Addressed(Fetched(m), Current(m).b).(skip := false)
  {
  }

  /** An extended opcode other than JSR throws before its operand is routed: only the fetch
      has happened, and `skip` is left as it was. The all-zero word is such an instruction. */
  lemma UnknownExtended(m: Machine)
    requires Current(m).op == 0 && Current(m).a != 0x01
    ensures Step(m) == Err(InvalidOperationException, m.(pc := Inc(m.pc)))
  {
  }

  /** A step that leaves `skip` set ran a conditional on an instruction that was not itself
      skipped: every other path clears the flag or leaves it clear. */
  lemma SkipArmedOnlyByConditionals(m: Machine)
    requires Step(m).Ok?
    ensures Step(m).value.skip ==> !m.skip && Current(m).op >= 0xc
  {
    var ins := Current(m);
    var f := Fetched(m);
    if ins.op == 0 {
      assert Step(m) == Extended(f, ins.a, ins.b);
      var r := Route(f, ins.b).value;
      assert !r.m.skip;
      assert Step(m) == Ok(JumpToSubroutine(r.m, r.loc));
    } else {
      var op := BasicOpOf(ins.op).value;
      assert Step(m) == Dispatch(f, op, ins.a, ins.b);
      var r := Route(f, ins.a).value;
      assert !r.m.skip;
      var src := Source(r.m, ins.b).value;
      assert !src.m.skip;
      if r.skipped {
        assert Step(m) == Ok(src.m);
      } else {
        assert Step(m) == Apply(op, r.loc, r.m, ins.b);
        var a := if ReadsDestFirst(op) then Read(r.m, r.loc) else Read(src.m, r.loc);
        assert Step(m).value.skip ==> Execute(op, a, src.value).SetSkip?;
      }
    }
  }

  // ---------------------------------------------------------------------------
  // JSR.

  /** JSR pushes the program counter as it stands after the operand's own words have been
      consumed, then jumps to the operand's value, read after the push. */
  lemma JsrPushesReturnAddress(m: Machine)
    requires !m.skip && Current(m).op == 0 && Current(m).a == 0x01
    requires Resolve(Fetched(m), Current(m).b).Ok?
    ensures Step(m).Ok?
    ensures var after := Addressed(Fetched(m), Current(m).b);
      var r := Step(m).value;
      r.sp == Dec(after.sp) && r.ram[r.sp] == after.pc &&
      r.pc == Read(Push(after, after.pc), Resolve(Fetched(m), Current(m).b).value.loc)
    ensures Step(m).value.regs == m.regs && Step(m).value.o == m.o && !Step(m).value.skip
    ensures forall addr: Word :: addr != Step(m).value.sp ==> Step(m).value.ram[addr] == m.ram[addr]
  {
  }

  /** `JSR r` for a register `r`: the return address is the next instruction and the target
      is the register's value. */
  lemma JsrRegister(m: Machine)
    requires !m.skip && Current(m).op == 0 && Current(m).a == 0x01 && Current(m).b < 0x08
    ensures Step(m).Ok?
    ensures Step(m).value.pc == m.regs[Current(m).b]
    ensures Step(m).value.sp == Dec(m.sp) && Step(m).value.ram[Dec(m.sp)] == Inc(m.pc)
  {
    JsrPushesReturnAddress(m);
  }

  /** `JSR next word`: the return address skips the operand word. The operand is a reference
      into memory read after the push, so it is the target only when the push does not land
      on it; when it does, the jump goes to the pushed return address. */
  lemma JsrNextWord(m: Machine)
    requires !m.skip && Current(m).op == 0 && Current(m).a == 0x01 && Current(m).b == 0x1f
    ensures Step(m).Ok?
    ensures Step(m).value.ram[Step(m).value.sp] == Inc(Inc(m.pc))
    ensures Dec(m.sp) != Inc(m.pc) ==> Step(m).value.pc == m.ram[Inc(m.pc)]
    ensures Dec(m.sp) == Inc(m.pc) ==> Step(m).value.pc == Inc(Inc(m.pc))
  {
    JsrPushesReturnAddress(m);
  }

  // ---------------------------------------------------------------------------
  // Operand words and destinations.

  /** An instruction whose operands are registers or short literals takes exactly one word:
      PC moves to the next word, SP and memory are untouched, only the destination register
      and `O` can change, and the only possible fault is MOD by zero. */
  lemma PlainInstruction(m: Machine)
    requires !m.skip && Current(m).op != 0 && Plain(Current(m).a) && Plain(Current(m).b)
    ensures Step(m).Ok? ==> Step(m).value.pc == Inc(m.pc) && Step(m).value.sp == m.sp
    ensures Step(m).Ok? ==> Step(m).value.ram == m.ram
    ensures Step(m).Ok? ==> forall i: RegIndex :: i != Current(m).a ==> Step(m).value.regs[i] == m.regs[i]
    ensures Step(m).Err? ==> Step(m).fault == DivideByZeroException && Current(m).op == 0x6
  {
    var ins := Current(m);
    var f := Fetched(m);
    var op := BasicOpOf(ins.op).value;
    assert Step(m) == Dispatch(f, op, ins.a, ins.b);
    RoutePlain(f, ins.a);
    RoutePlain(f, ins.b);
    var dest := Route(f, ins.a).value.loc;
    assert Step(m) == Apply(op, dest, f, ins.b);
    assert Source(f, ins.b).Ok? && Source(f, ins.b).value.m == f;
    if Step(m).Ok? {
      ApplyFrame(op, dest, f, ins.b);
    } else {
      assert op == Mod;
    }
  }

  /** A short literal destination is a copy: the operation is carried out, but only `O` and
      `skip` can observe it. */
  lemma LiteralDestination(m: Machine)
    requires !m.skip && Current(m).op != 0 && Current(m).a >= 0x20
    ensures Step(m).Ok? ==> Step(m).value.regs == m.regs && Step(m).value.ram == m.ram
    ensures Step(m).Ok? && Plain(Current(m).b) ==> Step(m).value.pc == Inc(m.pc) && Step(m).value.sp == m.sp
  {
    var ins := Current(m);
    var f := Fetched(m);
    UnskippedStep(m);
    RoutePlain(f, ins.a);
    SourceValue(f, ins.b);
    if Step(m).Ok? {
      ApplyFrame(BasicOpOf(ins.op).value, Literal(ins.a - 0x20), f, ins.b);
    }
  }

  /** The `next word` descriptor as a destination is a reference to the operand word itself:
      `SET next word, r` overwrites that word of the program and moves PC past it. */
  lemma NextWordIsWritable(m: Machine)
    requires !m.skip && Current(m).op == 0x1 && Current(m).a == 0x1f && Current(m).b < 0x08
    ensures Step(m).Ok?
    ensures Step(m).value.ram == m.ram[Inc(m.pc) := m.regs[Current(m).b]]
    ensures Step(m).value.pc == Inc(Inc(m.pc)) && Step(m).value.regs == m.regs
  {
  }

  // ---------------------------------------------------------------------------
  // The stack.

  /** `SET r, POP` loads the top of the stack into `r` and then moves SP up. */
  lemma PopIntoRegister(m: Machine, r: RegIndex)
    requires !m.skip && Current(m) == Instruction(0x1, r, 0x18)
    ensures Step(m) == Ok(m.(pc := Inc(m.pc), sp := Inc(m.sp), regs := m.regs[r := m.ram[m.sp]]))
  {
  }

  /** `SET r, PEEK` loads the top of the stack into `r` and leaves SP where it is. */
  lemma PeekIntoRegister(m: Machine, r: RegIndex)
    requires !m.skip && Current(m) == Instruction(0x1, r, 0x19)
    ensures Step(m) == Ok(m.(pc := Inc(m.pc), regs := m.regs[r := m.ram[m.sp]]))
  {
  }

  /** `SET PUSH, r` moves SP down and then stores `r` in the new top of the stack. */
  lemma PushRegister(m: Machine, r: RegIndex)
    requires !m.skip && Current(m) == Instruction(0x1, 0x1a, r)
    ensures Step(m) == Ok(m.(pc := Inc(m.pc), sp := Dec(m.sp), ram := m.ram[Dec(m.sp) := m.regs[r]]))
  {
  }

  /** `SET PUSH, x` followed by `SET y, POP` copies register `x` into register `y` and leaves
      SP where it was, provided the pushed word does not overwrite the second instruction. */
  lemma PushThenPop(m: Machine, x: RegIndex, y: RegIndex)
    requires !m.skip && Current(m) == Instruction(0x1, 0x1a, x)
    requires m.ram[Inc(m.pc)] == Encode(Instruction(0x1, y, 0x18))
    requires Dec(m.sp) != Inc(m.pc)
    ensures Step(m).Ok? && Step(Step(m).value).Ok?
    ensures var m2 := Step(Step(m).value).value;
      m2.regs[y] == m.regs[x] && m2.sp == m.sp && m2.pc == Inc(Inc(m.pc))
  {
    var m1 := Step(m).value;
    assert m1.sp == Dec(m.sp) && m1.ram[m1.sp] == m.regs[x];
    assert m1.pc == Inc(m.pc) && m1.ram[m1.pc] == m.ram[Inc(m.pc)];
    assert Current(m1) == Instruction(0x1, y, 0x18);
    IncDec(m.sp);
  }

  // ---------------------------------------------------------------------------
  // Read order.

  /** `ADD SP, POP` reads SP before the source operand moves it, and then overwrites it. */
  lemma AddReadsDestinationFirst(m: Machine)
    requires !m.skip && Current(m) == Instruction(0x2, 0x1b, 0x18)
    ensures Step(m).Ok?
    ensures Step(m).value.sp == (m.sp + m.ram[m.sp]) % 0x10000
    ensures Step(m).value.o == if m.sp + m.ram[m.sp] >= 0x10000 then 1 else 0
  {
    var f := Fetched(m);
    UnskippedStep(m);
    assert Route(f, 0x1b) == Ok(Routed(false, StackPointer, f));
    AddPopIntoStackPointer(m);
  }

  lemma AddPopIntoStackPointer(m: Machine)
    requires !m.skip
    ensures Apply(Add, StackPointer, Fetched(m), 0x18).Ok?
    ensures Apply(Add, StackPointer, Fetched(m), 0x18).value.sp == (m.sp + m.ram[m.sp]) % 0x10000
    ensures Apply(Add, StackPointer, Fetched(m), 0x18).value.o == if m.sp + m.ram[m.sp] >= 0x10000 then 1 else 0
  {
    var f := Fetched(m);
    var s := f.(sp := Inc(f.sp));
    assert Source(f, 0x18) == Ok(Operand(f.ram[f.sp], s));
    AddMeaning(f.sp, f.ram[f.sp]);
    var e := Execute(Add, f.sp, f.ram[f.sp]);
    assert Apply(Add, StackPointer, f, 0x18) == Ok(Write(s, StackPointer, e.dest).(o := e.o));
  }

  /** Every handler that reads its destination, except DIV, reads it before the source
      operand's side effects:
      with SP as the destination and POP as the source, it computes with SP as it stood
      before POP moved it, and DIV with SP after the move. */
  lemma StackPointerReadOrder(op: BasicOp, f: Machine)
    requires !f.skip
    ensures var s := f.(sp := Inc(f.sp));
      var a := if op == Div then Inc(f.sp) else f.sp;
      Apply(op, StackPointer, f, 0x18) == match Execute(op, a, f.ram[f.sp])
        case WriteDest(v) => Ok(s.(sp := v))
        case WriteDestAndO(v, o) => Ok(s.(sp := v, o := o))
        case SetSkip(k) => Ok(s.(skip := k))
        case DivideByZero => Err(DivideByZeroException, s)
  {
    assert Source(f, 0x18) == Ok(Operand(f.ram[f.sp], f.(sp := Inc(f.sp))));
  }

  /** `DIV SP, POP` forces the source before it reads its destination, so it divides the SP
      that POP has already moved; its destination is 0 either way. */
  lemma DivReadsDestinationLast(m: Machine)
    requires !m.skip && Current(m) == Instruction(0x5, 0x1b, 0x18) && m.ram[m.sp] != 0
    ensures Step(m).Ok?
    ensures Step(m).value.sp == 0
    ensures Step(m).value.o == Inc(m.sp) * 0x10000 / m.ram[m.sp] % 0x10000
  {
    var f := Fetched(m);
    assert Step(m) == Dispatch(f, Div, 0x1b, 0x18);
    assert Route(f, 0x1b) == Ok(Routed(false, StackPointer, f));
    assert Dispatch(f, Div, 0x1b, 0x18) == Apply(Div, StackPointer, f, 0x18);
    var s := f.(sp := Inc(m.sp));
    assert Source(f, 0x18) == Ok(Operand(m.ram[m.sp], s));
    DivAsWritten(Inc(m.sp), m.ram[m.sp]);
    var e := Execute(Div, Inc(m.sp), m.ram[m.sp]);
    assert Apply(Div, StackPointer, f, 0x18) == Ok(Write(s, StackPointer, e.dest).(o := e.o));
  }

  // ---------------------------------------------------------------------------
  // Faults.

  /** MOD by a zero source throws after both operands are resolved, leaving the destination
      as it was. */
  lemma ModByZero(m: Machine)
    requires !m.skip && Current(m).op == 0x6 && Plain(Current(m).a) && Current(m).b == 0x20
    ensures Step(m) == Err(DivideByZeroException, m.(pc := Inc(m.pc)))
  {
    ModAsWritten(Read(Fetched(m), Resolve(Fetched(m), Current(m).a).value.loc), 0);
  }

  /** An indexed address is the plain sum of a register and the next word: past 0xffff it
      throws, after the offset word has been consumed. */
  lemma IndexedPastEnd(m: Machine)
    requires !m.skip && Current(m).op != 0 && 0x10 <= Current(m).a < 0x18
    requires m.regs[Current(m).a - 0x10] as int + m.ram[Inc(m.pc)] >= 0x10000
    ensures Step(m) == Err(IndexOutOfRangeException, m.(pc := Inc(Inc(m.pc))))
  {
  }

  // ---------------------------------------------------------------------------
  // Operations on registers.

  /** On register operands a primary instruction is its handler: the destination register,
      `O` and `skip` change exactly as the operation table says, and nothing else changes
      but the program counter. */
  lemma RegisterOperation(m: Machine)
    requires !m.skip && Current(m).op != 0 && Current(m).a < 0x08 && Current(m).b < 0x08
    ensures var e := Execute(BasicOpOf(Current(m).op).value, m.regs[Current(m).a], m.regs[Current(m).b]);
      var f := m.(pc := Inc(m.pc));
      Step(m) == match e
        case WriteDest(v) => Ok(f.(regs := m.regs[Current(m).a := v]))
        case WriteDestAndO(v, o) => Ok(f.(regs := m.regs[Current(m).a := v], o := o))
        case SetSkip(s) => Ok(f.(skip := s))
        case DivideByZero => Err(DivideByZeroException, f)
  {
    ModAsWritten(m.regs[Current(m).a], m.regs[Current(m).b]);
  }

  /** SET, AND, OR and XOR write their destination only: `O` changes only when it is the
      destination. */
  lemma WriteOnlyDestination(m: Machine)
    requires !m.skip && Current(m).op in {0x1, 0x9, 0xa, 0xb} && Current(m).a != 0x1d
    ensures Step(m).Ok? ==> Step(m).value.o == m.o
  {
    var ins := Current(m);
    var f := Fetched(m);
    var op := BasicOpOf(ins.op).value;
    assert Step(m) == Dispatch(f, op, ins.a, ins.b);
    if Step(m).Ok? {
      var r := Route(f, ins.a).value;
      ResolveLocation(f, ins.a);
      assert !r.skipped && r.m.o == m.o && r.loc != Overflow;
      assert Step(m) == Apply(op, r.loc, r.m, ins.b);
      var src := Source(r.m, ins.b).value;
      assert src.m.o == m.o;
      var a := Read(r.m, r.loc);
      assert Execute(op, a, src.value).WriteDest?;
      assert Step(m) == Ok(Write(src.m, r.loc, Execute(op, a, src.value).dest));
    }
  }

  /** IFE, IFN, IFG and IFB change nothing but `skip` beyond their operands' addressing. */
  lemma ConditionalTouchesOnlySkip(m: Machine)
    requires !m.skip && Current(m).op >= 0xc
    ensures Step(m).Ok? ==>
      Step(m).value == Addressed(Addressed(Fetched(m), Current(m).a), Current(m).b).(skip := Step(m).value.skip)
    ensures Step(m).Err? ==> Step(m).fault == IndexOutOfRangeException
  {
  }

  /** The tests on two registers: IFE, IFN and IFG skip the next instruction when their test
      fails, IFB when its test holds. */
  lemma ConditionalsOnRegisters(m: Machine)
    requires !m.skip && Current(m).op >= 0xc && Current(m).a < 0x08 && Current(m).b < 0x08
    ensures Step(m).Ok? && Step(m).value == m.(pc := Inc(m.pc), skip := Step(m).value.skip)
    ensures var x, y := m.regs[Current(m).a], m.regs[Current(m).b];
      var skip := Step(m).value.skip;
      && (Current(m).op == 0xc ==> (skip <==> x != y))
      && (Current(m).op == 0xd ==> (skip <==> x == y))
      && (Current(m).op == 0xe ==> (skip <==> x <= y))
      && (Current(m).op == 0xf ==> (skip <==> BitAnd(x, y) != 0))
  {
  }

  // ---------------------------------------------------------------------------
  // Two instruction words.

  /** 0x8401 is `SET A, 1`: A becomes 1, PC moves one word, `O` is untouched. */
  lemma SetRegisterToLiteral(m: Machine)
    requires !m.skip && m.ram[m.pc] == 0x8401
    ensures Step(m) == Ok(m.(pc := Inc(m.pc), regs := m.regs[0 := 1]))
  {
  }

  /** 0x8402 is `ADD A, 1`: on A = 0xffff it wraps A to 0 and sets `O` to 1. */
  lemma AddCarries(m: Machine)
    requires !m.skip && m.ram[m.pc] == 0x8402 && m.regs[0] == 0xffff
    ensures Step(m) == Ok(m.(pc := Inc(m.pc), regs := m.regs[0 := 0], o := 1))
  {
    assert Current(m) == Instruction(0x2, 0x00, 0x21);
    var f := Fetched(m);
    assert Source(f, 0x21) == Ok(Operand(1, f));
    AddMeaning(m.regs[0], 1);
    assert Execute(Add, m.regs[0], 1) == WriteDestAndO(0, 1);
  }
}
