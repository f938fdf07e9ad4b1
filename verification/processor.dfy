/** One step of the emulator: `Processor.DoCycle` and everything it calls (DCPU16.cs).

    The C# code passes the destination operand by `ref` and the source operand as a
    `Lazy<ushort>`, so that the source's addressing side effects happen only when the
    handler first asks for its value. Here that is an explicit two-phase resolution:
    resolve the destination to a `Location` (committing its own side effects and taking
    the `skip` flag), then resolve the source, then apply the operation; the one handler
    that asks for its source before reading its destination (DIV) reads the destination
    in the state after the source's side effects.

    A C# exception becomes an `Err` that carries the machine as it stood when the
    exception was thrown: the mutations committed before it are not rolled back. */
module Processor {
  import opened Words
  import opened State
  import opened Instruction
  import opened Alu

  /** The exceptions a step can throw. */
  datatype Fault =
    | InvalidOperationException   // an extended opcode other than JSR
    | IndexOutOfRangeException    // an indexed address past the end of `ram`
    | NullReferenceException      // a skipped JSR: `noop` forces the absent source operand
    | DivideByZeroException       // MOD by zero

  datatype Result<T> = Ok(value: T) | Err(fault: Fault, state: Machine)

  // ---------------------------------------------------------------------------
  // The addressing-mode table, as the architecture describes it.

  /** Instruction-stream words a descriptor consumes: the indexed modes 0x10-0x17,
      `[next word]` (0x1e) and `next word` (0x1f). */
  function OperandWords(d: Descriptor): nat
  {
    if 0x10 <= d <= 0x17 || d == 0x1e || d == 0x1f then 1 else 0
  }

  /** Stack pointer movement of a descriptor: POP (0x18) moves up, PUSH (0x1a) moves down. */
  function StackMove(d: Descriptor): int
  {
    if d == 0x18 then 1 else if d == 0x1a then -1 else 0
  }

  /** The machine after only the addressing side effects of one descriptor. */
  function Addressed(m: Machine, d: Descriptor): Machine
  {
    m.(pc := ToUShort(m.pc + OperandWords(d)), sp := ToUShort(m.sp + StackMove(d)))
  }

  // ---------------------------------------------------------------------------
  // Operand resolution: `route` without its handler call.

  datatype Resolved = Resolved(loc: Location, m: Machine)

  /** The storage a descriptor names, and the machine after the descriptor's addressing
      side effects. The index of the indexed modes is an `int` sum that is not wrapped,
      so a sum past 0xffff throws after the offset word has been consumed. */
  function Resolve(m: Machine, d: Descriptor): (r: Result<Resolved>)
    ensures r.Err? <==> 0x10 <= d < 0x18 && m.regs[d - 0x10] as int + m.ram[m.pc] >= 0x10000
    ensures r.Err? ==> r.fault == IndexOutOfRangeException && r.state == Addressed(m, d)
    ensures r.Ok? ==> r.value.m == Addressed(m, d)
  {
    if d < 0x08 then
      Ok(Resolved(Register(d), m))
    else if d < 0x10 then
      Ok(Resolved(Cell(m.regs[d - 0x08]), m))
    else if d < 0x18 then
      var index := m.regs[d - 0x10] as int + m.ram[m.pc];
      var m' := m.(pc := Inc(m.pc));
      if index < 0x10000 then Ok(Resolved(Cell(index), m'))
      else Err(IndexOutOfRangeException, m')
    else if d == 0x18 then
      Ok(Resolved(Cell(m.sp), m.(sp := Inc(m.sp))))
    else if d == 0x19 then
      Ok(Resolved(Cell(m.sp), m))
    else if d == 0x1a then
      var sp := Dec(m.sp);
      Ok(Resolved(Cell(sp), m.(sp := sp)))
    else if d == 0x1b then
      Ok(Resolved(StackPointer, m))
    else if d == 0x1c then
      Ok(Resolved(ProgramCounter, m))
    else if d == 0x1d then
      Ok(Resolved(Overflow, m))
    else if d == 0x1e then
      Ok(Resolved(Cell(m.ram[m.pc]), m.(pc := Inc(m.pc))))
    else if d == 0x1f then
      Ok(Resolved(Cell(m.pc), m.(pc := Inc(m.pc))))
    else
      Ok(Resolved(Literal(d - 0x20), m))
  }

  /** The locations of the addressing modes. */
  lemma ResolveLocation(m: Machine, d: Descriptor)
    ensures d < 0x08 ==> Resolve(m, d) == Ok(Resolved(Register(d), m))
    ensures 0x08 <= d < 0x10 ==> Resolve(m, d).value.loc == Cell(m.regs[d - 0x08])
    ensures 0x10 <= d < 0x18 && Resolve(m, d).Ok? ==>
      Resolve(m, d).value.loc == Cell(m.regs[d - 0x10] as int + m.ram[m.pc])
    ensures d == 0x18 || d == 0x19 ==> Resolve(m, d).value.loc == Cell(m.sp)
    ensures d == 0x1a ==> Resolve(m, d).value.loc == Cell(Dec(m.sp))
    ensures d == 0x1b ==> Resolve(m, d).value.loc == StackPointer
    ensures d == 0x1c ==> Resolve(m, d).value.loc == ProgramCounter
    ensures d == 0x1d ==> Resolve(m, d).value.loc == Overflow
    ensures d == 0x1e ==> Resolve(m, d).value.loc == Cell(m.ram[m.pc])
    ensures d == 0x1f ==> Resolve(m, d).value.loc == Cell(m.pc)
    ensures d >= 0x20 ==> Resolve(m, d) == Ok(Resolved(Literal(d - 0x20), m))
  {
  }

  // ---------------------------------------------------------------------------
  // `route`: the skip check, then resolution.

  datatype Routed = Routed(skipped: bool, loc: Location, m: Machine)

  /** `route` up to its handler call: a set `skip` flag is cleared and reported (the handler
      becomes `noop`), then the descriptor is resolved. */
  function Route(m: Machine, d: Descriptor): (r: Result<Routed>)
    ensures r.Ok? ==> r.value.skipped == m.skip && !r.value.m.skip
    ensures r.Err? ==> !r.state.skip
  {
    match Resolve(m.(skip := false), d)
    case Err(f, s) => Err(f, s)
    case Ok(res) => Ok(Routed(m.skip, res.loc, res.m))
  }

  /** A descriptor that names a register or a short literal: no addressing side effect. */
  predicate Plain(d: Descriptor)
  {
    d < 0x08 || d >= 0x20
  }

  /** Routing a register or a short literal only takes the `skip` flag. */
  lemma RoutePlain(m: Machine, d: Descriptor)
    requires Plain(d)
    ensures Route(m, d).Ok?
    ensures Route(m, d).value == Routed(m.skip, if d < 0x08 then Register(d) else Literal(d - 0x20), m.(skip := false))
  {
  }

  datatype Operand = Operand(value: Word, m: Machine)

  /** Forcing the lazy source operand: `route(bbbbbb, get)`. Were `skip` set at this point,
      `noop` would receive a null source and throw. */
  function Source(m: Machine, d: Descriptor): (r: Result<Operand>)
    ensures r.Err? ==> r.fault == IndexOutOfRangeException || (r.fault == NullReferenceException && m.skip)
    ensures r.Ok? ==> r.value.m == Addressed(m, d).(skip := false)
  {
    match Route(m, d)
    case Err(f, s) => Err(f, s)
    case Ok(r) =>
      if r.skipped then Err(NullReferenceException, r.m)
      else Ok(Operand(Read(r.m, r.loc), r.m))
  }

  // ---------------------------------------------------------------------------
  // `dispatch` and the handlers.

  /** A primary handler applied to the resolved destination. */
  function Apply(op: BasicOp, dest: Location, m: Machine, b: Descriptor): (r: Result<Machine>)
    ensures r.Err? ==> || r.fault == IndexOutOfRangeException
                       || (r.fault == NullReferenceException && m.skip)
                       || (r.fault == DivideByZeroException && op == Mod)
  {
    var before := Read(m, dest);
    match Source(m, b)
    case Err(f, s) => Err(f, s)
    case Ok(src) =>
      var a := if ReadsDestFirst(op) then before else Read(src.m, dest);
      match Execute(op, a, src.value)
      case WriteDest(v) => Ok(Write(src.m, dest, v))
      case WriteDestAndO(v, o) => Ok(Write(src.m, dest, v).(o := o))
      case SetSkip(s) => Ok(src.m.(skip := s))
      case DivideByZero => Err(DivideByZeroException, src.m)
  }

  /** A handler writes its destination, `O` and `skip`, and nothing else: the machine it
      leaves is the one the source operand left, with one value written to the destination. */
  lemma ApplyFrame(op: BasicOp, dest: Location, m: Machine, b: Descriptor)
    requires Apply(op, dest, m, b).Ok?
    ensures Source(m, b).Ok?
    ensures var s := Source(m, b).value.m;
      var r := Apply(op, dest, m, b).value;
      r == Write(s, dest, Read(r, dest)).(o := r.o, skip := r.skip)
  {
    var src := Source(m, b).value;
    var s := src.m;
    var r := Apply(op, dest, m, b).value;
    var a := if ReadsDestFirst(op) then Read(m, dest) else Read(s, dest);
    match Execute(op, a, src.value)
    case WriteDest(v) =>
      assert r == Write(s, dest, v);
    case WriteDestAndO(v, o) =>
      assert r == Write(s, dest, v).(o := o);
      if dest == Overflow {
        assert Read(r, dest) == o;
      }
    case SetSkip(k) =>
      assert r == s.(skip := k);
      WriteBack(s, dest);
  }

  /** `dispatch(aaaaaa, bbbbbb, op)`: a skipped instruction runs `noop`, which forces the
      source for its side effects and discards it. */
  function Dispatch(m: Machine, op: BasicOp, a: Descriptor, b: Descriptor): (r: Result<Machine>)
    ensures r.Err? ==> r.fault == IndexOutOfRangeException || (r.fault == DivideByZeroException && op == Mod && !m.skip)
  {
    match Route(m, a)
    case Err(f, s) => Err(f, s)
    case Ok(r) =>
      if r.skipped then
        match Source(r.m, b)
        case Err(f, s) => Err(f, s)
        case Ok(src) => Ok(src.m)
      else Apply(op, r.loc, r.m, b)
  }

  /** `jsr`: push the program counter, then jump to the operand, which is read after the push:
      an operand that names SP or the new top of the stack sees the push. */
  function JumpToSubroutine(m: Machine, target: Location): (r: Machine)
    ensures r.sp == Dec(m.sp) && r.ram[r.sp] == m.pc
    ensures forall addr: Word :: addr != r.sp ==> r.ram[addr] == m.ram[addr]
    ensures r.regs == m.regs && r.o == m.o && r.skip == m.skip
    ensures r.pc == if target == Cell(Dec(m.sp)) then m.pc
                    else if target == StackPointer then Dec(m.sp)
                    else Read(m, target)
  {
    var pushed := Push(m, m.pc);
    pushed.(pc := Read(pushed, target))
  }

  /** `extended(oooooo, aaaaaa)`: an unknown extended opcode throws before `route`, so it
      neither clears `skip` nor resolves its operand. */
  function Extended(m: Machine, code: Descriptor, a: Descriptor): (r: Result<Machine>)
    ensures r.Err? && r.fault == InvalidOperationException <==> code != 0x01
    ensures r.Err? ==> r.fault != DivideByZeroException
    ensures r.Err? && r.fault == NullReferenceException ==> m.skip
  {
    match ExtOpOf(code)
    case None => Err(InvalidOperationException, m)
    case Some(Jsr) =>
      match Route(m, a)
      case Err(f, s) => Err(f, s)
      case Ok(r) =>
        if r.skipped then Err(NullReferenceException, r.m)
        else Ok(JumpToSubroutine(r.m, r.loc))
  }

  /** The machine after fetching the instruction word: `machine.ram[machine.pc++]`. */
  function Fetched(m: Machine): Machine
  {
    m.(pc := Inc(m.pc))
  }

  /** `DoCycle`: fetch, decode and execute one instruction. Each fault has one cause: an
      extended opcode other than JSR, a skipped JSR, MOD by zero, or an indexed address past
      the end of memory. */
  function Step(m: Machine): (r: Result<Machine>)
    ensures var ins := Decode(m.ram[m.pc]);
      r.Err? && r.fault == InvalidOperationException <==> ins.op == 0 && ins.a != 0x01
    ensures var ins := Decode(m.ram[m.pc]);
      r.Err? && r.fault == NullReferenceException ==> m.skip && ins.op == 0 && ins.a == 0x01
    ensures r.Err? && r.fault == DivideByZeroException ==> !m.skip && Decode(m.ram[m.pc]).op == 0x6
  {
    var ins := Decode(m.ram[m.pc]);
    match BasicOpOf(ins.op)
    case None => Extended(Fetched(m), ins.a, ins.b)
    case Some(op) => Dispatch(Fetched(m), op, ins.a, ins.b)
  }

  /** An instruction that is not skipped and not extended: route the destination, then apply
      the handler to it. */
  lemma UnskippedStep(m: Machine)
    requires !m.skip && Decode(m.ram[m.pc]).op != 0
    ensures var ins := Decode(m.ram[m.pc]);
      var r := Route(Fetched(m), ins.a);
      Step(m) == if r.Err? then Err(r.fault, r.state)
                 else Apply(BasicOpOf(ins.op).value, r.value.loc, r.value.m, ins.b)
    ensures var ins := Decode(m.ram[m.pc]);
      Route(Fetched(m), ins.a).Ok? ==> !Route(Fetched(m), ins.a).value.skipped
  {
  }
}
