/** The finsh virtual machine: op_table, the dword operations and the fetch loop. */
module FinshVm {
  import opened Lists
  import opened FinshWord

  const STACK_MAX := 64

  /** What calling the function at an address does; None when it does not return. */
  type Sys = (Long, seq<Long>, Memory) -> Option<(Long, Memory)>

  datatype Vm = Vm(pc: nat, stack: seq<Long>, mem: Memory)

  /** The handlers of op_table; byte and word forms are `Narrow`, past the end is `Missing`. */
  datatype Handler = NoOp | BinDword(op: BinOp) | BwDword | LdDword | LdValueDword | StDword
                   | Pop | Call | LdValueDwordStack | Narrow | Missing

  /** op_table, by index. */
  function OpTable(i: Byte): Handler {
    if i == 0 then NoOp
    else if i == 3 then BinDword(Add)
    else if i == 6 then BinDword(Sub)
    else if i == 9 then BinDword(Div)
    else if i == 12 then BinDword(Mod)
    else if i == 15 then BinDword(Mul)
    else if i == 18 then BinDword(And)
    else if i == 21 then BinDword(Or)
    else if i == 24 then BinDword(Xor)
    else if i == 27 then BwDword
    else if i == 30 then BinDword(Shl)
    else if i == 33 then BinDword(Shr)
    else if i == 36 then LdDword
    else if i == 39 then LdValueDword
    else if i == 42 then StDword
    else if i == 43 then Pop
    else if i == 44 then Call
    else if i == 47 then LdValueDwordStack
    else if i < 48 then Narrow
    else Missing
  }

  /** One handler, with the program counter already past the opcode. None is
      undefined behaviour: a bad address, a stack underflow, an operand past the
      text, an undefined arithmetic result. */
  function Perform(h: Handler, text: seq<Byte>, vm: Vm, sys: Sys): (r: Option<Vm>)
    requires vm.pc <= |text|
    ensures r.Some? ==> vm.pc <= r.value.pc <= |text|
    ensures r.Some? ==> 5 * |r.value.stack| - r.value.pc <= 5 * |vm.stack| - vm.pc + 1
  {
    var n, st := |vm.stack|, vm.stack;
    match h
    case NoOp => Some(vm)
    case BinDword(op) =>
      if n < 2 then None
      else
        var r := Binary(op, st[n - 2], st[n - 1]);
        if r.None? then None else Some(vm.(stack := st[..n - 2] + [r.value]))
    case BwDword =>
      if n < 1 then None else Some(vm.(stack := st[..n - 1] + [Complement(st[n - 1])]))
    case LdDword =>
      if vm.pc + 4 > |text| then None
      else Some(vm.(pc := vm.pc + 4, stack := st + [Get32(text[vm.pc..vm.pc + 4])]))
    case LdValueDword =>
      if vm.pc + 4 > |text| then None
      else
        var a := Get32(text[vm.pc..vm.pc + 4]);
        if a in vm.mem then Some(vm.(pc := vm.pc + 4, stack := st + [vm.mem[a]])) else None
    case LdValueDwordStack =>
      if n < 1 || st[n - 1] !in vm.mem then None
      else Some(vm.(stack := st[..n - 1] + [vm.mem[st[n - 1]]]))
    case StDword =>
      if n < 2 || st[n - 2] !in vm.mem then None
      else Some(vm.(stack := st[..n - 1], mem := vm.mem[st[n - 2] := st[n - 1]]))
    case Pop =>
      if n < 1 then None else Some(vm.(stack := st[..n - 1]))
    case Call =>
      if vm.pc >= |text| then None
      else
        var k: nat := text[vm.pc];
        if k > 16 || n < k + 1 then None
        else
          var r := sys(st[n - k - 1], st[n - k..], vm.mem);
          if r.None? then None else Some(Vm(vm.pc + 1, st[..n - k - 1] + [r.value.0], r.value.1))
    case Narrow => None
    case Missing => None
  }

  function Step(text: seq<Byte>, vm: Vm, sys: Sys): (r: Option<Vm>)
    requires vm.pc < |text|
    ensures r.Some? ==> vm.pc < r.value.pc <= |text|
    ensures r.Some? ==> 5 * |r.value.stack| - r.value.pc <= 5 * |vm.stack| - vm.pc
  {
    Perform(OpTable(text[vm.pc]), text, vm.(pc := vm.pc + 1), sys)
  }

  /** finsh_vm_run: steps until the program counter leaves the text segment. */
  function Exec(text: seq<Byte>, vm: Vm, sys: Sys): Option<Vm>
    requires vm.pc <= |text|
    decreases |text| - vm.pc
  {
    if vm.pc == |text| then Some(vm)
    else match Step(text, vm, sys)
      case None => None
      case Some(vm') => Exec(text, vm', sys)
  }

  lemma ExecOnce(text: seq<Byte>, vm: Vm, sys: Sys)
    requires vm.pc <= |text|
    ensures vm.pc == |text| ==> Exec(text, vm, sys) == Some(vm)
    ensures vm.pc < |text| ==> var r := Step(text, vm, sys);
            Exec(text, vm, sys) == if r.None? then None else Exec(text, r.value, sys)
  {}

  /** The machine's registers and memory as finsh_vm_run changes them. */
  class Machine {
    const text: array<Byte>
    const stack: array<Long>
    var sp: nat
    var pc: nat
    var mem: Memory

    ghost predicate Valid() reads this {
      stack.Length == STACK_MAX && sp <= STACK_MAX && pc <= text.Length && text as object != stack as object
    }

    ghost function State(): Vm
      requires Valid()
      reads this, stack
    {
      Vm(pc, stack[..sp], mem)
    }

    constructor (code: array<Byte>, mem: Memory)
      ensures Valid() && text == code && fresh(stack) && this.mem == mem
    {
      text := code;
      stack := new Long[STACK_MAX](_ => 0);
      this.mem := mem;
      sp, pc := 0, 0;
    }

    /** The operations that replace the two topmost entries by one, or the topmost one. */
    method OpArith(h: Handler) returns (ok: bool)
      requires Valid() && (h.BinDword? || h.BwDword? || h.LdValueDwordStack?)
      modifies this`sp, stack
      ensures Valid() && pc == old(pc)
      ensures forall sys :: Perform(h, text[..], old(State()), sys) == if ok then Some(State()) else None
    {
      ghost var st := stack[..sp];
      match h {
        case BinDword(op) =>
          if sp < 2 { return false; }
          var r := Binary(op, stack[sp - 2], stack[sp - 1]);
          if r.None? { return false; }
          stack[sp - 2] := r.value;
          sp := sp - 1;
          assert stack[..sp] == st[..sp - 1] + [r.value];
        case BwDword =>
          if sp < 1 { return false; }
          stack[sp - 1] := Complement(stack[sp - 1]);
          assert stack[..sp] == st[..sp - 1] + [Complement(st[sp - 1])];
        case LdValueDwordStack =>
          if sp < 1 || stack[sp - 1] !in mem { return false; }
          stack[sp - 1] := mem[stack[sp - 1]];
          assert stack[..sp] == st[..sp - 1] + [mem[st[sp - 1]]];
      }
      return true;
    }

    /** Loads and stores through memory, and pop. */
    method OpMove(h: Handler) returns (ok: bool)
      requires Valid() && (h.LdDword? || h.LdValueDword? || h.StDword? || h.Pop?) && sp < STACK_MAX
      modifies this`sp, this`pc, this`mem, stack
      ensures Valid()
      ensures forall sys :: Perform(h, text[..], old(State()), sys) == if ok then Some(State()) else None
    {
      ghost var st := stack[..sp];
      match h {
        case LdDword =>
          if pc + 4 > text.Length { return false; }
          stack[sp] := Get32(text[pc..pc + 4]);
          sp, pc := sp + 1, pc + 4;
          assert text[..][pc - 4..pc] == text[pc - 4..pc] && stack[..sp] == st + [stack[sp - 1]];
        case LdValueDword =>
          if pc + 4 > text.Length { return false; }
          var a := Get32(text[pc..pc + 4]);
          if a !in mem { return false; }
          stack[sp] := mem[a];
          sp, pc := sp + 1, pc + 4;
          assert text[..][pc - 4..pc] == text[pc - 4..pc] && stack[..sp] == st + [stack[sp - 1]];
        case StDword =>
          if sp < 2 || stack[sp - 2] !in mem { return false; }
          mem := mem[stack[sp - 2] := stack[sp - 1]];
          sp := sp - 1;
          assert stack[..sp] == st[..sp];
        case Pop =>
          if sp < 1 { return false; }
          sp := sp - 1;
          assert stack[..sp] == st[..sp];
      }
      return true;
    }

    /** OP_call: pops the parameters into an array, last one first, then the function. */
    method OpCall(sys: Sys) returns (ok: bool)
      requires Valid()
      modifies this`sp, this`pc, this`mem, stack
      ensures Valid()
      ensures Perform(Call, text[..], old(State()), sys) == if ok then Some(State()) else None
    {
      if pc >= text.Length { return false; }
      var parameters: nat := text[pc];
      if parameters > 16 || sp < parameters + 1 { return false; }
      pc := pc + 1;
      var parameterv := new Long[16](_ => 0);
      ghost var st := stack[..sp];
      var i := 0;
      sp := sp - 1;
      while i < parameters
        invariant 0 <= i <= parameters && sp == |st| - 1 - i
        invariant forall j :: parameters - i <= j < parameters ==> parameterv[j] == st[|st| - parameters + j]
        modifies this`sp, parameterv
      {
        parameterv[parameters - 1 - i] := stack[sp];
        sp := sp - 1;
        i := i + 1;
      }
      assert parameterv[..parameters] == st[|st| - parameters..];
      match sys(stack[sp], parameterv[..parameters], mem) {
        case None => return false;
        case Some((r, m)) =>
          mem := m;
          stack[sp] := r;
          sp := sp + 1;
          assert stack[..sp] == st[..sp - 1] + [r];
      }
      return true;
    }

    method Dispatch(h: Handler, sys: Sys) returns (ok: bool)
      requires Valid() && sp < STACK_MAX
      modifies this`sp, this`pc, this`mem, stack
      ensures Valid()
      ensures Perform(h, text[..], old(State()), sys) == if ok then Some(State()) else None
    {
      match h {
        case NoOp => ok := true;
        case BinDword(_) => ok := OpArith(h);
        case BwDword => ok := OpArith(h);
        case LdValueDwordStack => ok := OpArith(h);
        case Call => ok := OpCall(sys);
        case Narrow => ok := false;
        case Missing => ok := false;
        case _ => ok := OpMove(h);
      }
    }

    /** finsh_vm_run. The loop never overruns the stack: each push takes five bytes of text. */
    method Run(sys: Sys) returns (ok: bool)
      requires Valid() && text.Length <= 5 * STACK_MAX
      modifies this`sp, this`pc, this`mem, stack
      ensures Valid()
      ensures Exec(text[..], Vm(0, [], old(mem)), sys) == if ok then Some(State()) else None
    {
      hide Exec, Perform, OpTable;
      sp, pc := 0, 0;
      assert stack[..sp] == [];
      while pc < text.Length
        invariant Valid() && 5 * sp <= pc
        invariant Exec(text[..], Vm(0, [], old(mem)), sys) == Exec(text[..], State(), sys)
      {
        var op := text[pc];
        ghost var before := State();
        ExecOnce(text[..], before, sys);
        pc := pc + 1;
        ok := Dispatch(OpTable(op), sys);
        assert Step(text[..], before, sys) == if ok then Some(State()) else None;
        if !ok { return; }
      }
      ExecOnce(text[..], State(), sys);
      ok := true;
    }
  }
}
