/** The finsh abstract syntax tree, its type pass and its code generator. */
module FinshNode {
  import opened FinshWord

  /** enum finsh_type, without the unknown type. */
  datatype VarType = TVoid | TVoidP | TChar | TUChar | TCharP | TShort | TUShort | TShortP
                   | TInt | TUInt | TIntP | TLong | TULong | TLongP

  datatype DataType = Void | AByte | AWord | Dword

  /** What an identifier node points to; `addr` is the address of the value. The record of a
      system variable only points to the value; `record` is where the record would hold it if
      it were that of a variable. */
  datatype Symbol = Var(ty: VarType, addr: Long) | SysVar(ty: VarType, addr: Long, record: Long) | SysCall(func: Long)

  /** Where ++ and -- look for the value: in the record, which they take for a variable's. */
  function InRecord(s: Symbol): Long
    requires !s.SysCall?
  {
    if s.Var? then s.addr else s.record
  }

  datatype Kind =
    | Id(sym: Symbol)
    | ValueChar(c: Byte)
    | ValueLong(v: Long)      // int and long constants
    | ValuePtr(p: Long)       // string and null constants
    | Bin(op: BinOp)
    | BitNot
    | Func
    | Assign
    | PreInc | PreDec | PostInc | PostDec
    | GetValue | GetAddr
    | SysNull

  /** `Node` carries the node's own attributes, its first child and its next sibling. */
  datatype Node = Null | Node(kind: Kind, dataType: DataType, isAddr: bool, child: Node, sibling: Node)

  // ---- opcodes, finsh_ops.h ----

  const OP_LD_BYTE: Byte := 0x22
  const OP_LD_WORD: Byte := 0x23
  const OP_LD_DWORD: Byte := 0x24
  const OP_LD_VALUE_BYTE: Byte := 0x25
  const OP_LD_VALUE_WORD: Byte := 0x26
  const OP_LD_VALUE_DWORD: Byte := 0x27
  const OP_ST_BYTE: Byte := 0x28
  const OP_ST_WORD: Byte := 0x29
  const OP_ST_DWORD: Byte := 0x2A
  const OP_POP: Byte := 0x2B
  const OP_SYSCALL: Byte := 0x2C
  const OP_LD_VALUE_BYTE_STACK: Byte := 0x2D
  const OP_LD_VALUE_DWORD_STACK: Byte := 0x2F
  const OP_BITWISE_BYTE: Byte := 0x19

  /** FINSH_OP_xxx_BYTE; the word and dword forms follow it. */
  function BinBase(op: BinOp): Byte {
    match op
    case Add => 0x01 case Sub => 0x04 case Div => 0x07 case Mod => 0x0A case Mul => 0x0D
    case And => 0x10 case Or => 0x13 case Xor => 0x16 case Shl => 0x1C case Shr => 0x1F
  }

  /** The byte, word or dword form of an instruction; nothing for a void type. */
  function Sized(base: Byte, ty: DataType): seq<Byte>
    requires base < 250
  {
    match ty
    case Void => []
    case AByte => [base]
    case AWord => [base + 1]
    case Dword => [base + 2]
  }

  // ---- finsh_type_check ----

  function VarDataType(ty: VarType): DataType {
    if ty.TVoid? then Void
    else if ty.TChar? || ty.TUChar? then AByte
    else if ty.TShort? || ty.TUShort? then AWord
    else Dword
  }

  function LeafDataType(k: Kind, ty: DataType): DataType {
    if k.Id? && !k.sym.SysCall? then VarDataType(k.sym.ty)
    else if k.ValueChar? then AByte
    else if k.ValueLong? || k.ValuePtr? then Dword
    else ty
  }

  /** Whether the child of a node is checked as an address. */
  predicate ChildIsAddr(k: Kind, isAddr: bool) {
    if k.Assign? || k.PreInc? || k.PreDec? || k.GetAddr? then true
    else if k.GetValue? && isAddr then false
    else isAddr
  }

  function TypeCheck(n: Node, isAddr: bool): Node {
    match n
    case Null => Null
    case Node(k, ty, a, child, sibling) =>
      var child' := TypeCheck(child, ChildIsAddr(k, isAddr));
      var sibling' := TypeCheck(sibling, false);
      var a' := if k.Id? && k.sym.SysCall? then a else a || isAddr;
      var ty' := if child'.Node? then child'.dataType else LeafDataType(k, ty);
      Node(k, ty', a', child', sibling')
  }

  // ---- finsh_compile ----

  function Operand(op: Byte, v: Long): (b: seq<Byte>)
    ensures |b| == 5
  {
    [op] + Set32(v)
  }

  function IdCode(s: Symbol, isAddr: bool): seq<Byte> {
    if s.SysCall? then Operand(OP_LD_DWORD, s.func)
    else if s.ty.TVoid? || s.ty.TVoidP? then []
    else if isAddr then Operand(OP_LD_DWORD, s.addr)
    else if VarDataType(s.ty) == AByte then Operand(OP_LD_VALUE_BYTE, s.addr)
    else if VarDataType(s.ty) == AWord then Operand(OP_LD_VALUE_WORD, s.addr)
    else Operand(OP_LD_VALUE_DWORD, s.addr)
  }

  /** ld_value &id; ld 1; add or sub; st */
  function StepCode(op: BinOp, ty: DataType, addr: Long): seq<Byte> {
    match ty
    case Void => []
    case AByte => Operand(OP_LD_VALUE_BYTE, addr) + [OP_LD_BYTE, 1] + Sized(BinBase(op), ty) + [OP_ST_BYTE]
    case AWord => Operand(OP_LD_VALUE_WORD, addr) + [OP_LD_WORD, 1, 0] + Sized(BinBase(op), ty) + [OP_ST_WORD]
    case Dword => Operand(OP_LD_VALUE_DWORD, addr) + Operand(OP_LD_DWORD, 1) + Sized(BinBase(op), ty) + [OP_ST_DWORD]
  }

  function PreCode(op: BinOp, ty: DataType, child: Node): seq<Byte> {
    if ty != Void && child.Node? && child.kind.Id? && !child.kind.sym.SysCall? then
      StepCode(op, ty, InRecord(child.kind.sym)) + [OP_LD_VALUE_DWORD_STACK]
    else []
  }

  function PostCode(op: BinOp, ty: DataType, child: Node): seq<Byte> {
    if ty != Void && child.Node? && child.kind.Id? && !child.kind.sym.SysCall? then
      var a := InRecord(child.kind.sym);
      Operand(OP_LD_DWORD, a) + StepCode(op, ty, a) + [OP_POP]
    else []
  }

  function Siblings(n: Node): nat {
    if n.Null? then 0 else 1 + Siblings(n.sibling)
  }

  /** The bytes written for the node itself, after those of its child. */
  function Emit(n: Node): seq<Byte>
    requires n.Node?
  {
    match n.kind
    case Id(s) => IdCode(s, n.isAddr)
    case ValueChar(c) => [OP_LD_BYTE, c]
    case ValueLong(v) => Operand(OP_LD_DWORD, v)
    case ValuePtr(p) => Operand(OP_LD_DWORD, p)
    case Bin(op) => Sized(BinBase(op), n.dataType)
    case BitNot => Sized(OP_BITWISE_BYTE, n.dataType)
    case Func => if n.child.Node? then [OP_SYSCALL, Siblings(n.child.sibling) % 256] else []
    case Assign =>
      if n.child.Node? && (n.child.kind.Id? || n.child.kind.GetValue?) then
        Sized(OP_ST_BYTE, n.child.dataType) + Sized(OP_LD_VALUE_BYTE_STACK, n.child.dataType)
      else []
    case PreInc => PreCode(Add, n.dataType, n.child)
    case PreDec => PreCode(Sub, n.dataType, n.child)
    case PostInc => PostCode(Add, n.dataType, n.child)
    case PostDec => PostCode(Sub, n.dataType, n.child)
    case GetValue => if n.isAddr then [] else Sized(OP_LD_VALUE_BYTE_STACK, n.dataType)
    case GetAddr => []
    case SysNull => Set32(0)
  }

  /** Child, node, sibling. */
  function Code(n: Node): seq<Byte> {
    if n.Null? then [] else Code(n.child) + Emit(n) + Code(n.sibling)
  }

  function Statement(current: Node, last: bool): seq<Byte> {
    Code(current) + (if last then [] else [OP_POP])
  }

  /** finsh_compiler_run after the type pass: each statement is compiled without
      its siblings, and its value is popped when another statement follows. */
  function ProgramCode(n: Node): seq<Byte> {
    if n.Null? then [] else Statement(n.(sibling := Null), n.sibling.Null?) + ProgramCode(n.sibling)
  }

  const TEXT_MAX := 128

  /** `s` with `xs` written at position `p`. */
  ghost function Put(s: seq<Byte>, p: nat, xs: seq<Byte>): (r: seq<Byte>)
    requires p + |xs| <= |s|
    ensures |r| == |s|
  {
    s[..p] + xs + s[p + |xs|..]
  }

  lemma PutPut(s: seq<Byte>, p: nat, xs: seq<Byte>, ys: seq<Byte>)
    requires p + |xs| + |ys| <= |s|
    ensures Put(Put(s, p, xs), p + |xs|, ys) == Put(s, p, xs + ys)
  {}

  /** The text segment being filled through finsh_compile_pc. */
  class Compiler {
    const text: array<Byte>
    var pc: nat

    ghost predicate Valid() reads this { pc <= text.Length == TEXT_MAX }

    constructor ()
      ensures Valid() && fresh(text) && pc == 0 && text[..] == seq(TEXT_MAX, _ => 0)
    {
      text := new Byte[TEXT_MAX](_ => 0);
      pc := 0;
    }

    method CodeBytes(xs: seq<Byte>)
      requires Valid() && pc + |xs| <= TEXT_MAX
      modifies this`pc, text
      ensures Valid() && pc == old(pc) + |xs|
      ensures text[..] == Put(old(text[..]), old(pc), xs)
    {
      for i := 0 to |xs|
        invariant Valid() && pc == old(pc) + i
        invariant text[..] == Put(old(text[..]), old(pc), xs[..i])
      {
        text[pc] := xs[i];
        pc := pc + 1;
      }
    }

    /** finsh_compile: writes exactly the code of the forest rooted at `n`. */
    method Compile(n: Node)
      requires Valid() && pc + |Code(n)| <= TEXT_MAX
      modifies this`pc, text
      ensures Valid() && pc == old(pc) + |Code(n)|
      ensures text[..] == Put(old(text[..]), old(pc), Code(n))
      decreases n
    {
      if n.Node? {
        ghost var c, e, s := Code(n.child), Emit(n), Code(n.sibling);
        Compile(n.child);
        CodeBytes(Emit(n));
        PutPut(old(text[..]), old(pc), c, e);
        Compile(n.sibling);
        PutPut(old(text[..]), old(pc), c + e, s);
      }
    }

    /** One statement, then a pop of its value when another one follows. */
    method CompileStatement(current: Node, last: bool)
      requires Valid() && pc + |Statement(current, last)| <= TEXT_MAX
      modifies this`pc, text
      ensures Valid() && pc == old(pc) + |Statement(current, last)|
      ensures text[..] == Put(old(text[..]), old(pc), Statement(current, last))
    {
      Compile(current);
      if !last {
        CodeBytes([OP_POP]);
        PutPut(old(text[..]), old(pc), Code(current), [OP_POP]);
      }
    }

    /** finsh_compiler_run: the cleared segment then holds the program followed by no-ops. */
    method Run(root: Node)
      requires Valid() && |ProgramCode(TypeCheck(root, false))| <= TEXT_MAX
      modifies this`pc, text
      ensures Valid()
      ensures text[..] == Put(seq(TEXT_MAX, _ => 0), 0, ProgramCode(TypeCheck(root, false)))
    {
      var sibling := TypeCheck(root, false);
      for i := 0 to TEXT_MAX
        invariant forall j :: 0 <= j < i ==> text[j] == 0
      {
        text[i] := 0;
      }
      pc := 0;
      ghost var code, blank, done: seq<Byte> := ProgramCode(sibling), text[..], [];
      assert blank == seq(TEXT_MAX, _ => 0);
      assert blank == Put(blank, 0, done) && done + code == code;
      while sibling.Node?
        invariant Valid() && pc == |done| && done + ProgramCode(sibling) == code
        invariant text[..] == Put(blank, 0, done)
        decreases sibling
      {
        var current := sibling.(sibling := Null);
        sibling := sibling.sibling;
        ghost var stmt := Statement(current, sibling.Null?);
        Concat(done, stmt, ProgramCode(sibling));
        CompileStatement(current, sibling.Null?);
        PutPut(blank, 0, done, stmt);
        done := done + stmt;
      }
    }
  }

  lemma Concat(a: seq<Byte>, b: seq<Byte>, c: seq<Byte>)
    ensures a + (b + c) == a + b + c
  {}
}
