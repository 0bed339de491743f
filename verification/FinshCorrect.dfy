/** Correctness of the finsh compiler: the bytes emitted for a tree, run by the
    virtual machine, compute the left-to-right value of the source expression. */
module FinshCorrect {
  import opened Lists
  import opened FinshWord
  import opened FinshNode
  import opened FinshVm

  /** Source expressions over dword constants, variables, pointers and calls. */
  datatype Expr =
    | Lit(v: Long)
    | Name(x: Symbol)
    | Binop(bop: BinOp, l: Expr, r: Expr)
    | Compl(e: Expr)
    | Set(x: Symbol, e: Expr)          // x = e
    | SetAt(p: Expr, e: Expr)          // *p = e
    | Bump(dir: BinOp, post: bool, x: Symbol)   // ++x, x--, ...
    | Deref(p: Expr)
    | AddrName(x: Symbol)
    | AddrDeref(p: Expr)               // &*p
    | Invoke(f: Long, args: Args)
  datatype Args = End | More(first: Expr, rest: Args)

  // ---- source meaning ----

  type Result = Option<(Long, Memory)>

  function Store(a: Long, v: Long, m: Memory): Result {
    if a in m then Some((v, m[a := v])) else None
  }

  /** Left-to-right evaluation; None where the source program is undefined. */
  function Eval(e: Expr, m: Memory, sys: Sys): Result {
    match e
    case Lit(v) => Some((v, m))
    case Name(x) => if x.SysCall? || x.addr !in m then None else Some((m[x.addr], m))
    case Binop(op, l, r) =>
      var a := Eval(l, m, sys);
      if a.None? then None else
      var b := Eval(r, a.value.1, sys);
      if b.None? then None else
      var v := Binary(op, a.value.0, b.value.0);
      if v.None? then None else Some((v.value, b.value.1))
    case Compl(e) =>
      var a := Eval(e, m, sys);
      if a.None? then None else Some((Complement(a.value.0), a.value.1))
    case Set(x, e) =>
      var a := Eval(e, m, sys);
      if a.None? || x.SysCall? then None else Store(x.addr, a.value.0, a.value.1)
    case SetAt(p, e) =>
      var a := Eval(p, m, sys);
      if a.None? then None else
      var b := Eval(e, a.value.1, sys);
      if b.None? then None else Store(a.value.0, b.value.0, b.value.1)
    case Bump(dir, post, x) =>
      if x.SysCall? || x.addr !in m then None else
      var v := Binary(dir, m[x.addr], 1);
      if v.None? then None
      else Some((if post then m[x.addr] else v.value, m[x.addr := v.value]))
    case Deref(p) =>
      var a := Eval(p, m, sys);
      if a.None? || a.value.0 !in a.value.1 then None else Some((a.value.1[a.value.0], a.value.1))
    case AddrName(x) => if x.SysCall? then None else Some((x.addr, m))
    case AddrDeref(p) => Eval(p, m, sys)
    case Invoke(f, args) =>
      var a := EvalArgs(args, m, sys);
      if a.None? then None else sys(f, a.value.0, a.value.1)
  }

  function EvalArgs(args: Args, m: Memory, sys: Sys): (r: Option<(seq<Long>, Memory)>)
    ensures r.Some? ==> |r.value.0| == Count(args)
  {
    match args
    case End => Some(([], m))
    case More(e, rest) =>
      var a := Eval(e, m, sys);
      if a.None? then None else
      var b := EvalArgs(rest, a.value.1, sys);
      if b.None? then None else Some(([a.value.0] + b.value.0, b.value.1))
  }

  function Count(args: Args): nat {
    if args.End? then 0 else 1 + Count(args.rest)
  }

  /** `++x` is `x = x + 1`; `x++` does the same and gives the old value. */
  lemma BumpMeaning(dir: BinOp, x: Symbol, m: Memory, sys: Sys)
    requires dir == Add || dir == Sub
    ensures var pre, post := Eval(Bump(dir, false, x), m, sys), Eval(Bump(dir, true, x), m, sys);
            && pre == Eval(Set(x, Binop(dir, Name(x), Lit(1))), m, sys)
            && (pre.Some? <==> post.Some?)
            && (post.Some? ==> Eval(Name(x), m, sys).Some? && post.value.0 == Eval(Name(x), m, sys).value.0)
            && (post.Some? ==> post.value.1 == pre.value.1)
  {
    hide Binary;
    var sum := Eval(Binop(dir, Name(x), Lit(1)), m, sys);
    assert Eval(Lit(1), m, sys) == Some((1, m));
    if !x.SysCall? && x.addr in m {
      assert Eval(Name(x), m, sys) == Some((m[x.addr], m));
      var v := Binary(dir, m[x.addr], 1);
      assert sum == if v.None? then None else Some((v.value, m));
    } else {
      assert Eval(Name(x), m, sys).None? && sum.None?;
    }
  }

  /** An assignment changes exactly the cell of its variable, to the value it gives. */
  lemma AssignMeaning(x: Symbol, e: Expr, m: Memory, sys: Sys)
    requires Eval(Set(x, e), m, sys).Some?
    ensures Eval(e, m, sys).Some?
    ensures var (v, m1), (v', m2) := Eval(e, m, sys).value, Eval(Set(x, e), m, sys).value;
            && v' == v && m2.Keys == m1.Keys && Eval(Name(x), m2, sys) == Some((v, m2))
            && forall a :: a in m1 && !(!x.SysCall? && a == x.addr) ==> m2[a] == m1[a]
  {
    hide Binary;
  }

  /** `*&x` is `x`, on both sides of an assignment, and `&*p` is `p`. */
  lemma PointerMeaning(x: Symbol, p: Expr, e: Expr, m: Memory, sys: Sys)
    requires !x.SysCall?
    ensures Eval(Deref(AddrName(x)), m, sys) == Eval(Name(x), m, sys)
    ensures Eval(SetAt(AddrName(x), e), m, sys) == Eval(Set(x, e), m, sys)
    ensures Eval(AddrDeref(p), m, sys) == Eval(p, m, sys)
  {
    hide Binary;
  }

  // ---- the trees the parser builds ----

  function Leaf(k: Kind, sibling: Node): Node { Node(k, Void, false, Null, sibling) }

  function Tree(e: Expr, sibling: Node): (n: Node)
    ensures n.Node? && n.sibling == sibling
  {
    match e
    case Lit(v) => Leaf(ValueLong(v), sibling)
    case Name(x) => Leaf(Id(x), sibling)
    case Binop(op, l, r) => Node(Bin(op), Void, false, Tree(l, Tree(r, Null)), sibling)
    case Compl(e) => Node(BitNot, Void, false, Tree(e, Null), sibling)
    case Set(x, e) => Node(Assign, Void, false, Leaf(Id(x), Tree(e, Null)), sibling)
    case SetAt(p, e) =>
      Node(Assign, Void, false, Node(GetValue, Void, false, Tree(p, Null), Tree(e, Null)), sibling)
    case Bump(dir, post, x) =>
      var k := if dir == Add then (if post then PostInc else PreInc) else (if post then PostDec else PreDec);
      Node(k, Void, false, Leaf(Id(x), Null), sibling)
    case Deref(p) => Node(GetValue, Void, false, Tree(p, Null), sibling)
    case AddrName(x) => Node(GetAddr, Void, false, Leaf(Id(x), Null), sibling)
    case AddrDeref(p) => Node(GetAddr, Void, false, Node(GetValue, Void, false, Tree(p, Null), Null), sibling)
    case Invoke(f, args) => Node(Func, Void, false, Leaf(Id(SysCall(f)), ArgTrees(args)), sibling)
  }

  function ArgTrees(args: Args): Node {
    match args
    case End => Null
    case More(e, rest) => Tree(e, ArgTrees(rest))
  }

  // ---- the fragment on which the type pass selects the right instructions ----

  predicate DwordVar(x: Symbol) {
    !x.SysCall? && (x.ty.TInt? || x.ty.TUInt? || x.ty.TLong? || x.ty.TULong? || x.ty.TIntP? || x.ty.TLongP?)
  }

  /** The data type the type pass gives: that of the leftmost leaf, void for a call. */
  predicate HasType(e: Expr) {
    match e
    case Binop(_, l, _) => HasType(l)
    case Compl(e) => HasType(e)
    case SetAt(p, _) => HasType(p)
    case Deref(p) => HasType(p)
    case AddrDeref(p) => HasType(p)
    case Invoke(_, _) => false
    case _ => true
  }

  /** Dword variables and at most 16 arguments. */
  predicate Simple(e: Expr) {
    match e
    case Lit(_) => true
    case Name(x) => DwordVar(x)
    case Binop(_, l, r) => Simple(l) && Simple(r)
    case Compl(e) => Simple(e)
    case Set(x, e) => DwordVar(x) && Simple(e)
    case SetAt(p, e) => Simple(p) && Simple(e)
    case Bump(dir, _, x) => DwordVar(x) && x.Var? && (dir == Add || dir == Sub)
    case Deref(p) => Simple(p)
    case AddrName(x) => DwordVar(x)
    case AddrDeref(p) => Simple(p)
    case Invoke(_, args) => SimpleArgs(args) && Count(args) <= 16
  }

  predicate SimpleArgs(args: Args) {
    args.More? ==> Simple(args.first) && SimpleArgs(args.rest)
  }

  /** And no operator whose first operand is void. */
  predicate Typed(e: Expr): (b: bool)
    ensures b ==> Simple(e)
  {
    match e
    case Lit(_) => true
    case Name(x) => DwordVar(x)
    case Binop(_, l, r) => HasType(l) && Typed(l) && Typed(r)
    case Compl(e) => HasType(e) && Typed(e)
    case Set(x, e) => DwordVar(x) && Typed(e)
    case SetAt(p, e) => HasType(p) && Typed(p) && Typed(e)
    case Bump(dir, _, x) => DwordVar(x) && x.Var? && (dir == Add || dir == Sub)
    case Deref(p) => HasType(p) && Typed(p)
    case AddrName(x) => DwordVar(x)
    case AddrDeref(p) => Typed(p)
    case Invoke(_, args) => TypedArgs(args) && Count(args) <= 16
  }

  predicate TypedArgs(args: Args): (b: bool)
    ensures b ==> SimpleArgs(args)
  {
    args.More? ==> Typed(args.first) && TypedArgs(args.rest)
  }

  // ---- what the two passes produce ----

  /** An operator's bytes are there only if its first operand `l` has a type. */
  function Selected(code: seq<Byte>, l: Expr): seq<Byte> { if HasType(l) then code else [] }

  function Target(e: Expr): seq<Byte>
    requires Simple(e)
  {
    match e
    case Lit(v) => Operand(OP_LD_DWORD, v)
    case Name(x) => Operand(OP_LD_VALUE_DWORD, x.addr)
    case Binop(op, l, r) => Target(l) + Target(r) + Selected(Sized(BinBase(op), Dword), l)
    case Compl(e) => Target(e) + Selected([0x1B], e)
    case Set(x, e) => Operand(OP_LD_DWORD, x.addr) + Target(e) + [OP_ST_DWORD, OP_LD_VALUE_DWORD_STACK]
    case SetAt(p, e) => Target(p) + Target(e) + Selected([OP_ST_DWORD, OP_LD_VALUE_DWORD_STACK], p)
    case Bump(dir, post, x) =>
      if post then
        Operand(OP_LD_VALUE_DWORD, x.addr) + (Operand(OP_LD_DWORD, x.addr) + StepCode(dir, Dword, x.addr) + [OP_POP])
      else
        Operand(OP_LD_DWORD, x.addr) + (StepCode(dir, Dword, x.addr) + [OP_LD_VALUE_DWORD_STACK])
    case Deref(p) => Target(p) + Selected([OP_LD_VALUE_DWORD_STACK], p)
    case AddrName(x) => Operand(OP_LD_DWORD, x.addr)
    case AddrDeref(p) => Target(p)
    case Invoke(f, args) => Operand(OP_LD_DWORD, f) + ArgsTarget(args) + [OP_SYSCALL, Count(args)]
  }

  function ArgsTarget(args: Args): seq<Byte>
    requires SimpleArgs(args)
  {
    if args.End? then [] else Target(args.first) + ArgsTarget(args.rest)
  }

  lemma SiblingCount(args: Args)
    ensures Siblings(TypeCheck(ArgTrees(args), false)) == Count(args)
  {
    if args.More? { SiblingCount(args.rest); }
  }

  ghost predicate Compiles(e: Expr, s: Node)
    requires Simple(e)
  {
    var t := TypeCheck(Tree(e, s), false);
    Code(t) == Target(e) + Code(TypeCheck(s, false)) && t.dataType == (if HasType(e) then Dword else Void)
  }

  /** The type pass and the code generator produce `Target`, then the sibling's code. */
  lemma {:induction false} TreeCode(e: Expr, s: Node)
    requires Simple(e)
    ensures Compiles(e, s)
    decreases e
  {
    hide Compiles, Code, TypeCheck, Tree, Target, Emit;
    match e
    case Lit(_) => LeafCode(e, s);
    case Name(x) => LeafCode(e, s);
    case AddrName(x) => LeafCode(e, s);
    case Bump(_, _, _) =>
      if e.post { PostBumpCode(e, s); } else { PreBumpCode(e, s); }
    case Binop(_, l, r) =>
      TreeCode(l, Tree(r, Null));
      TreeCode(r, Null);
      BinopCode(e, s);
    case Compl(e1) =>
      TreeCode(e1, Null);
      ComplCode(e, s);
    case Set(x, e1) =>
      TreeCode(e1, Null);
      SetCode(e, s);
    case SetAt(p, e1) =>
      TreeCode(e1, Null);
      TreeCode(p, Null);
      SetAtCode(e, s);
    case Deref(p) =>
      TreeCode(p, Null);
      DerefCode(e, s);
    case AddrDeref(p) =>
      TreeCode(p, Null);
      AddrDerefCode(e, s);
    case Invoke(f, args) =>
      ArgTreesCode(args);
      InvokeCode(e, s);
  }

  lemma {:induction false} ArgTreesCode(args: Args)
    requires SimpleArgs(args)
    ensures Code(TypeCheck(ArgTrees(args), false)) == ArgsTarget(args)
    decreases args
  {
    if args.More? {
      TreeCode(args.first, ArgTrees(args.rest));
      ArgTreesCode(args.rest);
    }
  }

  lemma Nil(a: seq<Byte>)
    ensures a + [] == a
  {}

  /** Both passes over one inner node with freshly parsed attributes. */
  lemma NodeCode(k: Kind, child: Node, s: Node, isAddr: bool)
    requires child.Node? && !k.Id?
    ensures var c, t := TypeCheck(child, ChildIsAddr(k, isAddr)), TypeCheck(Node(k, Void, false, child, s), isAddr);
            && t == Node(k, c.dataType, isAddr, c, TypeCheck(s, false))
            && Code(t) == Code(c) + Emit(t) + Code(TypeCheck(s, false))
  {}

  /** Both passes over a dword variable. */
  lemma VarCode(x: Symbol, s: Node, isAddr: bool)
    requires DwordVar(x)
    ensures var t := TypeCheck(Leaf(Id(x), s), isAddr);
            && t == Node(Id(x), Dword, isAddr, Null, TypeCheck(s, false))
            && var code := Operand(if isAddr then OP_LD_DWORD else OP_LD_VALUE_DWORD, x.addr);
               Code(t) == (if s.Null? then code else code + Code(TypeCheck(s, false)))
  {
    var t := TypeCheck(Leaf(Id(x), s), isAddr);
    assert TypeCheck(Null, ChildIsAddr(Id(x), isAddr)) == Null;
    assert Emit(t) == Operand(if isAddr then OP_LD_DWORD else OP_LD_VALUE_DWORD, x.addr);
    assert Code(Null) == [];
    assert Code(t) == Code(Null) + Emit(t) + Code(t.sibling);
    assert [] + Emit(t) == Emit(t) == Emit(t) + [];
  }

  lemma LeafCode(e: Expr, s: Node)
    requires (e.Lit? || e.Name? || e.AddrName?) && Simple(e)
    ensures Compiles(e, s)
  {
    if e.Name? {
      VarCode(e.x, s, false);
      Nil(Operand(OP_LD_VALUE_DWORD, e.x.addr));
    } else if e.AddrName? {
      VarCode(e.x, Null, true);
      NodeCode(GetAddr, Leaf(Id(e.x), Null), s, false);
    }
  }

  lemma DerefCode(e: Expr, s: Node)
    requires e.Deref? && Simple(e) && Compiles(e.p, Null)
    ensures Compiles(e, s)
  {
    NodeCode(GetValue, Tree(e.p, Null), s, false);
    Nil(Target(e.p));
  }

  lemma PreBumpCode(e: Expr, s: Node)
    requires e.Bump? && Simple(e) && !e.post
    ensures Compiles(e, s)
  {
    VarCode(e.x, Null, true);
    NodeCode(if e.dir == Add then PreInc else PreDec, Leaf(Id(e.x), Null), s, false);
  }

  lemma PostBumpCode(e: Expr, s: Node)
    requires e.Bump? && Simple(e) && e.post
    ensures Compiles(e, s)
  {
    VarCode(e.x, Null, false);
    NodeCode(if e.dir == Add then PostInc else PostDec, Leaf(Id(e.x), Null), s, false);
  }

  lemma BinopCode(e: Expr, s: Node)
    requires e.Binop? && Simple(e) && Compiles(e.l, Tree(e.r, Null)) && Compiles(e.r, Null)
    ensures Compiles(e, s)
  {
    hide TypeCheck, Code, Operand;
    EmptyCode();
    Nil(Target(e.r));
    NodeCode(Bin(e.bop), Tree(e.l, Tree(e.r, Null)), s, false);
  }

  lemma ComplCode(e: Expr, s: Node)
    requires e.Compl? && Simple(e) && Compiles(e.e, Null)
    ensures Compiles(e, s)
  {
    hide TypeCheck, Code, Operand;
    EmptyCode();
    Nil(Target(e.e));
    NodeCode(BitNot, Tree(e.e, Null), s, false);
  }

  lemma AddrDerefCode(e: Expr, s: Node)
    requires e.AddrDeref? && Simple(e) && Compiles(e.p, Null)
    ensures Compiles(e, s)
  {
    var inner := Node(GetValue, Void, false, Tree(e.p, Null), Null);
    NodeCode(GetValue, Tree(e.p, Null), Null, true);
    Nil(Target(e.p));
    assert Code(TypeCheck(inner, true)) == Target(e.p);
    NodeCode(GetAddr, inner, s, false);
  }

  lemma SetCode(e: Expr, s: Node)
    requires e.Set? && Simple(e) && Compiles(e.e, Null)
    ensures Compiles(e, s)
  {
    var lhs := Leaf(Id(e.x), Tree(e.e, Null));
    assert Code(TypeCheck(lhs, true)) == Operand(OP_LD_DWORD, e.x.addr) + Target(e.e);
    AssignCode(lhs, s);
  }

  lemma SetAtCode(e: Expr, s: Node)
    requires e.SetAt? && Simple(e) && Compiles(e.e, Null) && Compiles(e.p, Null)
    ensures Compiles(e, s)
  {
    hide TypeCheck, Code, Operand;
    var lhs := Node(GetValue, Void, false, Tree(e.p, Null), Tree(e.e, Null));
    NodeCode(GetValue, Tree(e.p, Null), Tree(e.e, Null), true);
    EmptyCode();
    Nil(Target(e.p));
    Nil(Target(e.e));
    AssignCode(lhs, s);
    NodeCode(Assign, lhs, s, false);
  }

  /** An assignment whose left side is checked as an address, of a dword or of nothing. */
  lemma AssignCode(lhs: Node, s: Node)
    requires lhs.Node? && (lhs.kind.GetValue? || lhs.kind.Id?)
    requires TypeCheck(lhs, true).dataType == Dword || TypeCheck(lhs, true).dataType == Void
    ensures var code := if TypeCheck(lhs, true).dataType == Dword then [OP_ST_DWORD, OP_LD_VALUE_DWORD_STACK] else [];
            Code(TypeCheck(Node(Assign, Void, false, lhs, s), false)) == Code(TypeCheck(lhs, true)) + code
              + Code(TypeCheck(s, false))
  {}

  /** Both passes over the name of a function and its arguments. */
  lemma CalleeCode(f: Long, trees: Node)
    ensures var t := TypeCheck(Leaf(Id(SysCall(f)), trees), false);
            && t == Node(Id(SysCall(f)), Void, false, Null, TypeCheck(trees, false))
            && Code(t) == Operand(OP_LD_DWORD, f) + Code(TypeCheck(trees, false))
  {
    hide Operand;
    if trees.Null? { Nil(Operand(OP_LD_DWORD, f)); }
  }

  lemma InvokeCode(e: Expr, s: Node)
    requires e.Invoke? && Simple(e) && Code(TypeCheck(ArgTrees(e.args), false)) == ArgsTarget(e.args)
    ensures Compiles(e, s)
  {
    hide TypeCheck, Code, Operand;
    SiblingCount(e.args);
    CalleeCode(e.f, ArgTrees(e.args));
    NodeCode(Func, Leaf(Id(SysCall(e.f)), ArgTrees(e.args)), s, false);
  }

  // ---- running the emitted bytes ----

  /** The bytes `c` lie in the text at position `p`. */
  ghost predicate At(text: seq<Byte>, p: nat, c: seq<Byte>) {
    p + |c| <= |text| && text[p..p + |c|] == c
  }

  lemma AtSplit(text: seq<Byte>, p: nat, a: seq<Byte>, b: seq<Byte>)
    requires At(text, p, a + b)
    ensures At(text, p, a) && At(text, p + |a|, b)
  {
    assert text[p..p + |a|] == (a + b)[..|a|];
    assert text[p + |a|..p + |a| + |b|] == (a + b)[|a|..];
  }

  /** Going on at position `q` with the value of a result pushed on the stack. */
  ghost function Resume(text: seq<Byte>, q: nat, st: seq<Long>, r: Result, sys: Sys): Option<Vm>
    requires q <= |text|
  {
    if r.None? then None else Exec(text, Vm(q, st + [r.value.0], r.value.1), sys)
  }

  ghost function Go(text: seq<Byte>, r: Option<Vm>, sys: Sys): Option<Vm>
    requires r.Some? ==> r.value.pc <= |text|
  {
    if r.None? then None else Exec(text, r.value, sys)
  }

  lemma ExecOp(text: seq<Byte>, p: nat, b: Byte, st: seq<Long>, m: Memory, sys: Sys)
    requires At(text, p, [b])
    ensures p + 1 <= |text|
    ensures Exec(text, Vm(p, st, m), sys) == Go(text, Perform(OpTable(b), text, Vm(p + 1, st, m), sys), sys)
  {
    assert text[p] == text[p..p + 1][0];
  }

  lemma ExecLd(text: seq<Byte>, p: nat, v: Long, st: seq<Long>, m: Memory, sys: Sys)
    requires At(text, p, Operand(OP_LD_DWORD, v))
    ensures p + 5 <= |text|
    ensures Exec(text, Vm(p, st, m), sys) == Exec(text, Vm(p + 5, st + [v], m), sys)
  {
    hide Exec, Binary, Eval;
    AtSplit(text, p, [OP_LD_DWORD], Set32(v));
    ExecOp(text, p, OP_LD_DWORD, st, m, sys);
    Get32Set32(v);
  }

  lemma ExecLdValue(text: seq<Byte>, p: nat, a: Long, st: seq<Long>, m: Memory, sys: Sys)
    requires At(text, p, Operand(OP_LD_VALUE_DWORD, a))
    ensures p + 5 <= |text|
    ensures Exec(text, Vm(p, st, m), sys) ==
            Resume(text, p + 5, st, if a in m then Some((m[a], m)) else None, sys)
  {
    hide Exec, Binary, Eval;
    AtSplit(text, p, [OP_LD_VALUE_DWORD], Set32(a));
    ExecOp(text, p, OP_LD_VALUE_DWORD, st, m, sys);
    Get32Set32(a);
  }

  lemma ExecBinary(text: seq<Byte>, p: nat, op: BinOp, st: seq<Long>, a: Long, b: Long, m: Memory, sys: Sys)
    requires At(text, p, Sized(BinBase(op), Dword))
    ensures p + 1 <= |text|
    ensures var v := Binary(op, a, b);
            Exec(text, Vm(p, st + [a] + [b], m), sys) ==
            Resume(text, p + 1, st, if v.None? then None else Some((v.value, m)), sys)
  {
    hide Exec, Binary;
    var code: Byte := BinBase(op) + 2;
    ExecOp(text, p, code, st + [a] + [b], m, sys);
    assert OpTable(code) == BinDword(op);
    assert (st + [a] + [b])[..|st|] == st;
  }

  lemma ExecSt(text: seq<Byte>, p: nat, st: seq<Long>, a: Long, v: Long, m: Memory, sys: Sys)
    requires At(text, p, [OP_ST_DWORD])
    ensures p + 1 <= |text|
    ensures Exec(text, Vm(p, st + [a] + [v], m), sys) ==
            if a in m then Exec(text, Vm(p + 1, st + [a], m[a := v]), sys) else None
  {
    hide Exec, Binary;
    var st' := st + [a] + [v];
    ExecOp(text, p, OP_ST_DWORD, st', m, sys);
    assert st'[|st|] == a && st'[..|st| + 1] == st + [a];
  }

  lemma ExecPop(text: seq<Byte>, p: nat, st: seq<Long>, v: Long, m: Memory, sys: Sys)
    requires At(text, p, [OP_POP])
    ensures p + 1 <= |text|
    ensures Exec(text, Vm(p, st + [v], m), sys) == Exec(text, Vm(p + 1, st, m), sys)
  {
    hide Exec, Binary;
    ExecOp(text, p, OP_POP, st + [v], m, sys);
    assert (st + [v])[..|st|] == st;
  }

  lemma ExecBw(text: seq<Byte>, p: nat, st: seq<Long>, v: Long, m: Memory, sys: Sys)
    requires At(text, p, [0x1B])
    ensures p + 1 <= |text|
    ensures Exec(text, Vm(p, st + [v], m), sys) == Exec(text, Vm(p + 1, st + [Complement(v)], m), sys)
  {
    hide Exec, Binary;
    ExecOp(text, p, 0x1B, st + [v], m, sys);
    assert (st + [v])[..|st|] == st;
  }

  lemma ExecLoadStack(text: seq<Byte>, p: nat, st: seq<Long>, a: Long, m: Memory, sys: Sys)
    requires At(text, p, [OP_LD_VALUE_DWORD_STACK])
    ensures p + 1 <= |text|
    ensures Exec(text, Vm(p, st + [a], m), sys) ==
            Resume(text, p + 1, st, if a in m then Some((m[a], m)) else None, sys)
  {
    hide Exec, Binary;
    var st' := st + [a];
    ExecOp(text, p, OP_LD_VALUE_DWORD_STACK, st', m, sys);
    assert OpTable(OP_LD_VALUE_DWORD_STACK) == LdValueDwordStack;
    assert st'[|st|] == a && st'[..|st|] == st;
    assert Perform(LdValueDwordStack, text, Vm(p + 1, st', m), sys) ==
           if a in m then Some(Vm(p + 1, st + [m[a]], m)) else None;
  }

  /** st_dword; ld_value_dword_stack */
  lemma ExecStore(text: seq<Byte>, p: nat, st: seq<Long>, a: Long, v: Long, m: Memory, sys: Sys)
    requires At(text, p, [OP_ST_DWORD, OP_LD_VALUE_DWORD_STACK])
    ensures p + 2 <= |text|
    ensures Exec(text, Vm(p, st + [a] + [v], m), sys) == Resume(text, p + 2, st, Store(a, v, m), sys)
  {
    hide Exec, Perform;
    assert [OP_ST_DWORD, OP_LD_VALUE_DWORD_STACK] == [OP_ST_DWORD] + [OP_LD_VALUE_DWORD_STACK];
    AtSplit(text, p, [OP_ST_DWORD], [OP_LD_VALUE_DWORD_STACK]);
    ExecSt(text, p, st, a, v, m, sys);
    if a in m { ExecLoadStack(text, p + 1, st, a, m[a := v], sys); }
  }

  /** ld_value &x; ld 1; add or sub; st  with the address of `x` below. */
  lemma ExecStepCode(text: seq<Byte>, p: nat, dir: BinOp, st: seq<Long>, a: Long, m: Memory, sys: Sys)
    requires At(text, p, StepCode(dir, Dword, a)) && (dir == Add || dir == Sub)
    ensures p + 12 <= |text| && |StepCode(dir, Dword, a)| == 12
    ensures a !in m ==> Exec(text, Vm(p, st + [a], m), sys) == None
    ensures a in m ==> Exec(text, Vm(p, st + [a], m), sys) ==
                       Exec(text, Vm(p + 12, st + [a], m[a := Binary(dir, m[a], 1).value]), sys)
  {
    hide Exec, Perform, At;
    var s1, s2 := Operand(OP_LD_VALUE_DWORD, a), Operand(OP_LD_DWORD, 1);
    var s3 := Sized(BinBase(dir), Dword);
    AtSplit(text, p, s1 + s2 + s3, [OP_ST_DWORD]);
    AtSplit(text, p, s1 + s2, s3);
    AtSplit(text, p, s1, s2);
    ExecLdValue(text, p, a, st + [a], m, sys);
    if a in m {
      ExecLd(text, p + 5, 1, st + [a] + [m[a]], m, sys);
      ExecBinary(text, p + 10, dir, st + [a], m[a], 1, m, sys);
      var v := Binary(dir, m[a], 1).value;
      ExecSt(text, p + 11, st, a, v, m, sys);
    }
  }

  lemma ExecCall(text: seq<Byte>, p: nat, f: Long, vs: seq<Long>, st: seq<Long>, m: Memory, sys: Sys)
    requires |vs| <= 16 && At(text, p, [OP_SYSCALL, |vs|])
    ensures p + 2 <= |text|
    ensures Exec(text, Vm(p, st + [f] + vs, m), sys) == Resume(text, p + 2, st, sys(f, vs, m), sys)
  {
    hide Exec, Perform, At, OpTable;
    AtSplit(text, p, [OP_SYSCALL], [|vs|]) by { assert [OP_SYSCALL] + [|vs|] == [OP_SYSCALL, |vs|]; }
    ExecOp(text, p, OP_SYSCALL, st + [f] + vs, m, sys);
    CallPerforms(text, p + 1, f, vs, st, m, sys);
  }

  lemma CallPerforms(text: seq<Byte>, p: nat, f: Long, vs: seq<Long>, st: seq<Long>, m: Memory, sys: Sys)
    requires |vs| <= 16 && At(text, p, [|vs|])
    ensures p < |text| && OpTable(OP_SYSCALL) == Call
    ensures var r := sys(f, vs, m);
            Perform(Call, text, Vm(p, st + [f] + vs, m), sys) == if r.None? then None
              else Some(Vm(p + 1, st + [r.value.0], r.value.1))
  {
    var st' := st + [f] + vs;
    assert text[p] == text[p..p + 1][0];
    assert st'[|st|] == f && st'[|st| + 1..] == vs && st'[..|st|] == st;
  }

  /** The statement of correctness for one expression at one place. */
  ghost predicate Correct(e: Expr, text: seq<Byte>, p: nat, st: seq<Long>, m: Memory, sys: Sys)
    requires Typed(e) && At(text, p, Target(e))
  {
    Exec(text, Vm(p, st, m), sys) == Resume(text, p + |Target(e)|, st, Eval(e, m, sys), sys)
  }

  /** From any stack and memory, the code of `e` leaves that stack plus the value of
      `e`, and the memory after evaluating `e` from left to right; it goes wrong
      exactly when the source expression is undefined. */
  lemma {:induction false} ExprCorrect(e: Expr, text: seq<Byte>, p: nat, st: seq<Long>, m: Memory, sys: Sys)
    requires Typed(e) && At(text, p, Target(e))
    ensures Correct(e, text, p, st, m, sys)
    decreases e, 1
  {
    hide Exec, Perform, At, Binary, Operand, Set32;
    match e
    case Lit(v) => ExecLd(text, p, v, st, m, sys);
    case Name(x) => ExecLdValue(text, p, x.addr, st, m, sys);
    case AddrName(x) => ExecLd(text, p, x.addr, st, m, sys);
    case AddrDeref(e1) => ExprCorrect(e1, text, p, st, m, sys);
    case Bump(_, _, _) => BumpCorrect(e, text, p, st, m, sys);
    case Compl(e1) =>
      AtSplit(text, p, Target(e1), Selected([0x1B], e1));
      ExprCorrect(e1, text, p, st, m, sys);
      var a := Eval(e1, m, sys);
      if a.Some? {
        ExecBw(text, p + |Target(e1)|, st, a.value.0, a.value.1, sys);
      }
    case Deref(e1) =>
      AtSplit(text, p, Target(e1), [OP_LD_VALUE_DWORD_STACK]);
      ExprCorrect(e1, text, p, st, m, sys);
      var a := Eval(e1, m, sys);
      if a.Some? { ExecLoadStack(text, p + |Target(e1)|, st, a.value.0, a.value.1, sys); }
    case Binop(_, _, _) => PairCorrect(e, text, p, st, m, sys);
    case Set(_, _) => PairCorrect(e, text, p, st, m, sys);
    case SetAt(_, _) => PairCorrect(e, text, p, st, m, sys);
    case Invoke(f, args) =>
      var c := Operand(OP_LD_DWORD, f) + ArgsTarget(args);
      AtSplit(text, p, c, [OP_SYSCALL, Count(args)]);
      AtSplit(text, p, Operand(OP_LD_DWORD, f), ArgsTarget(args));
      ExecLd(text, p, f, st, m, sys);
      ArgsCorrect(args, text, p + 5, st + [f], m, sys);
      var a := EvalArgs(args, m, sys);
      if a.Some? { ExecCall(text, p + |c|, f, a.value.0, st, a.value.1, sys); }
  }

  lemma {:induction false} PairCorrect(e: Expr, text: seq<Byte>, p: nat, st: seq<Long>, m: Memory, sys: Sys)
    requires Typed(e) && At(text, p, Target(e)) && (e.Binop? || e.Set? || e.SetAt?)
    ensures Correct(e, text, p, st, m, sys)
    decreases e, 0
  {
    hide Exec, Perform, At, Binary, Operand, Set32;
    match e
    case Binop(op, l, r) =>
      var lr := Target(l) + Target(r);
      AtSplit(text, p, lr, Sized(BinBase(op), Dword));
      AtSplit(text, p, Target(l), Target(r));
      ExprCorrect(l, text, p, st, m, sys);
      var a := Eval(l, m, sys);
      if a.Some? {
        ExprCorrect(r, text, p + |Target(l)|, st + [a.value.0], a.value.1, sys);
        var b := Eval(r, a.value.1, sys);
        if b.Some? { ExecBinary(text, p + |lr|, op, st, a.value.0, b.value.0, b.value.1, sys); }
      }
    case Set(x, e1) =>
      var c := Operand(OP_LD_DWORD, x.addr) + Target(e1);
      AtSplit(text, p, c, [OP_ST_DWORD, OP_LD_VALUE_DWORD_STACK]);
      AtSplit(text, p, Operand(OP_LD_DWORD, x.addr), Target(e1));
      ExecLd(text, p, x.addr, st, m, sys);
      ExprCorrect(e1, text, p + 5, st + [x.addr], m, sys);
      var a := Eval(e1, m, sys);
      if a.Some? { ExecStore(text, p + |c|, st, x.addr, a.value.0, a.value.1, sys); }
    case SetAt(e0, e1) =>
      var c := Target(e0) + Target(e1);
      AtSplit(text, p, c, [OP_ST_DWORD, OP_LD_VALUE_DWORD_STACK]);
      AtSplit(text, p, Target(e0), Target(e1));
      ExprCorrect(e0, text, p, st, m, sys);
      var a := Eval(e0, m, sys);
      if a.Some? {
        ExprCorrect(e1, text, p + |Target(e0)|, st + [a.value.0], a.value.1, sys);
        var b := Eval(e1, a.value.1, sys);
        if b.Some? { ExecStore(text, p + |c|, st, a.value.0, b.value.0, b.value.1, sys); }
      }
  }

  lemma {:induction false} ArgsCorrect(args: Args, text: seq<Byte>, p: nat, st: seq<Long>, m: Memory, sys: Sys)
    requires TypedArgs(args) && At(text, p, ArgsTarget(args))
    ensures var r := EvalArgs(args, m, sys);
            Exec(text, Vm(p, st, m), sys) ==
            if r.None? then None else Exec(text, Vm(p + |ArgsTarget(args)|, st + r.value.0, r.value.1), sys)
    decreases args, 0
  {
    hide Exec, At;
    match args
    case End =>
      assert st + [] == st;
    case More(e, rest) =>
      AtSplit(text, p, Target(e), ArgsTarget(rest));
      ExprCorrect(e, text, p, st, m, sys);
      var a := Eval(e, m, sys);
      if a.Some? {
        ArgsCorrect(rest, text, p + |Target(e)|, st + [a.value.0], a.value.1, sys);
        var b := EvalArgs(rest, a.value.1, sys);
        if b.Some? { assert st + [a.value.0] + b.value.0 == st + ([a.value.0] + b.value.0); }
      }
  }

  lemma BumpCorrect(e: Expr, text: seq<Byte>, p: nat, st: seq<Long>, m: Memory, sys: Sys)
    requires e.Bump? && Typed(e) && At(text, p, Target(e))
    ensures Correct(e, text, p, st, m, sys)
  {
    hide Exec, Perform, At, Set32;
    var a, step := e.x.addr, StepCode(e.dir, Dword, e.x.addr);
    if e.post {
      var ld := Operand(OP_LD_DWORD, a);
      AtSplit(text, p, Operand(OP_LD_VALUE_DWORD, a), ld + step + [OP_POP]);
      AtSplit(text, p + 5, ld + step, [OP_POP]);
      AtSplit(text, p + 5, ld, step);
      ExecLdValue(text, p, a, st, m, sys);
      if a in m {
        ExecLd(text, p + 5, a, st + [m[a]], m, sys);
        ExecStepCode(text, p + 10, e.dir, st + [m[a]], a, m, sys);
        var m' := m[a := Binary(e.dir, m[a], 1).value];
        ExecPop(text, p + 22, st + [m[a]], a, m', sys);
      }
    } else {
      AtSplit(text, p, Operand(OP_LD_DWORD, a), step + [OP_LD_VALUE_DWORD_STACK]);
      AtSplit(text, p + 5, step, [OP_LD_VALUE_DWORD_STACK]);
      ExecLd(text, p, a, st, m, sys);
      ExecStepCode(text, p + 5, e.dir, st, a, m, sys);
      if a in m {
        ExecLoadStack(text, p + 17, st, a, m[a := Binary(e.dir, m[a], 1).value], sys);
      }
    }
  }

  // ---- operators over a void first operand ----

  /** The code that means `e`: every operator follows its operands. */
  function Whole(e: Expr): seq<Byte>
    requires Simple(e)
  {
    match e
    case Binop(op, l, r) => Whole(l) + Whole(r) + Sized(BinBase(op), Dword)
    case Compl(e) => Whole(e) + [0x1B]
    case Set(x, e) => Operand(OP_LD_DWORD, x.addr) + Whole(e) + [OP_ST_DWORD, OP_LD_VALUE_DWORD_STACK]
    case SetAt(p, e) => Whole(p) + Whole(e) + [OP_ST_DWORD, OP_LD_VALUE_DWORD_STACK]
    case Deref(p) => Whole(p) + [OP_LD_VALUE_DWORD_STACK]
    case AddrDeref(p) => Whole(p)
    case Invoke(f, args) => Operand(OP_LD_DWORD, f) + WholeArgs(args) + [OP_SYSCALL, Count(args)]
    case _ => Target(e)
  }

  function WholeArgs(args: Args): seq<Byte>
    requires SimpleArgs(args)
  {
    if args.End? then [] else Whole(args.first) + WholeArgs(args.rest)
  }

  /** Nothing but operators is ever missing. */
  lemma {:induction false} NotMore(e: Expr)
    requires Simple(e)
    ensures |Target(e)| <= |Whole(e)| && (Typed(e) ==> Target(e) == Whole(e))
            && (!Typed(e) ==> |Target(e)| < |Whole(e)|)
  {
    hide Operand;
    match e
    case Binop(_, l, r) => NotMore(l); NotMore(r);
    case Compl(e1) => NotMore(e1);
    case Set(_, e1) => NotMore(e1);
    case SetAt(p, e1) => NotMore(p); NotMore(e1);
    case Deref(p) => NotMore(p);
    case AddrDeref(p) => NotMore(p);
    case Invoke(_, args) => NotMoreArgs(args);
    case _ =>
  }

  lemma {:induction false} NotMoreArgs(args: Args)
    requires SimpleArgs(args)
    ensures |ArgsTarget(args)| <= |WholeArgs(args)|
    ensures (TypedArgs(args) ==> ArgsTarget(args) == WholeArgs(args))
            && (!TypedArgs(args) ==> |ArgsTarget(args)| < |WholeArgs(args)|)
  {
    if args.More? {
      NotMore(args.first);
      NotMoreArgs(args.rest);
    }
  }

  /** The two passes emit every operator of an expression if and only if no operator in it,
      at any depth, has a void first operand: a call, or the address of what a call points to. */
  lemma EmitsAll(e: Expr)
    requires Simple(e)
    ensures Code(TypeCheck(Tree(e, Null), false)) == Whole(e) <==> Typed(e)
  {
    hide TypeCheck, Code, Target, Whole;
    TreeCode(e, Null);
    EmptyCode();
    Nil(Target(e));
    NotMore(e);
  }

  /** `f(...) op r` and `*f(...) = r` leave both operand values on the stack and never combine
      them: the stack is one entry too long, and nothing is stored. */
  lemma VoidOperandPushesBoth(e: Expr, text: seq<Byte>, p: nat, st: seq<Long>, m: Memory, sys: Sys)
    requires e.Binop? || e.SetAt?
    requires var l, r := First(e), Second(e); Typed(l) && Typed(r) && !HasType(l)
    requires At(text, p, Code(TypeCheck(Tree(e, Null), false)))
    ensures var code := Target(First(e)) + Target(Second(e));
            && p + |code| <= |text|
            && var a := Eval(First(e), m, sys);
            a.Some? ==> var b := Eval(Second(e), a.value.1, sys);
            b.Some? ==>
              Exec(text, Vm(p, st, m), sys) ==
              Exec(text, Vm(p + |code|, st + [a.value.0] + [b.value.0], b.value.1), sys)
  {
    hide Exec, At, Eval, TypeCheck, Code, Typed, Operand;
    var l, r := First(e), Second(e);
    TreeCode(e, Null);
    EmptyCode();
    Nil(Target(l) + Target(r));
    AtSplit(text, p, Target(l), Target(r));
    ExprCorrect(l, text, p, st, m, sys);
    var a := Eval(l, m, sys);
    assert p + |Target(l)| + |Target(r)| <= |text| by { AtFits(text, p + |Target(l)|, Target(r)); }
    if a.Some? {
      ExprCorrect(r, text, p + |Target(l)|, st + [a.value.0], a.value.1, sys);
    }
  }

  function First(e: Expr): Expr
    requires e.Binop? || e.SetAt?
  {
    if e.Binop? then e.l else e.p
  }

  function Second(e: Expr): Expr
    requires e.Binop? || e.SetAt?
  {
    if e.Binop? then e.r else e.e
  }

  /** `~f(...)` and `*f(...)` do what `f(...)` does. */
  lemma VoidOperandUnchanged(e: Expr, text: seq<Byte>, p: nat, st: seq<Long>, m: Memory, sys: Sys)
    requires e.Compl? || e.Deref?
    requires var l := if e.Compl? then e.e else e.p; Typed(l) && !HasType(l)
    requires At(text, p, Code(TypeCheck(Tree(e, Null), false)))
    ensures var l := if e.Compl? then e.e else e.p;
            && p + |Target(l)| <= |text|
            && Exec(text, Vm(p, st, m), sys) == Resume(text, p + |Target(l)|, st, Eval(l, m, sys), sys)
  {
    hide Exec, At, Eval, TypeCheck, Code, Typed, Operand;
    var l := if e.Compl? then e.e else e.p;
    TreeCode(e, Null);
    EmptyCode();
    Nil(Target(l));
    AtFits(text, p, Target(l));
    ExprCorrect(l, text, p, st, m, sys);
  }

  /** ++ and -- of a system variable take its record for that of a variable: the code is the
      one for a variable at its address if and only if its value lay in its record. */
  lemma SystemBump(dir: BinOp, post: bool, x: Symbol)
    requires DwordVar(x) && x.SysVar? && (dir == Add || dir == Sub)
    ensures Code(TypeCheck(Tree(Bump(dir, post, x), Null), false)) == Target(Bump(dir, post, Var(x.ty, x.addr)))
            <==> x.record == x.addr
  {
    hide TypeCheck, Code, Operand, Tree, BumpRest;
    var y := Var(x.ty, x.addr);
    var op := if post then OP_LD_DWORD else OP_LD_VALUE_DWORD;
    var before := Operand(if post then OP_LD_VALUE_DWORD else OP_LD_DWORD, x.addr);
    if post { PostIs(dir, x); PostIs(dir, y); } else { PreIs(dir, x); PreIs(dir, y); }
    TreeCode(Bump(dir, post, y), Null);
    EmptyCode();
    Nil(Target(Bump(dir, post, y)));
    Middle(before, Operand(op, x.record), BumpRest(dir, post, x.record));
    Middle(before, Operand(op, x.addr), BumpRest(dir, post, x.addr));
    OperandApart(op, x.record, x.addr);
  }

  lemma PostIs(dir: BinOp, x: Symbol)
    requires DwordVar(x) && (dir == Add || dir == Sub)
    ensures Code(TypeCheck(Tree(Bump(dir, true, x), Null), false)) ==
            Operand(OP_LD_VALUE_DWORD, x.addr) + (Operand(OP_LD_DWORD, InRecord(x)) + BumpRest(dir, true, InRecord(x)))
  {
    hide TypeCheck, Code, Operand, StepCode;
    VarCode(x, Null, false);
    NodeCode(if dir == Add then PostInc else PostDec, Leaf(Id(x), Null), Null, false);
    EmptyCode();
  }

  lemma PreIs(dir: BinOp, x: Symbol)
    requires DwordVar(x) && (dir == Add || dir == Sub)
    ensures Code(TypeCheck(Tree(Bump(dir, false, x), Null), false)) ==
            Operand(OP_LD_DWORD, x.addr) + (Operand(OP_LD_VALUE_DWORD, InRecord(x)) + BumpRest(dir, false, InRecord(x)))
  {
    hide TypeCheck, Code, Operand;
    VarCode(x, Null, true);
    NodeCode(if dir == Add then PreInc else PreDec, Leaf(Id(x), Null), Null, false);
    EmptyCode();
  }

  /** The code of ++ or -- behind its first operand in the record, at `a`. */
  function BumpRest(dir: BinOp, post: bool, a: Long): seq<Byte> {
    if post then StepCode(dir, Dword, a) + [OP_POP]
    else Operand(OP_LD_DWORD, 1) + Sized(BinBase(dir), Dword) + [OP_ST_DWORD] + [OP_LD_VALUE_DWORD_STACK]
  }

  lemma Middle(a: seq<Byte>, b: seq<Byte>, c: seq<Byte>)
    requires |a| == |b| == 5
    ensures (a + (b + c))[5..10] == b
  {}

  lemma OperandApart(op: Byte, v: Long, w: Long)
    ensures Operand(op, v) == Operand(op, w) <==> v == w
  {
    assert Operand(op, v)[1..] == Set32(v) && Operand(op, w)[1..] == Set32(w);
    Get32Set32(v);
    Get32Set32(w);
  }

  lemma EmptyCode()
    ensures Code(TypeCheck(Null, false)) == []
  {}

  lemma AtFits(text: seq<Byte>, p: nat, c: seq<Byte>)
    requires At(text, p, c)
    ensures p + |c| <= |text|
  {}

  // ---- whole programs ----

  /** A statement list runs its statements in turn; its value is the last one's. */
  function EvalProgram(stmts: Args, m: Memory, sys: Sys): Result
    requires stmts.More?
  {
    var a := Eval(stmts.first, m, sys);
    if a.None? || stmts.rest.End? then a else EvalProgram(stmts.rest, a.value.1, sys)
  }

  function ProgramTarget(stmts: Args): seq<Byte>
    requires TypedArgs(stmts)
  {
    if stmts.End? then []
    else if stmts.rest.End? then Target(stmts.first)
    else Target(stmts.first) + [OP_POP] + ProgramTarget(stmts.rest)
  }

  lemma {:induction false} ProgramTreeCode(stmts: Args)
    requires TypedArgs(stmts)
    ensures ProgramCode(TypeCheck(ArgTrees(stmts), false)) == ProgramTarget(stmts)
  {
    if stmts.More? {
      var e, t := stmts.first, TypeCheck(ArgTrees(stmts), false);
      DropSibling(e, ArgTrees(stmts.rest));
      TreeCode(e, Null);
      assert Code(t.(sibling := Null)) == Target(e) by { EmptyCode(); Nil(Target(e)); }
      ProgramTreeCode(stmts.rest);
      if stmts.rest.End? { Nil(Target(e)); }
    }
  }

  /** The type pass treats a node the same whatever its sibling. */
  lemma DropSibling(e: Expr, s: Node)
    ensures TypeCheck(Tree(e, s), false).Node?
    ensures TypeCheck(Tree(e, s), false).(sibling := Null) == TypeCheck(Tree(e, Null), false)
    ensures TypeCheck(Tree(e, s), false).sibling == TypeCheck(s, false)
  {
    assert TypeCheck(Null, false) == Null;
  }

  lemma {:induction false} ExecNoops(text: seq<Byte>, p: nat, st: seq<Long>, m: Memory, sys: Sys)
    requires p <= |text| && forall i :: p <= i < |text| ==> text[i] == 0
    ensures Exec(text, Vm(p, st, m), sys) == Some(Vm(|text|, st, m))
    decreases |text| - p
  {
    if p < |text| { ExecNoops(text, p + 1, st, m, sys); }
  }

  lemma {:induction false} StatementsCorrect(stmts: Args, text: seq<Byte>, p: nat, m: Memory, sys: Sys)
    requires TypedArgs(stmts) && stmts.More? && At(text, p, ProgramTarget(stmts))
    ensures Exec(text, Vm(p, [], m), sys) ==
            Resume(text, p + |ProgramTarget(stmts)|, [], EvalProgram(stmts, m, sys), sys)
    decreases stmts
  {
    hide Exec, At, Eval, Target;
    var e := stmts.first;
    if stmts.rest.End? {
      ExprCorrect(e, text, p, [], m, sys);
    } else {
      var c := Target(e) + [OP_POP];
      AtSplit(text, p, c, ProgramTarget(stmts.rest));
      AtSplit(text, p, Target(e), [OP_POP]);
      ExprCorrect(e, text, p, [], m, sys);
      var a := Eval(e, m, sys);
      if a.Some? {
        ExecPop(text, p + |Target(e)|, [], a.value.0, a.value.1, sys);
        StatementsCorrect(stmts.rest, text, p + |c|, a.value.1, sys);
      }
    }
  }

  lemma BlankTail(code: seq<Byte>)
    requires |code| <= TEXT_MAX
    ensures var text := Put(seq(TEXT_MAX, _ => 0), 0, code);
            At(text, 0, code) && |code| <= |text| && forall i :: |code| <= i < |text| ==> text[i] == 0
  {}

  /** A text segment holding a compiled statement list and then no-ops runs to its
      end with exactly the last statement's value on the stack. */
  lemma ProgramCorrect(stmts: Args, text: seq<Byte>, m: Memory, sys: Sys)
    requires TypedArgs(stmts) && stmts.More?
    requires var code := ProgramCode(TypeCheck(ArgTrees(stmts), false));
             |code| <= TEXT_MAX && text == Put(seq(TEXT_MAX, _ => 0), 0, code)
    ensures var r := EvalProgram(stmts, m, sys);
            Exec(text, Vm(0, [], m), sys) == if r.None? then None else Some(Vm(TEXT_MAX, [r.value.0], r.value.1))
  {
    hide Exec, Eval, Target, At, Put, TypeCheck, ProgramCode, ArgTrees;
    var code := ProgramTarget(stmts);
    ProgramTreeCode(stmts);
    BlankTail(code);
    StatementsCorrect(stmts, text, 0, m, sys);
    var r := EvalProgram(stmts, m, sys);
    if r.Some? {
      assert [] + [r.value.0] == [r.value.0];
      ExecNoops(text, |code|, [r.value.0], r.value.1, sys);
    }
  }

  /** One shell line: compile the statement trees, run the machine, and read the
      value at the bottom of its stack. */
  method EvaluateLine(stmts: Args, mem: Memory, sys: Sys) returns (r: Result)
    requires TypedArgs(stmts) && stmts.More?
    requires |ProgramCode(TypeCheck(ArgTrees(stmts), false))| <= TEXT_MAX
    ensures r == EvalProgram(stmts, mem, sys)
  {
    var compiler := new Compiler();
    compiler.Run(ArgTrees(stmts));
    var vm := new Machine(compiler.text, mem);
    var ok := vm.Run(sys);
    ProgramCorrect(stmts, vm.text[..], mem, sys);
    if ok {
      assert vm.stack[0] == vm.stack[..vm.sp][0];
      r := Some((vm.stack[0], vm.mem));
    } else {
      r := None;
    }
  }
}
