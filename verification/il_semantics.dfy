/**
 * A small sequential meaning for the IL the rewriter emits.
 *
 * An `Action` value is its invocation list: null is the empty list and
 * `Delegate.Combine` appends (with .NET's null rules). `CompareExchange` is an
 * atomic swap; registrations that other threads complete between a read and a
 * swap are supplied up front as `interference`, one batch consumed at every
 * `CompareExchange`. Calls to anything else are recorded as events.
 */
module IlSemantics {
  import opened Wrappers
  import opened Metadata

  datatype Value =
    | Delegate(invocationList: seq<MethodRef>)
    | FunctionPointer(target: MethodRef)
    | FieldAddress(field: FieldRef)
    | Default(ofType: TypeRef)

  /** A null `Action`. */
  const Null: Value := Delegate([])

  /** An observable call: a direct `call` or one target of a delegate invocation. */
  datatype Event = Called(callee: MethodRef, arguments: seq<Value>)

  /** The evaluation stack, top first. */
  datatype Stack = Bottom | On(top: Value, below: Stack)

  /**
   * Local variable slots addressed by the short forms `ldloc.0`..`stloc.2`;
   * `count` is the number of declared locals.
   */
  datatype Locals = Locals(count: nat, slot0: Value, slot1: Value, slot2: Value)

  datatype State = State(
    pc: nat,
    stack: Stack,
    locals: Locals,
    arguments: seq<Value>,
    statics: map<FieldRef, Value>,
    trace: seq<Event>,
    interference: seq<seq<MethodRef>>)

  datatype Outcome = Returned(final: State) | Faulted | OutOfFuel

  /** The invocation list of a delegate-typed value; a default (zeroed) reference is null. */
  function InvocationList(v: Value): Option<seq<MethodRef>>
  {
    match v
    case Delegate(l) => Some(l)
    case Default(_) => Some([])
    case _ => None
  }

  /** `Delegate.Combine(a, b)`: null operands are dropped, otherwise the lists are appended. */
  function Combine(a: Value, b: Value): Value
    requires InvocationList(a).Some? && InvocationList(b).Some?
  {
    if InvocationList(b).value == [] then a
    else if InvocationList(a).value == [] then b
    else Delegate(InvocationList(a).value + InvocationList(b).value)
  }

  /** A static field that was never written holds its type's default value. */
  function ReadStatic(statics: map<FieldRef, Value>, f: FieldRef): Value
  {
    if f in statics then statics[f] else Default(f.fieldType)
  }

  /** `brtrue`: non-null references are true. */
  predicate IsTrue(v: Value)
  {
    match v
    case Delegate(l) => l != []
    case Default(_) => false
    case _ => true
  }

  function GetLocal(l: Locals, k: nat): Option<Value>
  {
    if k >= l.count then None
    else if k == 0 then Some(l.slot0)
    else if k == 1 then Some(l.slot1)
    else if k == 2 then Some(l.slot2)
    else None
  }

  function SetLocal(l: Locals, k: nat, v: Value): Locals
  {
    if k == 0 then l.(slot0 := v) else if k == 1 then l.(slot1 := v) else l.(slot2 := v)
  }

  /** Pushes `v` and moves to the next instruction. */
  function Push(s: State, v: Value): State
  {
    s.(pc := s.pc + 1, stack := On(v, s.stack))
  }

  function LoadLocal(s: State, k: nat): Option<State>
  {
    match GetLocal(s.locals, k)
    case None => None
    case Some(v) => Some(Push(s, v))
  }

  function StoreLocal(s: State, k: nat): Option<State>
  {
    if GetLocal(s.locals, k).Some? && s.stack.On?
    then Some(s.(pc := s.pc + 1, locals := SetLocal(s.locals, k, s.stack.top), stack := s.stack.below))
    else None
  }

  /** Pops `n` values; they are returned in the order they were pushed. */
  function PopN(st: Stack, n: nat): Option<(seq<Value>, Stack)>
  {
    if n == 0 then Some(([], st))
    else match st
      case Bottom => None
      case On(v, below) =>
        match PopN(below, n - 1)
        case None => None
        case Some(r) => Some((r.0 + [v], r.1))
  }

  /** The statics after another thread's pending registration (if any) has landed in `f`. */
  function Interfere(s: State, f: FieldRef): Option<State>
  {
    if |s.interference| == 0 then Some(s)
    else
      var cur := ReadStatic(s.statics, f);
      if InvocationList(cur).None? then None
      else Some(s.(statics := s.statics[f := Combine(cur, Delegate(s.interference[0]))],
                   interference := s.interference[1..]))
  }

  /** `Interlocked.CompareExchange(ref f, value, comparand)`: returns the old value, swaps iff it equals the comparand. */
  function CompareExchange(s: State): Option<State>
  {
    match s.stack
    case On(comparand, On(value, On(FieldAddress(f), rest))) =>
      (match Interfere(s, f)
       case None => None
       case Some(s1) =>
         var current := ReadStatic(s1.statics, f);
         var statics := if current == comparand then s1.statics[f := value] else s1.statics;
         Some(s1.(pc := s.pc + 1, stack := On(current, rest), statics := statics)))
    case _ => None
  }

  /** Any other call: pops its arguments (and `this`), records the call, pushes a result unless void. */
  function CallOther(s: State, m: MethodRef): Option<State>
  {
    var n := |m.parameters| + (if m.hasThis then 1 else 0);
    match PopN(s.stack, n)
    case None => None
    case Some(r) =>
      var rest := if IsVoid(m.returnType) then r.1 else On(Default(m.returnType), r.1);
      Some(s.(pc := s.pc + 1, stack := rest, trace := s.trace + [Called(m, r.0)]))
  }

  function DelegateEvents(l: seq<MethodRef>): (r: seq<Event>)
    ensures |r| == |l|
    ensures forall i :: 0 <= i < |l| ==> r[i] == Called(l[i], [])
  {
    seq(|l|, i requires 0 <= i < |l| => Called(l[i], []))
  }

  function StepCall(s: State, m: MethodRef): Option<State>
  {
    if m == DelegateCombine then
      (match s.stack
       case On(b, On(a, rest)) =>
         if InvocationList(a).Some? && InvocationList(b).Some?
         then Some(s.(pc := s.pc + 1, stack := On(Combine(a, b), rest)))
         else None
       case _ => None)
    else if m == CompareExchangeAction then CompareExchange(s)
    else CallOther(s, m)
  }

  function StepCallvirt(s: State, m: MethodRef): Option<State>
  {
    if m == ActionInvoke then
      (match s.stack
       case On(d, rest) =>
         // invoking a null delegate throws
         if InvocationList(d).Some? && InvocationList(d).value != []
         then Some(s.(pc := s.pc + 1, stack := rest, trace := s.trace + DelegateEvents(InvocationList(d).value)))
         else None
       case _ => None)
    else CallOther(s, m)
  }

  /** One instruction other than `ret`; `None` is a fault (bad stack, unsupported opcode or operand). */
  function Exec(ins: Instr, s: State): Option<State>
  {
    match ins.op
    case Nop => Some(s.(pc := s.pc + 1))
    case Ldnull => Some(Push(s, Null))
    case Ldarg0 => if |s.arguments| > 0 then Some(Push(s, s.arguments[0])) else None
    case Ldloc0 => LoadLocal(s, 0)
    case Ldloc1 => LoadLocal(s, 1)
    case Ldloc2 => LoadLocal(s, 2)
    case Stloc0 => StoreLocal(s, 0)
    case Stloc1 => StoreLocal(s, 1)
    case Stloc2 => StoreLocal(s, 2)
    case Dup => if s.stack.On? then Some(Push(s, s.stack.top)) else None
    case Pop => if s.stack.On? then Some(s.(pc := s.pc + 1, stack := s.stack.below)) else None
    case Ldftn => if ins.operand.MethodOperand? then Some(Push(s, FunctionPointer(ins.operand.callee))) else None
    case Ldsfld => if ins.operand.FieldOperand? then Some(Push(s, ReadStatic(s.statics, ins.operand.field))) else None
    case Ldsflda => if ins.operand.FieldOperand? then Some(Push(s, FieldAddress(ins.operand.field))) else None
    case Initobj =>
      if ins.operand.TypeOperand? && s.stack.On? && s.stack.top.FieldAddress? then
        Some(s.(pc := s.pc + 1, stack := s.stack.below,
                statics := s.statics[s.stack.top.field := Default(ins.operand.typ)]))
      else None
    case Castclass =>
      if ins.operand.TypeOperand? && ins.operand.typ == ActionType && s.stack.On? && InvocationList(s.stack.top).Some?
      then Some(s.(pc := s.pc + 1)) else None
    case Newobj =>
      if ins.operand.MethodOperand? && ins.operand.callee == ActionCtor then
        (match s.stack
         case On(FunctionPointer(m), On(_, rest)) => Some(s.(pc := s.pc + 1, stack := On(Delegate([m]), rest)))
         case _ => None)
      else None
    case Call => if ins.operand.MethodOperand? then StepCall(s, ins.operand.callee) else None
    case Callvirt => if ins.operand.MethodOperand? then StepCallvirt(s, ins.operand.callee) else None
    case BrtrueS =>
      if ins.operand.TargetOperand? && s.stack.On? then
        Some(s.(pc := if IsTrue(s.stack.top) then ins.operand.target else s.pc + 1, stack := s.stack.below))
      else None
    case BneUnS =>
      (match s.stack
       case On(v2, On(v1, rest)) =>
         if ins.operand.TargetOperand?
         then Some(s.(pc := if v1 != v2 then ins.operand.target else s.pc + 1, stack := rest))
         else None
       case _ => None)
    case Ret => None
    case OtherOp(_) => None
  }

  /** The instruction at the program counter. */
  function Step(body: seq<Instr>, s: State): Option<State>
    requires s.pc < |body|
  {
    Exec(body[s.pc], s)
  }

  /** Runs until `ret`, a fault, or the fuel runs out; every instruction costs one unit. */
  function Run(body: seq<Instr>, s: State, fuel: nat): Outcome
    decreases fuel, 1
  {
    if fuel == 0 then OutOfFuel else Advance(body, s, fuel - 1)
  }

  /** Executes the instruction at the program counter and continues with the remaining fuel. */
  function Advance(body: seq<Instr>, s: State, fuel: nat): Outcome
    decreases fuel + 1, 0
  {
    if s.pc >= |body| then Faulted
    else if body[s.pc].op == Ret then Returned(s)
    else match Step(body, s)
      case None => Faulted
      case Some(s') => Run(body, s', fuel)
  }

  /** The initial value of local slot `k`: its type's default. */
  function InitialLocal(localTypes: seq<TypeRef>, k: nat): Value
  {
    if k < |localTypes| then Default(localTypes[k]) else Null
  }

  /** A method entry state: empty stack, the given arguments, locals zeroed. */
  function Entry(localTypes: seq<TypeRef>, arguments: seq<Value>, statics: map<FieldRef, Value>, interference: seq<seq<MethodRef>>): State
  {
    State(0, Bottom,
          Locals(|localTypes|, InitialLocal(localTypes, 0), InitialLocal(localTypes, 1), InitialLocal(localTypes, 2)),
          arguments, statics, [], interference)
  }

  /** Unfolding one non-`ret` instruction whose effect is known. */
  lemma RunExec(body: seq<Instr>, s: State, ins: Instr, t: State, fuel: nat)
    requires fuel > 0 && s.pc < |body| && body[s.pc] == ins && ins.op != Ret
    requires Exec(ins, s) == Some(t)
    ensures Run(body, s, fuel) == Run(body, t, fuel - 1)
  {
    assert Run(body, s, fuel) == Advance(body, s, fuel - 1);
  }

  /** Reaching a `ret` with fuel left returns the current state. */
  lemma RunRet(body: seq<Instr>, s: State, fuel: nat)
    requires fuel > 0 && s.pc < |body| && body[s.pc].op == Ret
    ensures Run(body, s, fuel) == Returned(s)
  {
    assert Run(body, s, fuel) == Advance(body, s, fuel - 1);
  }
}
