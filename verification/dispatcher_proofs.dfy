/**
 * What the dispatcher's emitted IL does, under the sequential meaning of
 * `IlSemantics`: register appends exactly once and loses no concurrent
 * registration; invoke calls every registered callback and writes nothing.
 */
module DispatcherProofs {
  import opened Wrappers
  import opened Metadata
  import opened IlSemantics
  import opened HookAssembly

  /** Combine is append on invocation lists, whatever the null cases. */
  lemma CombineAppends(a: Value, b: Value)
    requires InvocationList(a).Some? && InvocationList(b).Some?
    ensures InvocationList(Combine(a, b)) == Some(InvocationList(a).value + InvocationList(b).value)
  {
    var la, lb := InvocationList(a).value, InvocationList(b).value;
    if lb == [] {
      assert la + lb == la;
    } else if la == [] {
      assert la + lb == lb;
    }
  }

  /**
   * The registrations of other threads that land before our swap succeeds:
   * batches are consumed one per `CompareExchange` until one is empty (no
   * other thread got in between) or none are left.
   */
  function Landed(env: seq<seq<MethodRef>>): seq<MethodRef>
  {
    if |env| == 0 || env[0] == [] then [] else env[0] + Landed(env[1..])
  }

  /** The state at the loop head: `action` (local 0) holds the field's current value. */
  predicate AtLoopHead(field: FieldRef, s: State, value: Value)
  {
    && s.pc == RegisterLoopHead
    && s.stack == Bottom
    && s.locals.count == 3
    && s.locals.slot0 == ReadStatic(s.statics, field)
    && InvocationList(s.locals.slot0).Some?
    && s.arguments == [value]
    && InvocationList(value).Some?
  }

  /** The part of the state a register call may not touch. */
  ghost predicate Untouched(field: FieldRef, s: State, t: State)
  {
    && t.trace == s.trace
    && forall g :: g != field ==> ReadStatic(t.statics, g) == ReadStatic(s.statics, g)
  }

  lemma UntouchedTrans(field: FieldRef, s: State, t: State, u: State)
    requires Untouched(field, s, t) && Untouched(field, t, u)
    ensures Untouched(field, s, u)
  {
  }

  /** `action2 = action;` and the two pushes for `Delegate.Combine(action2, value)`. */
  lemma CopySteps(field: FieldRef, s: State, value: Value, fuel: nat)
    returns (t: State)
    requires AtLoopHead(field, s, value)
    requires fuel >= 4
    ensures Run(RegisterBody(field), s, fuel) == Run(RegisterBody(field), t, fuel - 4)
    ensures t == s.(pc := 6, stack := On(value, On(s.locals.slot0, Bottom)), locals := s.locals.(slot1 := s.locals.slot0))
  {
    var b := RegisterBody(field);
    var cur := s.locals.slot0;
    var s3 := s.(pc := 3, stack := On(cur, Bottom));
    RunExec(b, s, Instr(Ldloc0, NoOperand), s3, fuel);
    var s4 := s3.(pc := 4, stack := Bottom, locals := s.locals.(slot1 := cur));
    RunExec(b, s3, Instr(Stloc1, NoOperand), s4, fuel - 1);
    var s5 := s4.(pc := 5, stack := On(cur, Bottom));
    RunExec(b, s4, Instr(Ldloc1, NoOperand), s5, fuel - 2);
    t := s5.(pc := 6, stack := On(value, On(cur, Bottom)));
    RunExec(b, s5, Instr(Ldarg0, NoOperand), t, fuel - 3);
  }

  /** `value2 = (Action)Delegate.Combine(action2, value);` */
  lemma CombineSteps(field: FieldRef, s: State, a: Value, v: Value, fuel: nat)
    returns (t: State)
    requires s.pc == 6 && s.stack == On(v, On(a, Bottom)) && s.locals.count == 3
    requires InvocationList(a).Some? && InvocationList(v).Some?
    requires fuel >= 3
    ensures Run(RegisterBody(field), s, fuel) == Run(RegisterBody(field), t, fuel - 3)
    ensures t == s.(pc := 9, stack := Bottom, locals := s.locals.(slot2 := Combine(a, v)))
  {
    var b := RegisterBody(field);
    var combined := Combine(a, v);
    var s7 := s.(pc := 7, stack := On(combined, Bottom));
    RunExec(b, s, Instr(Call, MethodOperand(DelegateCombine)), s7, fuel);
    CombineAppends(a, v);
    var s8 := s7.(pc := 8);
    RunExec(b, s7, Instr(Castclass, TypeOperand(ActionType)), s8, fuel - 1);
    t := s8.(pc := 9, stack := Bottom, locals := s.locals.(slot2 := combined));
    RunExec(b, s8, Instr(Stloc2, NoOperand), t, fuel - 2);
  }

  /** The three pushes for `Interlocked.CompareExchange(ref F, value2, action2)`. */
  lemma SwapArgumentSteps(field: FieldRef, s: State, fuel: nat)
    returns (t: State)
    requires s.pc == 9 && s.stack == Bottom && s.locals.count == 3
    requires fuel >= 3
    ensures Run(RegisterBody(field), s, fuel) == Run(RegisterBody(field), t, fuel - 3)
    ensures t == s.(pc := 12, stack := On(s.locals.slot1, On(s.locals.slot2, On(FieldAddress(field), Bottom))))
  {
    var b := RegisterBody(field);
    var s10 := s.(pc := 10, stack := On(FieldAddress(field), Bottom));
    RunExec(b, s, Instr(Ldsflda, FieldOperand(field)), s10, fuel);
    var s11 := s10.(pc := 11, stack := On(s.locals.slot2, s10.stack));
    RunExec(b, s10, Instr(Ldloc2, NoOperand), s11, fuel - 1);
    t := s11.(pc := 12, stack := On(s.locals.slot1, s11.stack));
    RunExec(b, s11, Instr(Ldloc1, NoOperand), t, fuel - 2);
  }

  /** The swap itself and `action = ...`, with pending interference landing first. */
  lemma SwapSteps(field: FieldRef, s: State, fuel: nat)
    returns (t: State)
    requires s.pc == 12 && s.locals.count == 3
    requires s.stack == On(s.locals.slot1, On(s.locals.slot2, On(FieldAddress(field), Bottom)))
    requires InvocationList(ReadStatic(s.statics, field)).Some?
    requires fuel >= 2
    ensures Run(RegisterBody(field), s, fuel) == Run(RegisterBody(field), t, fuel - 2)
    ensures var s1 := Interfere(s, field).value;
      var current := ReadStatic(s1.statics, field);
      t == s1.(pc := 14, stack := Bottom, locals := s.locals.(slot0 := current),
               statics := if current == s.locals.slot1 then s1.statics[field := s.locals.slot2] else s1.statics)
  {
    var b := RegisterBody(field);
    var s1 := Interfere(s, field).value;
    var current := ReadStatic(s1.statics, field);
    var statics := if current == s.locals.slot1 then s1.statics[field := s.locals.slot2] else s1.statics;
    var s13 := s1.(pc := 13, stack := On(current, Bottom), statics := statics);
    RunExec(b, s, Instr(Call, MethodOperand(CompareExchangeAction)), s13, fuel);
    t := s13.(pc := 14, stack := Bottom, locals := s.locals.(slot0 := current));
    RunExec(b, s13, Instr(Stloc0, NoOperand), t, fuel - 1);
  }

  /** `while (action != action2)`. */
  lemma TestSteps(field: FieldRef, s: State, fuel: nat)
    returns (t: State)
    requires s.pc == 14 && s.stack == Bottom && s.locals.count == 3
    requires fuel >= 3
    ensures Run(RegisterBody(field), s, fuel) == Run(RegisterBody(field), t, fuel - 3)
    ensures t == s.(pc := if s.locals.slot0 != s.locals.slot1 then RegisterLoopHead else 17)
  {
    var b := RegisterBody(field);
    var s15 := s.(pc := 15, stack := On(s.locals.slot0, Bottom));
    RunExec(b, s, Instr(Ldloc0, NoOperand), s15, fuel);
    var s16 := s15.(pc := 16, stack := On(s.locals.slot1, s15.stack));
    RunExec(b, s15, Instr(Ldloc1, NoOperand), s16, fuel - 1);
    t := s.(pc := if s.locals.slot0 != s.locals.slot1 then RegisterLoopHead else 17);
    RunExec(b, s16, Instr(BneUnS, TargetOperand(RegisterLoopHead)), t, fuel - 2);
  }

  /** From the loop head up to the swap: the copy, the combined delegate and the swap's arguments. */
  lemma PrepareSwap(field: FieldRef, s: State, value: Value, fuel: nat)
    returns (t: State)
    requires AtLoopHead(field, s, value)
    requires fuel >= 10
    ensures Run(RegisterBody(field), s, fuel) == Run(RegisterBody(field), t, fuel - 10)
    ensures var cur := s.locals.slot0;
      t == s.(pc := 12, stack := On(cur, On(Combine(cur, value), On(FieldAddress(field), Bottom))),
              locals := s.locals.(slot1 := cur, slot2 := Combine(cur, value)))
  {
    var s6 := CopySteps(field, s, value, fuel);
    var s9 := CombineSteps(field, s6, s.locals.slot0, value, fuel - 4);
    t := SwapArgumentSteps(field, s9, fuel - 7);
  }

  /** The swap and the loop test: back to the head iff the swap saw a value other than the comparand. */
  lemma SwapAndTest(field: FieldRef, s: State, fuel: nat)
    returns (t: State)
    requires s.pc == 12 && s.locals.count == 3
    requires s.stack == On(s.locals.slot1, On(s.locals.slot2, On(FieldAddress(field), Bottom)))
    requires InvocationList(ReadStatic(s.statics, field)).Some?
    requires fuel >= 5
    ensures Run(RegisterBody(field), s, fuel) == Run(RegisterBody(field), t, fuel - 5)
    ensures var s1 := Interfere(s, field).value;
      var current := ReadStatic(s1.statics, field);
      t == s1.(pc := if current != s.locals.slot1 then RegisterLoopHead else 17, stack := Bottom,
               locals := s.locals.(slot0 := current),
               statics := if current == s.locals.slot1 then s1.statics[field := s.locals.slot2] else s1.statics)
  {
    var s14 := SwapSteps(field, s, fuel);
    t := TestSteps(field, s14, fuel - 2);
  }

  /** One pass through the loop body, whose swap succeeds exactly when no registration intervened. */
  lemma {:induction false} LoopRound(field: FieldRef, s: State, value: Value, fuel: nat)
    returns (t: State)
    requires AtLoopHead(field, s, value)
    requires fuel >= 15
    ensures Run(RegisterBody(field), s, fuel) == Run(RegisterBody(field), t, fuel - 15)
    ensures Untouched(field, s, t)
    ensures var y := if |s.interference| == 0 then [] else s.interference[0];
      && t.interference == (if |s.interference| == 0 then [] else s.interference[1..])
      && (if y == [] then
            && t.pc == 17
            && ReadStatic(t.statics, field) == Combine(s.locals.slot0, value)
          else
            && AtLoopHead(field, t, value)
            && InvocationList(t.locals.slot0).value == InvocationList(s.locals.slot0).value + y)
  {
    var cur := s.locals.slot0;
    var y := if |s.interference| == 0 then [] else s.interference[0];
    var s12 := PrepareSwap(field, s, value, fuel);
    t := SwapAndTest(field, s12, fuel - 10);
    var s1 := Interfere(s12, field).value;
    var current := ReadStatic(s1.statics, field);
    CombineAppends(cur, Delegate(y));
    assert InvocationList(current).value == InvocationList(cur).value + y;
    if y == [] {
      assert current == cur;
    } else {
      assert current != cur by {
        assert InvocationList(current).value != InvocationList(cur).value;
      }
    }
  }

  /**
   * Registration loses nothing: whatever other threads append between our
   * read and our swap stays in the field, and our delegate ends up after them,
   * exactly once. Other fields and the call trace are untouched.
   */
  lemma {:induction false} RegisterFromLoopHead(field: FieldRef, s: State, value: Value, fuel: nat)
    requires AtLoopHead(field, s, value)
    requires fuel >= 1 + 15 * (|s.interference| + 1)
    ensures Run(RegisterBody(field), s, fuel).Returned?
    ensures var t := Run(RegisterBody(field), s, fuel).final;
      && Untouched(field, s, t)
      && InvocationList(ReadStatic(t.statics, field)) ==
           Some(InvocationList(s.locals.slot0).value + Landed(s.interference) + InvocationList(value).value)
    decreases |s.interference|
  {
    var t := LoopRound(field, s, value, fuel);
    var y := if |s.interference| == 0 then [] else s.interference[0];
    if y == [] {
      CombineAppends(s.locals.slot0, value);
      assert Landed(s.interference) == [];
      assert InvocationList(s.locals.slot0).value + [] == InvocationList(s.locals.slot0).value;
      RunRet(RegisterBody(field), t, fuel - 15);
    } else {
      RegisterFromLoopHead(field, t, value, fuel - 15);
      var u := Run(RegisterBody(field), t, fuel - 15).final;
      UntouchedTrans(field, s, t, u);
      var l0, lv := InvocationList(s.locals.slot0).value, InvocationList(value).value;
      assert Landed(s.interference) == y + Landed(s.interference[1..]);
      assert (l0 + y) + Landed(s.interference[1..]) + lv == l0 + Landed(s.interference) + lv;
    }
  }

  /** A call of `RegisterX(value)`. */
  function RegisterEntry(statics: map<FieldRef, Value>, value: Value, env: seq<seq<MethodRef>>): State
  {
    Entry([ActionType, ActionType, ActionType], [value], statics, env)
  }

  /** `action = F;`: the entry state reaches the loop head with the field's value in local 0. */
  lemma PrologueSteps(field: FieldRef, statics: map<FieldRef, Value>, value: Value, env: seq<seq<MethodRef>>, fuel: nat)
    returns (t: State)
    requires InvocationList(ReadStatic(statics, field)).Some? && InvocationList(value).Some?
    requires fuel >= 2
    ensures Run(RegisterBody(field), RegisterEntry(statics, value, env), fuel) == Run(RegisterBody(field), t, fuel - 2)
    ensures AtLoopHead(field, t, value)
    ensures t.statics == statics && t.trace == [] && t.interference == env
    ensures t.locals.slot0 == ReadStatic(statics, field)
  {
    var b := RegisterBody(field);
    var s0 := RegisterEntry(statics, value, env);
    var initial := ReadStatic(statics, field);
    var s1 := s0.(pc := 1, stack := On(initial, Bottom));
    RunExec(b, s0, Instr(Ldsfld, FieldOperand(field)), s1, fuel);
    t := s1.(pc := 2, stack := Bottom, locals := s0.locals.(slot0 := initial));
    RunExec(b, s1, Instr(Stloc0, NoOperand), t, fuel - 1);
  }

  /** The whole register method: the field becomes old ++ others' registrations ++ value. */
  lemma RegisterAppends(field: FieldRef, statics: map<FieldRef, Value>, value: Value, env: seq<seq<MethodRef>>, fuel: nat)
    requires InvocationList(ReadStatic(statics, field)).Some? && InvocationList(value).Some?
    requires fuel >= 3 + 15 * (|env| + 1)
    ensures Run(RegisterBody(field), RegisterEntry(statics, value, env), fuel).Returned?
    ensures var t := Run(RegisterBody(field), RegisterEntry(statics, value, env), fuel).final;
      && t.trace == []
      && (forall g :: g != field ==> ReadStatic(t.statics, g) == ReadStatic(statics, g))
      && InvocationList(ReadStatic(t.statics, field)) ==
           Some(InvocationList(ReadStatic(statics, field)).value + Landed(env) + InvocationList(value).value)
  {
    var s2 := PrologueSteps(field, statics, value, env, fuel);
    RegisterFromLoopHead(field, s2, value, fuel - 2);
  }

  /** Without interference one swap suffices and the field becomes exactly old ++ value's callbacks. */
  lemma RegisterSequential(field: FieldRef, statics: map<FieldRef, Value>, value: Value, fuel: nat)
    requires InvocationList(ReadStatic(statics, field)).Some? && InvocationList(value).Some?
    requires fuel >= 18
    ensures Run(RegisterBody(field), RegisterEntry(statics, value, []), fuel).Returned?
    ensures var t := Run(RegisterBody(field), RegisterEntry(statics, value, []), fuel).final;
      && t.trace == []
      && (forall g :: g != field ==> ReadStatic(t.statics, g) == ReadStatic(statics, g))
      && InvocationList(ReadStatic(t.statics, field)) ==
           Some(InvocationList(ReadStatic(statics, field)).value + InvocationList(value).value)
  {
    RegisterAppends(field, statics, value, [], fuel);
    assert InvocationList(ReadStatic(statics, field)).value + Landed([]) == InvocationList(ReadStatic(statics, field)).value;
  }

  /** `ldsfld F; dup`: the field's value twice on the stack. */
  lemma InvokeLoadSteps(field: FieldRef, s: State, fuel: nat)
    returns (t: State)
    requires s.pc == 0 && s.stack == Bottom && fuel >= 2
    ensures var v := ReadStatic(s.statics, field);
      && t == s.(pc := 2, stack := On(v, On(v, Bottom)))
      && Run(InvokeBody(field), s, fuel) == Run(InvokeBody(field), t, fuel - 2)
  {
    var b := InvokeBody(field);
    var v := ReadStatic(s.statics, field);
    var s1 := s.(pc := 1, stack := On(v, Bottom));
    RunExec(b, s, Instr(Ldsfld, FieldOperand(field)), s1, fuel);
    t := s1.(pc := 2, stack := On(v, s1.stack));
    RunExec(b, s1, Instr(Dup, NoOperand), t, fuel - 1);
  }

  /** A non-null field: the branch is taken and the delegate invoked, calling each target in order. */
  lemma InvokeTakenSteps(field: FieldRef, s: State, v: Value, fuel: nat)
    requires s.pc == 2 && s.stack == On(v, On(v, Bottom)) && fuel >= 3
    requires InvocationList(v).Some? && IsTrue(v)
    ensures Run(InvokeBody(field), s, fuel) ==
      Returned(s.(pc := 6, stack := Bottom, trace := s.trace + DelegateEvents(InvocationList(v).value)))
  {
    var b := InvokeBody(field);
    var s5 := s.(pc := InvokeCallIndex, stack := On(v, Bottom));
    RunExec(b, s, Instr(BrtrueS, TargetOperand(InvokeCallIndex)), s5, fuel);
    var s6 := s5.(pc := 6, stack := Bottom, trace := s.trace + DelegateEvents(InvocationList(v).value));
    RunExec(b, s5, Instr(Callvirt, MethodOperand(ActionInvoke)), s6, fuel - 1);
    RunRet(b, s6, fuel - 2);
  }

  /** A null field: the branch falls through, the copy is popped, and the method returns. */
  lemma InvokeSkippedSteps(field: FieldRef, s: State, v: Value, fuel: nat)
    requires s.pc == 2 && s.stack == On(v, On(v, Bottom)) && fuel >= 3
    requires !IsTrue(v)
    ensures Run(InvokeBody(field), s, fuel) == Returned(s.(pc := 4, stack := Bottom))
  {
    var b := InvokeBody(field);
    var s3 := s.(pc := 3, stack := On(v, Bottom));
    RunExec(b, s, Instr(BrtrueS, TargetOperand(InvokeCallIndex)), s3, fuel);
    var s4 := s3.(pc := 4, stack := Bottom);
    RunExec(b, s3, Instr(Pop, NoOperand), s4, fuel - 1);
    RunRet(b, s4, fuel - 2);
  }

  /**
   * The invoke method: a null field is popped and nothing is called; otherwise
   * every callback in the field is called once, in registration order. No
   * static is written.
   */
  lemma InvokeCallsAll(field: FieldRef, statics: map<FieldRef, Value>, env: seq<seq<MethodRef>>, fuel: nat)
    requires InvocationList(ReadStatic(statics, field)).Some?
    requires fuel >= 5
    ensures Run(InvokeBody(field), Entry([], [], statics, env), fuel).Returned?
    ensures var t := Run(InvokeBody(field), Entry([], [], statics, env), fuel).final;
      && t.statics == statics
      && t.stack == Bottom
      && t.trace == DelegateEvents(InvocationList(ReadStatic(statics, field)).value)
  {
    var s0 := Entry([], [], statics, env);
    var v := ReadStatic(statics, field);
    var s2 := InvokeLoadSteps(field, s0, fuel);
    if IsTrue(v) {
      InvokeTakenSteps(field, s2, v, fuel - 2);
      assert [] + DelegateEvents(InvocationList(v).value) == DelegateEvents(InvocationList(v).value);
    } else {
      InvokeSkippedSteps(field, s2, v, fuel - 2);
      assert InvocationList(v).value == [];
    }
  }
}
