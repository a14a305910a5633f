/**
 * The dispatcher synthesised once per assembly: a hidden type with two
 * `Action` fields and, per field, a lock-free register method and an invoke
 * method.
 */
module HookAssembly {
  import opened Wrappers
  import opened Metadata
  import opened ReloaderConsts

  /** The dispatcher type as a reference: no namespace, no generic parameters. */
  const ReloaderTypeRef := TypeDefRef(TypeName, [])

  /** The field reference of a dispatcher backing field. */
  function BackingFieldRef(fieldName: string): FieldRef
  {
    FieldRef(fieldName, ActionType, ReloaderTypeRef)
  }

  /** A private static `Action` field. */
  function DefActionCallbackBackingField(fieldName: string): (f: FieldDef)
    ensures f.name == fieldName && f.fieldType == ActionType
    ensures f.visibility == Private && f.isStatic && !f.isLiteral && !f.isInitOnly
  {
    FieldDef(fieldName, ActionType, Private, true, false, false, [])
  }

  /** The instructions of the loop prologue: `action = Field;`. */
  function RegisterPrologue(field: FieldRef): seq<Instr>
  {
    [Instr(Ldsfld, FieldOperand(field)), Instr(Stloc0, NoOperand)]
  }

  /** Where the retry loop starts: the number of instructions emitted before it. */
  const RegisterLoopHead: nat := 2

  /**
   * The register body:
   * `action = F; do { action2 = action; value2 = (Action)Delegate.Combine(action2, value);
   *  action = Interlocked.CompareExchange(ref F, value2, action2); } while (action != action2);`
   */
  function RegisterBody(field: FieldRef): (body: seq<Instr>)
    ensures |body| == 18
    ensures |RegisterPrologue(field)| == RegisterLoopHead && body[..RegisterLoopHead] == RegisterPrologue(field)
    ensures body[16] == Instr(BneUnS, TargetOperand(RegisterLoopHead)) && body[17] == Instr(Ret, NoOperand)
  {
    [ Instr(Ldsfld, FieldOperand(field)), Instr(Stloc0, NoOperand),
      Instr(Ldloc0, NoOperand), Instr(Stloc1, NoOperand),
      Instr(Ldloc1, NoOperand), Instr(Ldarg0, NoOperand),
      Instr(Call, MethodOperand(DelegateCombine)),
      Instr(Castclass, TypeOperand(ActionType)),
      Instr(Stloc2, NoOperand),
      Instr(Ldsflda, FieldOperand(field)), Instr(Ldloc2, NoOperand), Instr(Ldloc1, NoOperand),
      Instr(Call, MethodOperand(CompareExchangeAction)),
      Instr(Stloc0, NoOperand),
      Instr(Ldloc0, NoOperand), Instr(Ldloc1, NoOperand),
      Instr(BneUnS, TargetOperand(RegisterLoopHead)),
      Instr(Ret, NoOperand) ]
  }

  /** Index of the `callvirt Invoke` appended after the null path. */
  const InvokeCallIndex: nat := 5

  /** The invoke body: `F?.Invoke();`. */
  function InvokeBody(field: FieldRef): (body: seq<Instr>)
    ensures |body| == 7
    ensures body[InvokeCallIndex] == Instr(Callvirt, MethodOperand(ActionInvoke))
    ensures body[2] == Instr(BrtrueS, TargetOperand(InvokeCallIndex))
    ensures forall i :: 0 <= i < |body| && body[i].operand.FieldOperand? ==> i == 0 && body[i] == Instr(Ldsfld, FieldOperand(field))
  {
    [ Instr(Ldsfld, FieldOperand(field)), Instr(Dup, NoOperand),
      Instr(BrtrueS, TargetOperand(InvokeCallIndex)),
      Instr(Pop, NoOperand), Instr(Ret, NoOperand),
      Instr(Callvirt, MethodOperand(ActionInvoke)), Instr(Ret, NoOperand) ]
  }

  const PublicStatic := MethodAttributes(Public, true, true, false, false)

  /** `public static void Name(Action value)` with three `Action` locals. */
  function DefRegisterActionCallbackMethod(methodName: string, field: FieldRef): (m: MethodDef)
    ensures m.name == methodName && m.attributes == PublicStatic && IsVoid(m.returnType)
    ensures m.parameters == [Parameter("value", ActionType)]
    ensures m.body.variables == [ActionType, ActionType, ActionType]
    ensures m.body.instructions == RegisterBody(field)
  {
    MethodDef(methodName, PublicStatic, VoidType, [Parameter("value", ActionType)], [], [],
              MethodBody(RegisterBody(field), [ActionType, ActionType, ActionType], [], false))
  }

  /** `public static void Name()` invoking the field. */
  function DefInvokeActionCallbackMethod(methodName: string, field: FieldRef): (m: MethodDef)
    ensures m.name == methodName && m.attributes == PublicStatic && IsVoid(m.returnType)
    ensures m.parameters == [] && m.body.variables == []
    ensures m.body.instructions == InvokeBody(field)
  {
    MethodDef(methodName, PublicStatic, VoidType, [], [], [], MethodBody(InvokeBody(field), [], [], false))
  }

  /** The dispatcher type: not public, abstract and sealed (a static class), deriving from object. */
  function DefReloaderType(): (t: TypeDef)
    ensures t.name == TypeName && t.fullName == TypeName && TypeRefOf(t) == ReloaderTypeRef
    ensures !t.attributes.isPublic && t.attributes.isAbstract && t.attributes.isSealed
    ensures |t.fields| == 2 && |t.methods| == 4 && t.nestedTypes == []
    ensures t.customAttributes == []
    ensures t.fields[0].name == UnloadActionsFieldName && t.fields[1].name == LoadActionsFieldName
    // the methods refer to the type's own fields
    ensures FieldRefOf(t, t.fields[0]) == BackingFieldRef(UnloadActionsFieldName)
    ensures FieldRefOf(t, t.fields[1]) == BackingFieldRef(LoadActionsFieldName)
    ensures t.methods[0].body.instructions == RegisterBody(FieldRefOf(t, t.fields[0]))
    ensures t.methods[1].body.instructions == InvokeBody(FieldRefOf(t, t.fields[0]))
    ensures t.methods[2].body.instructions == RegisterBody(FieldRefOf(t, t.fields[1]))
    ensures t.methods[3].body.instructions == InvokeBody(FieldRefOf(t, t.fields[1]))
  {
    var unloadField := DefActionCallbackBackingField(UnloadActionsFieldName);
    var loadField := DefActionCallbackBackingField(LoadActionsFieldName);
    // the type as it stands once its fields are added; methods reference those definitions
    var shell := TypeDef(TypeName, TypeName, TypeAttributes(false, true, true, true), Some(ObjectType), [], [],
                         [unloadField, loadField], [], []);
    var unloadRef := FieldRefOf(shell, unloadField);
    var loadRef := FieldRefOf(shell, loadField);
    shell.(methods := [ DefRegisterActionCallbackMethod(RegisterUnloadMethodName, unloadRef),
                        DefInvokeActionCallbackMethod(UnloadMethodName, unloadRef),
                        DefRegisterActionCallbackMethod(RegisterLoadMethodName, loadRef),
                        DefInvokeActionCallbackMethod(LoadMethodName, loadRef) ])
  }

  /** The assembly with its dispatcher, and references to the two register methods. */
  datatype Dispatched = Dispatched(assembly: Module, registerUnload: MethodRef, registerLoad: MethodRef)

  /** Adds the dispatcher type and returns the register methods the type hooks call. */
  function Execute(m: Module): (r: Dispatched)
    ensures r.assembly.name == m.name
    ensures |r.assembly.types| == |m.types| + 1 && r.assembly.types[..|m.types|] == m.types
    ensures var t := r.assembly.types[|m.types|];
      && t.name == TypeName && !t.attributes.isPublic && t.attributes.isAbstract && t.attributes.isSealed
      && |t.fields| == 2
      && t.fields[0].name == UnloadActionsFieldName && t.fields[1].name == LoadActionsFieldName
      && (forall i :: 0 <= i < 2 ==> t.fields[i].visibility == Private && t.fields[i].isStatic && t.fields[i].fieldType == ActionType)
      && |t.methods| == 4
      && (forall i :: 0 <= i < 4 ==> t.methods[i].attributes == PublicStatic && IsVoid(t.methods[i].returnType))
      && t.methods[0].name == RegisterUnloadMethodName && t.methods[1].name == UnloadMethodName
      && t.methods[2].name == RegisterLoadMethodName && t.methods[3].name == LoadMethodName
      // each pair works on its own field, the one the type declares
      && t.methods[0].body.instructions == RegisterBody(FieldRefOf(t, t.fields[0]))
      && t.methods[1].body.instructions == InvokeBody(FieldRefOf(t, t.fields[0]))
      && t.methods[2].body.instructions == RegisterBody(FieldRefOf(t, t.fields[1]))
      && t.methods[3].body.instructions == InvokeBody(FieldRefOf(t, t.fields[1]))
      && t.methods[0].body.instructions == RegisterBody(BackingFieldRef(UnloadActionsFieldName))
      && t.methods[1].body.instructions == InvokeBody(BackingFieldRef(UnloadActionsFieldName))
      && t.methods[2].body.instructions == RegisterBody(BackingFieldRef(LoadActionsFieldName))
      && t.methods[3].body.instructions == InvokeBody(BackingFieldRef(LoadActionsFieldName))
      && r.registerUnload == MethodRefOf(t, t.methods[0])
      && r.registerLoad == MethodRefOf(t, t.methods[2])
    ensures r.registerUnload == MethodRef(RegisterUnloadMethodName, ReloaderTypeRef, VoidType, false, [ActionType], [])
    ensures r.registerLoad == MethodRef(RegisterLoadMethodName, ReloaderTypeRef, VoidType, false, [ActionType], [])
  {
    var t := DefReloaderType();
    Dispatched(Module(m.name, m.types + [t]), MethodRefOf(t, t.methods[0]), MethodRefOf(t, t.methods[2]))
  }
}
