/**
 * The code the type hook synthesises for one candidate type: a copy of the
 * class constructor, an unload method calling the `[RunBeforeReload]`
 * callbacks, a load method resetting the static fields and re-running the
 * copy, and a class constructor that registers both with the dispatcher.
 */
module Synthesis {
  import opened Wrappers
  import opened Metadata
  import opened Scan
  import opened Sequences

  /** The own generic parameters of a type definition, as open type arguments, in order. */
  function OwnParameters(names: seq<string>): (r: seq<TypeRef>)
    ensures |r| == |names|
    ensures forall i :: 0 <= i < |names| ==> r[i] == GenericParameter(names[i])
  {
    seq(|names|, i requires 0 <= i < |names| => GenericParameter(names[i]))
  }

  /** A generic declaring type becomes its instance over its own parameters; others are kept. */
  function WrapType(declaringType: TypeRef): (r: TypeRef)
    ensures !HasGenericParameters(declaringType) ==> r == declaringType
    ensures HasGenericParameters(declaringType) ==>
      && r.GenericInstance? && r.element == declaringType
      && |r.arguments| == |declaringType.genericParameters|
      && forall i :: 0 <= i < |r.arguments| ==> r.arguments[i] == GenericParameter(declaringType.genericParameters[i])
  {
    if HasGenericParameters(declaringType)
    then GenericInstance(declaringType, OwnParameters(declaringType.genericParameters))
    else declaringType
  }

  /**
   * `WrapMethodIfDeclaringTypeIsGeneric`: a fresh reference keeps name, return
   * type and `HasThis`; like a freshly constructed reference it has no parameters.
   */
  function WrapMethod(m: MethodRef): (r: MethodRef)
    ensures !HasGenericParameters(m.declaringType) ==> r == m
    ensures r.name == m.name && r.returnType == m.returnType && r.hasThis == m.hasThis
    ensures r.declaringType == WrapType(m.declaringType)
    ensures |m.parameters| == 0 && |m.genericArguments| == 0 ==> r == m.(declaringType := WrapType(m.declaringType))
  {
    if HasGenericParameters(m.declaringType)
    then MethodRef(m.name, WrapType(m.declaringType), m.returnType, m.hasThis, [], [])
    else m
  }

  /** `WrapFieldIfDeclaringTypeIsGeneric`: only the declaring type changes. */
  function WrapField(f: FieldRef): (r: FieldRef)
    ensures r == f.(declaringType := WrapType(f.declaringType))
  {
    if HasGenericParameters(f.declaringType)
    then FieldRef(f.name, f.fieldType, WrapType(f.declaringType))
    else f
  }

  /** Private, static, hide-by-signature: the attributes of the three synthesised methods. */
  const GeneratedAttributes := MethodAttributes(Private, true, true, false, false)

  /** Private, static, hide-by-signature, special name: a new class constructor. */
  const ClassConstructorAttributes := MethodAttributes(Private, true, true, true, true)

  const CompilerGenerated := CustomAttribute(CompilerGeneratedAttribute, [])

  function CopyName(t: TypeDef): string { "<" + t.name + ">__ClassConstructor__Copy" }
  function UnloadName(t: TypeDef): string { "<" + t.name + ">__UnloadType__Impl" }
  function LoadName(t: TypeDef): string { "<" + t.name + ">__LoadType__Impl" }

  /** The three synthesised names differ from each other and from `.cctor`. */
  lemma GeneratedNamesDistinct(t: TypeDef)
    ensures CopyName(t) != UnloadName(t) && UnloadName(t) != LoadName(t) && CopyName(t) != LoadName(t)
    ensures CopyName(t) != ".cctor" && UnloadName(t) != ".cctor" && LoadName(t) != ".cctor"
  {
    var k := |t.name| + 4;
    assert CopyName(t)[k] == 'C' && UnloadName(t)[k] == 'U' && LoadName(t)[k] == 'L';
    assert CopyName(t)[0] == '<' && UnloadName(t)[0] == '<' && LoadName(t)[0] == '<';
  }

  /** A private static void method with no parameters, marked compiler-generated. */
  function GeneratedMethod(name: string, body: MethodBody): (m: MethodDef)
    ensures m.name == name && m.body == body
    ensures m.attributes == GeneratedAttributes && IsVoid(m.returnType)
    ensures m.parameters == [] && m.genericParameters == []
    ensures m.customAttributes == [CompilerGenerated]
  {
    MethodDef(name, GeneratedAttributes, VoidType, [], [], [CompilerGenerated], body)
  }

  /** `GetClassConstructor`: the index of the first method that is a constructor named `.cctor`. */
  function ClassConstructorIndex(ms: seq<MethodDef>): (r: Option<nat>)
    ensures r.None? <==> forall i :: 0 <= i < |ms| ==> !(IsConstructor(ms[i]) && ms[i].name == ".cctor")
    ensures r.Some? ==> r.value < |ms| && IsConstructor(ms[r.value]) && ms[r.value].name == ".cctor"
    ensures r.Some? ==> forall i :: 0 <= i < r.value ==> !(IsConstructor(ms[i]) && ms[i].name == ".cctor")
  {
    if |ms| == 0 then None
    else if IsConstructor(ms[0]) && ms[0].name == ".cctor" then Some(0)
    else
      match ClassConstructorIndex(ms[1..])
      case None => None
      case Some(i) => Some(i + 1)
  }

  /** `CopyClassConstructorIfNeeded`: instructions, locals, handlers and `InitLocals` carried over verbatim. */
  function CopyClassConstructor(t: TypeDef, cctor: Option<MethodDef>): (r: Option<MethodDef>)
    ensures r.Some? <==> cctor.Some?
    ensures r.Some? ==>
      && r.value.name == CopyName(t)
      && r.value.attributes == GeneratedAttributes
      && r.value.customAttributes == [CompilerGenerated]
      && r.value.body.instructions == cctor.value.body.instructions
      && r.value.body.variables == cctor.value.body.variables
      && r.value.body.exceptionHandlers == cctor.value.body.exceptionHandlers
      && r.value.body.initLocals == cctor.value.body.initLocals
  {
    match cctor
    case None => None
    case Some(c) => Some(GeneratedMethod(CopyName(t), c.body))
  }

  /** The operand a synthesised body uses to call a method of `t`. */
  function CallTarget(t: TypeDef, m: MethodDef): MethodRef
  {
    WrapMethod(MethodRefOf(t, m))
  }

  /** The unload body: one `call` per callback in the given order, then `ret`. */
  function UnloadBody(t: TypeDef, callbacks: seq<MethodDef>): (body: seq<Instr>)
    ensures |body| == |callbacks| + 1
    ensures forall i :: 0 <= i < |callbacks| ==> body[i] == Instr(Call, MethodOperand(CallTarget(t, callbacks[i])))
    ensures body[|callbacks|] == Instr(Ret, NoOperand)
  {
    seq(|callbacks|, i requires 0 <= i < |callbacks| => Instr(Call, MethodOperand(CallTarget(t, callbacks[i]))))
      + [Instr(Ret, NoOperand)]
  }

  /** `DefUnloadMethodIfNeeded`: present iff there is a callback. */
  function DefUnloadMethod(t: TypeDef, callbacks: seq<MethodDef>): (r: Option<MethodDef>)
    ensures r.Some? <==> |callbacks| > 0
    ensures r.Some? ==> r.value == GeneratedMethod(UnloadName(t), MethodBody(UnloadBody(t, callbacks), [], [], false))
  {
    if |callbacks| == 0 then None
    else Some(GeneratedMethod(UnloadName(t), MethodBody(UnloadBody(t, callbacks), [], [], false)))
  }

  /** `ldsflda F; initobj T` for each field, in order. */
  function ResetFields(t: TypeDef, fields: seq<FieldDef>): (r: seq<Instr>)
    ensures |r| == 2 * |fields|
    ensures forall i :: 0 <= i < |fields| ==>
      && r[2 * i] == Instr(Ldsflda, FieldOperand(WrapField(FieldRefOf(t, fields[i]))))
      && r[2 * i + 1] == Instr(Initobj, TypeOperand(fields[i].fieldType))
  {
    Interleave(fields, (f: FieldDef) => Instr(Ldsflda, FieldOperand(WrapField(FieldRefOf(t, f)))),
               (f: FieldDef) => Instr(Initobj, TypeOperand(f.fieldType)))
  }

  /** The load body: reset every field, then run the constructor copy if there is one, then `ret`. */
  function LoadBody(t: TypeDef, fields: seq<FieldDef>, copy: Option<MethodDef>): (body: seq<Instr>)
    ensures copy.None? ==> |body| == 2 * |fields| + 1
    ensures copy.Some? ==> |body| == 2 * |fields| + 2 && body[2 * |fields|] == Instr(Call, MethodOperand(CallTarget(t, copy.value)))
    ensures body[..2 * |fields|] == ResetFields(t, fields)
    ensures body[|body| - 1] == Instr(Ret, NoOperand)
  {
    var init := if copy.Some? then [Instr(Call, MethodOperand(CallTarget(t, copy.value)))] else [];
    var body := ResetFields(t, fields) + init + [Instr(Ret, NoOperand)];
    assert body[..2 * |fields|] == ResetFields(t, fields);
    body
  }

  /** `DefLoadMethodIfNeeded`: present iff there is a field to reset or a constructor to re-run. */
  function DefLoadMethod(t: TypeDef, fields: seq<FieldDef>, copy: Option<MethodDef>): (r: Option<MethodDef>)
    ensures r.Some? <==> |fields| > 0 || copy.Some?
    ensures r.Some? ==> r.value == GeneratedMethod(LoadName(t), MethodBody(LoadBody(t, fields, copy), [], [], false))
  {
    if |fields| == 0 && copy.None? then None
    else Some(GeneratedMethod(LoadName(t), MethodBody(LoadBody(t, fields, copy), [], [], false)))
  }

  /** `ldnull; ldftn M; newobj Action(object, IntPtr); call Register`. */
  function Registration(target: MethodRef, register: MethodRef): (r: seq<Instr>)
    ensures |r| == 4 && r[3] == Instr(Call, MethodOperand(register))
  {
    [ Instr(Ldnull, NoOperand), Instr(Ldftn, MethodOperand(target)),
      Instr(Newobj, MethodOperand(ActionCtor)), Instr(Call, MethodOperand(register)) ]
  }

  function OptionalRegistration(target: Option<MethodRef>, register: MethodRef): (r: seq<Instr>)
    ensures target.None? ==> r == []
    ensures target.Some? ==> r == Registration(target.value, register)
  {
    match target
    case None => []
    case Some(m) => Registration(m, register)
  }

  /** The body minus its last instruction (assumed to be the final `ret`). */
  function DropLast(body: seq<Instr>): (r: seq<Instr>)
    ensures |body| > 0 ==> r == body[..|body| - 1]
    ensures |body| == 0 ==> r == []
  {
    if |body| > 0 then body[..|body| - 1] else body
  }

  /** The rewritten class constructor body: unload is registered before load, then `ret`. */
  function HookedBody(body: seq<Instr>, unload: Option<MethodRef>, load: Option<MethodRef>,
                      registerUnload: MethodRef, registerLoad: MethodRef): (r: seq<Instr>)
  {
    DropLast(body) + OptionalRegistration(unload, registerUnload) + OptionalRegistration(load, registerLoad)
      + [Instr(Ret, NoOperand)]
  }

  /**
   * The rewrite only appends: everything before the old last instruction is
   * kept in place, the new body ends in `ret`, and putting back that last
   * instruction after dropping the suffix gives the old body.
   */
  lemma HookedBodyKeepsPrefix(body: seq<Instr>, unload: Option<MethodRef>, load: Option<MethodRef>,
                              registerUnload: MethodRef, registerLoad: MethodRef)
    requires |body| > 0
    ensures var r := HookedBody(body, unload, load, registerUnload, registerLoad);
      && |r| == |body| + 4 * ((if unload.Some? then 1 else 0) + (if load.Some? then 1 else 0))
      && r[..|body| - 1] + [body[|body| - 1]] == body
      && r[|r| - 1] == Instr(Ret, NoOperand)
  {
    var r := HookedBody(body, unload, load, registerUnload, registerLoad);
    assert r[..|body| - 1] == body[..|body| - 1];
  }

  /** Unload is registered before load, both after the kept prefix. */
  lemma HookedBodyRegistrationOrder(body: seq<Instr>, unload: MethodRef, load: MethodRef,
                                    registerUnload: MethodRef, registerLoad: MethodRef)
    ensures var r := HookedBody(body, Some(unload), Some(load), registerUnload, registerLoad);
      var k := |DropLast(body)|;
      && |r| == k + 9
      && r[k..k + 4] == Registration(unload, registerUnload)
      && r[k + 4..k + 8] == Registration(load, registerLoad)
      && r[k + 8] == Instr(Ret, NoOperand)
  {
    var r := HookedBody(body, Some(unload), Some(load), registerUnload, registerLoad);
    var k := |DropLast(body)|;
    assert r == DropLast(body) + Registration(unload, registerUnload) + Registration(load, registerLoad) + [Instr(Ret, NoOperand)];
    assert r[k..k + 4] == Registration(unload, registerUnload);
    assert r[k + 4..k + 8] == Registration(load, registerLoad);
  }

  /** A class constructor created because the type had none: empty body, no attributes. */
  const NewClassConstructor := MethodDef(".cctor", ClassConstructorAttributes, VoidType, [], [], [], EmptyBody)

  /**
   * `HookClassConstructor` applied to one method: only its instruction list
   * changes, and it becomes the hooked body of the old one.
   */
  function HookMethod(m: MethodDef, unload: Option<MethodRef>, load: Option<MethodRef>,
                      registerUnload: MethodRef, registerLoad: MethodRef): (r: MethodDef)
    ensures r == m.(body := m.body.(instructions := r.body.instructions))
    ensures r.body.instructions == HookedBody(m.body.instructions, unload, load, registerUnload, registerLoad)
  {
    m.(body := m.body.(instructions := HookedBody(m.body.instructions, unload, load, registerUnload, registerLoad)))
  }

  function OptionToSeq<T>(o: Option<T>): (r: seq<T>)
    ensures o.None? ==> r == []
    ensures o.Some? ==> r == [o.value]
  {
    match o
    case None => []
    case Some(v) => [v]
  }

  /** The class constructor `GetClassConstructor` finds, if any. */
  function ClassConstructor(t: TypeDef): (r: Option<MethodDef>)
    ensures r.Some? <==> ClassConstructorIndex(t.methods).Some?
    ensures r.Some? ==> r.value == t.methods[ClassConstructorIndex(t.methods).value]
    ensures r.Some? ==> IsConstructor(r.value) && r.value.name == ".cctor"
  {
    var i := ClassConstructorIndex(t.methods);
    if i.Some? then Some(t.methods[i.value]) else None
  }

  /** The methods the rewrite appends, in the order they are added to the type. */
  function AddedMethods(t: TypeDef, c: Candidate): seq<MethodDef>
  {
    var copy := CopyClassConstructor(t, ClassConstructor(t));
    OptionToSeq(copy) + OptionToSeq(DefUnloadMethod(t, c.unloadCallbacks))
      + OptionToSeq(DefLoadMethod(t, c.staticFields, copy))
  }

  /** The unload method the class constructor registers, if one is synthesised. */
  function UnloadTarget(t: TypeDef, c: Candidate): (r: Option<MethodRef>)
    ensures r.Some? <==> |c.unloadCallbacks| > 0
    ensures r.Some? ==> r.value == CallTarget(t, DefUnloadMethod(t, c.unloadCallbacks).value)
    ensures r.Some? ==> r.value.name == UnloadName(t)
  {
    var unload := DefUnloadMethod(t, c.unloadCallbacks);
    if unload.Some? then Some(CallTarget(t, unload.value)) else None
  }

  /** The load method the class constructor registers, if one is synthesised. */
  function LoadTarget(t: TypeDef, c: Candidate): (r: Option<MethodRef>)
    ensures r.Some? <==> |c.staticFields| > 0 || ClassConstructorIndex(t.methods).Some?
    ensures r.Some? ==> r.value == CallTarget(t, DefLoadMethod(t, c.staticFields, CopyClassConstructor(t, ClassConstructor(t))).value)
    ensures r.Some? ==> r.value.name == LoadName(t)
  {
    var load := DefLoadMethod(t, c.staticFields, CopyClassConstructor(t, ClassConstructor(t)));
    if load.Some? then Some(CallTarget(t, load.value)) else None
  }

  /** The rewrite of one candidate type (its nested types are rewritten on their own). */
  function RewriteType(t: TypeDef, c: Candidate, registerUnload: MethodRef, registerLoad: MethodRef): TypeDef
  {
    var added := AddedMethods(t, c);
    var unload, load := UnloadTarget(t, c), LoadTarget(t, c);
    if unload.None? && load.None? then t.(methods := t.methods + added)
    else match ClassConstructorIndex(t.methods)
      case Some(i) =>
        t.(methods := t.methods[i := HookMethod(t.methods[i], unload, load, registerUnload, registerLoad)] + added)
      case None =>
        t.(methods := t.methods + added + [HookMethod(NewClassConstructor, unload, load, registerUnload, registerLoad)])
  }

  /** The per-type step of the walk: candidates are rewritten, everything else is left alone. */
  function HookTypeDef(t: TypeDef, registerUnload: MethodRef, registerLoad: MethodRef): TypeDef
  {
    match NeedReload(t).candidate
    case None => t
    case Some(c) => RewriteType(t, c, registerUnload, registerLoad)
  }

  /**
   * What the rewrite leaves alone: name, attributes, fields and nested types,
   * and every existing method except the class constructor, in place; the
   * added methods follow the old ones.
   */
  lemma HookTypeDefPreserves(t: TypeDef, registerUnload: MethodRef, registerLoad: MethodRef)
    ensures var r := HookTypeDef(t, registerUnload, registerLoad);
      && r.name == t.name && r.fullName == t.fullName && r.attributes == t.attributes
      && r.fields == t.fields && r.nestedTypes == t.nestedTypes && r.customAttributes == t.customAttributes
      && |r.methods| >= |t.methods|
      && forall i :: 0 <= i < |t.methods| && !(IsConstructor(t.methods[i]) && t.methods[i].name == ".cctor") ==>
           r.methods[i] == t.methods[i]
  {
    match NeedReload(t).candidate
    case None =>
    case Some(c) => RewriteTypePreserves(t, c, registerUnload, registerLoad);
  }

  lemma RewriteTypePreserves(t: TypeDef, c: Candidate, registerUnload: MethodRef, registerLoad: MethodRef)
    ensures var r := RewriteType(t, c, registerUnload, registerLoad);
      && r.(methods := t.methods) == t
      && |r.methods| >= |t.methods|
      && forall i :: 0 <= i < |t.methods| && !(IsConstructor(t.methods[i]) && t.methods[i].name == ".cctor") ==>
           r.methods[i] == t.methods[i]
  {
    var r := RewriteType(t, c, registerUnload, registerLoad);
    var idx := ClassConstructorIndex(t.methods);
    forall i | 0 <= i < |t.methods| && !(IsConstructor(t.methods[i]) && t.methods[i].name == ".cctor")
      ensures r.methods[i] == t.methods[i]
    {
      assert idx.Some? ==> i != idx.value;
    }
  }

  /** Unmarked types, and marked ones with nothing to reload, are returned unchanged. */
  lemma NonCandidateUnchanged(t: TypeDef, registerUnload: MethodRef, registerLoad: MethodRef)
    requires NeedReload(t).candidate.None?
    ensures HookTypeDef(t, registerUnload, registerLoad) == t
  {
  }

  /**
   * A candidate type gets exactly the synthesised methods it needs, appended
   * after its own: a copy iff it had a class constructor, an unload method iff
   * it has callbacks, a load method iff it has fields or a constructor to
   * re-run; and it ends up with a class constructor (a new one, last, if it
   * had none).
   */
  lemma RewriteTypeAdds(t: TypeDef, c: Candidate, registerUnload: MethodRef, registerLoad: MethodRef)
    requires |c.staticFields| > 0 || |c.unloadCallbacks| > 0
    ensures var r := RewriteType(t, c, registerUnload, registerLoad);
      var hadCctor := ClassConstructorIndex(t.methods).Some?;
      var copies := if hadCctor then 1 else 0;
      var unloads := if |c.unloadCallbacks| > 0 then 1 else 0;
      var loads := if |c.staticFields| > 0 || hadCctor then 1 else 0;
      && |r.methods| == |t.methods| + copies + unloads + loads + (if hadCctor then 0 else 1)
      && r.methods[|t.methods|..|t.methods| + copies + unloads + loads] == AddedMethods(t, c)
      && ClassConstructorIndex(r.methods).Some?
  {
    AddedMethodsCount(t, c);
    RewriteTypeAppends(t, c, registerUnload, registerLoad);
    RewriteTypeHasClassConstructor(t, c, registerUnload, registerLoad);
  }

  /** The added methods follow the old ones; a new class constructor, if any, comes after them. */
  lemma RewriteTypeAppends(t: TypeDef, c: Candidate, registerUnload: MethodRef, registerLoad: MethodRef)
    requires |c.staticFields| > 0 || |c.unloadCallbacks| > 0
    ensures var r := RewriteType(t, c, registerUnload, registerLoad);
      var added := AddedMethods(t, c);
      && |r.methods| == |t.methods| + |added| + (if ClassConstructorIndex(t.methods).Some? then 0 else 1)
      && r.methods[|t.methods|..|t.methods| + |added|] == added
  {
    if ClassConstructorIndex(t.methods).Some? {
      RewriteTypeAppendsReplacing(t, c, registerUnload, registerLoad);
    } else {
      RewriteTypeAppendsNew(t, c, registerUnload, registerLoad);
    }
  }

  lemma RewriteTypeAppendsReplacing(t: TypeDef, c: Candidate, registerUnload: MethodRef, registerLoad: MethodRef)
    requires |c.staticFields| > 0 || |c.unloadCallbacks| > 0
    requires ClassConstructorIndex(t.methods).Some?
    ensures var r := RewriteType(t, c, registerUnload, registerLoad);
      && |r.methods| == |t.methods| + |AddedMethods(t, c)|
      && r.methods[|t.methods|..|t.methods| + |AddedMethods(t, c)|] == AddedMethods(t, c)
  {
    var r := RewriteType(t, c, registerUnload, registerLoad);
    RewriteTypeShape(t, c, registerUnload, registerLoad);
    var i := ClassConstructorIndex(t.methods).value;
    UpdateThenAppend(r.methods, t.methods, i, r.methods[i], AddedMethods(t, c));
  }

  lemma RewriteTypeAppendsNew(t: TypeDef, c: Candidate, registerUnload: MethodRef, registerLoad: MethodRef)
    requires |c.staticFields| > 0 || |c.unloadCallbacks| > 0
    requires ClassConstructorIndex(t.methods).None?
    ensures var r := RewriteType(t, c, registerUnload, registerLoad);
      && |r.methods| == |t.methods| + |AddedMethods(t, c)| + 1
      && r.methods[|t.methods|..|t.methods| + |AddedMethods(t, c)|] == AddedMethods(t, c)
  {
    var r := RewriteType(t, c, registerUnload, registerLoad);
    RewriteTypeShape(t, c, registerUnload, registerLoad);
    AppendBetween(r.methods, t.methods, AddedMethods(t, c), r.methods[|r.methods| - 1]);
  }

  /** A rewritten candidate always has a class constructor. */
  lemma RewriteTypeHasClassConstructor(t: TypeDef, c: Candidate, registerUnload: MethodRef, registerLoad: MethodRef)
    requires |c.staticFields| > 0 || |c.unloadCallbacks| > 0
    ensures ClassConstructorIndex(RewriteType(t, c, registerUnload, registerLoad).methods).Some?
  {
    var r := RewriteType(t, c, registerUnload, registerLoad);
    RewriteTypeShape(t, c, registerUnload, registerLoad);
    var k := ClassConstructorSlot(t, r);
    assert IsConstructor(r.methods[k]) && r.methods[k].name == ".cctor";
  }

  /**
   * The class constructor of a rewritten candidate: the old one (in its old
   * place) or, when there was none, a new empty one (last), in either case
   * changed only in its instructions, which become the old instructions
   * without their final `ret`, then the registration of the synthesised
   * unload method with `registerUnload`, then that of the synthesised load
   * method with `registerLoad`, then `ret`.
   */
  lemma RewriteTypeHooksClassConstructor(t: TypeDef, c: Candidate, registerUnload: MethodRef, registerLoad: MethodRef)
    requires |c.staticFields| > 0 || |c.unloadCallbacks| > 0
    ensures var r := RewriteType(t, c, registerUnload, registerLoad);
      var idx := ClassConstructorIndex(t.methods);
      var j := if idx.Some? then idx.value else |r.methods| - 1;
      var before := if idx.Some? then t.methods[idx.value] else NewClassConstructor;
      && 0 <= j < |r.methods|
      && r.methods[j] == before.(body := before.body.(instructions := r.methods[j].body.instructions))
      && r.methods[j].body.instructions
         == HookedBody(before.body.instructions, UnloadTarget(t, c), LoadTarget(t, c), registerUnload, registerLoad)
  {
    RewriteTypeShape(t, c, registerUnload, registerLoad);
  }

  /** Where the rewritten class constructor sits: in the old one's place, or last. */
  function ClassConstructorSlot(t: TypeDef, r: TypeDef): nat
  {
    match ClassConstructorIndex(t.methods)
    case Some(i) => i
    case None => if |r.methods| > 0 then |r.methods| - 1 else 0
  }

  /** The hooked class constructor replaces the old one in place, or is appended after the added methods. */
  lemma RewriteTypeShape(t: TypeDef, c: Candidate, registerUnload: MethodRef, registerLoad: MethodRef)
    requires |c.staticFields| > 0 || |c.unloadCallbacks| > 0
    ensures var r := RewriteType(t, c, registerUnload, registerLoad);
      var idx := ClassConstructorIndex(t.methods);
      var before := if idx.Some? then t.methods[idx.value] else NewClassConstructor;
      var h := HookMethod(before, UnloadTarget(t, c), LoadTarget(t, c), registerUnload, registerLoad);
      && (idx.Some? ==> r.methods == t.methods[idx.value := h] + AddedMethods(t, c))
      && (idx.None? ==> r.methods == t.methods + AddedMethods(t, c) + [h])
      && ClassConstructorSlot(t, r) < |r.methods| && r.methods[ClassConstructorSlot(t, r)] == h
  {
    assert UnloadTarget(t, c).Some? || LoadTarget(t, c).Some?;
  }

  /** How many methods the rewrite appends. */
  lemma AddedMethodsCount(t: TypeDef, c: Candidate)
    ensures var hadCctor := ClassConstructorIndex(t.methods).Some?;
      |AddedMethods(t, c)| == (if hadCctor then 1 else 0) + (if |c.unloadCallbacks| > 0 then 1 else 0)
        + (if |c.staticFields| > 0 || hadCctor then 1 else 0)
  {
  }
}
