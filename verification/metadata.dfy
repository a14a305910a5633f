/**
 * The part of the metadata object graph that the rewriter reads and writes:
 * types, fields, methods, custom attributes and symbolic IL.
 * References carry names and structure only; the binary format is not modelled.
 */
module Metadata {
  import opened Wrappers
  import opened Numerics

  /** A type reference: a type definition, a generic instance of one, a generic parameter, or `T&`. */
  datatype TypeRef =
    | TypeDefRef(fullName: string, genericParameters: seq<string>)
    | GenericInstance(element: TypeRef, arguments: seq<TypeRef>)
    | GenericParameter(name: string)
    | ByReference(elementType: TypeRef)

  /** `TypeReference.HasGenericParameters`. */
  predicate HasGenericParameters(t: TypeRef)
  {
    t.TypeDefRef? && |t.genericParameters| > 0
  }

  /**
   * `ReturnType.FullName == typeof(void).FullName`; the full name of a generic
   * instance ends in `>` and that of a by-reference type in `&`, so neither matches.
   */
  predicate IsVoid(t: TypeRef)
  {
    match t
    case TypeDefRef(n, _) => n == "System.Void"
    case GenericParameter(n) => n == "System.Void"
    case GenericInstance(_, _) => false
    case ByReference(_) => false
  }

  datatype FieldRef = FieldRef(name: string, fieldType: TypeRef, declaringType: TypeRef)

  datatype MethodRef = MethodRef(
    name: string,
    declaringType: TypeRef,
    returnType: TypeRef,
    hasThis: bool,
    parameters: seq<TypeRef>,
    genericArguments: seq<TypeRef>)

  /** Symbolic opcodes: the ones the rewriter emits, plus any other opcode by mnemonic. */
  datatype OpCode =
    | Nop | Ret | Call | Callvirt | Newobj | Ldnull | Ldftn
    | Ldsfld | Ldsflda | Initobj | Castclass | Dup | Pop
    | Ldarg0 | Ldloc0 | Ldloc1 | Ldloc2 | Stloc0 | Stloc1 | Stloc2
    | BrtrueS | BneUnS
    | OtherOp(mnemonic: string)

  /** Operands; a branch target is the index of the target instruction in the body. */
  datatype Operand =
    | NoOperand
    | MethodOperand(callee: MethodRef)
    | FieldOperand(field: FieldRef)
    | TypeOperand(typ: TypeRef)
    | TargetOperand(target: nat)
    | IntOperand(i: int)
    | StringOperand(s: string)

  datatype Instr = Instr(op: OpCode, operand: Operand)

  datatype HandlerKind = Catch | Filter | Finally | Fault

  datatype ExceptionHandler = ExceptionHandler(
    kind: HandlerKind,
    tryStart: nat, tryEnd: nat,
    handlerStart: nat, handlerEnd: nat,
    catchType: Option<TypeRef>)

  datatype MethodBody = MethodBody(
    instructions: seq<Instr>,
    variables: seq<TypeRef>,
    exceptionHandlers: seq<ExceptionHandler>,
    initLocals: bool)

  const EmptyBody := MethodBody([], [], [], false)

  /** A named property argument of a custom attribute (`[RunBeforeReload(OrderInType = 3)]`). */
  datatype NamedArgument = NamedArgument(name: string, value: int32)

  /** A custom attribute, identified by the full name of its type. */
  datatype CustomAttribute = CustomAttribute(attributeType: string, properties: seq<NamedArgument>)

  datatype Visibility = Private | Public | Assembly

  datatype MethodAttributes = MethodAttributes(
    visibility: Visibility,
    isStatic: bool,
    hideBySig: bool,
    specialName: bool,
    rtSpecialName: bool)

  datatype Parameter = Parameter(name: string, parameterType: TypeRef)

  datatype MethodDef = MethodDef(
    name: string,
    attributes: MethodAttributes,
    returnType: TypeRef,
    parameters: seq<Parameter>,
    genericParameters: seq<string>,
    customAttributes: seq<CustomAttribute>,
    body: MethodBody)

  datatype FieldDef = FieldDef(
    name: string,
    fieldType: TypeRef,
    visibility: Visibility,
    isStatic: bool,
    isLiteral: bool,
    isInitOnly: bool,
    customAttributes: seq<CustomAttribute>)

  datatype TypeAttributes = TypeAttributes(isPublic: bool, isAbstract: bool, isSealed: bool, beforeFieldInit: bool)

  datatype TypeDef = TypeDef(
    name: string,
    fullName: string,
    attributes: TypeAttributes,
    baseType: Option<TypeRef>,
    genericParameters: seq<string>,
    customAttributes: seq<CustomAttribute>,
    fields: seq<FieldDef>,
    methods: seq<MethodDef>,
    nestedTypes: seq<TypeDef>)

  /** The main module of an assembly: its top-level types. */
  datatype Module = Module(name: string, types: seq<TypeDef>)

  datatype Severity = Warning | Error

  /** A diagnostic's message, kept symbolic; `Scan.MessageText` renders it. */
  datatype Message = ReadonlyFieldMessage(fieldName: string, typeFullName: string)

  datatype Diagnostic = Diagnostic(severity: Severity, message: Message)

  // Attribute types the rewriter looks up, by full name.
  const ReloadOnEnterPlayModeAttribute := "EasyTypeReload.ReloadOnEnterPlayModeAttribute"
  const ForceReloadAttribute := "EasyTypeReload.ForceReloadAttribute"
  const RunBeforeReloadAttribute := "EasyTypeReload.RunBeforeReloadAttribute"
  const OrderInTypeProperty := "OrderInType"
  const CompilerGeneratedAttribute := "System.Runtime.CompilerServices.CompilerGeneratedAttribute"

  // Core-library types and members the emitted IL refers to.
  const VoidType := TypeDefRef("System.Void", [])
  const ObjectType := TypeDefRef("System.Object", [])
  const IntPtrType := TypeDefRef("System.IntPtr", [])
  const ActionType := TypeDefRef("System.Action", [])
  const DelegateType := TypeDefRef("System.Delegate", [])
  const InterlockedType := TypeDefRef("System.Threading.Interlocked", [])

  /** `Action(object, IntPtr)`. */
  const ActionCtor := MethodRef(".ctor", ActionType, VoidType, true, [ObjectType, IntPtrType], [])

  /** `Action.Invoke()`. */
  const ActionInvoke := MethodRef("Invoke", ActionType, VoidType, true, [], [])

  /** `Delegate.Combine(Delegate, Delegate)`. */
  const DelegateCombine := MethodRef("Combine", DelegateType, DelegateType, false, [DelegateType, DelegateType], [])

  /** `Interlocked.CompareExchange<Action>(ref T, T, T)`. */
  const CompareExchangeAction := MethodRef(
    "CompareExchange", InterlockedType, GenericParameter("T"), false,
    [ByReference(GenericParameter("T")), GenericParameter("T"), GenericParameter("T")],
    [ActionType])

  /** `attributes.Get<T>()`: the first attribute whose type has the given full name. */
  function FindAttribute(attributes: seq<CustomAttribute>, fullName: string): (r: Option<CustomAttribute>)
    ensures r.None? <==> forall i :: 0 <= i < |attributes| ==> attributes[i].attributeType != fullName
    ensures r.Some? ==> exists i :: 0 <= i < |attributes| && attributes[i] == r.value
                                   && forall j :: 0 <= j < i ==> attributes[j].attributeType != fullName
    ensures r.Some? ==> r.value.attributeType == fullName
  {
    if |attributes| == 0 then None
    else if attributes[0].attributeType == fullName then Some(attributes[0])
    else
      var r := FindAttribute(attributes[1..], fullName);
      assert r.Some? ==> exists i :: 0 <= i < |attributes[1..]| && attributes[1..][i] == r.value
                                    && forall j :: 0 <= j < i ==> attributes[1..][j].attributeType != fullName;
      if r.Some? then
        var i :| 0 <= i < |attributes[1..]| && attributes[1..][i] == r.value
                 && forall j :: 0 <= j < i ==> attributes[1..][j].attributeType != fullName;
        assert attributes[i + 1] == r.value;
        assert forall j :: 0 <= j < i + 1 ==> attributes[j].attributeType != fullName by {
          forall j | 0 <= j < i + 1 ensures attributes[j].attributeType != fullName {
            if j > 0 { assert attributes[j] == attributes[1..][j - 1]; }
          }
        }
        r
      else r
  }

  /** Whether a custom attribute of the given type is present. */
  predicate HasAttribute(attributes: seq<CustomAttribute>, fullName: string)
  {
    FindAttribute(attributes, fullName).Some?
  }

  /** `MethodDefinition.IsConstructor`. */
  predicate IsConstructor(m: MethodDef)
  {
    m.attributes.rtSpecialName && m.attributes.specialName && (m.name == ".cctor" || m.name == ".ctor")
  }

  /** The reference a definition stands for when used as an operand: its own generic parameters stay open. */
  function TypeRefOf(t: TypeDef): TypeRef
  {
    TypeDefRef(t.fullName, t.genericParameters)
  }

  function ParameterTypes(ps: seq<Parameter>): (r: seq<TypeRef>)
    ensures |r| == |ps|
  {
    seq(|ps|, i requires 0 <= i < |ps| => ps[i].parameterType)
  }

  /** A method definition used as a method reference; instance methods have `this`. */
  function MethodRefOf(t: TypeDef, m: MethodDef): MethodRef
  {
    MethodRef(m.name, TypeRefOf(t), m.returnType, !m.attributes.isStatic, ParameterTypes(m.parameters), [])
  }

  /** A field definition used as a field reference. */
  function FieldRefOf(t: TypeDef, f: FieldDef): FieldRef
  {
    FieldRef(f.name, f.fieldType, TypeRefOf(t))
  }
}
