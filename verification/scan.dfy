/**
 * The candidate test of the type hook: which types are rewritten, which of
 * their static fields are reset, which warnings are reported, and which
 * methods run before a reload, in which order.
 */
module Scan {
  import opened Wrappers
  import opened Numerics
  import opened Metadata
  import opened Sequences
  import opened Sorting

  /** A field the load method resets: static and not a constant. */
  predicate IsReloadableField(f: FieldDef)
  {
    f.isStatic && !f.isLiteral
  }

  /** A selected field gets the readonly warning unless it carries `[ForceReload]`. */
  predicate NeedsReadonlyWarning(f: FieldDef)
  {
    !HasAttribute(f.customAttributes, ForceReloadAttribute) && f.isInitOnly
  }

  /** The fixed part of the readonly warning, after the field and type names. */
  const ReadonlyAdvice: string :=
    " is marked readonly, " +
    "which may (e.g., when its value depends on another readonly field) cause undefined behavior after it is reloaded. " +
    "Consider removing readonly, or using const instead. " +
    "If you are sure it won't go wrong, you can add [field: ForceReloadAttribute] to the relevant fields, properties, and events to suppress this message."

  /** The text of a diagnostic message. */
  function MessageText(m: Message): string
  {
    match m
    case ReadonlyFieldMessage(fieldName, typeFullName) => "Field '" + fieldName + "' in " + typeFullName + ReadonlyAdvice
  }

  /** The warning for a readonly field `f` declared in the type named `typeFullName`. */
  function ReadonlyWarning(typeFullName: string, f: FieldDef): Diagnostic
  {
    Diagnostic(Warning, ReadonlyFieldMessage(f.name, typeFullName))
  }

  /** The name in "Field '<name>' in <type><tail>" is recoverable when type and tail are fixed. */
  lemma NamePrefixInjective(n1: string, n2: string, typeFullName: string, tail: string)
    ensures "Field '" + n1 + "' in " + typeFullName + tail == "Field '" + n2 + "' in " + typeFullName + tail <==> n1 == n2
  {
    var m1, m2 := "Field '" + n1 + "' in " + typeFullName + tail, "Field '" + n2 + "' in " + typeFullName + tail;
    if m1 == m2 {
      assert |n1| == |n2|;
      assert n1 == m1[7..7 + |n1|];
      assert n2 == m2[7..7 + |n2|];
    }
  }

  /** Within one type the warning identifies the field: its message names it. */
  lemma ReadonlyWarningNamesField(typeFullName: string, f1: FieldDef, f2: FieldDef)
    ensures ReadonlyWarning(typeFullName, f1).severity == Warning
    ensures ReadonlyWarning(typeFullName, f1) == ReadonlyWarning(typeFullName, f2) <==> f1.name == f2.name
    ensures MessageText(ReadonlyWarning(typeFullName, f1).message) == MessageText(ReadonlyWarning(typeFullName, f2).message)
      <==> f1.name == f2.name
  {
    NamePrefixInjective(f1.name, f2.name, typeFullName, ReadonlyAdvice);
  }

  /** One warning per field that needs one, in order. */
  function Warnings(typeFullName: string, fs: seq<FieldDef>): (r: seq<Diagnostic>)
    ensures |r| <= |fs|
    ensures forall j :: 0 <= j < |r| ==> r[j].severity == Warning
  {
    if |fs| == 0 then []
    else (if NeedsReadonlyWarning(fs[0]) then [ReadonlyWarning(typeFullName, fs[0])] else []) + Warnings(typeFullName, fs[1..])
  }

  /** A field gets a warning iff it needs one; fields are told apart by name. */
  lemma {:induction false} WarningsIff(typeFullName: string, fs: seq<FieldDef>, f: FieldDef)
    requires f in fs
    requires forall i :: 0 <= i < |fs| && fs[i].name == f.name ==> fs[i] == f
    ensures ReadonlyWarning(typeFullName, f) in Warnings(typeFullName, fs) <==> NeedsReadonlyWarning(f)
  {
    var w := ReadonlyWarning(typeFullName, f);
    var head := if NeedsReadonlyWarning(fs[0]) then [ReadonlyWarning(typeFullName, fs[0])] else [];
    ReadonlyWarningNamesField(typeFullName, f, fs[0]);
    if fs[0] == f {
      if f in fs[1..] {
        WarningsIff(typeFullName, fs[1..], f);
      } else if w in Warnings(typeFullName, fs[1..]) {
        WarningSource(typeFullName, fs[1..], w);
        assert false;
      }
    } else {
      assert f in fs[1..];
      WarningsIff(typeFullName, fs[1..], f);
    }
  }

  /** Every warning comes from some field that needs it. */
  lemma {:induction false} WarningSource(typeFullName: string, fs: seq<FieldDef>, d: Diagnostic)
    requires d in Warnings(typeFullName, fs)
    ensures exists i :: 0 <= i < |fs| && NeedsReadonlyWarning(fs[i]) && d == ReadonlyWarning(typeFullName, fs[i])
  {
    if NeedsReadonlyWarning(fs[0]) && d == ReadonlyWarning(typeFullName, fs[0]) {
    } else {
      WarningSource(typeFullName, fs[1..], d);
      var i :| 0 <= i < |fs[1..]| && NeedsReadonlyWarning(fs[1..][i]) && d == ReadonlyWarning(typeFullName, fs[1..][i]);
      assert fs[i + 1] == fs[1..][i];
    }
  }

  /** No field named like `f` means no warning for `f`. */
  lemma NoWarningForAbsentName(typeFullName: string, fs: seq<FieldDef>, f: FieldDef)
    requires forall i :: 0 <= i < |fs| ==> fs[i].name != f.name
    ensures multiset(Warnings(typeFullName, fs))[ReadonlyWarning(typeFullName, f)] == 0
  {
    var w := ReadonlyWarning(typeFullName, f);
    if w in Warnings(typeFullName, fs) {
      WarningSource(typeFullName, fs, w);
      assert false;
    }
  }

  /**
   * Among fields with distinct names, the field at `k` is warned about exactly
   * once if it needs the warning and never otherwise.
   */
  lemma {:induction false} WarningsOnce(typeFullName: string, fs: seq<FieldDef>, k: nat)
    requires k < |fs|
    requires forall i :: 0 <= i < |fs| && i != k ==> fs[i].name != fs[k].name
    ensures multiset(Warnings(typeFullName, fs))[ReadonlyWarning(typeFullName, fs[k])]
      == if NeedsReadonlyWarning(fs[k]) then 1 else 0
    decreases |fs|
  {
    var f, w := fs[k], ReadonlyWarning(typeFullName, fs[k]);
    WarningsCount(typeFullName, fs, w);
    if k == 0 {
      forall i | 0 <= i < |fs[1..]| ensures fs[1..][i].name != f.name {
        assert fs[1..][i] == fs[i + 1];
      }
      NoWarningForAbsentName(typeFullName, fs[1..], f);
    } else {
      ReadonlyWarningNamesField(typeFullName, f, fs[0]);
      forall i | 0 <= i < |fs[1..]| && i != k - 1 ensures fs[1..][i].name != fs[1..][k - 1].name {
        assert fs[1..][i] == fs[i + 1];
      }
      WarningsOnce(typeFullName, fs[1..], k - 1);
    }
  }

  /** How often `w` is reported: once for the first field if it is that field's warning, plus the rest. */
  lemma WarningsCount(typeFullName: string, fs: seq<FieldDef>, w: Diagnostic)
    requires |fs| > 0
    ensures multiset(Warnings(typeFullName, fs))[w]
      == (if NeedsReadonlyWarning(fs[0]) && ReadonlyWarning(typeFullName, fs[0]) == w then 1 else 0)
        + multiset(Warnings(typeFullName, fs[1..]))[w]
  {
    var head := if NeedsReadonlyWarning(fs[0]) then [ReadonlyWarning(typeFullName, fs[0])] else [];
    assert Warnings(typeFullName, fs) == head + Warnings(typeFullName, fs[1..]);
  }

  /** The selected fields of one type and the warnings they raise, both in declaration order. */
  datatype FieldScan = FieldScan(fields: seq<FieldDef>, diagnostics: seq<Diagnostic>)

  /** `FilterStaticFields` together with `AddFieldDiagnosticMessages` for each selected field. */
  function FilterStaticFields(typeFullName: string, fs: seq<FieldDef>): (r: FieldScan)
    ensures IsSubsequence(r.fields, fs)
    ensures forall i :: 0 <= i < |r.fields| ==> IsReloadableField(r.fields[i])
    ensures forall i :: 0 <= i < |fs| && IsReloadableField(fs[i]) ==> fs[i] in r.fields
    ensures r.diagnostics == Warnings(typeFullName, r.fields)
    decreases |fs|
  {
    if |fs| == 0 then FieldScan([], [])
    else
      var rest := FilterStaticFields(typeFullName, fs[1..]);
      var f := fs[0];
      assert fs == [f] + fs[1..];
      if !IsReloadableField(f) then
        SkipSubsequence(f, rest.fields, fs[1..]);
        rest
      else
        ConsSubsequence(f, rest.fields, fs[1..]);
        var warning := if NeedsReadonlyWarning(f) then [ReadonlyWarning(typeFullName, f)] else [];
        assert ([f] + rest.fields)[1..] == rest.fields;
        FieldScan([f] + rest.fields, warning + rest.diagnostics)
  }

  /** The shape a `[RunBeforeReload]` method must have; note that being static is not required. */
  predicate IsCallbackShape(m: MethodDef)
  {
    |m.genericParameters| == 0 && |m.parameters| == 0 && IsVoid(m.returnType)
  }

  /** A method the unload method calls. */
  predicate IsUnloadCallback(m: MethodDef)
  {
    IsCallbackShape(m) && HasAttribute(m.customAttributes, RunBeforeReloadAttribute)
  }

  /** The value of the first `OrderInType` named argument, or 0. */
  function OrderInType(properties: seq<NamedArgument>): (order: int32)
    ensures (forall i :: 0 <= i < |properties| ==> properties[i].name != OrderInTypeProperty) ==> order == 0
    ensures forall i ::
      (&& 0 <= i < |properties| && properties[i].name == OrderInTypeProperty
       && forall j :: 0 <= j < i ==> properties[j].name != OrderInTypeProperty)
      ==> order == properties[i].value
  {
    if |properties| == 0 then 0
    else if properties[0].name == OrderInTypeProperty then properties[0].value
    else
      var order := OrderInType(properties[1..]);
      assert forall i :: 1 <= i < |properties| ==> properties[i] == properties[1..][i - 1];
      order
  }

  /** The sort key of a callback: `OrderInType` of its `[RunBeforeReload]`. */
  function CallbackOrder(m: MethodDef): int32
  {
    match FindAttribute(m.customAttributes, RunBeforeReloadAttribute)
    case None => 0
    case Some(a) => OrderInType(a.properties)
  }

  /** The callbacks of a type in declaration order, before sorting. */
  function SelectCallbacks(ms: seq<MethodDef>): (r: seq<MethodDef>)
    ensures IsSubsequence(r, ms)
    ensures forall i :: 0 <= i < |r| ==> IsUnloadCallback(r[i]) && r[i] in ms
    ensures forall i :: 0 <= i < |ms| && IsUnloadCallback(ms[i]) ==> ms[i] in r
    decreases |ms|
  {
    if |ms| == 0 then []
    else
      var rest := SelectCallbacks(ms[1..]);
      assert ms == [ms[0]] + ms[1..];
      if IsUnloadCallback(ms[0]) then
        ConsSubsequence(ms[0], rest, ms[1..]);
        [ms[0]] + rest
      else
        SkipSubsequence(ms[0], rest, ms[1..]);
        rest
  }

  /** `FilterAndSortUnloadCallbacks`: the selected callbacks, ordered by their keys. */
  function FilterAndSortUnloadCallbacks(ms: seq<MethodDef>): (r: seq<MethodDef>)
    ensures multiset(r) == multiset(SelectCallbacks(ms))
    ensures forall i :: 0 <= i < |r| ==> IsUnloadCallback(r[i]) && r[i] in ms
    ensures forall i :: 0 <= i < |ms| && IsUnloadCallback(ms[i]) ==> ms[i] in r
  {
    var selected := SelectCallbacks(ms);
    var r := SortBy(selected, CallbackOrder);
    SameElements(r, selected);
    assert forall i :: 0 <= i < |r| ==> r[i] in selected && IsUnloadCallback(r[i]) && r[i] in ms by {
      forall i | 0 <= i < |r| ensures r[i] in selected && IsUnloadCallback(r[i]) && r[i] in ms {
        assert r[i] in selected;
        var j :| 0 <= j < |selected| && selected[j] == r[i];
      }
    }
    r
  }

  /** When every key is within 2^30 of zero, the callbacks come out ordered by key. */
  lemma CallbacksSorted(ms: seq<MethodDef>)
    requires forall i :: 0 <= i < |ms| && IsUnloadCallback(ms[i]) ==>
      -0x4000_0000 <= CallbackOrder(ms[i]) as int < 0x4000_0000
    ensures SortedBy(FilterAndSortUnloadCallbacks(ms), CallbackOrder)
  {
    var selected := SelectCallbacks(ms);
    forall i | 0 <= i < |selected|
      ensures -0x4000_0000 <= CallbackOrder(selected[i]) as int < 0x4000_0000
    {
    }
    SortIsSorted(selected, CallbackOrder);
  }

  /** What a marked type contributes to the rewrite. */
  datatype Candidate = Candidate(staticFields: seq<FieldDef>, unloadCallbacks: seq<MethodDef>)

  /** The outcome of `NeedReload`: a candidate when the type is rewritten, and the warnings raised. */
  datatype Verdict = Verdict(candidate: Option<Candidate>, diagnostics: seq<Diagnostic>)

  /** `NeedReload`: unmarked types are skipped before anything is collected. */
  function NeedReload(t: TypeDef): (r: Verdict)
    ensures !HasAttribute(t.customAttributes, ReloadOnEnterPlayModeAttribute) ==> r == Verdict(None, [])
    ensures r.candidate.Some? ==> |r.candidate.value.staticFields| > 0 || |r.candidate.value.unloadCallbacks| > 0
    ensures r.candidate.Some? ==> r.candidate.value.staticFields == FilterStaticFields(t.fullName, t.fields).fields
    ensures r.candidate.Some? ==> r.candidate.value.unloadCallbacks == FilterAndSortUnloadCallbacks(t.methods)
    ensures r.diagnostics != [] ==> r.candidate.Some?
    ensures HasAttribute(t.customAttributes, ReloadOnEnterPlayModeAttribute) ==>
      r.diagnostics == FilterStaticFields(t.fullName, t.fields).diagnostics
  {
    if !HasAttribute(t.customAttributes, ReloadOnEnterPlayModeAttribute) then Verdict(None, [])
    else
      var scan := FilterStaticFields(t.fullName, t.fields);
      var callbacks := FilterAndSortUnloadCallbacks(t.methods);
      if |scan.fields| > 0 || |callbacks| > 0
      then Verdict(Some(Candidate(scan.fields, callbacks)), scan.diagnostics)
      else Verdict(None, scan.diagnostics)
  }

  /** A type is rewritten iff it is marked and has a static non-constant field or an unload callback. */
  lemma NeedReloadIff(t: TypeDef)
    ensures NeedReload(t).candidate.Some? <==>
      && HasAttribute(t.customAttributes, ReloadOnEnterPlayModeAttribute)
      && ((exists i :: 0 <= i < |t.fields| && IsReloadableField(t.fields[i])) ||
          (exists i :: 0 <= i < |t.methods| && IsUnloadCallback(t.methods[i])))
  {
    if HasAttribute(t.customAttributes, ReloadOnEnterPlayModeAttribute) {
      var scan := FilterStaticFields(t.fullName, t.fields);
      var callbacks := FilterAndSortUnloadCallbacks(t.methods);
      if |scan.fields| > 0 {
        assert IsReloadableField(scan.fields[0]);
        SubsequenceMember(scan.fields, t.fields, 0);
      }
      if |callbacks| > 0 {
        assert IsUnloadCallback(callbacks[0]) && callbacks[0] in t.methods;
      }
    }
  }
}
