# EasyTypeReload, modelled in Dafny

EasyTypeReload makes Unity's "enter play mode without a domain reload" safe for
static state. It has two halves:

- **A compile-time IL post-processor.** For every editor assembly that references the runtime package, it:
  - adds a hidden dispatcher type `<AssemblyTypeReloader>` with two `Action` fields (`s_UnloadActions`, `s_LoadActions`), each with a lock-free `RegisterX` method and a null-safe invoking method;
  - walks every type of the module, nested types included;
  - for each type marked `[ReloadOnEnterPlayMode]` that has a static non-constant field or a `[RunBeforeReload]` callback, synthesises:
    - a verbatim copy of the class constructor;
    - an unload method that calls the callbacks, sorted by `OrderInType`;
    - a load method that zeroes the static fields and re-runs the copy;
  - rewrites the class constructor so that it registers both methods with the dispatcher.
- **An editor side.** It toggles the enter-play-mode option bits from a menu. It also collects every loaded assembly's dispatcher once and, on each reload, runs all `Unload` delegates and then all `Load` delegates.

The model is functional throughout:

- **Metadata and IL.** Type, field and method definitions are immutable datatypes. IL is a `seq<Instr>` of symbolic opcodes whose operands are method, field and type references (`metadata.dfy`). A diagnostic carries a symbolic message; `Scan.MessageText` renders it to the exact warning text.
- **Type hook.** The candidate scan (`scan.dfy`, `sorting.dfy`, `numerics.dfy`), the per-type synthesis (`synthesis.dfy`) and the walk (`hook_type.dfy`).
- **Dispatcher.** It is emitted instruction by instruction (`hook_assembly.dfy`). Its register and invoke bodies are run on a small interpreter (`il_semantics.dfy`), which gives:
  - `Action` values as invocation lists: null is the empty list and `Delegate.Combine` appends;
  - `Interlocked.CompareExchange` as an atomic swap.
  - Registrations completed by other threads between a read and a swap are an input: one batch lands at every swap. The proofs in `dispatcher_proofs.dfy` show what the emitted code does under that semantics.
- **Pipeline decision and error flow** (`postprocessor.dfy`). These are inputs:
  - the path separators of the platform;
  - what reading the image yields with and without symbols;
  - whether writing the image fails.
- **Editor side** (`menu_utils.dfy`, `type_reloader.dfy`). It works on a record of settings and a record of reloader state. These are inputs:
  - the loaded assemblies;
  - the set of callbacks that throw.

## Model

| member | source | states |
|---|---|---|
| Numerics.Wrap32 | CodeGen/HookType.cs:129 | unchecked `int` arithmetic: the result is congruent to the exact value mod 2^32 and equals it when it fits in 32 bits |
| Numerics.Sub32 | CodeGen/HookType.cs:129 | the comparator's subtraction equals the true difference whenever that difference fits in an `int` |
| Sorting.Insert | CodeGen/HookType.cs:129 | inserting one element yields a permutation of the input plus that element |
| Sorting.SortBy | CodeGen/HookType.cs:129 | sorting with the wrapping comparator yields a permutation of its input, with no promise about equal keys |
| Sorting.CompareAgreesWithOrder | CodeGen/HookType.cs:129 | for keys in [-2^30, 2^30) the comparator's sign decides exactly `a <= b` |
| Sorting.InsertKeepsSorted | CodeGen/HookType.cs:129 | with bounded keys, inserting into a key-ordered list keeps it key-ordered |
| Sorting.SortIsSorted | CodeGen/HookType.cs:129 | with bounded keys, the sorted list is non-decreasing by key |
| Sorting.ComparatorOverflows | CodeGen/HookType.cs:129 | without the bound the comparator misorders keys: `int.MinValue` compares greater than 1 |
| Metadata.FindAttribute | CodeGen/HookType.cs:357-360 | the attribute lookup finds nothing iff no attribute has that type name, and otherwise finds the first one that does |
| Scan.FilterStaticFields | CodeGen/HookType.cs:62-74 | the selected fields are an in-order subsequence of the declared fields, all static and non-literal, and include every such field (readonly ones too); the warnings are those of the selected fields, in order |
| Scan.Warnings | CodeGen/HookType.cs:76-94 | there are no more warnings than fields, each of severity Warning |
| Scan.ReadonlyWarningNamesField | CodeGen/HookType.cs:85-92 | the warning is a Warning; two fields of one type get the same warning, and the same rendered message text, iff they have the same name |
| Scan.WarningsIff | CodeGen/HookType.cs:76-94 | among uniquely named fields, a field's warning is reported iff it is readonly and lacks `[ForceReload]` |
| Scan.WarningSource | CodeGen/HookType.cs:76-94 | every reported warning is the warning of some field that needs one |
| Scan.NoWarningForAbsentName | CodeGen/HookType.cs:76-94 | a field whose name no scanned field has gets no warning |
| Scan.WarningsOnce | CodeGen/HookType.cs:76-94 | among distinctly named fields, each field's warning occurs exactly once if it is readonly without `[ForceReload]`, and not at all otherwise |
| Scan.OrderInType | CodeGen/HookType.cs:114-123 | the sort key is the value of the first `OrderInType` named argument, or 0 when there is none |
| Scan.SelectCallbacks | CodeGen/HookType.cs:100-127 | the callbacks are an in-order subsequence of the methods containing exactly the non-generic, parameterless, void methods marked `[RunBeforeReload]`, static or not |
| Scan.FilterAndSortUnloadCallbacks | CodeGen/HookType.cs:96-130 | the sorted callbacks are a permutation of the selected ones: every member is a selected method and every selected method is present |
| Scan.CallbacksSorted | CodeGen/HookType.cs:129 | when every callback key lies in [-2^30, 2^30), the callbacks come out non-decreasing by key |
| Scan.NeedReload | CodeGen/HookType.cs:42-60 | unmarked types yield no candidate and no warnings; a candidate has a field or a callback, namely the filtered fields and the sorted callbacks; warnings only come with a candidate, and for a marked type they are exactly the warnings of its filtered fields |
| Scan.NeedReloadIff | CodeGen/HookType.cs:51-59 | a type is a candidate iff it is marked and has a static non-literal field or a callback-shaped `[RunBeforeReload]` method |
| Synthesis.OwnParameters | CodeGen/HookType.cs:316-320 | the instance's type arguments are the type's own generic parameters, in order |
| Synthesis.WrapType | CodeGen/HookType.cs:314-323 | non-generic declaring types are kept; generic ones become their instance over their own parameters |
| Synthesis.WrapMethod | CodeGen/HookType.cs:328-347 | the wrapped method reference is the identity on non-generic declaring types, and otherwise keeps name, return type and `HasThis` with the wrapped declaring type |
| Synthesis.WrapField | CodeGen/HookType.cs:312-326 | the wrapped field reference differs from the original in its declaring type only |
| Synthesis.GeneratedNamesDistinct | CodeGen/HookType.cs:198 | the copy, unload and load method names of a type are pairwise distinct and none is `.cctor` |
| Synthesis.GeneratedMethod | CodeGen/HookType.cs:195-199 | a synthesised method is private, static, void, parameterless, non-generic and marked compiler-generated |
| Synthesis.ClassConstructorIndex | CodeGen/HookType.cs:288-291 | finds nothing iff no method is a constructor named `.cctor`, and otherwise the first one |
| Synthesis.CopyClassConstructor | CodeGen/HookType.cs:253-286 | a copy exists iff a class constructor does; it carries the same instructions, variables, handlers and `InitLocals` under the copy name |
| Synthesis.UnloadBody | CodeGen/HookType.cs:202-210 | the unload body is one `call` per callback in the given order, each to the wrapped callback, then `ret` |
| Synthesis.DefUnloadMethod | CodeGen/HookType.cs:185-213 | an unload method exists iff there is a callback, and it has the unload body |
| Synthesis.ResetFields | CodeGen/HookType.cs:235-240 | per field, in order, `ldsflda` of the wrapped field then `initobj` of its type |
| Synthesis.LoadBody | CodeGen/HookType.cs:233-248 | the load body is the field resets, then a call to the copy when there is one, then `ret` |
| Synthesis.DefLoadMethod | CodeGen/HookType.cs:215-251 | a load method exists iff there is a field to reset or a copy to re-run, and it has the load body |
| Synthesis.Registration | CodeGen/HookType.cs:165-171 | one registration is four instructions ending in the call to the register method |
| Synthesis.OptionalRegistration | CodeGen/HookType.cs:164-180 | an absent method registers nothing, a present one the four-instruction pattern |
| Synthesis.DropLast | CodeGen/HookType.cs:159-162 | the last instruction is removed when there is one, and an empty body stays empty |
| Synthesis.HookedBodyKeepsPrefix | CodeGen/HookType.cs:157-182 | the rewritten body keeps everything before the old last instruction in place, grows by four per registration and ends in `ret` |
| Synthesis.HookedBodyRegistrationOrder | CodeGen/HookType.cs:164-182 | with both methods present, unload is registered, then load, then `ret` follows |
| Synthesis.HookMethod | CodeGen/HookType.cs:157-182 | hooking a class constructor changes only its instruction list, which becomes the old list without its last instruction, then the optional unload and load registrations, then `ret` |
| Synthesis.ClassConstructor | CodeGen/HookType.cs:31 | the class constructor is found iff the type has one, and it is the first method that is a constructor named `.cctor` |
| Synthesis.UnloadTarget | CodeGen/HookType.cs:165-168 | an unload registration is emitted iff the type has a callback, and it names the synthesised unload method |
| Synthesis.LoadTarget | CodeGen/HookType.cs:174-177 | a load registration is emitted iff the type has a field to reset or a class constructor, and it names the synthesised load method |
| Synthesis.HookTypeDefPreserves | CodeGen/HookType.cs:26-35 | hooking a type keeps its name, attributes, fields and nested types, and every existing method other than the class constructor in place |
| Synthesis.RewriteTypePreserves | CodeGen/HookType.cs:31-35 | the rewrite changes only the method list, and only the class constructor among the existing methods |
| Synthesis.NonCandidateUnchanged | CodeGen/HookType.cs:26-29 | types that are not candidates are left exactly as they were |
| Synthesis.RewriteTypeShape | CodeGen/HookType.cs:31-35 | the hooked class constructor replaces the old one in place, or, when there was none, follows the added methods |
| Synthesis.RewriteTypeAppends | CodeGen/HookType.cs:31-35 | the added methods follow the old ones, and a new class constructor, if any, comes after them |
| Synthesis.RewriteTypeHasClassConstructor | CodeGen/HookType.cs:141-182 | a rewritten candidate always has a class constructor |
| Synthesis.RewriteTypeHooksClassConstructor | CodeGen/HookType.cs:132-183 | a candidate's class constructor (the old one in place, or a new empty one last) changes only in its instructions: the old ones without their final `ret`, then the registration of the synthesised unload method with the unload register entry, then that of the synthesised load method with the load register entry, then `ret` |
| Synthesis.RewriteTypeAdds | CodeGen/HookType.cs:31-35 | a candidate gets the copy (iff it had a class constructor), the unload method (iff it has callbacks) and the load method (iff fields or constructor), appended in that order; it always ends up with a class constructor, a new one last if it had none |
| Synthesis.AddedMethodsCount | CodeGen/HookType.cs:32-34 | the number of synthesised methods is one per condition that holds |
| HookType.AllTypes | CodeGen/HookType.cs:16-24 | the pre-order listing of the type tree starts with the first top-level type and contains every top-level type |
| HookType.PopPush | CodeGen/HookType.cs:19-24 | popping a type and pushing its nested types removes exactly that type from what is left to visit |
| HookType.WalkStep | CodeGen/HookType.cs:19-24 | each step keeps "visited plus pending is the whole tree" and strictly shrinks what is pending |
| HookType.AllTypesHooked | CodeGen/HookType.cs:19-37 | hooking the tree hooks each type in place: in pre-order, position by position, the hooked tree lists each original type passed through the per-type hook, with its nested types hooked likewise |
| HookType.VisitedHooked | CodeGen/HookType.cs:19-37 | once every type has been visited, the hooked module's types are exactly the visited types, each hooked |
| HookType.NoCandidatesUnchanged | CodeGen/HookType.cs:26-29 | with no candidate anywhere in the tree, hooking leaves every type unchanged |
| HookType.Walk | CodeGen/HookType.cs:16-37 | the pop-and-push loop visits exactly the types of the tree, each once, and counts the candidates and collects their warnings in popping order |
| HookType.Execute | CodeGen/HookType.cs:13-40 | the walk visits every type of the tree exactly once, nested types of unmarked types included; it returns the number of candidates, the candidates' warnings in visiting order, and a module whose types are exactly the visited types, each hooked |
| HookType.CountZeroIff | CodeGen/HookType.cs:36-39 | the count is zero iff no visited type is a candidate |
| HookAssembly.DefActionCallbackBackingField | CodeGen/HookAssembly.cs:41-52 | each backing field is a private static `Action` field that is neither literal nor readonly |
| HookAssembly.RegisterBody | CodeGen/HookAssembly.cs:75-109 | the register body is 18 instructions: the two-instruction prologue, a loop closed by `bne.un.s` back to index 2, then `ret` |
| HookAssembly.InvokeBody | CodeGen/HookAssembly.cs:127-139 | the invoke body is 7 instructions: `brtrue.s` jumps to the appended `callvirt Invoke`, and the only field access is the first `ldsfld` of its own field |
| HookAssembly.DefRegisterActionCallbackMethod | CodeGen/HookAssembly.cs:54-112 | the register method is public static void, has one `Action value` parameter and three `Action` locals, and has the register body |
| HookAssembly.DefInvokeActionCallbackMethod | CodeGen/HookAssembly.cs:114-142 | the invoke method is public static void, has no parameters and no locals, and has the invoke body |
| HookAssembly.DefReloaderType | CodeGen/HookAssembly.cs:17-39 | the dispatcher type is named `<AssemblyTypeReloader>`, is not public, is abstract and sealed, and has two fields, `s_UnloadActions` then `s_LoadActions`, four methods, no nested types and no attributes; the register and invoke bodies of each pair reference the field the type itself declares |
| HookAssembly.Execute | CodeGen/HookAssembly.cs:9-26 | exactly one top-level type is appended; its fields are private static `Action`s; its methods are `RegisterUnload`, `Unload`, `RegisterLoad` and `Load`, in that order, and the fields are named `s_UnloadActions` and `s_LoadActions`, and each pair of methods loads and stores the field the appended type declares, as a reference to that field definition; the returned references are the two register methods |
| DispatcherProofs.CombineAppends | CodeGen/HookAssembly.cs:88-91 | `Delegate.Combine` of two delegates has their invocation lists appended |
| DispatcherProofs.CopySteps | CodeGen/HookAssembly.cs:84-90 | from the loop head, `action2 = action` then loading the combine arguments |
| DispatcherProofs.CombineSteps | CodeGen/HookAssembly.cs:91-93 | the combine, cast and store put `Combine(action2, value)` in `value2` |
| DispatcherProofs.SwapArgumentSteps | CodeGen/HookAssembly.cs:96-98 | the field address, `value2` and `action2` are pushed for the swap |
| DispatcherProofs.SwapSteps | CodeGen/HookAssembly.cs:99-100 | after other threads' pending registration lands, the swap writes `value2` iff the field still holds `action2`, and `action` receives the field's previous value |
| DispatcherProofs.TestSteps | CodeGen/HookAssembly.cs:103-105 | the loop repeats iff `action != action2`, and otherwise falls through to `ret` |
| DispatcherProofs.PrepareSwap | CodeGen/HookAssembly.cs:84-98 | one loop iteration up to the swap computes `value2 = action2 ++ value` |
| DispatcherProofs.SwapAndTest | CodeGen/HookAssembly.cs:99-105 | the swap and the loop test: exit iff no other registration landed in between |
| DispatcherProofs.LoopRound | CodeGen/HookAssembly.cs:82-106 | one full iteration leaves other fields and the trace untouched and either exits with the field appended or returns to the loop head with the others' registration included |
| DispatcherProofs.RegisterFromLoopHead | CodeGen/HookAssembly.cs:82-109 | the loop terminates; the field ends up as its value at loop entry, then every registration other threads landed, then `value`, exactly once; other fields and the trace are unchanged |
| DispatcherProofs.PrologueSteps | CodeGen/HookAssembly.cs:77-79 | `action = Field` reaches the loop head with the field's value in local 0 |
| DispatcherProofs.RegisterAppends | CodeGen/HookAssembly.cs:69-109 | the register method returns with the field equal to old ++ others' registrations ++ value, no other static written and nothing called |
| DispatcherProofs.RegisterSequential | CodeGen/HookAssembly.cs:77-109 | without interference the field becomes exactly old ++ value after one swap |
| DispatcherProofs.InvokeLoadSteps | CodeGen/HookAssembly.cs:131-132 | the invoke method reads the field once and duplicates it |
| DispatcherProofs.InvokeTakenSteps | CodeGen/HookAssembly.cs:133-139 | a non-null field reaches `callvirt Invoke` once, calling every target in order |
| DispatcherProofs.InvokeSkippedSteps | CodeGen/HookAssembly.cs:133-136 | a null field is popped and the method returns having called nothing |
| DispatcherProofs.InvokeCallsAll | CodeGen/HookAssembly.cs:127-139 | the invoke method returns, writes no static, and calls exactly the field's callbacks in registration order (none when null) |
| PostProcessor.FileNameStart | CodeGen/EasyTypeReloadILPostProcessor.cs:27 | the file name starts right after the last separator: no separator follows the start, and the character before it, if any, is a separator |
| PostProcessor.FileNameStartIs | CodeGen/EasyTypeReloadILPostProcessor.cs:27 | any index with no separator after it and a separator or the beginning of the path before it is exactly where the file name starts |
| PostProcessor.FileName | CodeGen/EasyTypeReloadILPostProcessor.cs:27 | the file name is the longest separator-free suffix of the path |
| PostProcessor.FileNameOnlyIf | CodeGen/EasyTypeReloadILPostProcessor.cs:27 | a path whose file name is `name` is `name` itself or ends in a separator followed by `name` |
| PostProcessor.FileNameIf | CodeGen/EasyTypeReloadILPostProcessor.cs:27 | a separator-free `name`, bare or after a separator, is the path's file name |
| PostProcessor.FileNameIs | CodeGen/EasyTypeReloadILPostProcessor.cs:27 | for a separator-free `name`, the file name is `name` iff the path is `name` or ends in a separator followed by it |
| PostProcessor.WillProcessIff | CodeGen/EasyTypeReloadILPostProcessor.cs:14-28 | an assembly is processed iff it is compiled with `UNITY_EDITOR`, is not `EasyTypeReload.Editor`, and some reference path is `EasyTypeReload.dll`, bare or after a separator |
| PostProcessor.LoadAssembly | CodeGen/EasyTypeReloadILPostProcessor.cs:71-101 | loading succeeds iff one of the two reads does; the read with symbols is preferred, and the read without symbols is tried once, only after it fails |
| PostProcessor.InternalError | CodeGen/EasyTypeReloadILPostProcessor.cs:61 | the error message starts with the fixed text naming the processor, then the assembly name, and ends with the exception text |
| PostProcessor.DispatcherAddsNoCandidate | CodeGen/EasyTypeReloadILPostProcessor.cs:49-50 | adding the dispatcher type does not change the number of candidate types |
| PostProcessor.Process | CodeGen/EasyTypeReloadILPostProcessor.cs:30-69 | unprocessed assemblies and assemblies without a candidate come back unchanged; a failed load or write becomes the internal-compiler-error failure naming the assembly; otherwise the result is the module with the dispatcher added and every type hooked |
| MenuUtils.Toggle | Editor/MenuUtils.cs:17-27 | toggling enables the options; from disabled the options become exactly `f`; from enabled the bits of `f` are flipped and every other bit is kept |
| MenuUtils.ToggleTwice | Editor/MenuUtils.cs:26 | toggling the same flags twice while enabled restores the settings |
| MenuUtils.ToggleTwiceFromDisabled | Editor/MenuUtils.cs:19-26 | toggling twice from disabled leaves the options enabled and empty |
| MenuUtils.ToggleDomainReloadingValidator | Editor/MenuUtils.cs:29-34 | "Reload Domain" is always available and is checked iff domain reloading is not disabled |
| MenuUtils.ToggleSceneReloadingValidator | Editor/MenuUtils.cs:42-47 | "Reload Scene" is always available and is checked iff scene reloading is not disabled |
| MenuUtils.ForceReloadDirtyTypesValidator | Editor/MenuUtils.cs:61-65 | "Reload Dirty Types" is available iff the options are enabled with the domain-reload bit set |
| MenuUtils.ToggleDomainFlipsOnlyDomain | Editor/MenuUtils.cs:36-40 | choosing "Reload Domain" while enabled flips its checkmark and the availability of "Reload Dirty Types", and leaves the scene checkmark alone |
| MenuUtils.ToggleSceneFlipsOnlyScene | Editor/MenuUtils.cs:49-53 | choosing "Reload Scene" while enabled flips its checkmark and leaves the domain checkmark alone |
| MenuUtils.ToggleFromDisabled | Editor/MenuUtils.cs:19-24 | from disabled options, either toggle unchecks its own item and checks the other one |
| TypeReloader.DispatcherCount | Editor/TypeReloader.cs:65-76 | no more dispatchers than assemblies |
| TypeReloader.DispatcherCountZero | Editor/TypeReloader.cs:65-76 | nothing is collected iff no assembly contains the dispatcher type |
| TypeReloader.Registrations | Editor/TypeReloader.cs:65-76 | one delegate per assembly with a dispatcher, each bound to the requested method |
| TypeReloader.RegistrationsFrom | Editor/TypeReloader.cs:67-72 | every collected delegate comes from an assembly that has a dispatcher |
| TypeReloader.RegistrationsComplete | Editor/TypeReloader.cs:65-76 | every assembly with a dispatcher contributes its delegate, in enumeration order: the one at position `j` comes right after those of the dispatchers before it |
| TypeReloader.RegistrationsPaired | Editor/TypeReloader.cs:74-75 | each dispatcher contributes one `Unload` and one `Load` delegate at the same position |
| TypeReloader.InitializeIfNot | Editor/TypeReloader.cs:58-79 | after the call the reloader is initialised; an initialised reloader is unchanged; otherwise both lists are extended by one delegate per dispatcher, keeping what was there |
| TypeReloader.InitializeOnce | Editor/TypeReloader.cs:60-63 | after the first initialisation, assemblies seen later are ignored |
| TypeReloader.FirstThrowing | Editor/TypeReloader.cs:21 | the position of the first throwing target: everything before it runs cleanly |
| TypeReloader.Invoke | Editor/TypeReloader.cs:21 | invoking a delegate calls a prefix of its targets in order; it fails iff a target throws, stopping right after that target, and otherwise calls them all |
| TypeReloader.RunActions | Editor/TypeReloader.cs:17-32 | the calls are a prefix of all unload callbacks followed by all load callbacks; nothing is logged iff none throws; on a throw the run stops and the exception and the failure message are logged |
| TypeReloader.ReloadDirtyTypes | Editor/TypeReloader.cs:15-33 | a reload initialises if needed; its calls are a prefix of the unload delegates followed by the load delegates; it logs nothing iff none of them throws, in which case all run; otherwise it stops at the throwing one and logs the exception and the failure message |
| TypeReloader.UnloadBeforeLoad | Editor/TypeReloader.cs:19-26 | every unload callback runs before any load callback |
| TypeReloader.OnEnterPlayModeInEditor | Editor/TypeReloader.cs:35-44 | entering play mode reloads types iff the domain-reload-disabled bit is set, and otherwise does nothing |
| TypeReloader.RegistrationsSafe | Editor/TypeReloader.cs:65-76 | if no dispatcher's method throws, no collected delegate throws |
| TypeReloader.SafeRegistrations | Editor/TypeReloader.cs:65-76 | if no dispatcher method throws, neither collected list has a throwing delegate |
| TypeReloader.RunAllSafe | Editor/TypeReloader.cs:17-27 | when nothing throws, every unload and then every load callback runs and nothing is logged |
| TypeReloader.InitialRegistrations | Editor/TypeReloader.cs:58-79 | the first initialisation collects exactly the registrations, in enumeration order |
| TypeReloader.FirstReload | Editor/TypeReloader.cs:15-33 | the first reload calls every dispatcher's `Unload` and then every `Load`, in enumeration order, when none throws |
| TypeReloader.NoneThrowAppend | Editor/TypeReloader.cs:21-26 | running two lists is clean iff running each of them is |

## Left out

- Reading and writing assembly images (Mono.Cecil streams, symbols, `WriteAssemblyToMemory`) are I/O over a library outside the model. What each read yields and whether writing fails are inputs to `Process`.
- Exceptions thrown inside the two rewriting passes are not modelled. Only load and write failures reach the error path.
- Thread interleavings of the register method are not modelled. Other threads' completed registrations are an input consumed at each swap, not a scheduler.
- `Interlocked.CompareExchange` and the loop test compare references. The model compares invocation lists by value, which is the same whenever no two distinct delegates have equal lists.
- Sorting.SortBy: the model's insertion sort yields a stable order, which can differ from `List.Sort`'s on equal keys (an introspective sort that is not stable). The relative order of equal keys is not promised, and sortedness is proved only for keys in [-2^30, 2^30), because the comparator's subtraction wraps.
- Scan.CallbacksSorted: holds only for keys in [-2^30, 2^30). Outside that range the comparator as written is not a total order (see `Sorting.ComparatorOverflows`).
- Synthesis.HookedBodyKeepsPrefix: states only the list edit. Branch targets that pointed at the dropped last instruction are not checked, because the code promises nothing about them.
- Synthesis.WrapMethod: the wrapped reference has no parameter list, as the code builds it. This is harmless only because every wrapped target is parameterless.
- CLR execution of the emitted IL: type-initialiser timing, `initobj` default values and runtime generic binding are not modelled. The interpreter covers only the dispatcher bodies.
- HookType.Execute: models the four-argument form, with the warnings as an extra output. `Process` calls it and discards the warnings, because the driver passes no list.
- `NeverReloadAttribute` and `ExecuteOnTypeUnloadAttribute` are not modelled. The generator never consults them.
- PostProcessor.FileName: splits at the last separator only. Volume roots and invalid-path checks of `Path.GetFileName` are not modelled.
- TypeReloader: `GC.Collect` and `GC.WaitForPendingFinalizers` are no-ops, and `CreateDelegate` is assumed to succeed. `Debug.LogException` and `Debug.LogError` become the log output.
- MenuUtils: `Menu.SetChecked` becomes the validator's `checked` output. The `ForceReloadDomain` items (`EditorUtility.RequestScriptReload`) are left out because they only request an editor script reload. The `ForceReloadDirtyTypes` items call `ReloadDirtyTypes` and add nothing to it.
- Unity's `EnterPlayModeOptions` values (`DisableDomainReload = 1`, `DisableSceneReload = 2`) come from Unity's API, not from this repository.
- The settings UI and persistence (`TypeReloadSettingsProvider`, `TypeReloadSettings`) are not part of this model.
