/** The names shared by the generated dispatcher type and the editor code that finds it. */
module ReloaderConsts {
  const TypeName := "<AssemblyTypeReloader>"

  const UnloadActionsFieldName := "s_UnloadActions"
  const LoadActionsFieldName := "s_LoadActions"

  const RegisterUnloadMethodName := "RegisterUnload"
  const RegisterLoadMethodName := "RegisterLoad"

  const UnloadMethodName := "Unload"
  const LoadMethodName := "Load"
}
