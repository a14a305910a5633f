/**
 * The compilation-pipeline hook: which assemblies are rewritten, how the image
 * is read, and how the two rewriting passes are chained.
 *
 * Reading and writing images are outside the model: what the reader yields
 * with and without debug symbols, and whether writing fails, are parameters.
 */
module PostProcessor {
  import opened Wrappers
  import opened Metadata
  import opened Sequences
  import HookAssembly
  import HookType

  const EditorDefine := "UNITY_EDITOR"
  const EditorAssemblyName := "EasyTypeReload.Editor"
  const RuntimeAssemblyFileName := "EasyTypeReload.dll"
  const ProcessorName := "EasyTypeReloadILPostProcessor"

  /** What the compilation pipeline hands over: the assembly name, its defines and its reference paths. */
  datatype CompiledAssembly = CompiledAssembly(name: string, defines: seq<string>, references: seq<string>)

  /**
   * Where the file name of `path[..n]` starts: just after its last directory
   * separator, or at 0 when it has none. Which characters separate directories
   * depends on the platform.
   */
  function FileNameStart(path: string, separators: set<char>, n: nat): (k: nat)
    requires n <= |path|
    ensures k <= n
    ensures forall i :: k <= i < n ==> path[i] !in separators
    ensures k > 0 ==> path[k - 1] in separators
    decreases n
  {
    if n == 0 then 0
    else if path[n - 1] in separators then n
    else FileNameStart(path, separators, n - 1)
  }

  /** `Path.GetFileName`: the part of `path` after its last directory separator. */
  function FileName(path: string, separators: set<char>): (r: string)
    ensures |r| <= |path| && r == path[|path| - |r|..]
    ensures NoSeparator(r, separators)
    ensures |r| < |path| ==> path[|path| - |r| - 1] in separators
  {
    var k := FileNameStart(path, separators, |path|);
    var r := path[k..];
    assert forall i :: 0 <= i < |r| ==> r[i] == path[k + i];
    r
  }

  predicate NoSeparator(name: string, separators: set<char>)
  {
    forall i :: 0 <= i < |name| ==> name[i] !in separators
  }

  /** A start index with no separator after it and a separator (or nothing) before it is where the file name starts. */
  lemma {:induction false} FileNameStartIs(path: string, separators: set<char>, n: nat, k: nat)
    requires k <= n <= |path|
    requires forall i :: k <= i < n ==> path[i] !in separators
    requires k == 0 || path[k - 1] in separators
    ensures FileNameStart(path, separators, n) == k
    decreases n
  {
    if n > k {
      FileNameStartIs(path, separators, n - 1, k);
    } else if n > 0 {
      assert path[n - 1] in separators;
    }
  }

  /** `path` is `name`, bare or after a directory separator. */
  predicate EndsWithFile(path: string, name: string, separators: set<char>)
  {
    || path == name
    || (|path| > |name| && path[|path| - |name| - 1] in separators && path[|path| - |name|..] == name)
  }

  lemma FileNameOnlyIf(path: string, name: string, separators: set<char>)
    requires FileName(path, separators) == name
    ensures EndsWithFile(path, name, separators)
  {
    if |name| == |path| {
      assert path[0..] == path;
    }
  }

  lemma FileNameIf(path: string, name: string, separators: set<char>)
    requires NoSeparator(name, separators) && EndsWithFile(path, name, separators)
    ensures FileName(path, separators) == name
  {
    var k := |path| - |name|;
    assert path[k..] == name by {
      if path == name {
        assert path[0..] == path;
      }
    }
    forall i | k <= i < |path| ensures path[i] !in separators {
      assert path[i] == name[i - k];
    }
    FileNameStartIs(path, separators, |path|, k);
  }

  /** A path names a file iff it is that bare name or ends in a separator followed by it. */
  lemma FileNameIs(path: string, name: string, separators: set<char>)
    requires NoSeparator(name, separators)
    ensures FileName(path, separators) == name <==> EndsWithFile(path, name, separators)
  {
    if FileName(path, separators) == name {
      FileNameOnlyIf(path, name, separators);
    }
    if EndsWithFile(path, name, separators) {
      FileNameIf(path, name, separators);
    }
  }

  /** `WillProcess`: editor builds of assemblies other than the editor package that reference the runtime package. */
  predicate WillProcess(a: CompiledAssembly, separators: set<char>)
  {
    && EditorDefine in a.defines
    && a.name != EditorAssemblyName
    && exists i :: 0 <= i < |a.references| && FileName(a.references[i], separators) == RuntimeAssemblyFileName
  }

  /** The reference test in terms of the path text, for platforms whose separators are `/` and `\`. */
  lemma WillProcessIff(a: CompiledAssembly, separators: set<char>)
    requires separators <= {'/', '\\'}
    ensures WillProcess(a, separators) <==>
      && EditorDefine in a.defines
      && a.name != EditorAssemblyName
      && exists i :: 0 <= i < |a.references| && ReferencesRuntime(a.references[i], separators)
  {
    assert NoSeparator(RuntimeAssemblyFileName, separators);
    forall i | 0 <= i < |a.references|
      ensures FileName(a.references[i], separators) == RuntimeAssemblyFileName <==> ReferencesRuntime(a.references[i], separators)
    {
      FileNameIs(a.references[i], RuntimeAssemblyFileName, separators);
    }
  }

  /** `path` is the runtime package's file, bare or under some directory. */
  predicate ReferencesRuntime(path: string, separators: set<char>)
  {
    EndsWithFile(path, RuntimeAssemblyFileName, separators)
  }

  /** What reading the in-memory image yields: with its debug symbols, and without them. */
  datatype Reader = Reader(withSymbols: Result<Module>, withoutSymbols: Result<Module>)

  /** `LoadAssembly`: reads with symbols and, if that throws, once more without them. */
  function LoadAssembly(reader: Reader): (r: Result<Module>)
    ensures r.Ok? <==> reader.withSymbols.Ok? || reader.withoutSymbols.Ok?
    ensures reader.withSymbols.Ok? ==> r == reader.withSymbols
    ensures r.Ok? ==> r == reader.withSymbols || r == reader.withoutSymbols
    ensures r.Err? ==> r == reader.withoutSymbols
  {
    match reader.withSymbols
    case Ok(_) => reader.withSymbols
    case Err(_) => reader.withoutSymbols
  }

  /** `ILPostProcessResult`: no image (leave the compiler's output alone) or the rewritten one. */
  datatype Output = Unchanged | Rewritten(image: Module)

  /** The fixed text before the assembly name in the internal-error message. */
  const InternalErrorHead := "Internal compiler error for " + ProcessorName + " on "

  /** The message of the exception that replaces any failure while rewriting. */
  function InternalError(assemblyName: string, exception: string): (r: string)
    ensures |r| == |InternalErrorHead| + |assemblyName| + |". Exception: "| + |exception|
    ensures r[..|InternalErrorHead|] == InternalErrorHead
    ensures r[|InternalErrorHead|..|InternalErrorHead| + |assemblyName|] == assemblyName
    ensures r[|r| - |exception|..] == exception
  {
    var r := InternalErrorHead + assemblyName + ". Exception: " + exception;
    assert r == InternalErrorHead + (assemblyName + (". Exception: " + exception));
    r
  }

  /** The dispatcher type carries no marker, so adding it never adds a candidate. */
  lemma {:induction false} DispatcherAddsNoCandidate(m: Module)
    ensures var d := HookAssembly.Execute(m);
      Count(HookType.AllTypes(d.assembly.types), HookType.IsCandidate) == Count(HookType.AllTypes(m.types), HookType.IsCandidate)
  {
    var d := HookAssembly.Execute(m);
    var t := d.assembly.types[|m.types|];
    assert d.assembly.types == m.types + [t];
    HookType.AllTypesAppend(m.types, [t]);
    assert [t][1..] == [];
    assert HookType.AllTypes([t]) == [t];
    assert !HookType.IsCandidate(t);
    CountAppend(HookType.AllTypes(m.types), [t], HookType.IsCandidate);
    CountSnoc([], t, HookType.IsCandidate);
  }

  /**
   * `Process`. The result is rewritten iff the assembly is processed, loads,
   * and has at least one candidate type of its own; any exception becomes an
   * internal-compiler-error failure naming the assembly.
   */
  method Process(a: CompiledAssembly, separators: set<char>, reader: Reader, writeError: Option<string>)
    returns (r: Result<Output>)
    ensures !WillProcess(a, separators) ==> r == Ok(Unchanged)
    ensures WillProcess(a, separators) && LoadAssembly(reader).Err? ==>
      r == Err(InternalError(a.name, LoadAssembly(reader).message))
    ensures WillProcess(a, separators) && LoadAssembly(reader).Ok? ==>
      var m := LoadAssembly(reader).value;
      var d := HookAssembly.Execute(m);
      var n := Count(HookType.AllTypes(m.types), HookType.IsCandidate);
      && (n == 0 ==> r == Ok(Unchanged))
      && (n > 0 && writeError.Some? ==> r == Err(InternalError(a.name, writeError.value)))
      && (n > 0 && writeError.None? ==> r == Ok(Rewritten(HookType.HookModule(d.assembly, d.registerUnload, d.registerLoad))))
  {
    if !WillProcess(a, separators) {
      return Ok(Unchanged);
    }
    var loaded := LoadAssembly(reader);
    if loaded.Err? {
      return Err(InternalError(a.name, loaded.message));
    }
    var d := HookAssembly.Execute(loaded.value);
    var hooked, _ := HookType.Execute(d.assembly, d.registerUnload, d.registerLoad);
    DispatcherAddsNoCandidate(loaded.value);
    if hooked.hookCount <= 0 {
      return Ok(Unchanged);
    }
    match writeError {
      case Some(e) => r := Err(InternalError(a.name, e));
      case None => r := Ok(Rewritten(hooked.assembly));
    }
  }
}
