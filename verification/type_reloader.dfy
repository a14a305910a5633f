/**
 * The editor-side reloader: on first use it collects the `Unload` and `Load`
 * methods of every loaded assembly's dispatcher type, and each reload runs all
 * unload callbacks and then all load callbacks.
 *
 * The loaded assemblies and which callbacks throw are inputs; garbage
 * collection is a no-op. A delegate is its invocation list, null being empty.
 */
module TypeReloader {
  import opened ReloaderConsts
  import opened Sequences
  import MenuUtils

  /** A loaded assembly and whether it contains the dispatcher type. */
  datatype LoadedAssembly = LoadedAssembly(name: string, hasReloaderType: bool)

  /** Which of the dispatcher's two static methods a delegate is bound to. */
  datatype Entry = UnloadEntry | LoadEntry

  /** The name the reloader looks the method up by. */
  function EntryName(e: Entry): string
  {
    match e
    case UnloadEntry => UnloadMethodName
    case LoadEntry => LoadMethodName
  }

  /** A static method of the dispatcher type (named `TypeName`) of one assembly, bound into a delegate. */
  datatype Callback = Callback(assembly: string, entry: Entry)

  /** The reloader's three static fields. */
  datatype Reloader = Reloader(initialized: bool, unloadActions: seq<Callback>, loadActions: seq<Callback>)

  /** The state before the first reload. */
  const Initial := Reloader(false, [], [])

  predicate HasReloader(a: LoadedAssembly)
  {
    a.hasReloaderType
  }

  /** How many of the assemblies contain a dispatcher. */
  function DispatcherCount(assemblies: seq<LoadedAssembly>): (n: nat)
    ensures n <= |assemblies|
    decreases |assemblies|
  {
    if |assemblies| == 0 then 0
    else (if assemblies[0].hasReloaderType then 1 else 0) + DispatcherCount(assemblies[1..])
  }

  /** No delegates are collected iff no loaded assembly has a dispatcher. */
  lemma {:induction false} DispatcherCountZero(assemblies: seq<LoadedAssembly>)
    ensures DispatcherCount(assemblies) == 0 <==> forall i :: 0 <= i < |assemblies| ==> !HasReloader(assemblies[i])
    decreases |assemblies|
  {
    if |assemblies| > 0 {
      DispatcherCountZero(assemblies[1..]);
      assert forall i :: 1 <= i < |assemblies| ==> assemblies[1..][i - 1] == assemblies[i];
    }
  }

  /** The delegates bound to `methodName` of each dispatcher, in enumeration order. */
  function Registrations(assemblies: seq<LoadedAssembly>, entry: Entry): (r: seq<Callback>)
    ensures |r| == DispatcherCount(assemblies)
    ensures forall i :: 0 <= i < |r| ==> r[i].entry == entry
    decreases |assemblies|
  {
    if |assemblies| == 0 then []
    else
      var a := assemblies[0];
      (if a.hasReloaderType then [Callback(a.name, entry)] else [])
        + Registrations(assemblies[1..], entry)
  }

  /** Only assemblies with a dispatcher contribute. */
  lemma {:induction false} RegistrationsFrom(assemblies: seq<LoadedAssembly>, entry: Entry, i: nat)
    requires i < |Registrations(assemblies, entry)|
    ensures exists j :: 0 <= j < |assemblies| && HasReloader(assemblies[j]) && assemblies[j].name == Registrations(assemblies, entry)[i].assembly
    decreases |assemblies|
  {
    var a := assemblies[0];
    var head := if a.hasReloaderType then [Callback(a.name, entry)] else [];
    if i >= |head| {
      RegistrationsFrom(assemblies[1..], entry, i - |head|);
      var j :| 0 <= j < |assemblies[1..]| && HasReloader(assemblies[1..][j])
        && assemblies[1..][j].name == Registrations(assemblies[1..], entry)[i - |head|].assembly;
      assert assemblies[1..][j] == assemblies[j + 1];
    }
  }

  /**
   * Every assembly with a dispatcher contributes its delegate, in enumeration
   * order: the one at `j` sits right after those of the dispatchers before it.
   */
  lemma {:induction false} RegistrationsComplete(assemblies: seq<LoadedAssembly>, entry: Entry, j: nat)
    requires j < |assemblies| && HasReloader(assemblies[j])
    ensures DispatcherCount(assemblies[..j]) < |Registrations(assemblies, entry)|
    ensures Registrations(assemblies, entry)[DispatcherCount(assemblies[..j])] == Callback(assemblies[j].name, entry)
    decreases |assemblies|
  {
    var a := assemblies[0];
    var head := if a.hasReloaderType then [Callback(a.name, entry)] else [];
    assert Registrations(assemblies, entry) == head + Registrations(assemblies[1..], entry);
    if j == 0 {
      assert assemblies[..0] == [];
    } else {
      RegistrationsComplete(assemblies[1..], entry, j - 1);
      assert assemblies[..j][0] == a && assemblies[..j][1..] == assemblies[1..][..j - 1];
      assert DispatcherCount(assemblies[..j]) == |head| + DispatcherCount(assemblies[1..][..j - 1]);
    }
  }

  /** Every dispatcher contributes one unload and one load delegate, at the same position. */
  lemma {:induction false} RegistrationsPaired(assemblies: seq<LoadedAssembly>)
    ensures |Registrations(assemblies, UnloadEntry)| == |Registrations(assemblies, LoadEntry)|
    ensures forall i :: 0 <= i < |Registrations(assemblies, UnloadEntry)| ==>
      Registrations(assemblies, UnloadEntry)[i].assembly == Registrations(assemblies, LoadEntry)[i].assembly
    decreases |assemblies|
  {
    if |assemblies| > 0 {
      RegistrationsPaired(assemblies[1..]);
    }
  }

  /** `InitializeIfNot`: the first call appends every dispatcher's delegates; later calls change nothing. */
  function InitializeIfNot(st: Reloader, assemblies: seq<LoadedAssembly>): (r: Reloader)
    ensures r.initialized
    ensures st.initialized ==> r == st
    ensures !st.initialized ==> |r.unloadActions| == |st.unloadActions| + DispatcherCount(assemblies)
    ensures !st.initialized ==> |r.loadActions| == |st.loadActions| + DispatcherCount(assemblies)
    ensures !st.initialized ==> r.unloadActions[..|st.unloadActions|] == st.unloadActions
    ensures !st.initialized ==> r.loadActions[..|st.loadActions|] == st.loadActions
  {
    if st.initialized then st
    else
      var r := Reloader(true, st.unloadActions + Registrations(assemblies, UnloadEntry),
                        st.loadActions + Registrations(assemblies, LoadEntry));
      assert r.unloadActions[..|st.unloadActions|] == st.unloadActions;
      assert r.loadActions[..|st.loadActions|] == st.loadActions;
      r
  }

  /** After the first initialisation the assemblies seen later are ignored. */
  lemma InitializeOnce(st: Reloader, first: seq<LoadedAssembly>, later: seq<LoadedAssembly>)
    ensures InitializeIfNot(InitializeIfNot(st, first), later) == InitializeIfNot(st, first)
  {
  }

  /** None of the callbacks throws. */
  predicate NoneThrow(cs: seq<Callback>, throwing: set<Callback>)
  {
    forall i :: 0 <= i < |cs| ==> cs[i] !in throwing
  }

  /** The position of the first callback that throws, or the length if none does. */
  function FirstThrowing(actions: seq<Callback>, throwing: set<Callback>): (k: nat)
    ensures k <= |actions|
    ensures k < |actions| ==> actions[k] in throwing
    ensures NoneThrow(actions[..k], throwing)
    decreases |actions|
  {
    if |actions| == 0 then 0
    else if actions[0] in throwing then 0
    else
      var k := 1 + FirstThrowing(actions[1..], throwing);
      assert actions[..k] == [actions[0]] + actions[1..][..k - 1];
      k
  }

  /** Calls made by invoking a delegate, and whether one of them threw. */
  datatype Invocation = Invocation(calls: seq<Callback>, failed: bool)

  /** Invoking a multicast delegate: targets in order, stopping after the first that throws. */
  function Invoke(actions: seq<Callback>, throwing: set<Callback>): (r: Invocation)
    ensures |r.calls| <= |actions| && r.calls == actions[..|r.calls|]
    ensures !r.failed <==> NoneThrow(actions, throwing)
    ensures !r.failed ==> r.calls == actions
    ensures r.failed ==> |r.calls| > 0 && r.calls[|r.calls| - 1] in throwing && NoneThrow(r.calls[..|r.calls| - 1], throwing)
  {
    var k := FirstThrowing(actions, throwing);
    if k < |actions| then
      assert actions[..k + 1][..k] == actions[..k];
      Invocation(actions[..k + 1], true)
    else
      assert actions[..k] == actions;
      Invocation(actions, false)
  }

  /** What the editor log receives when a reload throws. */
  datatype LogEntry = LoggedException(thrownBy: Callback) | LoggedError(message: string)

  const FailureMessage := "Failed to reload dirty types!"

  /** The reloader after a reload, the calls made, and what was logged. */
  datatype Reload = Reload(state: Reloader, calls: seq<Callback>, log: seq<LogEntry>)

  function FailureLog(calls: seq<Callback>): seq<LogEntry>
    requires |calls| > 0
  {
    [LoggedException(calls[|calls| - 1]), LoggedError(FailureMessage)]
  }

  /** The calls and log of running the unload delegate and then, if it did not throw, the load delegate. */
  datatype Ran = Ran(calls: seq<Callback>, log: seq<LogEntry>)

  /**
   * The try block of `ReloadDirtyTypes` after initialisation: the calls made
   * are a prefix of all unload callbacks followed by all load callbacks; a null
   * delegate is skipped; the first exception stops the run and is logged.
   */
  function RunActions(unload: seq<Callback>, load: seq<Callback>, throwing: set<Callback>): (r: Ran)
    ensures |r.calls| <= |unload + load| && r.calls == (unload + load)[..|r.calls|]
    ensures r.log == [] <==> NoneThrow(unload + load, throwing)
    ensures r.log == [] ==> r.calls == unload + load
    ensures r.log != [] ==>
      && |r.calls| > 0 && r.calls[|r.calls| - 1] in throwing && NoneThrow(r.calls[..|r.calls| - 1], throwing)
      && r.log == FailureLog(r.calls)
  {
    var u := Invoke(unload, throwing);
    NoneThrowAppend(unload, load, throwing);
    if u.failed then
      TakeAppendLeft(unload, load, |u.calls|);
      Ran(u.calls, FailureLog(u.calls))
    else
      var l := Invoke(load, throwing);
      TakeAppendRight(unload, load, |l.calls|);
      if l.failed then
        assert (unload + l.calls)[..|unload| + |l.calls| - 1] == unload + l.calls[..|l.calls| - 1];
        Ran(unload + l.calls, FailureLog(unload + l.calls))
      else
        Ran(unload + l.calls, [])
  }

  /** `ReloadDirtyTypes`: initialise if needed, then run the delegates; nothing escapes. */
  function ReloadDirtyTypes(st: Reloader, assemblies: seq<LoadedAssembly>, throwing: set<Callback>): (r: Reload)
    ensures r.state == InitializeIfNot(st, assemblies)
    ensures var all := r.state.unloadActions + r.state.loadActions;
      && |r.calls| <= |all| && r.calls == all[..|r.calls|]
      && (r.log == [] <==> NoneThrow(all, throwing))
      && (r.log == [] ==> r.calls == all)
      && (r.log != [] ==>
            && |r.calls| > 0 && r.calls[|r.calls| - 1] in throwing && NoneThrow(r.calls[..|r.calls| - 1], throwing)
            && r.log == FailureLog(r.calls))
  {
    var s1 := InitializeIfNot(st, assemblies);
    var ran := RunActions(s1.unloadActions, s1.loadActions, throwing);
    Reload(s1, ran.calls, ran.log)
  }

  /** Every unload callback runs before any load callback. */
  lemma UnloadBeforeLoad(st: Reloader, assemblies: seq<LoadedAssembly>, throwing: set<Callback>, j: nat)
    requires var r := ReloadDirtyTypes(st, assemblies, throwing);
      |r.state.unloadActions| <= j < |r.calls|
    ensures var r := ReloadDirtyTypes(st, assemblies, throwing);
      r.calls[..|r.state.unloadActions|] == r.state.unloadActions && r.calls[j] in r.state.loadActions
  {
    var r := ReloadDirtyTypes(st, assemblies, throwing);
    var u := r.state.unloadActions;
    var all := u + r.state.loadActions;
    assert r.calls[j] == all[j] == r.state.loadActions[j - |u|];
    assert r.calls[..|u|] == all[..|u|];
  }

  /** `OnEnterPlayModeInEditor`: only entering play mode without a domain reload reloads types. */
  function OnEnterPlayModeInEditor(st: Reloader, options: bv32, assemblies: seq<LoadedAssembly>, throwing: set<Callback>): (r: Reload)
    ensures options & MenuUtils.DisableDomainReload == 0 ==> r == Reload(st, [], [])
    ensures options & MenuUtils.DisableDomainReload != 0 ==> r == ReloadDirtyTypes(st, assemblies, throwing)
  {
    if options & MenuUtils.DisableDomainReload == 0 then Reload(st, [], [])
    else ReloadDirtyTypes(st, assemblies, throwing)
  }

  /** No registered delegate of `methodName` throws when no dispatcher's `methodName` throws. */
  lemma RegistrationsSafe(assemblies: seq<LoadedAssembly>, entry: Entry, throwing: set<Callback>)
    requires forall j :: 0 <= j < |assemblies| ==> Callback(assemblies[j].name, entry) !in throwing
    ensures NoneThrow(Registrations(assemblies, entry), throwing)
  {
    var rs := Registrations(assemblies, entry);
    forall i | 0 <= i < |rs| ensures rs[i] !in throwing {
      RegistrationsFrom(assemblies, entry, i);
      var j :| 0 <= j < |assemblies| && HasReloader(assemblies[j]) && assemblies[j].name == rs[i].assembly;
      assert rs[i] == Callback(assemblies[j].name, entry);
    }
  }

  /** Neither entry of any dispatcher throws. */
  predicate DispatchersSafe(assemblies: seq<LoadedAssembly>, throwing: set<Callback>)
  {
    forall i :: 0 <= i < |assemblies| ==>
      Callback(assemblies[i].name, UnloadEntry) !in throwing && Callback(assemblies[i].name, LoadEntry) !in throwing
  }

  lemma SafeRegistrations(assemblies: seq<LoadedAssembly>, throwing: set<Callback>)
    requires DispatchersSafe(assemblies, throwing)
    ensures NoneThrow(Registrations(assemblies, UnloadEntry), throwing)
    ensures NoneThrow(Registrations(assemblies, LoadEntry), throwing)
  {
    RegistrationsSafe(assemblies, UnloadEntry, throwing);
    RegistrationsSafe(assemblies, LoadEntry, throwing);
  }

  /** When no callback throws, everything runs and nothing is logged. */
  lemma RunAllSafe(unload: seq<Callback>, load: seq<Callback>, throwing: set<Callback>)
    requires NoneThrow(unload, throwing) && NoneThrow(load, throwing)
    ensures RunActions(unload, load, throwing) == Ran(unload + load, [])
  {
    NoneThrowAppend(unload, load, throwing);
  }

  /** The first initialisation collects exactly the registrations. */
  lemma InitialRegistrations(assemblies: seq<LoadedAssembly>)
    ensures InitializeIfNot(Initial, assemblies) ==
      Reloader(true, Registrations(assemblies, UnloadEntry), Registrations(assemblies, LoadEntry))
  {
    assert [] + Registrations(assemblies, UnloadEntry) == Registrations(assemblies, UnloadEntry);
    assert [] + Registrations(assemblies, LoadEntry) == Registrations(assemblies, LoadEntry);
  }

  /** The first reload from the initial state calls each dispatcher's `Unload`, then each `Load`, when nothing throws. */
  lemma FirstReload(assemblies: seq<LoadedAssembly>, throwing: set<Callback>)
    requires DispatchersSafe(assemblies, throwing)
    ensures var r := ReloadDirtyTypes(Initial, assemblies, throwing);
      && r.log == []
      && r.calls == Registrations(assemblies, UnloadEntry) + Registrations(assemblies, LoadEntry)
  {
    SafeRegistrations(assemblies, throwing);
    InitialRegistrations(assemblies);
    RunAllSafe(Registrations(assemblies, UnloadEntry), Registrations(assemblies, LoadEntry), throwing);
  }

  lemma NoneThrowAppend(a: seq<Callback>, b: seq<Callback>, throwing: set<Callback>)
    ensures NoneThrow(a + b, throwing) <==> NoneThrow(a, throwing) && NoneThrow(b, throwing)
  {
    if NoneThrow(a, throwing) && NoneThrow(b, throwing) {
      forall i | 0 <= i < |a + b| ensures (a + b)[i] !in throwing {
        if i >= |a| {
          assert (a + b)[i] == b[i - |a|];
        }
      }
    }
    if NoneThrow(a + b, throwing) {
      forall i | 0 <= i < |a| ensures a[i] !in throwing {
        assert (a + b)[i] == a[i];
      }
      forall i | 0 <= i < |b| ensures b[i] !in throwing {
        assert (a + b)[|a| + i] == b[i];
      }
    }
  }
}
