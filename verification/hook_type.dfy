/**
 * The walk over every type of a module, nested types included, that hooks
 * each candidate type and counts them.
 */
module HookType {
  import opened Wrappers
  import opened Metadata
  import opened Scan
  import opened Synthesis
  import opened Sequences

  /** Every type of the forest, each before its nested types (pre-order); every root is listed. */
  function AllTypes(ts: seq<TypeDef>): (r: seq<TypeDef>)
    ensures |r| >= |ts|
    ensures |ts| > 0 ==> r[0] == ts[0]
    ensures forall t :: t in ts ==> t in r
    decreases ts
  {
    if |ts| == 0 then []
    else
      var rest := AllTypes(ts[1..]);
      assert forall t :: t in ts ==> t == ts[0] || t in ts[1..];
      [ts[0]] + AllTypes(ts[0].nestedTypes) + rest
  }

  lemma {:induction false} AllTypesAppend(a: seq<TypeDef>, b: seq<TypeDef>)
    ensures AllTypes(a + b) == AllTypes(a) + AllTypes(b)
    decreases a
  {
    if |a| == 0 {
      assert a + b == b;
    } else {
      assert (a + b)[0] == a[0];
      assert (a + b)[1..] == a[1..] + b;
      AllTypesAppend(a[1..], b);
    }
  }

  /** Popping the last type of the stack and pushing its nested types removes exactly that type. */
  lemma PopPush(stack: seq<TypeDef>)
    requires |stack| > 0
    ensures var t, rest := stack[|stack| - 1], stack[..|stack| - 1];
      && multiset(AllTypes(stack)) == multiset(AllTypes(rest + t.nestedTypes)) + multiset{t}
      && |AllTypes(stack)| == |AllTypes(rest + t.nestedTypes)| + 1
  {
    var t, rest := stack[|stack| - 1], stack[..|stack| - 1];
    SplitLast(stack);
    AllTypesAppend(rest, [t]);
    AllTypesAppend(rest, t.nestedTypes);
    assert [t][1..] == [];
    assert AllTypes([t]) == [t] + AllTypes(t.nestedTypes) + AllTypes([]);
  }

  /** One step of the walk keeps "visited plus still to visit is everything" and shrinks what is left. */
  lemma WalkStep(visited: seq<TypeDef>, stack: seq<TypeDef>, all: multiset<TypeDef>)
    requires |stack| > 0
    requires multiset(visited) + multiset(AllTypes(stack)) == all
    ensures var t, rest := stack[|stack| - 1], stack[..|stack| - 1];
      && multiset(visited + [t]) + multiset(AllTypes(rest + t.nestedTypes)) == all
      && |AllTypes(rest + t.nestedTypes)| < |AllTypes(stack)|
  {
    PopPush(stack);
  }

  /** The types the walk hooks. */
  predicate IsCandidate(t: TypeDef)
  {
    NeedReload(t).candidate.Some?
  }

  /** The warnings the candidate test reports for one type. */
  function WarningsOf(t: TypeDef): seq<Diagnostic>
  {
    NeedReload(t).diagnostics
  }

  /** The module after every type of the tree has been passed through `HookTypeDef`. */
  function HookTypes(ts: seq<TypeDef>, registerUnload: MethodRef, registerLoad: MethodRef): (r: seq<TypeDef>)
    ensures |r| == |ts|
    decreases ts
  {
    if |ts| == 0 then []
    else
      var t := HookTypeDef(ts[0], registerUnload, registerLoad);
      [t.(nestedTypes := HookTypes(ts[0].nestedTypes, registerUnload, registerLoad))]
        + HookTypes(ts[1..], registerUnload, registerLoad)
  }

  function HookModule(m: Module, registerUnload: MethodRef, registerLoad: MethodRef): Module
  {
    Module(m.name, HookTypes(m.types, registerUnload, registerLoad))
  }

  /** A type after `HookTypeDef`, with its nested types hooked in turn. */
  function HookedNode(t: TypeDef, registerUnload: MethodRef, registerLoad: MethodRef): TypeDef
  {
    HookTypeDef(t, registerUnload, registerLoad).(nestedTypes := HookTypes(t.nestedTypes, registerUnload, registerLoad))
  }

  /** `HookedNode` as a function value, so that lists of types can be mapped through it. */
  function Hooking(registerUnload: MethodRef, registerLoad: MethodRef): TypeDef -> TypeDef
  {
    t => HookedNode(t, registerUnload, registerLoad)
  }

  lemma AllTypesCons(ts: seq<TypeDef>)
    requires |ts| > 0
    ensures AllTypes(ts) == [ts[0]] + AllTypes(ts[0].nestedTypes) + AllTypes(ts[1..])
  {
  }

  lemma HookTypesCons(ts: seq<TypeDef>, registerUnload: MethodRef, registerLoad: MethodRef)
    requires |ts| > 0
    ensures var h := HookTypes(ts, registerUnload, registerLoad);
      && h[0] == HookedNode(ts[0], registerUnload, registerLoad)
      && h[1..] == HookTypes(ts[1..], registerUnload, registerLoad)
  {
  }

  lemma {:induction false} AllTypesHooked(ts: seq<TypeDef>, registerUnload: MethodRef, registerLoad: MethodRef)
    ensures AllTypes(HookTypes(ts, registerUnload, registerLoad)) == Map(AllTypes(ts), Hooking(registerUnload, registerLoad))
    decreases ts
  {
    if |ts| > 0 {
      var h := HookTypes(ts, registerUnload, registerLoad);
      var n := HookedNode(ts[0], registerUnload, registerLoad);
      var own, later := AllTypes(ts[0].nestedTypes), AllTypes(ts[1..]);
      HookTypesCons(ts, registerUnload, registerLoad);
      assert n.nestedTypes == HookTypes(ts[0].nestedTypes, registerUnload, registerLoad);
      AllTypesHooked(ts[0].nestedTypes, registerUnload, registerLoad);
      AllTypesHooked(ts[1..], registerUnload, registerLoad);
      AllTypesCons(h);
      var f := Hooking(registerUnload, registerLoad);
      assert AllTypes(h) == [n] + Map(own, f) + Map(later, f);
      AllTypesCons(ts);
      MapAppend([ts[0]] + own, later, f);
      MapAppend([ts[0]], own, f);
      assert Map([ts[0]], f) == [n];
    }
  }

  /** Once the walk has visited every type, the hooked module holds exactly the visited types, each hooked. */
  lemma VisitedHooked(m: Module, visited: seq<TypeDef>, registerUnload: MethodRef, registerLoad: MethodRef)
    requires multiset(visited) == multiset(AllTypes(m.types))
    ensures multiset(AllTypes(HookModule(m, registerUnload, registerLoad).types))
      == multiset(Map(visited, Hooking(registerUnload, registerLoad)))
  {
    AllTypesHooked(m.types, registerUnload, registerLoad);
    MapPermutation(visited, AllTypes(m.types), Hooking(registerUnload, registerLoad));
  }

  /** With no candidate anywhere in the tree the module is unchanged. */
  lemma {:induction false} NoCandidatesUnchanged(ts: seq<TypeDef>, registerUnload: MethodRef, registerLoad: MethodRef)
    requires forall i :: 0 <= i < |AllTypes(ts)| ==> !IsCandidate(AllTypes(ts)[i])
    ensures HookTypes(ts, registerUnload, registerLoad) == ts
    decreases ts
  {
    if |ts| > 0 {
      NoneSplit(ts, IsCandidate);
      NoCandidatesUnchanged(ts[0].nestedTypes, registerUnload, registerLoad);
      NoCandidatesUnchanged(ts[1..], registerUnload, registerLoad);
      NonCandidateUnchanged(ts[0], registerUnload, registerLoad);
      assert ts == [ts[0]] + ts[1..];
    }
  }

  /** If no type of a forest satisfies `p`, neither does its first root, any type nested in it, or any later type. */
  lemma NoneSplit(ts: seq<TypeDef>, p: TypeDef -> bool)
    requires |ts| > 0
    requires forall i :: 0 <= i < |AllTypes(ts)| ==> !p(AllTypes(ts)[i])
    ensures !p(ts[0])
    ensures forall i :: 0 <= i < |AllTypes(ts[0].nestedTypes)| ==> !p(AllTypes(ts[0].nestedTypes)[i])
    ensures forall i :: 0 <= i < |AllTypes(ts[1..])| ==> !p(AllTypes(ts[1..])[i])
  {
    AllTypesCons(ts);
    NoneOfParts(AllTypes(ts), ts[0], AllTypes(ts[0].nestedTypes), AllTypes(ts[1..]), p);
  }

  /** The result of the walk: the rewritten module, the number of hooked types and the warnings. */
  datatype Hooked = Hooked(assembly: Module, hookCount: nat, diagnostics: seq<Diagnostic>)

  /**
   * The loop of `HookType.Execute`: pops a type, pushes its nested types
   * (whether or not the type itself is a candidate), and counts it and
   * collects its warnings. `visited` is the order in which types were popped.
   */
  method Walk(roots: seq<TypeDef>) returns (visited: seq<TypeDef>, hookCount: nat, diagnostics: seq<Diagnostic>)
    ensures multiset(visited) == multiset(AllTypes(roots))
    ensures hookCount == Count(visited, IsCandidate)
    ensures diagnostics == FlatMap(visited, WarningsOf)
  {
    var stack := roots;
    hookCount := 0;
    diagnostics := [];
    visited := [];
    while |stack| > 0
      invariant multiset(visited) + multiset(AllTypes(stack)) == multiset(AllTypes(roots))
      invariant hookCount == Count(visited, IsCandidate)
      invariant diagnostics == FlatMap(visited, WarningsOf)
      decreases |AllTypes(stack)|
    {
      var t := stack[|stack| - 1];
      WalkStep(visited, stack, multiset(AllTypes(roots)));
      stack := stack[..|stack| - 1] + t.nestedTypes;
      CountSnoc(visited, t, IsCandidate);
      FlatMapSnoc(visited, t, WarningsOf);
      visited := visited + [t];
      diagnostics := diagnostics + WarningsOf(t);
      if IsCandidate(t) {
        hookCount := hookCount + 1;
      }
    }
  }

  /**
   * `HookType.Execute`: walks every type and hooks each candidate.
   * `visited` is the order in which types were popped.
   */
  method Execute(m: Module, registerUnload: MethodRef, registerLoad: MethodRef)
    returns (r: Hooked, visited: seq<TypeDef>)
    ensures multiset(visited) == multiset(AllTypes(m.types))
    ensures r.hookCount == Count(AllTypes(m.types), IsCandidate)
    ensures r.diagnostics == FlatMap(visited, WarningsOf)
    ensures r.assembly == HookModule(m, registerUnload, registerLoad)
    ensures multiset(AllTypes(r.assembly.types)) == multiset(Map(visited, Hooking(registerUnload, registerLoad)))
  {
    var hookCount, diagnostics;
    visited, hookCount, diagnostics := Walk(m.types);
    CountPermutation(visited, AllTypes(m.types), IsCandidate);
    VisitedHooked(m, visited, registerUnload, registerLoad);
    r := Hooked(HookModule(m, registerUnload, registerLoad), hookCount, diagnostics);
  }

  /** Nothing is hooked iff no type in the tree is a candidate. */
  lemma {:induction false} CountZeroIff(ts: seq<TypeDef>)
    ensures Count(ts, IsCandidate) == 0 <==> forall i :: 0 <= i < |ts| ==> !IsCandidate(ts[i])
    decreases |ts|
  {
    if |ts| > 0 {
      CountZeroIff(ts[1..]);
      assert forall i :: 1 <= i < |ts| ==> ts[1..][i - 1] == ts[i];
    }
  }
}
