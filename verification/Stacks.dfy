/** Building the registry of stacks. */
module Stacks {
  import opened Graphs
  import opened Model

  function Names(stacks: seq<Stack>): (names: seq<string>)
    ensures |names| == |stacks|
    ensures forall i :: 0 <= i < |names| ==> names[i] == stacks[i].name
  {
    seq(|stacks|, i requires 0 <= i < |stacks| => stacks[i].name)
  }

  /** One edge from every stack to each stack it requires. */
  ghost function RequireEdges(stacks: seq<Stack>): (edges: set<Edge>)
    ensures forall e :: e in edges <==> exists s :: s in stacks && e.0 == s.name && e.1 in RequiredNames(s)
  {
    set s, t | s in stacks && t in RequiredNames(s) :: (s.name, t)
  }

  /** The stacks can be ordered: distinct names, requirements among them, none twice, no cycle. */
  ghost predicate Orderable(stacks: seq<Stack>) {
    && Distinct(Names(stacks))
    && (forall s :: s in stacks ==> Distinct(RequiredNames(s)))
    && (forall s, t :: s in stacks && t in RequiredNames(s) ==> t in Names(stacks))
    && Acyclic(RequireEdges(stacks))
  }

  // Consumed parameters.

  /** The two ways a required stack can be the source of a consumed parameter. */
  datatype Source = OwnParameter(index: nat) | FromProvider(index: nat)

  ghost predicate IsSource(stack: Stack, parameter: string, source: Source) {
    && source.index < |stack.required|
    && var required := stack.required[source.index];
       if source.OwnParameter? then Offers(required, parameter) else parameter in required.providers
  }

  ghost predicate ExactlyOneSource(stack: Stack, parameter: string) {
    exists s :: IsSource(stack, parameter, s) && forall t :: IsSource(stack, parameter, t) ==> t == s
  }

  ghost predicate ProvidesTo(required: Stack, stack: Stack) {
    exists p :: Consumes(stack, p) && (Offers(required, p) || p in required.providers)
  }

  /** What the validation complains about. */
  datatype Finding =
    | NoProvider(stack: string, parameter: string)
    | ManyProviders(stack: string, parameter: string)
    | NothingConsumed(stack: string, required: string)

  ghost predicate Justified(stack: Stack, finding: Finding) {
    match finding
    case NoProvider(s, p) => s == stack.name && Consumes(stack, p) && forall t :: !IsSource(stack, p, t)
    case ManyProviders(s, p) =>
      s == stack.name && Consumes(stack, p)
      && exists t, u :: t != u && IsSource(stack, p, t) && IsSource(stack, p, u)
    case NothingConsumed(s, r) =>
      && s == stack.name && r in RequiredNames(stack)
      && forall q :: q in stack.required && q.name == r ==> !ProvidesTo(q, stack)
  }

  /** Every consumed parameter has exactly one source and every required stack is one for some. */
  ghost predicate Consistent(stack: Stack) {
    && (forall p :: Consumes(stack, p) ==> ExactlyOneSource(stack, p))
    && (forall r :: r in RequiredNames(stack) ==>
          exists q :: q in stack.required && q.name == r && ProvidesTo(q, stack))
  }

  // Counting sources.

  function Weight(required: Stack, parameter: string): nat {
    (if Offers(required, parameter) then 1 else 0) + (if parameter in required.providers then 1 else 0)
  }

  /** The number of sources among the first `n` required stacks. */
  ghost function Count(stack: Stack, parameter: string, n: nat): nat
    requires n <= |stack.required|
  {
    if n == 0 then 0 else Count(stack, parameter, n - 1) + Weight(stack.required[n - 1], parameter)
  }

  lemma {:induction false} CountZero(stack: Stack, parameter: string, n: nat)
    requires n <= |stack.required|
    ensures Count(stack, parameter, n) == 0 <==> forall s: Source :: s.index < n ==> !IsSource(stack, parameter, s)
  {
    if n > 0 {
      CountZero(stack, parameter, n - 1);
      assert IsSource(stack, parameter, OwnParameter(n - 1)) <==> Offers(stack.required[n - 1], parameter);
      assert IsSource(stack, parameter, FromProvider(n - 1)) <==> parameter in stack.required[n - 1].providers;
    }
  }

  lemma {:induction false} CountMany(stack: Stack, parameter: string, n: nat)
    requires n <= |stack.required|
    ensures Count(stack, parameter, n) > 1 <==>
            exists s: Source, t: Source :: s != t && s.index < n && t.index < n && IsSource(stack, parameter, s) && IsSource(stack, parameter, t)
  {
    if n > 0 {
      CountMany(stack, parameter, n - 1);
      CountZero(stack, parameter, n - 1);
      assert IsSource(stack, parameter, OwnParameter(n - 1)) <==> Offers(stack.required[n - 1], parameter);
      assert IsSource(stack, parameter, FromProvider(n - 1)) <==> parameter in stack.required[n - 1].providers;
      if Count(stack, parameter, n - 1) == 1 && Weight(stack.required[n - 1], parameter) > 0 {
        var s: Source :| s.index < n - 1 && IsSource(stack, parameter, s);
        var t := if Offers(stack.required[n - 1], parameter) then OwnParameter(n - 1) else FromProvider(n - 1);
        assert s != t && IsSource(stack, parameter, t);
      }
    }
  }

  lemma CountOne(stack: Stack, parameter: string)
    ensures ExactlyOneSource(stack, parameter) <==> Count(stack, parameter, |stack.required|) == 1
  {
    CountZero(stack, parameter, |stack.required|);
    CountMany(stack, parameter, |stack.required|);
    if Count(stack, parameter, |stack.required|) == 1 {
      var s :| IsSource(stack, parameter, s);
      assert forall t :: IsSource(stack, parameter, t) ==> t == s;
    }
  }

  /** There is nothing to complain about exactly when the stack's consumed parameters are
      consistent. */
  lemma NoFindingsIffConsistent(stack: Stack)
    ensures (forall f :: !Justified(stack, f)) <==> Consistent(stack)
  {
    if forall f :: !Justified(stack, f) {
      forall p | Consumes(stack, p)
        ensures ExactlyOneSource(stack, p)
      {
        assert !Justified(stack, NoProvider(stack.name, p));
        assert !Justified(stack, ManyProviders(stack.name, p));
        var s :| IsSource(stack, p, s);
        assert forall t :: IsSource(stack, p, t) ==> t == s;
      }
      forall r | r in RequiredNames(stack)
        ensures exists q :: q in stack.required && q.name == r && ProvidesTo(q, stack)
      {
        assert !Justified(stack, NothingConsumed(stack.name, r));
      }
    }
  }

  /** `provided` counts, by name, what the first `n` required stacks provide to `stack`. */
  ghost predicate Counted(stack: Stack, n: nat, providers: map<string, nat>, provided: map<string, nat>)
    requires n <= |stack.required|
  {
    && (forall p :: p in providers <==> Consumes(stack, p))
    && (forall p :: p in providers ==> providers[p] == Count(stack, p, n))
    && (forall r :: r in provided <==> r in RequiredNames(stack))
    && (forall r :: r in provided ==> (provided[r] > 0 <==> ProvidesAmong(stack, r, n)))
  }

  ghost predicate ProvidesAmong(stack: Stack, name: string, n: nat)
    requires n <= |stack.required|
  {
    exists i :: 0 <= i < n && stack.required[i].name == name && ProvidesTo(stack.required[i], stack)
  }

  /** Counts what one required stack provides, by own parameters or by providers: every name in
      `names` that is among the consumed ones. */
  method Tally(names: set<string>, requiredName: string, providers: map<string, nat>, provided: map<string, nat>)
    returns (providers': map<string, nat>, provided': map<string, nat>)
    requires requiredName in provided
    ensures providers'.Keys == providers.Keys && provided'.Keys == provided.Keys
    ensures forall p :: p in providers ==> providers'[p] == providers[p] + (if p in names then 1 else 0)
    ensures forall r :: r in provided && r != requiredName ==> provided'[r] == provided[r]
    ensures provided'[requiredName] >= provided[requiredName]
    ensures provided'[requiredName] > provided[requiredName] <==> exists p :: p in names && p in providers
  {
    providers', provided' := providers, provided;
    var todo := names;
    while todo != {}
      invariant todo <= names
      invariant providers'.Keys == providers.Keys && provided'.Keys == provided.Keys
      invariant forall p :: p in providers ==> providers'[p] == providers[p] + (if p in names - todo then 1 else 0)
      invariant forall r :: r in provided && r != requiredName ==> provided'[r] == provided[r]
      invariant provided'[requiredName] >= provided[requiredName]
      invariant provided'[requiredName] > provided[requiredName] <==> exists p :: p in names - todo && p in providers
    {
      var p :| p in todo;
      todo := todo - {p};
      if p in providers {
        providers' := providers'[p := providers'[p] + 1];
        provided' := provided'[requiredName := provided'[requiredName] + 1];
      }
    }
  }

  /** Counts one required stack: its own parameters, except those it consumes itself, and then its
      providers. */
  method TallyRequired(stack: Stack, required: Stack, providers: map<string, nat>, provided: map<string, nat>)
    returns (providers': map<string, nat>, provided': map<string, nat>)
    requires required.name in provided && forall p :: p in providers <==> Consumes(stack, p)
    ensures providers'.Keys == providers.Keys && provided'.Keys == provided.Keys
    ensures forall p :: p in providers ==> providers'[p] == providers[p] + Weight(required, p)
    ensures forall r :: r in provided && r != required.name ==> provided'[r] == provided[r]
    ensures provided'[required.name] >= provided[required.name]
    ensures provided'[required.name] > provided[required.name] <==> ProvidesTo(required, stack)
  {
    var offered := set p | p in required.parameters && !required.parameters[p].consumed;
    providers', provided' := Tally(offered, required.name, providers, provided);
    providers', provided' := Tally(required.providers.Keys, required.name, providers', provided');
    assert (exists p :: p in offered && p in providers) <==> (exists p :: Consumes(stack, p) && Offers(required, p));
  }

  /** Counts, over all required stacks, how often each consumed parameter is provided and how much
      each required stack provides. */
  method CountProviders(stack: Stack) returns (providers: map<string, nat>, provided: map<string, nat>)
    ensures Counted(stack, |stack.required|, providers, provided)
  {
    providers := map p | p in stack.parameters && stack.parameters[p].consumed :: 0;
    provided := map r | r in RequiredNames(stack) :: 0;
    assert Counted(stack, 0, providers, provided);
    assert forall p :: p in providers <==> Consumes(stack, p);
    hide Count, Weight, ProvidesTo, ProvidesAmong;
    for i := 0 to |stack.required|
      invariant Counted(stack, i, providers, provided)
    {
      var required := stack.required[i];
      assert required.name in RequiredNames(stack) by { assert RequiredNames(stack)[i] == required.name; }
      ghost var providers0, provided0 := providers, provided;
      providers, provided := TallyRequired(stack, required, providers, provided);
      CountedStep(stack, i, providers0, provided0, providers, provided);
    }
  }

  lemma CountedStep(stack: Stack, n: nat, providers: map<string, nat>, provided: map<string, nat>,
                    providers': map<string, nat>, provided': map<string, nat>)
    requires n < |stack.required| && Counted(stack, n, providers, provided)
    requires providers'.Keys == providers.Keys && provided'.Keys == provided.Keys
    requires forall p :: p in providers ==> providers'[p] == providers[p] + Weight(stack.required[n], p)
    requires stack.required[n].name in provided
    requires forall r :: r in provided && r != stack.required[n].name ==> provided'[r] == provided[r]
    requires provided'[stack.required[n].name] >= provided[stack.required[n].name]
    requires provided'[stack.required[n].name] > provided[stack.required[n].name] <==> ProvidesTo(stack.required[n], stack)
    ensures Counted(stack, n + 1, providers', provided')
  {
    forall r | r in provided
      ensures provided'[r] > 0 <==> ProvidesAmong(stack, r, n + 1)
    {
      assert ProvidesAmong(stack, r, n + 1) <==>
             ProvidesAmong(stack, r, n) || (stack.required[n].name == r && ProvidesTo(stack.required[n], stack));
    }
  }

  /** The complaints about one stack. */
  method StackFindings(stack: Stack) returns (findings: seq<Finding>)
    ensures forall f :: f in findings <==> Justified(stack, f)
  {
    var providers, provided := CountProviders(stack);
    findings := [];
    var todo := providers.Keys;
    while todo != {}
      invariant todo <= providers.Keys
      invariant forall f :: f in findings <==>
                  Justified(stack, f) && !f.NothingConsumed? && f.parameter in providers.Keys - todo
    {
      var p :| p in todo;
      todo := todo - {p};
      CountZero(stack, p, |stack.required|);
      CountMany(stack, p, |stack.required|);
      if providers[p] == 0 {
        findings := findings + [NoProvider(stack.name, p)];
      }
      if providers[p] > 1 {
        findings := findings + [ManyProviders(stack.name, p)];
      }
    }
    todo := provided.Keys;
    ghost var ofParameters := findings;
    while todo != {}
      invariant todo <= provided.Keys
      invariant forall f :: f in findings <==>
                  f in ofParameters || (f.NothingConsumed? && Justified(stack, f) && f.required in provided.Keys - todo)
    {
      var r :| r in todo;
      todo := todo - {r};
      if provided[r] == 0 {
        findings := findings + [NothingConsumed(stack.name, r)];
      }
    }
  }

  /** Collects the findings of every stack. */
  method ValidateConsumedParameters(stacks: seq<Stack>) returns (findings: seq<Finding>)
    ensures forall f :: f in findings <==> exists s :: s in stacks && Justified(s, f)
    ensures findings == [] <==> forall s :: s in stacks ==> Consistent(s)
  {
    findings := [];
    for i := 0 to |stacks|
      invariant forall f :: f in findings <==> exists s :: s in stacks[..i] && Justified(s, f)
    {
      var more := StackFindings(stacks[i]);
      findings := findings + more;
      assert stacks[..i + 1] == stacks[..i] + [stacks[i]];
    }
    assert stacks[..|stacks|] == stacks;
    forall s | s in stacks
      ensures (forall f :: !Justified(s, f)) <==> Consistent(s)
    {
      NoFindingsIffConsistent(s);
    }
    if findings == [] {
      forall s, f | s in stacks
        ensures !Justified(s, f)
      {
        assert f !in findings;
      }
    } else {
      assert findings[0] in findings;
    }
  }

  // The graph of stacks.

  datatype LinkError =
    | DuplicateStack(name: string)
    | RequiredTwice(source: string, target: string)
    | MakesCycle(source: string, target: string)
    | UnknownStack(source: string, target: string)

  datatype Ordering = Ordering(graph: DirectedGraph) | NotOrderable(error: LinkError)

  /** What an error reports is really wrong with the stacks. */
  ghost predicate Blames(stacks: seq<Stack>, error: LinkError) {
    match error
    case DuplicateStack(name) => exists i, j :: 0 <= i < j < |stacks| && stacks[i].name == stacks[j].name == name
    case RequiredTwice(source, target) =>
      exists s, i, j :: s in stacks && s.name == source && 0 <= i < j < |s.required|
                        && RequiredNames(s)[i] == RequiredNames(s)[j] == target
    case MakesCycle(source, target) =>
      && (source, target) in RequireEdges(stacks)
      && Reaches(RequireEdges(stacks), target, source)
    case UnknownStack(source, target) => (source, target) in RequireEdges(stacks) && target !in Names(stacks)
  }

  lemma BlamedIsNotOrderable(stacks: seq<Stack>, error: LinkError)
    requires Blames(stacks, error)
    ensures !Orderable(stacks)
  {
    match error {
      case DuplicateStack(name) =>
        var i, j :| 0 <= i < j < |stacks| && stacks[i].name == stacks[j].name == name;
        assert Names(stacks)[i] == Names(stacks)[j];
      case RequiredTwice(source, target) =>
      case MakesCycle(source, target) =>
        ReachesBack(RequireEdges(stacks), (source, target));
      case UnknownStack(source, target) =>
    }
  }

  /** The part of `Orderable` that the first `n` stacks answer for. */
  ghost predicate LinkedUpTo(stacks: seq<Stack>, n: nat)
    requires n <= |stacks|
  {
    forall i :: 0 <= i < n ==>
      && Distinct(RequiredNames(stacks[i]))
      && forall t :: t in RequiredNames(stacks[i]) ==> t in Names(stacks)
  }

  lemma ClosesCycle(stacks: seq<Stack>, edges: set<Edge>, e: Edge)
    requires edges <= RequireEdges(stacks) && e in RequireEdges(stacks)
    requires Acyclic(edges) && !Acyclic(edges + {e})
    ensures Blames(stacks, MakesCycle(e.0, e.1))
  {
    AddEdgeAcyclic(edges, e);
    ReachesSubset(edges, RequireEdges(stacks), e.1, e.0);
  }

  function LinkErrorOf(reason: EdgeResult, source: string, target: string): LinkError
    requires !reason.Inserted?
  {
    match reason
    case VertexNotFound => UnknownStack(source, target)
    case EdgeAlreadyExists => RequiredTwice(source, target)
    case EdgeCreatesCycle => MakesCycle(source, target)
  }

  /** The graph's reason for refusing an edge blames the stacks. */
  lemma RefusalBlames(stacks: seq<Stack>, i: nat, at: nat, reason: EdgeResult)
    requires i < |stacks| && at < |stacks[i].required| && Distinct(Names(stacks))
    requires Refused(Elements(Names(stacks)), RequireEdges(stacks[..i]), stacks[i].name, RequiredNames(stacks[i]), at, reason)
    ensures Blames(stacks, LinkErrorOf(reason, stacks[i].name, RequiredNames(stacks[i])[at]))
  {
    var src, targets, earlier := stacks[i], RequiredNames(stacks[i]), RequireEdges(stacks[..i]);
    assert src in stacks && targets[at] in targets;
    assert (src.name, targets[at]) in RequireEdges(stacks);
    match reason {
      case VertexNotFound =>
      case EdgeAlreadyExists =>
        EarlierSourcesDiffer(stacks, i, targets[at]);
        var k :| 0 <= k < at && targets[k] == targets[at];
      case EdgeCreatesCycle =>
        ClosesCycle(stacks, earlier + Star(src.name, Elements(targets[..at])), (src.name, targets[at]));
    }
  }

  lemma EarlierSourcesDiffer(stacks: seq<Stack>, i: nat, target: string)
    requires i < |stacks| && Distinct(Names(stacks))
    ensures (stacks[i].name, target) !in RequireEdges(stacks[..i])
  {}

  /** Builds the graph of stacks, edge by edge. It succeeds exactly on stacks that can be ordered. */
  method ValidateNoCycles(stacks: seq<Stack>) returns (r: Ordering)
    ensures r.Ordering? <==> Orderable(stacks)
    ensures r.Ordering? ==> r.graph.Valid() && r.graph.vertices == Elements(Names(stacks)) && r.graph.edges == RequireEdges(stacks)
    ensures r.NotOrderable? ==> Blames(stacks, r.error)
  {
    hide Acyclic, Blames;
    var g := new DirectedGraph();
    var names := Names(stacks);
    var refused := g.AddVertices(names);
    if refused >= 0 {
      DuplicateIsBlamed(stacks, refused);
      BlamedIsNotOrderable(stacks, DuplicateStack(names[refused]));
      return NotOrderable(DuplicateStack(names[refused]));
    }
    assert RequireEdges(stacks[..0]) == {};
    for i := 0 to |stacks|
      invariant g.Valid() && fresh(g) && g.vertices == Elements(names)
      invariant g.edges == RequireEdges(stacks[..i]) && LinkedUpTo(stacks, i)
    {
      var src := stacks[i];
      var targets := RequiredNames(src);
      assert src.name == names[i];
      var reason, at := g.AddEdges(src.name, targets);
      if !reason.Inserted? {
        RefusalBlames(stacks, i, at, reason);
        BlamedIsNotOrderable(stacks, LinkErrorOf(reason, src.name, targets[at]));
        return NotOrderable(LinkErrorOf(reason, src.name, targets[at]));
      }
      assert RequireEdges(stacks[..i + 1]) == RequireEdges(stacks[..i]) + Star(src.name, Elements(targets)) by {
        assert stacks[..i + 1] == stacks[..i] + [src];
      }
    }
    assert stacks[..|stacks|] == stacks;
    return Ordering(g);
  }

  lemma DuplicateIsBlamed(stacks: seq<Stack>, i: nat)
    requires i < |stacks| && Names(stacks)[i] in Names(stacks)[..i]
    ensures Blames(stacks, DuplicateStack(Names(stacks)[i]))
  {}

  datatype Created = Created(registry: Registry) | CyclicStacks(error: LinkError) | InconsistentStacks(findings: seq<Finding>)

  /** Creates the registry. It accepts exactly the stacks that can be ordered and whose consumed
      parameters each have one source; the registry then holds every stack under its name. */
  method New(stacks: seq<Stack>) returns (r: Created)
    ensures r.Created? <==> Orderable(stacks) && forall s :: s in stacks ==> Consistent(s)
    ensures r.Created? ==> WellFormed(r.registry, stacks)
    ensures r.CyclicStacks? ==> Blames(stacks, r.error)
    ensures r.InconsistentStacks? ==> r.findings != [] && forall f :: f in r.findings <==> exists s :: s in stacks && Justified(s, f)
  {
    var ordering := ValidateNoCycles(stacks);
    if ordering.NotOrderable? {
      return CyclicStacks(ordering.error);
    }
    var findings := ValidateConsumedParameters(stacks);
    if findings != [] {
      return InconsistentStacks(findings);
    }
    var registry := Register(stacks);
    return Created(registry);
  }

  method Register(stacks: seq<Stack>) returns (registry: Registry)
    requires Distinct(Names(stacks))
    ensures WellFormed(registry, stacks)
  {
    registry := map[];
    for i := 0 to |stacks|
      invariant WellFormed(registry, stacks[..i])
    {
      assert stacks[..i + 1] == stacks[..i] + [stacks[i]];
      forall k | 0 <= k < i
        ensures stacks[k].name != stacks[i].name
      {
        assert Names(stacks)[k] != Names(stacks)[i];
      }
      registry := registry[stacks[i].name := stacks[i]];
    }
    assert stacks[..|stacks|] == stacks;
  }

  /** The registry holds exactly these stacks, each under its own name. */
  ghost predicate WellFormed(registry: Registry, stacks: seq<Stack>) {
    && (forall s :: s in stacks ==> s.name in registry && registry[s.name] == s)
    && (forall n :: n in registry ==> registry[n] in stacks && registry[n].name == n)
  }
}
