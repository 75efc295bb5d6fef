/** What a pass over a deployment's parameters achieves, and that two passes are enough. */
module ResolutionProperties {
  import opened Graphs
  import opened Model
  import opened Stacks
  import opened ParameterResolution

  // What the registry is assumed to look like.

  /** The `q`-th required stack alone carries the name, as a parameter or as a provider. */
  ghost predicate SoleCarrier(stack: Stack, name: string, q: nat) {
    && q < |stack.required|
    && (Offers(stack.required[q], name) || name in stack.required[q].providers)
    && forall i :: 0 <= i < |stack.required| && i != q ==> name !in stack.required[i].parameters && name !in stack.required[i].providers
  }

  /** A required stack that carries a name its dependent consumes is a source of it, rather than
      another consumer. */
  ghost predicate CarriersAreSources(stack: Stack) {
    forall n, i :: 0 <= i < |stack.required| && Consumes(stack, n) && n in stack.required[i].parameters ==>
      Offers(stack.required[i], n) || n in stack.required[i].providers
  }

  /** A stack the registry accepts has a sole carrier for everything it consumes. */
  lemma ConsistentHasSoleCarrier(stack: Stack, name: string) returns (q: nat)
    requires Consistent(stack) && CarriersAreSources(stack) && Consumes(stack, name)
    ensures SoleCarrier(stack, name, q)
  {
    var s :| IsSource(stack, name, s) && forall t :: IsSource(stack, name, t) ==> t == s;
    q := s.index;
    forall i | 0 <= i < |stack.required| && i != q
      ensures name !in stack.required[i].parameters && name !in stack.required[i].providers
    {
      assert !IsSource(stack, name, OwnParameter(i)) && !IsSource(stack, name, FromProvider(i));
    }
  }

  /** Registered under its own name, and every copy in a requirement is the registered stack. */
  ghost predicate Coherent(registry: Registry) {
    forall n :: n in registry ==>
      && registry[n].name == n && n !in RequiredNames(registry[n])
      && forall r :: r in registry[n].required ==> r.name in registry && registry[r.name] == r
  }

  ghost predicate Unambiguous(registry: Registry) {
    forall n, p :: n in registry && Consumes(registry[n], p) ==> exists q :: SoleCarrier(registry[n], p, q)
  }

  /** Parameters that differ at most in the values of what the stack consumes. */
  ghost predicate Alike(a: Parameters, b: Parameters, stack: Stack) {
    a.Keys == b.Keys && forall n :: n in a ==> a[n].name == b[n].name && (!Consumes(stack, n) ==> a[n] == b[n])
  }

  /** A provider does not read the values that its own stack consumes; it may read all others. */
  ghost predicate ReadsNoConsumed(provider: Provider, stack: Stack) {
    forall x: Instance, ps: Parameters :: Alike(x.parameters, ps, stack) ==> provider(x.(parameters := ps)) == provider(x)
  }

  ghost predicate ProvidersReadNoConsumed(registry: Registry) {
    forall n, p :: n in registry && p in registry[n].providers ==> ReadsNoConsumed(registry[n].providers[p], registry[n])
  }

  /** A provider reads the instance but none of its parameters, as all registered ones do. */
  ghost predicate ParameterFree(provider: Provider) {
    forall x: Instance, ps: Parameters :: provider(x.(parameters := ps)) == provider(x)
  }

  ghost predicate ParameterFreeProviders(registry: Registry) {
    forall n, p :: n in registry && p in registry[n].providers ==> ParameterFree(registry[n].providers[p])
  }

  lemma SameAnswer(provider: Provider, stack: Stack, a: Instance, b: Instance, group: Group)
    requires ParameterFree(provider) || (ReadsNoConsumed(provider, stack) && Alike(a.parameters, b.parameters, stack))
    requires b == a.(parameters := b.parameters)
    ensures provider(b.(group := group)) == provider(a.(group := group))
  {
    assert b.(group := group) == a.(group := group).(parameters := b.parameters);
  }

  // One pass.

  /** What one pass does to one instance, whatever it consumes: it has exactly the parameters of its
      stack, those it does not consume are as the user gave them or else the default, and names
      stay. */
  ghost predicate Completed(before: Instance, after: Instance, registry: Registry) {
    && before.stackName in registry
    && var stack := registry[before.stackName];
       && before.parameters.Keys <= stack.parameters.Keys
       && after == before.(parameters := after.parameters)
       && after.parameters.Keys == stack.parameters.Keys
       && forall n :: n in stack.parameters ==>
            && after.parameters[n].name == WithDefaults(before.parameters, stack)[n].name
            && (!Consumes(stack, n) ==> after.parameters[n] == WithDefaults(before.parameters, stack)[n])
  }

  /** Completing an instance that has all parameters changes only what it consumes. */
  lemma CompletedAgain(before: Instance, after: Instance, registry: Registry)
    requires Completed(before, after, registry) && before.parameters.Keys == registry[before.stackName].parameters.Keys
    ensures Alike(before.parameters, after.parameters, registry[before.stackName])
  {}

  lemma ResolveOneCompletes(instances: seq<Instance>, k: nat, registry: Registry)
    requires k < |instances| && ResolveOne(instances, k, registry).Ok?
    ensures Completed(instances[k], ResolveOne(instances, k, registry).value, registry)
  {}

  lemma {:induction false} ResolveFromCompletes(instances: seq<Instance>, k: nat, registry: Registry)
    requires k <= |instances| && ResolveFrom(instances, k, registry).Ok?
    ensures var r := ResolveFrom(instances, k, registry).value;
            && |r| == |instances|
            && (forall i :: 0 <= i < k ==> r[i] == instances[i])
            && (forall i :: k <= i < |instances| ==> Completed(instances[i], r[i], registry))
    decreases |instances| - k
  {
    if k < |instances| {
      ResolveOneCompletes(instances, k, registry);
      ResolveFromCompletes(instances[k := ResolveOne(instances, k, registry).value], k + 1, registry);
    }
  }

  /** After a successful pass every instance has exactly its stack's parameters, and what it does not
      consume is what the user gave, or the stack's default. */
  lemma ResolveCompletes(instances: seq<Instance>, registry: Registry)
    requires Resolve(instances, registry).Ok?
    ensures var r := Resolve(instances, registry).value;
            && |r| == |instances|
            && forall i :: 0 <= i < |instances| ==> Completed(instances[i], r[i], registry)
  {
    ResolveFromCompletes(instances, 0, registry);
  }

  // What is consumed.

  /** Instances hold no parameter that their stack does not declare. */
  ghost predicate Declared(instances: seq<Instance>, registry: Registry) {
    forall i :: 0 <= i < |instances| ==>
      instances[i].stackName in registry && instances[i].parameters.Keys <= registry[instances[i].stackName].parameters.Keys
  }

  ghost predicate AllPresent(instances: seq<Instance>, required: seq<Stack>) {
    forall r :: r in required ==> IndexOf(instances, r.name) < |instances|
  }

  /** Consulting stacks that do not carry the name changes nothing, but needs them to be there. */
  lemma {:induction false} NoCarrierKeepsValue(instances: seq<Instance>, consumer: Instance, name: string, required: seq<Stack>, value: string, registry: Registry)
    requires Declared(instances, registry)
    requires forall r :: r in required ==> r.name in registry && registry[r.name] == r && name !in r.parameters && name !in r.providers
    ensures ConsumedValue(instances, consumer, name, required, value) == if AllPresent(instances, required) then Ok(value) else Err
    decreases |required|
  {
    if required != [] {
      assert required[0] in required && forall r :: r in required <==> r == required[0] || r in required[1..];
      NoCarrierKeepsValue(instances, consumer, name, required[1..], value, registry);
    }
  }

  lemma PresentInTurn(instances: seq<Instance>, required: seq<Stack>)
    requires required != []
    ensures AllPresent(instances, required) <==> IndexOf(instances, required[0].name) < |instances| && AllPresent(instances, required[1..])
  {
    assert forall r :: r in required <==> r == required[0] || r in required[1..];
  }

  lemma ConsultedInTurn(instances: seq<Instance>, consumer: Instance, name: string, required: seq<Stack>, value: string)
    requires required != []
    ensures FromRequired(instances, consumer, name, required[0], value).Err? && name !in required[0].providers ==>
              IndexOf(instances, required[0].name) == |instances|
    ensures IndexOf(instances, required[0].name) == |instances| ==> FromRequired(instances, consumer, name, required[0], value).Err?
  {}

  /** With a sole carrier, what is consumed is what that carrier gives. */
  lemma {:induction false} SoleCarrierDecides(instances: seq<Instance>, consumer: Instance, name: string, required: seq<Stack>, value: string, q: nat, registry: Registry)
    requires Declared(instances, registry) && q < |required|
    requires forall r :: r in required ==> r.name in registry && registry[r.name] == r
    requires forall i :: 0 <= i < |required| && i != q ==> name !in required[i].parameters && name !in required[i].providers
    ensures ConsumedValue(instances, consumer, name, required, value)
         == if AllPresent(instances, required) then FromRequired(instances, consumer, name, required[q], value) else Err
    decreases |required|
  {
    var next := FromRequired(instances, consumer, name, required[0], value);
    var rest := required[1..];
    assert required[0] in required && forall r :: r in rest ==> r in required;
    PresentInTurn(instances, required);
    ConsultedInTurn(instances, consumer, name, required, value);
    if q == 0 {
      forall r | r in rest
        ensures name !in r.parameters && name !in r.providers
      {
        var i :| 0 <= i < |rest| && rest[i] == r;
        assert required[i + 1] == r;
      }
      hide IndexOf, AllPresent, FromRequired;
      if next.Ok? {
        NoCarrierKeepsValue(instances, consumer, name, rest, next.value, registry);
      }
    } else {
      assert next.Ok? ==> next.value == value;
      hide IndexOf, AllPresent, FromRequired;
      if next.Ok? {
        SoleCarrierDecides(instances, consumer, name, rest, value, q - 1, registry);
      }
    }
  }

  /** All required stacks have an instance, and the value equals what its one source holds: the
      source's parameter, or its provider's answer. */
  ghost predicate MatchesSource(instances: seq<Instance>, i: nat, name: string, stack: Stack, q: nat)
    requires i < |instances| && q < |stack.required|
  {
    var carrier := stack.required[q];
    var at := IndexOf(instances, carrier.name);
    && name in instances[i].parameters && AllPresent(instances, stack.required) && at < |instances|
    && if name in carrier.providers
       then carrier.providers[name](instances[at].(group := instances[i].group)) == Ok(instances[i].parameters[name].value)
       else name in instances[at].parameters && instances[i].parameters[name].value == instances[at].parameters[name].value
  }

  /** What the source gives is settled when the `i`-th instance is reached in a pass that has come to the
      `k`-th. A parameter must be there already, or its instance comes earlier and will be completed. A
      provider is asked earlier, or reads no parameters, or finds all that it reads. */
  ghost predicate SourceReady(instances: seq<Instance>, k: nat, i: nat, name: string, carrier: Stack) {
    var at := IndexOf(instances, carrier.name);
    if name in carrier.providers then
      || at < i || ParameterFree(carrier.providers[name])
      || (at < |instances| && ReadsNoConsumed(carrier.providers[name], carrier) && instances[at].parameters.Keys == carrier.parameters.Keys)
    else
      at < |instances| && (name in instances[at].parameters || k <= at < i)
  }

  lemma {:induction false} ConsumesFromSource(instances: seq<Instance>, k: nat, i: nat, name: string, q: nat, registry: Registry)
    requires k <= i < |instances| && ResolveFrom(instances, k, registry).Ok?
    requires Coherent(registry) && Declared(instances, registry)
    requires Consumes(registry[instances[i].stackName], name) && SoleCarrier(registry[instances[i].stackName], name, q)
    requires SourceReady(instances, k, i, name, registry[instances[i].stackName].required[q])
    ensures var r := ResolveFrom(instances, k, registry).value;
            |r| == |instances| && MatchesSource(r, i, name, registry[instances[i].stackName], q)
    decreases i - k
  {
    var x := ResolveOne(instances, k, registry).value;
    if k < i {
      StepKeepsReady(instances, k, i, name, registry[instances[i].stackName].required[q], registry);
      hide Declared, SourceReady, MatchesSource, ResolveOne;
      ConsumesFromSource(instances[k := x], k + 1, i, name, q, registry);
    } else {
      ConsumesFromSourceNow(instances, k, name, q, registry);
    }
  }

  lemma StepKeepsReady(instances: seq<Instance>, k: nat, i: nat, name: string, carrier: Stack, registry: Registry)
    requires k < i < |instances| && ResolveOne(instances, k, registry).Ok?
    requires Declared(instances, registry) && carrier.name in registry && registry[carrier.name] == carrier
    requires name in carrier.parameters || name in carrier.providers
    requires SourceReady(instances, k, i, name, carrier)
    ensures var next := instances[k := ResolveOne(instances, k, registry).value];
            Declared(next, registry) && SourceReady(next, k + 1, i, name, carrier)
  {
    var next := instances[k := ResolveOne(instances, k, registry).value];
    ResolveOneCompletes(instances, k, registry);
    hide ResolveOne;
    IndexOfSameNames(instances, next, carrier.name);
  }

  lemma AllPresentSameNames(a: seq<Instance>, b: seq<Instance>, required: seq<Stack>)
    requires |a| == |b| && forall i :: 0 <= i < |a| ==> a[i].stackName == b[i].stackName
    ensures AllPresent(a, required) == AllPresent(b, required)
  {}

  lemma ConsumesFromSourceNow(instances: seq<Instance>, k: nat, name: string, q: nat, registry: Registry)
    requires k < |instances| && ResolveFrom(instances, k, registry).Ok?
    requires Coherent(registry) && Declared(instances, registry)
    requires Consumes(registry[instances[k].stackName], name) && SoleCarrier(registry[instances[k].stackName], name, q)
    requires SourceReady(instances, k, k, name, registry[instances[k].stackName].required[q])
    ensures var r := ResolveFrom(instances, k, registry).value;
            |r| == |instances| && MatchesSource(r, k, name, registry[instances[k].stackName], q)
  {
    var x := ResolveOne(instances, k, registry).value;
    ConsumedNow(instances, k, name, q, registry);
    ResolveFromCompletes(instances, k, registry);
    ResolveFromCompletes(instances[k := x], k + 1, registry);
    hide ResolveOne, IndexOf, FromRequired, SourceReady, MatchesSource, AllPresent, SoleCarrier, Declared, Coherent;
    LaterTurnsKeepMatch(instances, ResolveFrom(instances, k, registry).value, k, name, q, registry);
  }

  /** What was consumed keeps matching its source while the rest of the deployment is completed. */
  lemma LaterTurnsKeepMatch(instances: seq<Instance>, r: seq<Instance>, k: nat, name: string, q: nat, registry: Registry)
    requires k < |instances| == |r| && Coherent(registry) && Declared(instances, registry)
    requires forall i :: 0 <= i < |instances| ==> r[i] == instances[i] || (k <= i && Completed(instances[i], r[i], registry))
    requires name in r[k].parameters && r[k].group == instances[k].group
    requires var stack := registry[instances[k].stackName];
             && SoleCarrier(stack, name, q) && AllPresent(instances, stack.required)
             && SourceReady(instances, k, k, name, stack.required[q])
             && forall v :: FromRequired(instances, r[k], name, stack.required[q], v) == Ok(r[k].parameters[name].value)
    ensures MatchesSource(r, k, name, registry[instances[k].stackName], q)
  {
    hide IndexOf, ParameterFree, ReadsNoConsumed, Alike;
    var stack := registry[instances[k].stackName];
    var carrier := stack.required[q];
    assert carrier in stack.required;
    AllPresentSameNames(instances, r, stack.required);
    IndexOfSameNames(instances, r, carrier.name);
    var at := IndexOf(instances, carrier.name);
    assert RequiredNames(stack)[q] == carrier.name;
    assert r[at] == instances[at].(parameters := r[at].parameters);
    assert FromRequired(instances, r[k], name, carrier, "") == Ok(r[k].parameters[name].value);
    if name !in carrier.providers {
      assert r[at].parameters[name] == instances[at].parameters[name];
    } else if r[at] != instances[at] {
      if !ParameterFree(carrier.providers[name]) {
        CompletedAgain(instances[at], r[at], registry);
      }
      SameAnswer(carrier.providers[name], carrier, instances[at], r[at], r[k].group);
    }
  }

  /** What the instance in turn consumes is what the sole carrier gives at that moment. */
  lemma ConsumedNow(instances: seq<Instance>, k: nat, name: string, q: nat, registry: Registry)
    requires k < |instances| && ResolveOne(instances, k, registry).Ok?
    requires Coherent(registry) && Declared(instances, registry)
    requires Consumes(registry[instances[k].stackName], name) && SoleCarrier(registry[instances[k].stackName], name, q)
    ensures var stack := registry[instances[k].stackName];
            var complete := instances[k].(parameters := WithDefaults(instances[k].parameters, stack));
            && AllPresent(instances, stack.required)
            && name in complete.parameters && name in ResolveOne(instances, k, registry).value.parameters
            && FromRequired(instances, complete, name, stack.required[q], complete.parameters[name].value)
            == Ok(ResolveOne(instances, k, registry).value.parameters[name].value)
            && (SourceReady(instances, k, k, name, stack.required[q]) ==>
                  forall v :: FromRequired(instances, ResolveOne(instances, k, registry).value, name, stack.required[q], v)
                           == Ok(ResolveOne(instances, k, registry).value.parameters[name].value))
  {
    var stack := registry[instances[k].stackName];
    var complete := instances[k].(parameters := WithDefaults(instances[k].parameters, stack));
    assert name in complete.parameters;
    assert ConsumedParameter(instances, complete, name, stack).Ok?;
    SoleCarrierDecides(instances, complete, name, stack.required, complete.parameters[name].value, q, registry);
  }

  /** After a successful pass a consumed value equals that of its single source, provided the source
      was complete when its turn came. */
  lemma ResolvedMatchesSource(instances: seq<Instance>, i: nat, name: string, q: nat, registry: Registry)
    requires i < |instances| && Resolve(instances, registry).Ok? && Coherent(registry)
    requires instances[i].stackName in registry
    requires Consumes(registry[instances[i].stackName], name) && SoleCarrier(registry[instances[i].stackName], name, q)
    requires SourceReady(instances, 0, i, name, registry[instances[i].stackName].required[q])
    ensures var r := Resolve(instances, registry).value;
            |r| == |instances| && MatchesSource(r, i, name, registry[instances[i].stackName], q)
  {
    ResolveCompletes(instances, registry);
    ConsumesFromSource(instances, 0, i, name, q, registry);
  }

  /** The last instance consumes what its sources hold, whatever providers read: they all come earlier. */
  lemma LastMatchesSource(instances: seq<Instance>, last: nat, name: string, q: nat, registry: Registry)
    requires |instances| == last + 1 && Resolve(instances, registry).Ok? && Coherent(registry) && instances[last].stackName in registry
    requires Consumes(registry[instances[last].stackName], name) && SoleCarrier(registry[instances[last].stackName], name, q)
    ensures var r := Resolve(instances, registry).value;
            |r| == |instances| && MatchesSource(r, last, name, registry[instances[last].stackName], q)
  {
    LastSourceIsReady(instances, last, name, q, registry);
    hide *;
    ResolvedMatchesSource(instances, last, name, q, registry);
  }

  lemma LastSourceIsReady(instances: seq<Instance>, last: nat, name: string, q: nat, registry: Registry)
    requires |instances| == last + 1 && Resolve(instances, registry).Ok? && Coherent(registry) && instances[last].stackName in registry
    requires Consumes(registry[instances[last].stackName], name) && SoleCarrier(registry[instances[last].stackName], name, q)
    ensures q < |registry[instances[last].stackName].required|
    ensures SourceReady(instances, 0, last, name, registry[instances[last].stackName].required[q])
  {
    var stack := registry[instances[last].stackName];
    assert stack.required[q] in stack.required && RequiredNames(stack)[q] == stack.required[q].name;
    ResolveCompletes(instances, registry);
    SourcesWerePresent(instances, 0, last, name, q, registry);
    hide Resolve, ParameterFree, ReadsNoConsumed;
  }

  // Two passes.

  /** The instance has exactly its stack's parameters, and every consumed value matches its source. */
  ghost predicate SettledAt(instances: seq<Instance>, registry: Registry, i: nat)
    requires i < |instances|
  {
    && instances[i].stackName in registry
    && var stack := registry[instances[i].stackName];
       && instances[i].parameters.Keys == stack.parameters.Keys
       && forall n, q: nat :: Consumes(stack, n) && SoleCarrier(stack, n, q) ==> MatchesSource(instances, i, n, stack, q)
  }

  ghost predicate Settled(instances: seq<Instance>, registry: Registry) {
    forall i :: 0 <= i < |instances| ==> SettledAt(instances, registry, i)
  }

  ghost predicate ExactParameters(instances: seq<Instance>, registry: Registry) {
    forall i :: 0 <= i < |instances| ==>
      instances[i].stackName in registry && instances[i].parameters.Keys == registry[instances[i].stackName].parameters.Keys
  }

  lemma SecondPassSettles(instances: seq<Instance>, registry: Registry)
    requires ExactParameters(instances, registry) && Resolve(instances, registry).Ok?
    requires Coherent(registry) && ProvidersReadNoConsumed(registry)
    ensures Settled(Resolve(instances, registry).value, registry)
  {
    var r := Resolve(instances, registry).value;
    ResolveCompletes(instances, registry);
    hide ReadsNoConsumed, SourceReady;
    forall i, n, q: nat | 0 <= i < |r| && Consumes(registry[r[i].stackName], n) && SoleCarrier(registry[r[i].stackName], n, q)
      ensures MatchesSource(r, i, n, registry[r[i].stackName], q)
    {
      ExactSourceReady(instances, i, n, q, registry);
      ResolvedMatchesSource(instances, i, n, q, registry);
    }
  }

  /** Once all parameters are there, every source is ready from the start. */
  lemma ExactSourceReady(instances: seq<Instance>, i: nat, name: string, q: nat, registry: Registry)
    requires ExactParameters(instances, registry) && Coherent(registry) && ProvidersReadNoConsumed(registry)
    requires i < |instances| && Resolve(instances, registry).Ok?
    requires Consumes(registry[instances[i].stackName], name) && SoleCarrier(registry[instances[i].stackName], name, q)
    ensures SourceReady(instances, 0, i, name, registry[instances[i].stackName].required[q])
  {
    var carrier := registry[instances[i].stackName].required[q];
    assert carrier in registry[instances[i].stackName].required;
    hide ReadsNoConsumed;
    SourcesWerePresent(instances, 0, i, name, q, registry);
  }

  lemma {:induction false} SourcesWerePresent(instances: seq<Instance>, k: nat, i: nat, name: string, q: nat, registry: Registry)
    requires k <= i < |instances| && ResolveFrom(instances, k, registry).Ok?
    requires Coherent(registry) && Declared(instances, registry)
    requires Consumes(registry[instances[i].stackName], name) && SoleCarrier(registry[instances[i].stackName], name, q)
    ensures AllPresent(instances, registry[instances[i].stackName].required)
    decreases i - k
  {
    ResolveOneCompletes(instances, k, registry);
    if k < i {
      var next := instances[k := ResolveOne(instances, k, registry).value];
      SourcesWerePresent(next, k + 1, i, name, q, registry);
      AllPresentSameNames(instances, next, registry[instances[i].stackName].required);
    } else {
      ConsumedNow(instances, k, name, q, registry);
    }
  }

  // What one pass brings.

  /** A consumer whose source offers the parameter but does not hold it yet keeps its own value. */
  lemma {:induction false} UnreadyKeepsOwn(instances: seq<Instance>, k: nat, i: nat, name: string, q: nat, registry: Registry)
    requires k <= i < |instances| && ResolveFrom(instances, k, registry).Ok?
    requires Coherent(registry) && Declared(instances, registry)
    requires Consumes(registry[instances[i].stackName], name) && SoleCarrier(registry[instances[i].stackName], name, q)
    requires var carrier := registry[instances[i].stackName].required[q];
             name !in carrier.providers && !SourceReady(instances, k, i, name, carrier) && k <= IndexOf(instances, carrier.name)
    ensures var r := ResolveFrom(instances, k, registry).value;
            && |r| == |instances| && name in r[i].parameters
            && r[i].parameters[name].value == WithDefaults(instances[i].parameters, registry[instances[i].stackName])[name].value
    decreases i - k
  {
    if k < i {
      var next := instances[k := ResolveOne(instances, k, registry).value];
      StepKeepsUnready(instances, k, i, name, registry[instances[i].stackName].required[q], registry);
      hide ResolveOne, IndexOf, Completed, SourceReady, Declared;
      UnreadyKeepsOwn(next, k + 1, i, name, q, registry);
    } else {
      UnreadyKeepsOwnNow(instances, k, name, q, registry);
    }
  }

  lemma StepKeepsUnready(instances: seq<Instance>, k: nat, i: nat, name: string, carrier: Stack, registry: Registry)
    requires k < i < |instances| && ResolveOne(instances, k, registry).Ok? && Declared(instances, registry)
    requires name !in carrier.providers && !SourceReady(instances, k, i, name, carrier) && k <= IndexOf(instances, carrier.name)
    ensures var next := instances[k := ResolveOne(instances, k, registry).value];
            Declared(next, registry) && !SourceReady(next, k + 1, i, name, carrier) && k + 1 <= IndexOf(next, carrier.name)
  {
    var next := instances[k := ResolveOne(instances, k, registry).value];
    ResolveOneCompletes(instances, k, registry);
    hide ResolveOne;
    IndexOfSameNames(instances, next, carrier.name);
  }

  lemma UnreadyKeepsOwnNow(instances: seq<Instance>, k: nat, name: string, q: nat, registry: Registry)
    requires k < |instances| && ResolveFrom(instances, k, registry).Ok?
    requires Coherent(registry) && Declared(instances, registry)
    requires Consumes(registry[instances[k].stackName], name) && SoleCarrier(registry[instances[k].stackName], name, q)
    requires var carrier := registry[instances[k].stackName].required[q];
             name !in carrier.providers && !SourceReady(instances, k, k, name, carrier)
    ensures var r := ResolveFrom(instances, k, registry).value;
            && |r| == |instances| && name in r[k].parameters
            && r[k].parameters[name].value == WithDefaults(instances[k].parameters, registry[instances[k].stackName])[name].value
  {
    ConsumedNow(instances, k, name, q, registry);
    ResolveFromCompletes(instances[k := ResolveOne(instances, k, registry).value], k + 1, registry);
    hide ResolveOne, IndexOf, Completed, Coherent, Declared;
  }

  /** After one pass a consumed value equals the parameter of its single source if and only if the
      source held the parameter in time, or the consumer's own value is by chance the source's default. */
  lemma OnePassMatchesIff(instances: seq<Instance>, i: nat, name: string, q: nat, registry: Registry)
    requires i < |instances| && Resolve(instances, registry).Ok? && Coherent(registry)
    requires instances[i].stackName in registry
    requires Consumes(registry[instances[i].stackName], name) && SoleCarrier(registry[instances[i].stackName], name, q)
    requires name !in registry[instances[i].stackName].required[q].providers
    ensures var stack, r := registry[instances[i].stackName], Resolve(instances, registry).value;
            var carrier := stack.required[q];
            && |r| == |instances|
            && (MatchesSource(r, i, name, stack, q) <==>
                  || SourceReady(instances, 0, i, name, carrier)
                  || WithDefaults(instances[i].parameters, stack)[name].value == DefaultParameter(carrier, name).value)
  {
    var stack, r := registry[instances[i].stackName], Resolve(instances, registry).value;
    var carrier := stack.required[q];
    ResolveCompletes(instances, registry);
    if SourceReady(instances, 0, i, name, carrier) {
      ResolvedMatchesSource(instances, i, name, q, registry);
    } else {
      assert carrier in stack.required;
      UnreadyKeepsOwn(instances, 0, i, name, q, registry);
      SourcesWerePresent(instances, 0, i, name, q, registry);
      AllPresentSameNames(instances, r, stack.required);
      IndexOfSameNames(instances, r, carrier.name);
      UnreadyEndsWithDefault(instances, r, i, name, carrier, registry);
    }
  }

  lemma UnreadyEndsWithDefault(instances: seq<Instance>, r: seq<Instance>, i: nat, name: string, carrier: Stack, registry: Registry)
    requires |r| == |instances| && Offers(carrier, name) && carrier.name in registry && registry[carrier.name] == carrier
    requires forall j :: 0 <= j < |instances| ==> Completed(instances[j], r[j], registry)
    requires name !in carrier.providers && !SourceReady(instances, 0, i, name, carrier) && IndexOf(instances, carrier.name) < |instances|
    ensures var at := IndexOf(instances, carrier.name);
            name in r[at].parameters && r[at].parameters[name] == DefaultParameter(carrier, name)
  {}

  /** The turn of a settled instance changes nothing; it fails only if a validator rejects a value. */
  lemma SettledStep(instances: seq<Instance>, k: nat, registry: Registry)
    requires k < |instances| && Declared(instances, registry) && SettledAt(instances, registry, k) && Coherent(registry) && Unambiguous(registry)
    ensures ResolveOne(instances, k, registry)
         == if AllPassValidators(instances[k].parameters, registry[instances[k].stackName]) then Ok(instances[k]) else Err
  {
    var x, stack := instances[k], registry[instances[k].stackName];
    assert WithDefaults(x.parameters, stack) == x.parameters;
    forall n | n in x.parameters
      ensures ConsumedParameter(instances, x, n, stack) == Ok(x.parameters[n])
    {
      if Consumes(stack, n) {
        var q :| SoleCarrier(stack, n, q);
        assert MatchesSource(instances, k, n, stack, q);
        SoleCarrierDecides(instances, x, n, stack.required, x.parameters[n].value, q, registry);
      }
    }
    assert CanConsume(instances, x, stack);
    assert Consumed(instances, x, stack) == x.parameters;
  }

  ghost predicate AllValid(instances: seq<Instance>, registry: Registry, from: nat) {
    forall i :: from <= i < |instances| ==>
      instances[i].stackName in registry && AllPassValidators(instances[i].parameters, registry[instances[i].stackName])
  }

  lemma SettledIsDeclared(instances: seq<Instance>, registry: Registry)
    requires Settled(instances, registry)
    ensures Declared(instances, registry)
  {
    forall i | 0 <= i < |instances|
      ensures instances[i].stackName in registry && instances[i].parameters.Keys == registry[instances[i].stackName].parameters.Keys
    {
      assert SettledAt(instances, registry, i);
    }
  }

  lemma {:induction false} SettledIsFixpoint(instances: seq<Instance>, k: nat, registry: Registry)
    requires k <= |instances| && Settled(instances, registry) && Coherent(registry) && Unambiguous(registry)
    ensures ResolveFrom(instances, k, registry) == if AllValid(instances, registry, k) then Ok(instances) else Err
    decreases |instances| - k
  {
    if k < |instances| {
      SettledIsDeclared(instances, registry);
      SettledStep(instances, k, registry);
      hide ResolveOne, AllPassValidators;
      assert instances[k := instances[k]] == instances;
      SettledIsFixpoint(instances, k + 1, registry);
    }
  }

  // When a second pass succeeds.

  /** The required stack can be consulted for the name: it has an instance, and its provider of the
      name, if there is one, answers. */
  ghost predicate Consultable(instances: seq<Instance>, consumer: Instance, name: string, required: Stack) {
    var at := IndexOf(instances, required.name);
    at < |instances| && (name in required.providers ==> required.providers[name](instances[at].(group := consumer.group)).Ok?)
  }

  lemma {:induction false} ConsumedIfConsultable(instances: seq<Instance>, consumer: Instance, name: string, required: seq<Stack>, value: string)
    ensures ConsumedValue(instances, consumer, name, required, value).Ok? <==> forall r :: r in required ==> Consultable(instances, consumer, name, r)
    decreases |required|
  {
    if required != [] {
      var next := FromRequired(instances, consumer, name, required[0], value);
      assert next.Ok? <==> Consultable(instances, consumer, name, required[0]);
      assert forall r :: r in required <==> r == required[0] || r in required[1..];
      if next.Ok? {
        hide Consultable, FromRequired;
        ConsumedIfConsultable(instances, consumer, name, required[1..], next.value);
      }
    }
  }

  /** Everything the instance consumes can be consulted. */
  ghost predicate ConsultsAll(instances: seq<Instance>, i: nat, registry: Registry)
    requires i < |instances|
  {
    instances[i].stackName in registry
    && forall n, r :: Consumes(registry[instances[i].stackName], n) && r in registry[instances[i].stackName].required ==>
         Consultable(instances, instances[i], n, r)
  }

  /** The providers of two deployments answer alike. */
  ghost predicate SameAnswers(a: seq<Instance>, b: seq<Instance>, registry: Registry) {
    && |a| == |b|
    && forall i :: 0 <= i < |a| ==>
         && a[i].stackName == b[i].stackName && a[i].group == b[i].group
         && forall p, g :: a[i].stackName in registry && p in registry[a[i].stackName].providers ==>
              registry[a[i].stackName].providers[p](a[i].(group := g)) == registry[a[i].stackName].providers[p](b[i].(group := g))
  }

  lemma SameAnswersIfFree(a: seq<Instance>, b: seq<Instance>, registry: Registry)
    requires SameIdentities(a, b) && ParameterFreeProviders(registry)
    ensures SameAnswers(a, b, registry)
  {
    hide ParameterFree;
    forall i, p, g | 0 <= i < |a| && a[i].stackName in registry && p in registry[a[i].stackName].providers
      ensures registry[a[i].stackName].providers[p](a[i].(group := g)) == registry[a[i].stackName].providers[p](b[i].(group := g))
    {
      SameAnswer(registry[a[i].stackName].providers[p], registry[a[i].stackName], a[i], b[i], g);
    }
  }

  lemma SameAnswersIfAlike(a: seq<Instance>, b: seq<Instance>, registry: Registry)
    requires SameIdentities(a, b) && ProvidersReadNoConsumed(registry)
    requires forall i :: 0 <= i < |a| ==> a[i].stackName in registry && Alike(a[i].parameters, b[i].parameters, registry[a[i].stackName])
    ensures SameAnswers(a, b, registry)
  {
    hide ReadsNoConsumed, Alike;
    forall i, p, g | 0 <= i < |a| && p in registry[a[i].stackName].providers
      ensures registry[a[i].stackName].providers[p](a[i].(group := g)) == registry[a[i].stackName].providers[p](b[i].(group := g))
    {
      SameAnswer(registry[a[i].stackName].providers[p], registry[a[i].stackName], a[i], b[i], g);
    }
  }

  lemma ConsultsSame(a: seq<Instance>, b: seq<Instance>, i: nat, registry: Registry)
    requires SameAnswers(a, b, registry) && i < |a| && Coherent(registry)
    ensures ConsultsAll(a, i, registry) <==> ConsultsAll(b, i, registry)
  {
    if a[i].stackName in registry {
      var stack := registry[a[i].stackName];
      forall n, r | Consumes(stack, n) && r in stack.required
        ensures Consultable(a, a[i], n, r) <==> Consultable(b, b[i], n, r)
      {
        IndexOfSameNames(a, b, r.name);
      }
    }
  }

  /** The value that the validator of a parameter sees: what the user gave, or else the stack's default,
      or else nothing. */
  function SuppliedValue(x: Instance, stack: Stack, name: string): string
    requires name in stack.parameters
  {
    if name in x.parameters then x.parameters[name].value
    else match stack.parameters[name].defaultValue case Some(value) => value case None => ""
  }

  ghost predicate ValidatorsAccept(x: Instance, stack: Stack) {
    forall n, v :: n in stack.parameters && stack.parameters[n].validator == Some(v) ==> v(SuppliedValue(x, stack, n))
  }

  lemma AllPassIff(x: Instance, stack: Stack)
    requires x.parameters.Keys <= stack.parameters.Keys
    ensures AllPassValidators(WithDefaults(x.parameters, stack), stack) <==> ValidatorsAccept(x, stack)
  {
    var given := WithDefaults(x.parameters, stack);
    forall n | n in stack.parameters
      ensures n in given && given[n].value == SuppliedValue(x, stack, n)
    {}
    if AllPassValidators(given, stack) {
      forall n, v | n in stack.parameters && stack.parameters[n].validator == Some(v)
        ensures v(SuppliedValue(x, stack, n))
      {
        assert PassesValidator(stack, n, given[n].value);
      }
    }
    if ValidatorsAccept(x, stack) {
      forall n | n in given
        ensures PassesValidator(stack, n, given[n].value)
      {}
    }
  }

  /** An instance's turn succeeds exactly if its parameters are its stack's, validators accept them
      and everything that it consumes can be consulted. */
  lemma TurnSucceeds(instances: seq<Instance>, k: nat, registry: Registry)
    requires k < |instances|
    ensures ResolveOne(instances, k, registry).Ok? <==>
              && instances[k].stackName in registry
              && var stack := registry[instances[k].stackName];
                 && instances[k].parameters.Keys <= stack.parameters.Keys
                 && AllPassValidators(WithDefaults(instances[k].parameters, stack), stack)
                 && ConsultsAll(instances, k, registry)
  {
    var x := instances[k];
    if x.stackName in registry && x.parameters.Keys <= registry[x.stackName].parameters.Keys {
      var stack := registry[x.stackName];
      var complete := x.(parameters := WithDefaults(x.parameters, stack));
      hide ConsumedValue, Consultable;
      forall n | Consumes(stack, n)
        ensures n in complete.parameters
        ensures ConsumedParameter(instances, complete, n, stack).Ok? <==> forall r :: r in stack.required ==> Consultable(instances, x, n, r)
      {
        ConsumedIfConsultable(instances, complete, n, stack.required, complete.parameters[n].value);
        ConsultableByGroup(instances, complete, x, n, stack.required);
      }
    }
  }

  /** A pass succeeds only if every validator accepts the value that was given, or the default. */
  lemma {:induction false} PassValidates(instances: seq<Instance>, k: nat, i: nat, registry: Registry)
    requires k <= i < |instances| && ResolveFrom(instances, k, registry).Ok?
    ensures instances[i].stackName in registry && instances[i].parameters.Keys <= registry[instances[i].stackName].parameters.Keys
    ensures ValidatorsAccept(instances[i], registry[instances[i].stackName])
    decreases i - k
  {
    TurnSucceeds(instances, k, registry);
    AllPassIff(instances[k], registry[instances[k].stackName]);
    hide ResolveOne, ValidatorsAccept, AllPassValidators;
    if k < i {
      PassValidates(instances[k := ResolveOne(instances, k, registry).value], k + 1, i, registry);
    }
  }

  /** If everything that an instance consumes can be consulted, the validators decide. */
  lemma ValidatorsDecide(instances: seq<Instance>, k: nat, registry: Registry)
    requires k < |instances| && instances[k].stackName in registry && ConsultsAll(instances, k, registry)
    requires instances[k].parameters.Keys <= registry[instances[k].stackName].parameters.Keys
    ensures ResolveOne(instances, k, registry).Ok? <==> ValidatorsAccept(instances[k], registry[instances[k].stackName])
  {
    TurnSucceeds(instances, k, registry);
    AllPassIff(instances[k], registry[instances[k].stackName]);
    hide *;
  }

  lemma ConsultableByGroup(instances: seq<Instance>, a: Instance, b: Instance, name: string, required: seq<Stack>)
    requires a.group == b.group
    ensures forall r :: r in required ==> (Consultable(instances, a, name, r) <==> Consultable(instances, b, name, r))
  {}

  /** From some instance on, everything that is consumed can be consulted. */
  ghost predicate AllConsult(instances: seq<Instance>, registry: Registry, from: nat) {
    forall i :: from <= i < |instances| ==> ConsultsAll(instances, i, registry)
  }

  /** If no provider reads parameters, a pass that succeeds has consulted everything that is consumed. */
  lemma {:induction false} PassConsults(instances: seq<Instance>, k: nat, registry: Registry)
    requires k <= |instances| && ResolveFrom(instances, k, registry).Ok? && Coherent(registry) && ParameterFreeProviders(registry)
    ensures AllConsult(instances, registry, k)
    decreases |instances| - k
  {
    if k < |instances| {
      TurnSucceeds(instances, k, registry);
      ResolveOneCompletes(instances, k, registry);
      hide ConsultsAll, ResolveOne, ParameterFreeProviders;
      var next := instances[k := ResolveOne(instances, k, registry).value];
      PassConsults(next, k + 1, registry);
      SameAnswersIfFree(instances, next, registry);
      forall i | k < i < |instances|
        ensures ConsultsAll(instances, i, registry)
      {
        ConsultsSame(instances, next, i, registry);
      }
    }
  }

  /** Once all parameters are there, a pass succeeds exactly if the validators accept them and everything
      that is consumed can be consulted. */
  lemma {:induction false} PassSucceeds(instances: seq<Instance>, k: nat, registry: Registry)
    requires k <= |instances| && ExactParameters(instances, registry) && Coherent(registry) && ProvidersReadNoConsumed(registry)
    ensures ResolveFrom(instances, k, registry).Ok? <==> AllValid(instances, registry, k) && AllConsult(instances, registry, k)
    decreases |instances| - k
  {
    if k < |instances| {
      var turn := ResolveOne(instances, k, registry);
      assert ResolveFrom(instances, k, registry).Ok? <==> turn.Ok? && ResolveFrom(instances[k := turn.value], k + 1, registry).Ok?;
      ExactTurnSucceeds(instances, k, registry);
      FromNextOn(instances, k, registry);
      hide *;
      if turn.Ok? {
        TurnKeepsRest(instances, k, registry);
        PassSucceeds(instances[k := turn.value], k + 1, registry);
      }
    }
  }

  lemma ExactTurnSucceeds(instances: seq<Instance>, k: nat, registry: Registry)
    requires k < |instances| && ExactParameters(instances, registry)
    ensures instances[k].stackName in registry
    ensures ResolveOne(instances, k, registry).Ok? <==>
              AllPassValidators(instances[k].parameters, registry[instances[k].stackName]) && ConsultsAll(instances, k, registry)
  {
    TurnSucceeds(instances, k, registry);
    assert WithDefaults(instances[k].parameters, registry[instances[k].stackName]) == instances[k].parameters;
    hide ConsultsAll, ResolveOne, AllPassValidators;
  }

  lemma FromNextOn(instances: seq<Instance>, k: nat, registry: Registry)
    requires k < |instances| && instances[k].stackName in registry
    ensures AllValid(instances, registry, k) <==>
              AllPassValidators(instances[k].parameters, registry[instances[k].stackName]) && AllValid(instances, registry, k + 1)
    ensures AllConsult(instances, registry, k) <==> ConsultsAll(instances, k, registry) && AllConsult(instances, registry, k + 1)
  {
    hide ConsultsAll, AllPassValidators;
    assert AllValid(instances, registry, k) ==> AllPassValidators(instances[k].parameters, registry[instances[k].stackName]);
  }

  lemma TurnKeepsRest(instances: seq<Instance>, k: nat, registry: Registry)
    requires k < |instances| && ExactParameters(instances, registry) && Coherent(registry) && ProvidersReadNoConsumed(registry)
    requires ResolveOne(instances, k, registry).Ok?
    ensures var next := instances[k := ResolveOne(instances, k, registry).value];
            && ExactParameters(next, registry)
            && (AllValid(next, registry, k + 1) <==> AllValid(instances, registry, k + 1))
            && (AllConsult(next, registry, k + 1) <==> AllConsult(instances, registry, k + 1))
  {
    var next := instances[k := ResolveOne(instances, k, registry).value];
    TurnKeepsAnswers(instances, k, registry);
    hide ConsultsAll, ResolveOne, AllPassValidators, ProvidersReadNoConsumed, SameAnswers;
    assert forall i :: k < i < |next| ==> next[i] == instances[i];
    forall i | k < i < |next|
      ensures ConsultsAll(instances, i, registry) <==> ConsultsAll(next, i, registry)
    {
      ConsultsSame(instances, next, i, registry);
    }
  }

  lemma TurnKeepsAnswers(instances: seq<Instance>, k: nat, registry: Registry)
    requires k < |instances| && ExactParameters(instances, registry) && ProvidersReadNoConsumed(registry)
    requires ResolveOne(instances, k, registry).Ok?
    ensures var next := instances[k := ResolveOne(instances, k, registry).value];
            ExactParameters(next, registry) && SameAnswers(instances, next, registry)
  {
    var next := instances[k := ResolveOne(instances, k, registry).value];
    ResolveOneCompletes(instances, k, registry);
    hide ResolveOne, ProvidersReadNoConsumed;
    CompletedAgain(instances[k], next[k], registry);
    SameAnswersIfAlike(instances, next, registry);
  }

  /** After a pass that succeeds, a second one succeeds exactly if the validators accept what the first
      one left and everything that is consumed can be consulted. The latter is certain if no provider
      reads parameters. */
  lemma SecondPassSucceeds(instances: seq<Instance>, registry: Registry)
    requires Coherent(registry) && ProvidersReadNoConsumed(registry) && Resolve(instances, registry).Ok?
    ensures var once := Resolve(instances, registry).value;
            && (Resolve(once, registry).Ok? <==> AllValid(once, registry, 0) && AllConsult(once, registry, 0))
            && (ParameterFreeProviders(registry) ==> AllConsult(once, registry, 0))
  {
    var once := Resolve(instances, registry).value;
    ResolveCompletes(instances, registry);
    hide ConsultsAll, Resolve, AllPassValidators, SameAnswers, ParameterFreeProviders, ProvidersReadNoConsumed;
    PassSucceeds(once, 0, registry);
    if ParameterFreeProviders(registry) {
      PassConsults(instances, 0, registry);
      SameAnswersIfFree(instances, once, registry);
      forall i | 0 <= i < |once|
        ensures ConsultsAll(once, i, registry)
      {
        ConsultsSame(instances, once, i, registry);
      }
    }
  }

  /** Two passes reach a fixpoint, whatever order the instances come in, if no provider reads values that
      its own stack consumes. The second succeeds unless a validator rejects what the first one left or
      a provider fails on it; a third changes nothing, and fails only if a validator rejects what the
      second one left. */
  lemma TwoPassesAreEnough(instances: seq<Instance>, registry: Registry)
    requires Coherent(registry) && Unambiguous(registry) && ProvidersReadNoConsumed(registry)
    requires Resolve(instances, registry).Ok?
    ensures var once := Resolve(instances, registry).value;
            && (Resolve(once, registry).Ok? <==> AllValid(once, registry, 0) && AllConsult(once, registry, 0))
            && (ParameterFreeProviders(registry) ==> AllConsult(once, registry, 0))
            && (Resolve(once, registry).Ok? ==>
                  var twice := Resolve(once, registry).value;
                  && Settled(twice, registry)
                  && Resolve(twice, registry) == if AllValid(twice, registry, 0) then Ok(twice) else Err)
  {
    var once := Resolve(instances, registry).value;
    ResolveCompletes(instances, registry);
    SecondPassSucceeds(instances, registry);
    if Resolve(once, registry).Ok? {
      SecondPassSettles(once, registry);
      SettledIsFixpoint(Resolve(once, registry).value, 0, registry);
    }
  }

  lemma NoneRequiresItself(stacks: seq<Stack>, s: Stack)
    requires Acyclic(RequireEdges(stacks)) && s in stacks
    ensures s.name !in RequiredNames(s)
  {
    hide Acyclic, Reaches;
    ReachesSelf(RequireEdges(stacks), s.name);
    if s.name in RequiredNames(s) {
      ReachesBack(RequireEdges(stacks), (s.name, s.name));
    }
  }

  /** The assumptions above hold of every registry that is created, provided each copy in a
      requirement is the registered stack and no required stack merely consumes the same name. */
  lemma CreatedRegistryIsSound(stacks: seq<Stack>, registry: Registry)
    requires WellFormed(registry, stacks) && Orderable(stacks) && forall s :: s in stacks ==> Consistent(s)
    requires forall s, r :: s in stacks && r in s.required ==> r.name in registry && registry[r.name] == r
    requires forall s, r, n :: s in stacks && r in s.required && Consumes(s, n) && Consumes(r, n) ==> n in r.providers
    ensures Coherent(registry) && Unambiguous(registry)
  {
    forall s | s in stacks
      ensures CarriersAreSources(s)
    {
      assert forall i :: 0 <= i < |s.required| ==> s.required[i] in s.required;
    }
    hide Consistent, CarriersAreSources;
    forall n | n in registry
      ensures n !in RequiredNames(registry[n])
    {
      NoneRequiresItself(stacks, registry[n]);
    }
    forall n, p | n in registry && Consumes(registry[n], p)
      ensures exists q :: SoleCarrier(registry[n], p, q)
    {
      assert registry[n] in stacks;
      var q := ConsistentHasSoleCarrier(registry[n], p);
    }
  }
}
