/** Completing the parameters of a deployment's instances: defaults, validation, and the values that
    one stack consumes from another. */
module ParameterResolution {
  import opened Graphs
  import opened Model
  import opened Stacks

  // One instance.

  function DefaultParameter(stack: Stack, name: string): InstanceParameter
    requires name in stack.parameters
  {
    match stack.parameters[name].defaultValue
    case Some(value) => InstanceParameter(name, value)
    case None => InstanceParameter(name, "")
  }

  function WithDefaults(parameters: Parameters, stack: Stack): Parameters {
    map n | n in parameters.Keys + stack.parameters.Keys :: if n in parameters then parameters[n] else DefaultParameter(stack, n)
  }

  predicate PassesValidator(stack: Stack, name: string, value: string) {
    name in stack.parameters && stack.parameters[name].validator.Some? ==> stack.parameters[name].validator.value(value)
  }

  predicate AllPassValidators(parameters: Parameters, stack: Stack) {
    forall n :: n in parameters ==> PassesValidator(stack, n, parameters[n].value)
  }

  /** The position of the first instance of a stack, or the number of instances. */
  function IndexOf(instances: seq<Instance>, stackName: string): (i: nat)
    ensures i <= |instances|
    ensures i < |instances| ==> instances[i].stackName == stackName
    ensures forall k :: 0 <= k < i ==> instances[k].stackName != stackName
  {
    if instances == [] then 0
    else if instances[0].stackName == stackName then 0
    else 1 + IndexOf(instances[1..], stackName)
  }

  /** The value after consulting one required stack: first the parameter of its instance, then its
      provider, which overrides it. */
  function FromRequired(instances: seq<Instance>, consumer: Instance, name: string, required: Stack, value: string): Result<string> {
    var at := IndexOf(instances, required.name);
    if at == |instances| then Err
    else
      var source := instances[at];
      if name in required.providers then required.providers[name](source.(group := consumer.group))
      else if name in source.parameters then Ok(source.parameters[name].value)
      else Ok(value)
  }

  /** The value after consulting all required stacks in turn. */
  function ConsumedValue(instances: seq<Instance>, consumer: Instance, name: string, required: seq<Stack>, value: string): Result<string> {
    if required == [] then Ok(value)
    else
      match FromRequired(instances, consumer, name, required[0], value)
      case Err => Err
      case Ok(next) => ConsumedValue(instances, consumer, name, required[1..], next)
  }

  function ConsumedParameter(instances: seq<Instance>, consumer: Instance, name: string, stack: Stack): Result<InstanceParameter>
    requires name in consumer.parameters
  {
    var p := consumer.parameters[name];
    if !Consumes(stack, name) then Ok(p)
    else
      match ConsumedValue(instances, consumer, name, stack.required, p.value)
      case Err => Err
      case Ok(value) => Ok(p.(value := value))
  }

  predicate CanConsume(instances: seq<Instance>, consumer: Instance, stack: Stack) {
    forall n :: n in consumer.parameters ==> ConsumedParameter(instances, consumer, n, stack).Ok?
  }

  function Consumed(instances: seq<Instance>, consumer: Instance, stack: Stack): Parameters
    requires CanConsume(instances, consumer, stack)
  {
    map n | n in consumer.parameters :: ConsumedParameter(instances, consumer, n, stack).value
  }

  /** One instance after one pass. */
  function ResolveOne(instances: seq<Instance>, k: nat, registry: Registry): Result<Instance>
    requires k < |instances|
  {
    var x := instances[k];
    if x.stackName !in registry then Err
    else
      var stack := registry[x.stackName];
      if !(x.parameters.Keys <= stack.parameters.Keys) then Err
      else
        var complete := x.(parameters := WithDefaults(x.parameters, stack));
        if !AllPassValidators(complete.parameters, stack) || !CanConsume(instances, complete, stack) then Err
        else Ok(complete.(parameters := Consumed(instances, complete, stack)))
  }

  /** A pass over the instances from the `k`-th on; later instances see what earlier ones became. */
  function ResolveFrom(instances: seq<Instance>, k: nat, registry: Registry): Result<seq<Instance>>
    requires k <= |instances|
    decreases |instances| - k
  {
    if k == |instances| then Ok(instances)
    else
      match ResolveOne(instances, k, registry)
      case Err => Err
      case Ok(x) => ResolveFrom(instances[k := x], k + 1, registry)
  }

  function Resolve(instances: seq<Instance>, registry: Registry): Result<seq<Instance>> {
    ResolveFrom(instances, 0, registry)
  }

  // The deployment that is resolved in place.

  function WithParameters(instances: seq<Instance>, k: nat, parameters: Parameters): (r: seq<Instance>)
    requires k < |instances|
    ensures |r| == |instances| && r[k] == instances[k].(parameters := parameters)
    ensures forall i :: 0 <= i < |instances| && i != k ==> r[i] == instances[i]
    ensures SameIdentities(instances, r)
  {
    instances[k := instances[k].(parameters := parameters)]
  }

  lemma WithParametersAgain(instances: seq<Instance>, k: nat, a: Parameters, b: Parameters)
    requires k < |instances|
    ensures WithParameters(WithParameters(instances, k, a), k, b) == WithParameters(instances, k, b)
    ensures WithParameters(instances, k, instances[k].parameters) == instances
  {}

  /** No instance's stack requires itself, which the cycle check excludes. */
  ghost predicate NoSelfRequirement(instances: seq<Instance>, registry: Registry) {
    forall x :: x in instances && x.stackName in registry ==> x.stackName !in RequiredNames(registry[x.stackName])
  }

  ghost predicate SameIdentities(before: seq<Instance>, after: seq<Instance>) {
    |before| == |after| && forall i :: 0 <= i < |before| ==> after[i] == before[i].(parameters := after[i].parameters)
  }

  lemma {:induction false} IndexOfSameNames(a: seq<Instance>, b: seq<Instance>, name: string)
    requires |a| == |b| && forall i :: 0 <= i < |a| ==> a[i].stackName == b[i].stackName
    ensures IndexOf(a, name) == IndexOf(b, name)
    decreases |a|
  {}

  /** Changing the consumer's own parameters changes nothing for what it consumes from others. */
  lemma {:induction false} ConsumedValueIgnoresSelf(instances: seq<Instance>, changed: seq<Instance>, k: nat, a: Instance, b: Instance,
                                                    name: string, required: seq<Stack>, value: string)
    requires k < |instances| && |changed| == |instances| && changed == instances[k := changed[k]]
    requires changed[k].stackName == instances[k].stackName && a.group == b.group
    requires forall r :: r in required ==> r.name != instances[k].stackName
    ensures ConsumedValue(instances, a, name, required, value) == ConsumedValue(changed, b, name, required, value)
    decreases |required|
  {
    if required != [] {
      IndexOfSameNames(instances, changed, required[0].name);
      assert required[0] in required;
      var next := FromRequired(instances, a, name, required[0], value);
      if next.Ok? {
        ConsumedValueIgnoresSelf(instances, changed, k, a, b, name, required[1..], next.value);
      }
    }
  }

  class Deployment {
    var instances: seq<Instance>

    constructor (instances: seq<Instance>)
      ensures this.instances == instances
    {
      this.instances := instances;
    }

    /** Fills in what the user left out. */
    method AddDefaultParameterValues(k: nat, stack: Stack)
      requires k < |instances|
      modifies this
      ensures instances == old(instances)[k := old(instances)[k].(parameters := WithDefaults(old(instances)[k].parameters, stack))]
    {
      ghost var given := instances[k].parameters;
      var todo := stack.parameters.Keys;
      while todo != {}
        invariant todo <= stack.parameters.Keys && |instances| == |old(instances)|
        invariant instances == old(instances)[k := old(instances)[k].(parameters := instances[k].parameters)]
        invariant instances[k].parameters ==
                  map n | n in given.Keys + (stack.parameters.Keys - todo) :: if n in given then given[n] else DefaultParameter(stack, n)
      {
        var name :| name in todo;
        todo := todo - {name};
        if name !in instances[k].parameters {
          var parameters := instances[k].parameters[name := DefaultParameter(stack, name)];
          instances := instances[k := instances[k].(parameters := parameters)];
        }
      }
      assert stack.parameters.Keys - todo == stack.parameters.Keys;
    }

    method ValidateParameters(k: nat, stack: Stack) returns (ok: bool)
      requires k < |instances|
      ensures ok <==> AllPassValidators(instances[k].parameters, stack)
    {
      ok := true;
      var todo := instances[k].parameters.Keys;
      while todo != {}
        invariant todo <= instances[k].parameters.Keys
        invariant ok <==> forall n :: n in instances[k].parameters.Keys - todo ==> PassesValidator(stack, n, instances[k].parameters[n].value)
      {
        var name :| name in todo;
        todo := todo - {name};
        if name in stack.parameters && stack.parameters[name].validator.Some? {
          if !stack.parameters[name].validator.value(instances[k].parameters[name].value) {
            ok := false;
          }
        }
      }
    }

    /** Consults the required stacks for one parameter of the `k`-th instance, storing the value
        after each. */
    method ConsumeOne(k: nat, stack: Stack, name: string) returns (ok: bool)
      requires k < |instances| && name in instances[k].parameters && Consumes(stack, name)
      requires instances[k].stackName !in RequiredNames(stack)
      modifies this
      ensures ok <==> ConsumedParameter(old(instances), old(instances)[k], name, stack).Ok?
      ensures SameIdentities(old(instances), instances)
      ensures ok ==>
                var p := ConsumedParameter(old(instances), old(instances)[k], name, stack).value;
                instances == WithParameters(old(instances), k, old(instances)[k].parameters[name := p])
    {
      hide IndexOf;
      ghost var before, given := instances, instances[k].parameters;
      var parameter := instances[k].parameters[name];
      ghost var start := parameter;
      assert given[name := parameter] == given;
      WithParametersAgain(before, k, given, given);
      for i := 0 to |stack.required|
        invariant |instances| == |before| && instances == WithParameters(before, k, given[name := parameter])
        invariant parameter == start.(value := parameter.value)
        invariant ConsumedValue(before, before[k], name, stack.required, start.value)
               == ConsumedValue(before, before[k], name, stack.required[i..], parameter.value)
      {
        var required := stack.required[i];
        assert RequiredNames(stack)[i] == required.name;
        assert stack.required[i..][0] == required && stack.required[i..][1..] == stack.required[i + 1..];
        IndexOfSameNames(before, instances, required.name);
        var at := IndexOf(instances, required.name);
        if at == |instances| {
          return false;
        }
        var source := instances[at];
        assert source == before[at];
        ghost var next := FromRequired(before, before[k], name, required, parameter.value);
        if name in source.parameters {
          parameter := parameter.(value := source.parameters[name].value);
        }
        if name in required.providers {
          var provided := required.providers[name](source.(group := instances[k].group));
          if provided.Err? {
            return false;
          }
          parameter := parameter.(value := provided.value);
        }
        assert next == Ok(parameter.value);
        assert instances[k].parameters[name := parameter] == given[name := parameter];
        WithParametersAgain(before, k, instances[k].parameters, given[name := parameter]);
        instances := WithParameters(instances, k, instances[k].parameters[name := parameter]);
      }
      return true;
    }

    /** Resolves every consumed parameter of the `k`-th instance, in whatever order the map yields
        them. */
    method ResolveConsumedParameters(k: nat, stack: Stack) returns (ok: bool)
      requires k < |instances| && instances[k].stackName !in RequiredNames(stack)
      modifies this
      ensures SameIdentities(old(instances), instances)
      ensures ok <==> CanConsume(old(instances), old(instances)[k], stack)
      ensures ok ==> instances == WithParameters(old(instances), k, Consumed(old(instances), old(instances)[k], stack))
    {
      hide ConsumedValue, IndexOf;
      ghost var before, given := instances, instances[k].parameters;
      var todo := instances[k].parameters.Keys;
      WithParametersAgain(before, k, given, given);
      while todo != {}
        invariant todo <= given.Keys
        invariant forall n :: n in given && n !in todo ==> ConsumedParameter(before, before[k], n, stack).Ok?
        invariant |instances| == |before| && instances[k].parameters.Keys == given.Keys
        invariant instances == WithParameters(before, k, instances[k].parameters)
        invariant forall n :: n in given ==>
                    instances[k].parameters[n] == if n in todo then given[n] else ConsumedParameter(before, before[k], n, stack).value
      {
        var name :| name in todo;
        todo := todo - {name};
        if !Consumes(stack, name) {
          continue;
        }
        ghost var current := instances;
        ConsumedIgnoresSelf(before, current, k, name, stack);
        ok := ConsumeOne(k, stack, name);
        if !ok {
          return;
        }
      }
      assert instances[k].parameters == Consumed(before, before[k], stack);
      return true;
    }

    /** One pass over the deployment. It succeeds exactly when the specification does, and leaves
        the instances as the specification says. */
    method ResolveParameters(registry: Registry) returns (ok: bool)
      requires NoSelfRequirement(instances, registry)
      modifies this
      ensures SameIdentities(old(instances), instances)
      ensures ok <==> Resolve(old(instances), registry).Ok?
      ensures ok ==> instances == Resolve(old(instances), registry).value
    {
      hide ConsumedValue, IndexOf, AllPassValidators, CanConsume;
      ghost var before := instances;
      for k := 0 to |instances|
        invariant SameIdentities(before, instances)
        invariant Resolve(before, registry) == ResolveFrom(instances, k, registry)
      {
        ghost var current := instances;
        assert before[k] in before;
        if instances[k].stackName !in registry {
          return false;
        }
        var stack := registry[instances[k].stackName];
        if !(instances[k].parameters.Keys <= stack.parameters.Keys) {
          return false;
        }
        AddDefaultParameterValues(k, stack);
        var valid := ValidateParameters(k, stack);
        if !valid {
          return false;
        }
        DefaultsChangeNoSource(current, k, stack);
        ok := ResolveConsumedParameters(k, stack);
        if !ok {
          return;
        }
        assert instances == current[k := instances[k]];
        assert ResolveOne(current, k, registry) == Ok(instances[k]);
      }
      return true;
    }
  }

  lemma ConsumedIgnoresSelf(instances: seq<Instance>, changed: seq<Instance>, k: nat, name: string, stack: Stack)
    requires k < |instances| && |changed| == |instances| && changed == WithParameters(instances, k, changed[k].parameters)
    requires instances[k].stackName !in RequiredNames(stack)
    requires name in instances[k].parameters && name in changed[k].parameters
    requires changed[k].parameters[name] == instances[k].parameters[name]
    ensures ConsumedParameter(changed, changed[k], name, stack) == ConsumedParameter(instances, instances[k], name, stack)
  {
    forall r | r in stack.required
      ensures r.name != instances[k].stackName
    {
      var i :| 0 <= i < |stack.required| && stack.required[i] == r;
      assert RequiredNames(stack)[i] == r.name;
    }
    ConsumedValueIgnoresSelf(instances, changed, k, instances[k], changed[k], name, stack.required, instances[k].parameters[name].value);
  }

  /** Whether the consumer's defaults are already stored makes no difference to what it consumes. */
  lemma DefaultsChangeNoSource(instances: seq<Instance>, k: nat, stack: Stack)
    requires k < |instances| && instances[k].stackName !in RequiredNames(stack)
    ensures var complete := instances[k].(parameters := WithDefaults(instances[k].parameters, stack));
            var stored := instances[k := complete];
            && CanConsume(instances, complete, stack) == CanConsume(stored, complete, stack)
            && (CanConsume(instances, complete, stack) ==> Consumed(instances, complete, stack) == Consumed(stored, complete, stack))
  {
    var complete := instances[k].(parameters := WithDefaults(instances[k].parameters, stack));
    var stored := instances[k := complete];
    forall r | r in stack.required
      ensures r.name != instances[k].stackName
    {
      var i :| 0 <= i < |stack.required| && stack.required[i] == r;
      assert RequiredNames(stack)[i] == r.name;
    }
    forall n | n in complete.parameters
      ensures ConsumedParameter(instances, complete, n, stack) == ConsumedParameter(stored, complete, n, stack)
    {
      ConsumedValueIgnoresSelf(instances, stored, k, complete, complete, n, stack.required, complete.parameters[n].value);
    }
  }
}
