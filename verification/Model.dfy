/** The records the services exchange: stacks, their parameters, and the instances deployed from
    them. Stacks are kept abstract, so no claim depends on a particular registry. */
module Model {

  datatype Option<+T> = None | Some(value: T)

  datatype Result<+T> = Ok(value: T) | Err

  datatype Group = Group(id: nat, name: string, namespace: string)

  datatype InstanceParameter = InstanceParameter(name: string, value: string)

  type Parameters = map<string, InstanceParameter>

  datatype Instance = Instance(
    id: nat,
    name: string,
    groupName: string,
    group: Group,
    stackName: string,
    deploymentId: nat,
    public: bool,
    parameters: Parameters)

  /** A companion check names the stack that a parameter's value calls for, if any. */
  type CompanionCheck = InstanceParameter -> Result<Option<string>>

  type Validator = string -> bool

  /** Computes a value for another stack from the providing instance. */
  type Provider = Instance -> Result<string>

  datatype StackParameter = StackParameter(
    defaultValue: Option<string>,
    consumed: bool,
    validator: Option<Validator>,
    requireCompanion: Option<CompanionCheck>)

  /** A stack. `required` holds copies of the stacks it requires, in declaration order. */
  datatype Stack = Stack(
    name: string,
    parameters: map<string, StackParameter>,
    providers: map<string, Provider>,
    required: seq<Stack>)

  type Registry = map<string, Stack>

  function RequiredNames(stack: Stack): (names: seq<string>)
    ensures |names| == |stack.required|
    ensures forall i :: 0 <= i < |names| ==> names[i] == stack.required[i].name
  {
    seq(|stack.required|, i requires 0 <= i < |stack.required| => stack.required[i].name)
  }

  function StackNames(instances: seq<Instance>): (names: seq<string>)
    ensures |names| == |instances|
    ensures forall i :: 0 <= i < |names| ==> names[i] == instances[i].stackName
  {
    seq(|instances|, i requires 0 <= i < |instances| => instances[i].stackName)
  }

  /** A stack declares the parameter and marks it as consumed. Looking up a parameter that the stack
      does not declare yields one that is not consumed. */
  predicate Consumes(stack: Stack, parameter: string) {
    parameter in stack.parameters && stack.parameters[parameter].consumed
  }

  /** A stack declares the parameter as one of its own. */
  predicate Offers(stack: Stack, parameter: string) {
    parameter in stack.parameters && !stack.parameters[parameter].consumed
  }
}
