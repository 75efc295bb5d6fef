/** The graph of a deployment's instances: which instance needs which stack, in what order they are
    deployed, and in what order they are destroyed. */
module InstanceGraphs {
  import opened Graphs
  import opened Model

  // What an instance needs.

  /** The companion check of the stack parameter that an instance parameter names. */
  function CheckCompanion(stack: Stack, parameter: InstanceParameter): Result<Option<string>> {
    if parameter.name !in stack.parameters then Ok(None)
    else
      match stack.parameters[parameter.name].requireCompanion
      case None => Ok(None)
      case Some(check) => check(parameter)
  }

  /** The parameter stored under `key` calls for the stack `companion`. */
  ghost predicate Demands(stack: Stack, instance: Instance, key: string, companion: string) {
    key in instance.parameters && CheckCompanion(stack, instance.parameters[key]) == Ok(Some(companion))
  }

  ghost function Companions(stack: Stack, instance: Instance, keys: set<string>): (r: set<string>)
    ensures forall c :: c in r <==> exists k :: k in keys && Demands(stack, instance, k, c)
  {
    set k | k in keys && k in instance.parameters
            && CheckCompanion(stack, instance.parameters[k]).Ok? && CheckCompanion(stack, instance.parameters[k]).value.Some?
      :: CheckCompanion(stack, instance.parameters[k]).value.value
  }

  /** Every stack the instance requires and every companion its parameters demand. */
  ghost function Needs(stack: Stack, instance: Instance): set<string> {
    Companions(stack, instance, instance.parameters.Keys) + Elements(RequiredNames(stack))
  }

  ghost function NeedEdges(instances: seq<Instance>, registry: Registry): (edges: set<Edge>)
    ensures forall e :: e in edges <==>
              exists x :: x in instances && x.stackName == e.0 && x.stackName in registry && e.1 in Needs(registry[x.stackName], x)
  {
    set x, t | x in instances && x.stackName in registry && t in Needs(registry[x.stackName], x) :: (x.stackName, t)
  }

  /** The instance needs `target` for more than one reason. */
  ghost predicate NeedsTwice(stack: Stack, instance: Instance, target: string) {
    || (exists i, j :: 0 <= i < j < |stack.required| && RequiredNames(stack)[i] == RequiredNames(stack)[j] == target)
    || (target in RequiredNames(stack) && exists k :: Demands(stack, instance, k, target))
    || (exists k, l :: k != l && Demands(stack, instance, k, target) && Demands(stack, instance, l, target))
  }

  ghost predicate ChecksPass(stack: Stack, instance: Instance) {
    forall k :: k in instance.parameters ==> CheckCompanion(stack, instance.parameters[k]).Ok?
  }

  ghost predicate Acceptable(instance: Instance, registry: Registry, present: set<string>) {
    && instance.stackName in registry
    && ChecksPass(registry[instance.stackName], instance)
    && (forall t :: !NeedsTwice(registry[instance.stackName], instance, t))
    && Needs(registry[instance.stackName], instance) <= present
  }

  /** The instances form a valid deployment: one instance a stack, every stack registered, no
      companion check failing, nothing needed twice, everything needed present, and no cycle. */
  ghost predicate Accepts(instances: seq<Instance>, registry: Registry) {
    && Distinct(StackNames(instances))
    && (forall x :: x in instances ==> Acceptable(x, registry, Elements(StackNames(instances))))
    && Acyclic(NeedEdges(instances, registry))
  }

  /** The verdict does not depend on the order of the instances. */
  lemma AcceptsAnyOrder(instances: seq<Instance>, shuffled: seq<Instance>, registry: Registry)
    requires multiset(instances) == multiset(shuffled)
    ensures Accepts(instances, registry) <==> Accepts(shuffled, registry)
    ensures NeedEdges(instances, registry) == NeedEdges(shuffled, registry)
  {
    SameElements(instances, shuffled);
    assert NeedEdges(instances, registry) == NeedEdges(shuffled, registry);
    SameStackNames(instances, shuffled);
    SameStackNames(shuffled, instances);
    assert Elements(StackNames(instances)) == Elements(StackNames(shuffled));
    CardinalityDistinct(StackNames(instances));
    CardinalityDistinct(StackNames(shuffled));
    assert |instances| == |multiset(instances)| == |shuffled|;
  }

  lemma SameElements<T>(a: seq<T>, b: seq<T>)
    requires multiset(a) == multiset(b)
    ensures forall x :: x in a <==> x in b
  {
    forall x
      ensures x in a <==> x in b
    {
      assert x in a <==> x in multiset(a);
      assert x in b <==> x in multiset(b);
    }
  }

  lemma SameStackNames(a: seq<Instance>, b: seq<Instance>)
    requires forall x :: x in a ==> x in b
    ensures Elements(StackNames(a)) <= Elements(StackNames(b))
  {
    forall n | n in StackNames(a)
      ensures n in StackNames(b)
    {
      var i :| 0 <= i < |a| && StackNames(a)[i] == n;
      assert a[i] in b;
      var j :| 0 <= j < |b| && b[j] == a[i];
      assert StackNames(b)[j] == n;
    }
  }

  // The same, spelled out.

  /** Why a stack is needed: it is among the requirements, or the check of the parameter stored under
      a key calls for it. */
  datatype Reason = Requirement(index: nat) | Companion(key: string)

  ghost predicate NeededFor(stack: Stack, instance: Instance, reason: Reason, target: string) {
    match reason
    case Requirement(i) => i < |stack.required| && stack.required[i].name == target
    case Companion(k) => HasCheck(stack, instance, k) && CheckOf(stack, instance, k)(instance.parameters[k]) == Ok(Some(target))
  }

  ghost predicate HasCheck(stack: Stack, instance: Instance, key: string) {
    && key in instance.parameters && instance.parameters[key].name in stack.parameters
    && stack.parameters[instance.parameters[key].name].requireCompanion.Some?
  }

  ghost function CheckOf(stack: Stack, instance: Instance, key: string): CompanionCheck
    requires HasCheck(stack, instance, key)
  {
    stack.parameters[instance.parameters[key].name].requireCompanion.value
  }

  ghost predicate ChecksSucceed(stack: Stack, instance: Instance) {
    forall k :: HasCheck(stack, instance, k) ==> CheckOf(stack, instance, k)(instance.parameters[k]).Ok?
  }

  ghost predicate OneReasonEach(stack: Stack, instance: Instance) {
    forall a, b, t :: NeededFor(stack, instance, a, t) && NeededFor(stack, instance, b, t) ==> a == b
  }

  ghost predicate NeedsMet(stack: Stack, instance: Instance, instances: seq<Instance>) {
    forall a, t :: NeededFor(stack, instance, a, t) ==> exists y :: y in instances && y.stackName == t
  }

  /** The instances can be deployed: their stacks are registered and differ, no check fails, whatever
      an instance needs is there and needed for one reason only, and the stacks can be ranked so that
      each ranks above what it needs. */
  ghost predicate Deployable(instances: seq<Instance>, registry: Registry) {
    && (forall i, j :: 0 <= i < j < |instances| ==> instances[i].stackName != instances[j].stackName)
    && (forall x :: x in instances ==>
          && x.stackName in registry
          && ChecksSucceed(registry[x.stackName], x) && OneReasonEach(registry[x.stackName], x) && NeedsMet(registry[x.stackName], x, instances))
    && exists rank: string -> nat :: RanksNeeds(instances, registry, rank)
  }

  ghost predicate RanksNeeds(instances: seq<Instance>, registry: Registry, rank: string -> nat) {
    forall x, a, t :: x in instances && x.stackName in registry && NeededFor(registry[x.stackName], x, a, t) ==> rank(t) < rank(x.stackName)
  }

  lemma DemandIsReason(stack: Stack, instance: Instance, key: string, target: string)
    ensures Demands(stack, instance, key, target) <==> NeededFor(stack, instance, Companion(key), target)
  {}

  lemma NeedHasReason(stack: Stack, instance: Instance, target: string)
    ensures target in Needs(stack, instance) <==> exists reason :: NeededFor(stack, instance, reason, target)
  {
    if target in RequiredNames(stack) {
      var i :| 0 <= i < |stack.required| && RequiredNames(stack)[i] == target;
      assert NeededFor(stack, instance, Requirement(i), target);
    } else if target in Needs(stack, instance) {
      var k :| Demands(stack, instance, k, target);
      DemandIsReason(stack, instance, k, target);
    }
    if reason :| NeededFor(stack, instance, reason, target) {
      match reason {
        case Requirement(i) => assert RequiredNames(stack)[i] == target;
        case Companion(k) => DemandIsReason(stack, instance, k, target);
      }
    }
  }

  lemma NeededTwiceHasTwoReasons(stack: Stack, instance: Instance, target: string)
    ensures NeedsTwice(stack, instance, target) <==>
              exists a, b :: a != b && NeededFor(stack, instance, a, target) && NeededFor(stack, instance, b, target)
  {
    hide Demands;
    forall k
      ensures Demands(stack, instance, k, target) <==> NeededFor(stack, instance, Companion(k), target)
    {
      DemandIsReason(stack, instance, k, target);
    }
    forall i: nat
      ensures i < |stack.required| && RequiredNames(stack)[i] == target <==> NeededFor(stack, instance, Requirement(i), target)
    {}
    if i, j :| 0 <= i < j < |stack.required| && RequiredNames(stack)[i] == RequiredNames(stack)[j] == target {
      assert NeededFor(stack, instance, Requirement(i), target) && NeededFor(stack, instance, Requirement(j), target);
    }
    if k :| target in RequiredNames(stack) && Demands(stack, instance, k, target) {
      var i :| 0 <= i < |stack.required| && RequiredNames(stack)[i] == target;
      assert NeededFor(stack, instance, Requirement(i), target) && NeededFor(stack, instance, Companion(k), target);
    }
    if k, l :| k != l && Demands(stack, instance, k, target) && Demands(stack, instance, l, target) {
      assert NeededFor(stack, instance, Companion(k), target) && NeededFor(stack, instance, Companion(l), target);
    }
    if a, b :| a != b && NeededFor(stack, instance, a, target) && NeededFor(stack, instance, b, target) {
      ReasonsMakeTwice(stack, instance, a, b, target);
    }
  }

  lemma ReasonsMakeTwice(stack: Stack, instance: Instance, a: Reason, b: Reason, target: string)
    requires a != b && NeededFor(stack, instance, a, target) && NeededFor(stack, instance, b, target)
    ensures NeedsTwice(stack, instance, target)
  {
    match (a, b) {
      case (Requirement(i), Requirement(j)) =>
        assert RequiredNames(stack)[i] == RequiredNames(stack)[j] == target;
      case (Requirement(i), Companion(k)) =>
        assert RequiredNames(stack)[i] == target;
        DemandIsReason(stack, instance, k, target);
      case (Companion(k), Requirement(i)) =>
        assert RequiredNames(stack)[i] == target;
        DemandIsReason(stack, instance, k, target);
      case (Companion(k), Companion(l)) =>
        DemandIsReason(stack, instance, k, target);
        DemandIsReason(stack, instance, l, target);
    }
  }

  lemma PresentByName(instances: seq<Instance>, name: string)
    ensures name in Elements(StackNames(instances)) <==> exists y :: y in instances && y.stackName == name
  {
    if name in StackNames(instances) {
      var i :| 0 <= i < |instances| && StackNames(instances)[i] == name;
      assert instances[i] in instances;
    }
    if y :| y in instances && y.stackName == name {
      var i :| 0 <= i < |instances| && instances[i] == y;
      assert StackNames(instances)[i] == name;
    }
  }

  lemma ChecksPassIff(stack: Stack, instance: Instance)
    ensures ChecksPass(stack, instance) <==> ChecksSucceed(stack, instance)
  {
    if ChecksPass(stack, instance) {
      forall k | HasCheck(stack, instance, k)
        ensures CheckOf(stack, instance, k)(instance.parameters[k]).Ok?
      {
        assert CheckCompanion(stack, instance.parameters[k]).Ok?;
      }
    }
    if ChecksSucceed(stack, instance) {
      forall k | k in instance.parameters
        ensures CheckCompanion(stack, instance.parameters[k]).Ok?
      {
        assert HasCheck(stack, instance, k) ==> CheckOf(stack, instance, k)(instance.parameters[k]).Ok?;
      }
    }
  }

  /** An edge is a requirement or a demand of a check, and nothing else. */
  lemma EdgeHasReason(instances: seq<Instance>, registry: Registry, e: Edge)
    ensures e in NeedEdges(instances, registry) <==>
              exists x, reason :: x in instances && x.stackName == e.0 && x.stackName in registry
                                  && NeededFor(registry[x.stackName], x, reason, e.1)
  {
    hide Needs, NeededFor;
    forall x | x in instances && x.stackName in registry
      ensures e.1 in Needs(registry[x.stackName], x) <==> exists reason :: NeededFor(registry[x.stackName], x, reason, e.1)
    {
      NeedHasReason(registry[x.stackName], x, e.1);
    }
  }

  lemma AcceptableIff(instance: Instance, registry: Registry, instances: seq<Instance>)
    requires instance.stackName in registry
    ensures var stack := registry[instance.stackName];
            Acceptable(instance, registry, Elements(StackNames(instances))) <==>
              ChecksSucceed(stack, instance) && OneReasonEach(stack, instance) && NeedsMet(stack, instance, instances)
  {
    ChecksPassIff(registry[instance.stackName], instance);
    OneReasonIff(registry[instance.stackName], instance);
    NeedsMetIff(registry[instance.stackName], instance, instances);
    hide ChecksPass, ChecksSucceed, Needs, NeedsTwice, NeededFor, OneReasonEach, NeedsMet;
  }

  lemma OneReasonIff(stack: Stack, instance: Instance)
    ensures (forall t :: !NeedsTwice(stack, instance, t)) <==> OneReasonEach(stack, instance)
  {
    hide NeedsTwice, NeededFor;
    if OneReasonEach(stack, instance) {
      forall t
        ensures !NeedsTwice(stack, instance, t)
      {
        NeededTwiceHasTwoReasons(stack, instance, t);
      }
    }
    if forall t :: !NeedsTwice(stack, instance, t) {
      forall a, b, t | NeededFor(stack, instance, a, t) && NeededFor(stack, instance, b, t)
        ensures a == b
      {
        NeededTwiceHasTwoReasons(stack, instance, t);
      }
    }
  }

  lemma NeedsMetIff(stack: Stack, instance: Instance, instances: seq<Instance>)
    ensures Needs(stack, instance) <= Elements(StackNames(instances)) <==> NeedsMet(stack, instance, instances)
  {
    hide Needs, NeededFor;
    if Needs(stack, instance) <= Elements(StackNames(instances)) {
      forall a, t | NeededFor(stack, instance, a, t)
        ensures exists y :: y in instances && y.stackName == t
      {
        NeedHasReason(stack, instance, t);
        PresentByName(instances, t);
      }
    }
    if NeedsMet(stack, instance, instances) {
      forall t | t in Needs(stack, instance)
        ensures t in Elements(StackNames(instances))
      {
        NeedHasReason(stack, instance, t);
        var a :| NeededFor(stack, instance, a, t);
        PresentByName(instances, t);
      }
    }
  }

  lemma AcyclicIffRanked(instances: seq<Instance>, registry: Registry)
    requires forall e :: e in NeedEdges(instances, registry) ==> e.1 in StackNames(instances)
    ensures Acyclic(NeedEdges(instances, registry)) <==> exists rank: string -> nat :: RanksNeeds(instances, registry, rank)
  {
    var edges, present := NeedEdges(instances, registry), Elements(StackNames(instances));
    hide Acyclic, NeededFor;
    forall e
      ensures e in edges <==> exists x, reason :: x in instances && x.stackName == e.0 && x.stackName in registry
                                                  && NeededFor(registry[x.stackName], x, reason, e.1)
    {
      EdgeHasReason(instances, registry, e);
    }
    if Acyclic(edges) {
      var rank := AcyclicIsRanked(edges, present);
      forall x, a, t | x in instances && x.stackName in registry && NeededFor(registry[x.stackName], x, a, t)
        ensures rank(t) < rank(x.stackName)
      {
        assert (x.stackName, t) in edges;
      }
      assert RanksNeeds(instances, registry, rank);
    }
    if rank: string -> nat :| RanksNeeds(instances, registry, rank) {
      RanksMeanAcyclic(instances, registry, rank);
    }
  }

  lemma RanksMeanAcyclic(instances: seq<Instance>, registry: Registry, rank: string -> nat)
    requires RanksNeeds(instances, registry, rank)
    ensures Acyclic(NeedEdges(instances, registry))
  {
    hide NeededFor;
    forall e | e in NeedEdges(instances, registry)
      ensures rank(e.1) < rank(e.0)
    {
      EdgeHasReason(instances, registry, e);
    }
    RankedIsAcyclic(NeedEdges(instances, registry), rank);
  }

  /** The graph that is built is accepted exactly for deployable instances. */
  lemma AcceptsIffDeployable(instances: seq<Instance>, registry: Registry)
    ensures Accepts(instances, registry) <==> Deployable(instances, registry)
  {
    hide Acyclic, Acceptable, ChecksSucceed, OneReasonEach, NeedsMet, RanksNeeds;
    var present := Elements(StackNames(instances));
    forall x | x in instances && x.stackName in registry
      ensures Acceptable(x, registry, present) <==>
                ChecksSucceed(registry[x.stackName], x) && OneReasonEach(registry[x.stackName], x) && NeedsMet(registry[x.stackName], x, instances)
    {
      AcceptableIff(x, registry, instances);
    }
    if forall x :: x in instances ==> Acceptable(x, registry, present) {
      EdgesLeadInside(instances, registry);
      AcyclicIffRanked(instances, registry);
    } else {
      var x :| x in instances && !Acceptable(x, registry, present);
      UnknownIsUnacceptable(x, registry, present);
    }
    DistinctNames(instances);
  }

  lemma UnknownIsUnacceptable(x: Instance, registry: Registry, present: set<string>)
    ensures Acceptable(x, registry, present) ==> x.stackName in registry
  {}

  lemma DistinctNames(instances: seq<Instance>)
    ensures Distinct(StackNames(instances)) <==> forall i, j :: 0 <= i < j < |instances| ==> instances[i].stackName != instances[j].stackName
  {
    if Distinct(StackNames(instances)) {
      forall i, j | 0 <= i < j < |instances|
        ensures instances[i].stackName != instances[j].stackName
      {
        assert StackNames(instances)[i] != StackNames(instances)[j];
      }
    }
  }

  lemma EdgesLeadInside(instances: seq<Instance>, registry: Registry)
    requires forall x :: x in instances ==> Acceptable(x, registry, Elements(StackNames(instances)))
    ensures forall e :: e in NeedEdges(instances, registry) ==> e.1 in StackNames(instances)
    ensures forall x :: x in instances ==> x.stackName in registry
  {
    hide Needs;
  }

  // Validation.

  datatype Rejection =
    | StackTaken(stack: string)
    | UnknownStack(stack: string)
    | CheckFailed(stack: string, key: string)
    | RequiredTwice(source: string, target: string)
    | MakesCycle(source: string, target: string)
    | NotPresent(source: string, target: string)

  datatype Validation = Valid(graph: DirectedGraph) | Invalid(reason: Rejection)

  /** What a rejection reports is really wrong with the instances. */
  ghost predicate Blames(instances: seq<Instance>, registry: Registry, reason: Rejection) {
    match reason
    case StackTaken(name) => exists i, j :: 0 <= i < j < |instances| && instances[i].stackName == instances[j].stackName == name
    case UnknownStack(name) => name !in registry && exists x :: x in instances && x.stackName == name
    case CheckFailed(name, key) =>
      exists x :: && x in instances && x.stackName == name && name in registry && key in x.parameters
                  && CheckCompanion(registry[name], x.parameters[key]).Err?
    case RequiredTwice(source, target) =>
      exists x :: x in instances && x.stackName == source && source in registry && NeedsTwice(registry[source], x, target)
    case MakesCycle(source, target) =>
      && (source, target) in NeedEdges(instances, registry)
      && Reaches(NeedEdges(instances, registry), target, source)
    case NotPresent(source, target) =>
      (source, target) in NeedEdges(instances, registry) && target !in StackNames(instances)
  }

  /** What a rejection means, spelled out. */
  lemma BlamesTruly(instances: seq<Instance>, registry: Registry, reason: Rejection)
    requires Blames(instances, registry, reason)
    ensures match reason
            case StackTaken(name) => exists i, j :: 0 <= i < j < |instances| && instances[i].stackName == name == instances[j].stackName
            case UnknownStack(name) => name !in registry && exists x :: x in instances && x.stackName == name
            case CheckFailed(name, key) =>
              exists x :: && x in instances && x.stackName == name && name in registry && HasCheck(registry[name], x, key)
                          && CheckOf(registry[name], x, key)(x.parameters[key]).Err?
            case RequiredTwice(source, target) =>
              exists x, a, b :: && x in instances && x.stackName == source && source in registry && a != b
                                && NeededFor(registry[source], x, a, target) && NeededFor(registry[source], x, b, target)
            case MakesCycle(source, target) =>
              && IsNeeded(instances, registry, source, target)
              && !exists rank: string -> nat :: RanksNeeds(instances, registry, rank)
            case NotPresent(source, target) => IsNeeded(instances, registry, source, target) && forall y :: y in instances ==> y.stackName != target
  {
    match reason {
      case RequiredTwice(source, target) =>
        var x :| x in instances && x.stackName == source && source in registry && NeedsTwice(registry[source], x, target);
        NeededTwiceHasTwoReasons(registry[source], x, target);
      case MakesCycle(source, target) =>
        EdgeHasReason(instances, registry, (source, target));
        CycleHasNoRank(instances, registry, (source, target));
      case NotPresent(source, target) =>
        EdgeHasReason(instances, registry, (source, target));
        PresentByName(instances, target);
      case _ =>
    }
  }

  ghost predicate IsNeeded(instances: seq<Instance>, registry: Registry, source: string, target: string) {
    exists x, a :: x in instances && x.stackName == source && source in registry && NeededFor(registry[source], x, a, target)
  }

  lemma CycleHasNoRank(instances: seq<Instance>, registry: Registry, e: Edge)
    requires e in NeedEdges(instances, registry) && Reaches(NeedEdges(instances, registry), e.1, e.0)
    ensures !exists rank: string -> nat :: RanksNeeds(instances, registry, rank)
  {
    ReachesBack(NeedEdges(instances, registry), e);
    if rank: string -> nat :| RanksNeeds(instances, registry, rank) {
      RanksMeanAcyclic(instances, registry, rank);
      assert false;
    }
  }

  lemma BlamedIsRejected(instances: seq<Instance>, registry: Registry, reason: Rejection)
    requires Blames(instances, registry, reason)
    ensures !Accepts(instances, registry)
  {
    match reason {
      case StackTaken(name) =>
        var i, j :| 0 <= i < j < |instances| && instances[i].stackName == instances[j].stackName == name;
        assert StackNames(instances)[i] == StackNames(instances)[j];
      case MakesCycle(source, target) =>
        ReachesBack(NeedEdges(instances, registry), (source, target));
      case _ =>
    }
  }

  function RejectionOf(reason: EdgeResult, source: string, target: string): Rejection
    requires !reason.Inserted?
  {
    match reason
    case VertexNotFound => NotPresent(source, target)
    case EdgeAlreadyExists => RequiredTwice(source, target)
    case EdgeCreatesCycle => MakesCycle(source, target)
  }

  /** A refused edge from the `i`-th instance, already linked to `linked`, blames the instances. */
  lemma RefusalBlames(instances: seq<Instance>, registry: Registry, i: nat, linked: set<string>, target: string, reason: EdgeResult)
    requires i < |instances| && Distinct(StackNames(instances)) && instances[i].stackName in registry
    requires target in Needs(registry[instances[i].stackName], instances[i])
    requires linked <= Needs(registry[instances[i].stackName], instances[i])
    requires reason.VertexNotFound? || reason.EdgeAlreadyExists? || reason.EdgeCreatesCycle?
    requires reason.VertexNotFound? ==> target !in StackNames(instances)
    requires reason.EdgeAlreadyExists? ==>
               || (instances[i].stackName, target) in NeedEdges(instances[..i], registry)
               || NeedsTwice(registry[instances[i].stackName], instances[i], target)
    requires reason.EdgeCreatesCycle? ==>
               var before := NeedEdges(instances[..i], registry) + Star(instances[i].stackName, linked);
               Acyclic(before) && !Acyclic(before + {(instances[i].stackName, target)})
    ensures Blames(instances, registry, RejectionOf(reason, instances[i].stackName, target))
  {
    var src := instances[i];
    assert src in instances;
    match reason {
      case VertexNotFound =>
      case EdgeAlreadyExists =>
        EarlierSourcesDiffer(instances, registry, i, target);
      case EdgeCreatesCycle =>
        var before, all := NeedEdges(instances[..i], registry) + Star(src.stackName, linked), NeedEdges(instances, registry);
        assert before <= all;
        AddEdgeAcyclic(before, (src.stackName, target));
        ReachesSubset(before, all, target, src.stackName);
    }
  }

  lemma EarlierSourcesDiffer(instances: seq<Instance>, registry: Registry, i: nat, target: string)
    requires i < |instances| && Distinct(StackNames(instances))
    ensures (instances[i].stackName, target) !in NeedEdges(instances[..i], registry)
  {}

  /** The keys seen so far passed their check, and each demands a companion of its own that is
      present. */
  ghost predicate CompanionsLinked(stack: Stack, instance: Instance, keys: set<string>, present: set<string>) {
    && (forall k :: k in keys ==> k in instance.parameters && CheckCompanion(stack, instance.parameters[k]).Ok?)
    && (forall k, l, c :: k in keys && l in keys && Demands(stack, instance, k, c) && Demands(stack, instance, l, c) ==> k == l)
    && Companions(stack, instance, keys) <= present
  }

  lemma NothingLinkedYet(stack: Stack, instance: Instance, present: set<string>)
    ensures Companions(stack, instance, {}) == {} && CompanionsLinked(stack, instance, {}, present)
  {}

  lemma FailedCheckIsBlamed(instances: seq<Instance>, registry: Registry, i: nat, key: string)
    requires i < |instances| && instances[i].stackName in registry && key in instances[i].parameters
    requires CheckCompanion(registry[instances[i].stackName], instances[i].parameters[key]).Err?
    ensures Blames(instances, registry, CheckFailed(instances[i].stackName, key))
  {}

  lemma CompanionStep(stack: Stack, instance: Instance, keys: set<string>, key: string, present: set<string>)
    requires CompanionsLinked(stack, instance, keys, present) && key in instance.parameters && key !in keys
    requires CheckCompanion(stack, instance.parameters[key]).Ok?
    ensures var companion := CheckCompanion(stack, instance.parameters[key]).value;
            if companion.None? then
              && Companions(stack, instance, keys + {key}) == Companions(stack, instance, keys)
              && CompanionsLinked(stack, instance, keys + {key}, present)
            else
              && Demands(stack, instance, key, companion.value)
              && Companions(stack, instance, keys + {key}) == Companions(stack, instance, keys) + {companion.value}
              && (companion.value in Companions(stack, instance, keys) ==> NeedsTwice(stack, instance, companion.value))
              && (companion.value in present && companion.value !in Companions(stack, instance, keys) ==>
                    CompanionsLinked(stack, instance, keys + {key}, present))
  {
    var companion := CheckCompanion(stack, instance.parameters[key]).value;
    assert forall c :: Demands(stack, instance, key, c) <==> companion == Some(c);
  }

  /** Links the `i`-th instance to the companions its parameters demand, visiting the parameters in
      whatever order the map yields them. */
  method LinkCompanions(g: DirectedGraph, instances: seq<Instance>, registry: Registry, i: nat)
    returns (reason: Option<Rejection>)
    requires g.Valid() && i < |instances| && Distinct(StackNames(instances)) && instances[i].stackName in registry
    requires g.vertices == Elements(StackNames(instances)) && g.edges == NeedEdges(instances[..i], registry)
    modifies g
    ensures g.Valid() && g.vertices == old(g.vertices)
    ensures reason.Some? ==> Blames(instances, registry, reason.value)
    ensures reason.None? ==>
              var src, stack := instances[i], registry[instances[i].stackName];
              && CompanionsLinked(stack, src, src.parameters.Keys, g.vertices)
              && g.edges == NeedEdges(instances[..i], registry) + Star(src.stackName, Companions(stack, src, src.parameters.Keys))
  {
    hide Acyclic, Reaches, CompanionsLinked, NeedsTwice, Blames;
    var src, stack := instances[i], registry[instances[i].stackName];
    ghost var earlier := g.edges;
    var todo := src.parameters.Keys;
    assert src.stackName == StackNames(instances)[i];
    NothingLinkedYet(stack, src, g.vertices);
    assert src.parameters.Keys - todo == {};
    while todo != {}
      invariant todo <= src.parameters.Keys
      invariant g.Valid() && g.vertices == old(g.vertices)
      invariant CompanionsLinked(stack, src, src.parameters.Keys - todo, g.vertices)
      invariant g.edges == earlier + Star(src.stackName, Companions(stack, src, src.parameters.Keys - todo))
    {
      var key :| key in todo;
      ghost var before := src.parameters.Keys - todo;
      todo := todo - {key};
      assert src.parameters.Keys - todo == before + {key};
      var check := CheckCompanion(stack, src.parameters[key]);
      if check.Err? {
        FailedCheckIsBlamed(instances, registry, i, key);
        return Some(CheckFailed(src.stackName, key));
      }
      CompanionStep(stack, src, before, key, g.vertices);
      if check.value.None? {
        continue;
      }
      var companion := check.value.value;
      var r := g.AddEdge(src.stackName, companion);
      if !r.Inserted? {
        RefusalBlames(instances, registry, i, Companions(stack, src, before), companion, r);
        return Some(RejectionOf(r, src.stackName, companion));
      }
    }
    assert src.parameters.Keys - todo == src.parameters.Keys;
    return None;
  }

  lemma UnknownIsBlamed(instances: seq<Instance>, registry: Registry, i: nat)
    requires i < |instances| && instances[i].stackName !in registry
    ensures Blames(instances, registry, UnknownStack(instances[i].stackName))
  {}

  /** A refused edge to a required stack, after the companions have been linked, blames the
      instances. */
  lemma RequirementRefused(instances: seq<Instance>, registry: Registry, i: nat, at: nat, reason: EdgeResult)
    requires i < |instances| && Distinct(StackNames(instances)) && instances[i].stackName in registry
    requires at < |registry[instances[i].stackName].required|
    requires var src, stack := instances[i], registry[instances[i].stackName];
             Refused(Elements(StackNames(instances)),
                     NeedEdges(instances[..i], registry) + Star(src.stackName, Companions(stack, src, src.parameters.Keys)),
                     src.stackName, RequiredNames(stack), at, reason)
    ensures !reason.Inserted?
    ensures Blames(instances, registry, RejectionOf(reason, instances[i].stackName, RequiredNames(registry[instances[i].stackName])[at]))
  {
    hide Acyclic, Reaches, Blames;
    var src, stack := instances[i], registry[instances[i].stackName];
    var targets, companions := RequiredNames(stack), Companions(stack, src, src.parameters.Keys);
    var linked := companions + Elements(targets[..at]);
    assert NeedEdges(instances[..i], registry) + Star(src.stackName, companions) + Star(src.stackName, Elements(targets[..at]))
        == NeedEdges(instances[..i], registry) + Star(src.stackName, linked);
    RefusalBlames(instances, registry, i, linked, targets[at], reason);
  }

  lemma EdgesGrow(instances: seq<Instance>, registry: Registry, i: nat)
    requires i < |instances| && instances[i].stackName in registry
    ensures NeedEdges(instances[..i + 1], registry) ==
            NeedEdges(instances[..i], registry) + Star(instances[i].stackName, Needs(registry[instances[i].stackName], instances[i]))
  {
    hide Needs;
    assert instances[..i + 1] == instances[..i] + [instances[i]];
    forall x
      ensures x in instances[..i + 1] <==> x in instances[..i] || x == instances[i]
    {}
  }

  /** An instance whose companions and requirements could all be linked is acceptable. */
  lemma LinkedIsAcceptable(instance: Instance, registry: Registry, edges: set<Edge>, present: set<string>)
    requires instance.stackName in registry
    requires var stack := registry[instance.stackName];
             && CompanionsLinked(stack, instance, instance.parameters.Keys, present)
             && Linkable(present, edges + Star(instance.stackName, Companions(stack, instance, instance.parameters.Keys)),
                         instance.stackName, RequiredNames(stack))
    ensures Acceptable(instance, registry, present)
  {}

  /** Links the `i`-th instance to everything it needs. */
  method LinkInstance(g: DirectedGraph, instances: seq<Instance>, registry: Registry, i: nat)
    returns (reason: Option<Rejection>)
    requires g.Valid() && i < |instances| && Distinct(StackNames(instances))
    requires g.vertices == Elements(StackNames(instances)) && g.edges == NeedEdges(instances[..i], registry)
    modifies g
    ensures g.Valid() && g.vertices == old(g.vertices)
    ensures reason.Some? ==> Blames(instances, registry, reason.value)
    ensures reason.None? ==> Acceptable(instances[i], registry, g.vertices) && g.edges == NeedEdges(instances[..i + 1], registry)
  {
    hide Acyclic, Reaches, Blames, Refused, Linkable, CompanionsLinked, Acceptable, Distinct;
    var src := instances[i];
    if src.stackName !in registry {
      UnknownIsBlamed(instances, registry, i);
      return Some(UnknownStack(src.stackName));
    }
    var stack := registry[src.stackName];
    reason := LinkCompanions(g, instances, registry, i);
    if reason.Some? {
      return;
    }
    assert src.stackName == StackNames(instances)[i];
    var targets := RequiredNames(stack);
    ghost var companions := Companions(stack, src, src.parameters.Keys);
    var r, at := g.AddEdges(src.stackName, targets);
    if !r.Inserted? {
      RequirementRefused(instances, registry, i, at, r);
      return Some(RejectionOf(r, src.stackName, targets[at]));
    }
    LinkedIsAcceptable(src, registry, NeedEdges(instances[..i], registry), g.vertices);
    EdgesGrow(instances, registry, i);
    return None;
  }

  /** Builds the graph of the instances. It succeeds exactly on valid deployments, in whatever order
      the instances come, and then holds one vertex a stack and one edge a need. */
  method ValidateNoCycles(instances: seq<Instance>, registry: Registry) returns (r: Validation)
    ensures r.Valid? <==> Accepts(instances, registry)
    ensures r.Valid? <==> Deployable(instances, registry)
    ensures r.Valid? ==> r.graph.Valid() && r.graph.vertices == Elements(StackNames(instances)) && r.graph.edges == NeedEdges(instances, registry)
    ensures r.Invalid? ==> Blames(instances, registry, r.reason)
  {
    AcceptsIffDeployable(instances, registry);
    hide Acyclic, Blames, Deployable;
    var g := new DirectedGraph();
    var names := StackNames(instances);
    var refused := g.AddVertices(names);
    if refused >= 0 {
      TakenIsBlamed(instances, registry, refused);
      BlamedIsRejected(instances, registry, StackTaken(names[refused]));
      return Invalid(StackTaken(names[refused]));
    }
    assert NeedEdges(instances[..0], registry) == {};
    for i := 0 to |instances|
      invariant g.Valid() && fresh(g) && g.vertices == Elements(names)
      invariant g.edges == NeedEdges(instances[..i], registry)
      invariant forall k :: 0 <= k < i ==> Acceptable(instances[k], registry, Elements(names))
    {
      var reason := LinkInstance(g, instances, registry, i);
      if reason.Some? {
        BlamedIsRejected(instances, registry, reason.value);
        return Invalid(reason.value);
      }
    }
    assert instances[..|instances|] == instances;
    return Valid(g);
  }

  lemma TakenIsBlamed(instances: seq<Instance>, registry: Registry, i: nat)
    requires i < |instances| && StackNames(instances)[i] in StackNames(instances)[..i]
    ensures Blames(instances, registry, StackTaken(StackNames(instances)[i]))
  {}

  // Ordering.

  function Reversed<T>(s: seq<T>): (r: seq<T>)
    ensures |r| == |s| && forall i :: 0 <= i < |s| ==> r[i] == s[|s| - 1 - i]
  {
    seq(|s|, i requires 0 <= i < |s| => s[|s| - 1 - i])
  }

  /** Everything an instance needs comes before it. */
  ghost predicate NeedsComeFirst(order: seq<Instance>, registry: Registry) {
    forall i, t :: 0 <= i < |order| && order[i].stackName in registry && t in Needs(registry[order[i].stackName], order[i]) ==>
      exists j :: 0 <= j < i && order[j].stackName == t
  }

  /** Everything an instance needs comes after it. */
  ghost predicate NeedsComeLast(order: seq<Instance>, registry: Registry) {
    forall i, t :: 0 <= i < |order| && order[i].stackName in registry && t in Needs(registry[order[i].stackName], order[i]) ==>
      exists j :: i < j < |order| && order[j].stackName == t
  }

  /** The first instance of a stack. */
  method FindInstanceByStackName(name: string, instances: seq<Instance>) returns (found: Option<Instance>)
    ensures found.None? <==> name !in StackNames(instances)
    ensures found.Some? ==>
              exists i :: 0 <= i < |instances| && instances[i] == found.value && found.value.stackName == name
                          && forall k :: 0 <= k < i ==> instances[k].stackName != name
  {
    for i := 0 to |instances|
      invariant forall k :: 0 <= k < i ==> instances[k].stackName != name
    {
      if instances[i].stackName == name {
        assert StackNames(instances)[i] == name;
        return Some(instances[i]);
      }
    }
    return None;
  }

  /** A selection of one instance for each stack name, in any order of the names, rearranges the
      instances. */
  lemma OneEachIsShuffle(instances: seq<Instance>, order: seq<Instance>)
    requires Distinct(StackNames(instances)) && Distinct(StackNames(order))
    requires Elements(StackNames(order)) == Elements(StackNames(instances))
    requires forall x :: x in order ==> x in instances
    ensures multiset(order) == multiset(instances)
  {
    forall x | x in instances
      ensures x in order
    {
      var i :| 0 <= i < |instances| && instances[i] == x;
      assert StackNames(instances)[i] in Elements(StackNames(order));
      var j :| 0 <= j < |order| && StackNames(order)[j] == x.stackName;
      assert order[j] in instances;
      var k :| 0 <= k < |instances| && instances[k] == order[j];
      assert StackNames(instances)[k] == StackNames(instances)[i];
    }
    DistinctInstances(instances);
    DistinctInstances(order);
    forall x
      ensures multiset(order)[x] == multiset(instances)[x]
    {
      assert (x in order <==> x in multiset(order)) && (x in instances <==> x in multiset(instances));
    }
  }

  lemma {:induction false} DistinctMultiset<T>(s: seq<T>)
    requires Distinct(s)
    ensures forall x :: multiset(s)[x] <= 1
  {
    if s != [] {
      var init, last := s[..|s| - 1], s[|s| - 1];
      DistinctMultiset(init);
      assert s == init + [last];
      assert last !in init;
      assert last !in multiset(init);
    }
  }

  lemma DistinctInstances(a: seq<Instance>)
    requires Distinct(StackNames(a))
    ensures forall x :: multiset(a)[x] <= 1
  {
    forall i, j | 0 <= i < j < |a|
      ensures a[i] != a[j]
    {
      assert StackNames(a)[i] != StackNames(a)[j];
    }
    DistinctMultiset(a);
  }

  /** Validates the instances and lists them in the order they are deployed in: all of them, each
      once, each after everything it needs. Once validated, the sort cannot fail. */
  method DeploymentOrder(instances: seq<Instance>, registry: Registry) returns (r: Result<seq<Instance>>)
    ensures r.Ok? <==> Deployable(instances, registry)
    ensures r.Ok? <==> Accepts(instances, registry)
    ensures r.Ok? ==> multiset(r.value) == multiset(instances) && Distinct(StackNames(r.value))
    ensures r.Ok? ==> NeedsComeFirst(r.value, registry)
    ensures r.Ok? ==>
              forall i, reason, t :: 0 <= i < |r.value| && r.value[i].stackName in registry
                                     && NeededFor(registry[r.value[i].stackName], r.value[i], reason, t) ==>
                exists j :: 0 <= j < i && r.value[j].stackName == t
  {
    hide Acyclic, Deployable, NeededFor;
    var validation := ValidateNoCycles(instances, registry);
    if validation.Invalid? {
      return Err;
    }
    var edges := validation.graph.edges;
    var sorted := TopologicalSort(validation.graph.vertices, edges);
    if sorted.HasCycle? {
      return Err;
    }
    var names := Reversed(sorted.order);
    ReversedOrder(sorted.order);
    var order: seq<Instance> := [];
    for i := 0 to |names|
      invariant |order| == i
      invariant forall k :: 0 <= k < i ==> order[k].stackName == names[k] && order[k] in instances
    {
      assert names[i] in Elements(names);
      assert names[i] in Elements(StackNames(instances));
      var found := FindInstanceByStackName(names[i], instances);
      order := order + [found.value];
    }
    assert StackNames(order) == names;
    OneEachIsShuffle(instances, order);
    OrderedNeeds(instances, registry, sorted.order, order);
    ReasonsComeFirst(order, registry);
    return Ok(order);
  }

  lemma ReversedOrder<T>(s: seq<T>)
    ensures Elements(Reversed(s)) == Elements(s)
    ensures Distinct(s) ==> Distinct(Reversed(s))
  {
    forall x | x in s
      ensures x in Reversed(s)
    {
      var i :| 0 <= i < |s| && s[i] == x;
      assert Reversed(s)[|s| - 1 - i] == x;
    }
  }

  lemma OrderedNeeds(instances: seq<Instance>, registry: Registry, sorted: seq<Vertex>, order: seq<Instance>)
    requires Elements(sorted) == Elements(StackNames(instances)) && PointsForward(NeedEdges(instances, registry), sorted)
    requires StackNames(order) == Reversed(sorted) && forall x :: x in order ==> x in instances
    requires EndpointsPresent(Elements(StackNames(instances)), NeedEdges(instances, registry))
    ensures NeedsComeFirst(order, registry)
  {
    forall i, t | 0 <= i < |order| && order[i].stackName in registry && t in Needs(registry[order[i].stackName], order[i])
      ensures exists j :: 0 <= j < i && order[j].stackName == t
    {
      var x := order[i];
      assert x in order && x in instances;
      assert (x.stackName, t) in NeedEdges(instances, registry);
      assert t in Elements(sorted);
      var k :| 0 <= k < |sorted| && sorted[k] == t;
      assert sorted[|sorted| - 1 - i] == StackNames(order)[i];
      assert (sorted[|sorted| - 1 - i], sorted[k]) in NeedEdges(instances, registry);
      assert StackNames(order)[|sorted| - 1 - k] == t;
    }
  }

  lemma ReasonsComeFirst(order: seq<Instance>, registry: Registry)
    requires NeedsComeFirst(order, registry)
    ensures forall i, reason, t :: 0 <= i < |order| && order[i].stackName in registry
                                   && NeededFor(registry[order[i].stackName], order[i], reason, t) ==>
              exists j :: 0 <= j < i && order[j].stackName == t
  {
    hide Needs, NeededFor;
    forall i, reason, t | 0 <= i < |order| && order[i].stackName in registry && NeededFor(registry[order[i].stackName], order[i], reason, t)
      ensures exists j :: 0 <= j < i && order[j].stackName == t
    {
      NeedHasReason(registry[order[i].stackName], order[i], t);
    }
  }

  lemma ReversedNeeds(order: seq<Instance>, registry: Registry)
    requires NeedsComeFirst(order, registry)
    ensures NeedsComeLast(Reversed(order), registry)
  {
    var back := Reversed(order);
    forall i, t | 0 <= i < |back| && back[i].stackName in registry && t in Needs(registry[back[i].stackName], back[i])
      ensures exists j :: i < j < |back| && back[j].stackName == t
    {
      assert back[i] == order[|order| - 1 - i];
      var j :| 0 <= j < |order| - 1 - i && order[j].stackName == t;
      assert back[|order| - 1 - j] == order[j];
    }
  }
}
