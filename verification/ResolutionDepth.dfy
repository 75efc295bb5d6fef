/** How many passes over a deployment's parameters are enough whatever the providers read: as many as
    the longest chain of requirements has stacks, and never more than there are instances. */
module ResolutionDepth {
  import opened Graphs
  import opened Model
  import opened InstanceGraphs
  import opened ParameterResolution
  import opened ResolutionProperties

  /** Every instance ranks above the stacks that it requires. */
  ghost predicate Ranked(instances: seq<Instance>, registry: Registry, rank: string -> nat) {
    forall x, r :: x in instances && x.stackName in registry && r in registry[x.stackName].required ==> rank(r.name) < rank(x.stackName)
  }

  /** The instances of low rank are settled. */
  ghost predicate SettledBelow(instances: seq<Instance>, registry: Registry, rank: string -> nat, depth: nat) {
    forall i :: 0 <= i < |instances| && rank(instances[i].stackName) < depth ==> SettledAt(instances, registry, i)
  }

  // One pass.

  /** An instance is settled right after its turn, whatever its providers read. */
  lemma TurnSettles(instances: seq<Instance>, k: nat, registry: Registry)
    requires k < |instances| && ResolveOne(instances, k, registry).Ok? && ExactParameters(instances, registry) && Coherent(registry)
    ensures var next := instances[k := ResolveOne(instances, k, registry).value];
            ExactParameters(next, registry) && SettledAt(next, registry, k)
  {
    var x, stack := ResolveOne(instances, k, registry).value, registry[instances[k].stackName];
    var next := instances[k := x];
    ResolveOneCompletes(instances, k, registry);
    forall n, q: nat | Consumes(stack, n) && SoleCarrier(stack, n, q)
      ensures MatchesSource(next, k, n, stack, q)
    {
      var carrier := stack.required[q];
      assert carrier in stack.required && RequiredNames(stack)[q] == carrier.name;
      ConsumedNow(instances, k, n, q, registry);
      AllPresentSameNames(instances, next, stack.required);
      IndexOfSameNames(instances, next, carrier.name);
      hide ResolveOne, IndexOf;
    }
  }

  /** An instance stays settled in the turn of one that ranks as high or higher. */
  lemma TurnKeepsSettled(instances: seq<Instance>, next: seq<Instance>, k: nat, i: nat, registry: Registry, rank: string -> nat)
    requires k < |instances| && i < |instances| && i != k && |next| == |instances| && next == instances[k := next[k]]
    requires next[k].stackName == instances[k].stackName
    requires Ranked(instances, registry, rank) && rank(instances[i].stackName) <= rank(instances[k].stackName)
    requires SettledAt(instances, registry, i)
    ensures SettledAt(next, registry, i)
  {
    var stack := registry[instances[i].stackName];
    forall n, q: nat | Consumes(stack, n) && SoleCarrier(stack, n, q)
      ensures MatchesSource(next, i, n, stack, q)
    {
      var carrier := stack.required[q];
      assert instances[i] in instances && carrier in stack.required;
      AllPresentSameNames(instances, next, stack.required);
      IndexOfSameNames(instances, next, carrier.name);
      assert MatchesSource(instances, i, n, stack, q);
      hide Ranked;
    }
  }

  /** What a pass has achieved when it comes to the `k`-th instance. */
  ghost predicate SettledSoFar(instances: seq<Instance>, k: nat, registry: Registry, rank: string -> nat, depth: nat) {
    && SettledBelow(instances, registry, rank, depth)
    && forall i :: 0 <= i < |instances| && i < k && rank(instances[i].stackName) == depth ==> SettledAt(instances, registry, i)
  }

  lemma TurnDeepens(instances: seq<Instance>, k: nat, registry: Registry, rank: string -> nat, depth: nat)
    requires k < |instances| && ResolveOne(instances, k, registry).Ok?
    requires ExactParameters(instances, registry) && Coherent(registry) && Unambiguous(registry)
    requires Ranked(instances, registry, rank) && SettledSoFar(instances, k, registry, rank, depth)
    ensures var next := instances[k := ResolveOne(instances, k, registry).value];
            ExactParameters(next, registry) && Ranked(next, registry, rank) && SettledSoFar(next, k + 1, registry, rank, depth)
    ensures rank(instances[k].stackName) < depth ==> ResolveOne(instances, k, registry).value == instances[k]
  {
    var next := instances[k := ResolveOne(instances, k, registry).value];
    TurnSettles(instances, k, registry);
    ResolveOneCompletes(instances, k, registry);
    RankedSameNames(instances, next, registry, rank);
    assert Declared(instances, registry);
    hide ResolveOne, SettledAt, Ranked, ExactParameters, Unambiguous, Coherent;
    if rank(instances[k].stackName) < depth {
      SettledStep(instances, k, registry);
      assert next == instances;
    } else {
      forall i | 0 <= i < |next| && i != k && rank(next[i].stackName) <= depth && SettledAt(instances, registry, i)
        ensures SettledAt(next, registry, i)
      {
        TurnKeepsSettled(instances, next, k, i, registry, rank);
      }
    }
  }

  lemma RankedSameNames(a: seq<Instance>, b: seq<Instance>, registry: Registry, rank: string -> nat)
    requires |a| == |b| && (forall i :: 0 <= i < |a| ==> a[i].stackName == b[i].stackName) && Ranked(a, registry, rank)
    ensures Ranked(b, registry, rank)
  {
    forall x, r | x in b && x.stackName in registry && r in registry[x.stackName].required
      ensures rank(r.name) < rank(x.stackName)
    {
      var i :| 0 <= i < |b| && b[i] == x;
      assert a[i] in a;
    }
  }

  /** A pass settles one rank more, and leaves alone what was settled. */
  lemma {:induction false} PassDeepens(instances: seq<Instance>, k: nat, registry: Registry, rank: string -> nat, depth: nat)
    requires k <= |instances| && ResolveFrom(instances, k, registry).Ok?
    requires ExactParameters(instances, registry) && Coherent(registry) && Unambiguous(registry)
    requires Ranked(instances, registry, rank) && SettledSoFar(instances, k, registry, rank, depth)
    ensures var r := ResolveFrom(instances, k, registry).value;
            && SettledBelow(r, registry, rank, depth + 1) && |r| == |instances|
            && forall i :: 0 <= i < |instances| && rank(instances[i].stackName) < depth ==> r[i] == instances[i]
    decreases |instances| - k
  {
    if k < |instances| {
      TurnDeepens(instances, k, registry, rank, depth);
      hide ResolveOne, SettledSoFar, SettledBelow, Ranked, ExactParameters, Unambiguous, Coherent;
      PassDeepens(instances[k := ResolveOne(instances, k, registry).value], k + 1, registry, rank, depth);
    }
  }

  // Several passes.

  lemma NeedsPositiveRank(instances: seq<Instance>, registry: Registry, rank: string -> nat, i: nat)
    requires i < |instances| && instances[i].stackName in registry && Ranked(instances, registry, rank)
    ensures registry[instances[i].stackName].required != [] ==> rank(instances[i].stackName) > 0
  {
    var required := registry[instances[i].stackName].required;
    if required != [] {
      assert instances[i] in instances && required[0] in required;
      assert rank(required[0].name) < rank(instances[i].stackName);
    }
  }

  lemma FirstIsMember<T>(s: seq<T>)
    ensures s != [] ==> s[0] in s
  {}

  function Passes(instances: seq<Instance>, registry: Registry, n: nat): Result<seq<Instance>> {
    if n == 0 then Ok(instances)
    else
      match Passes(instances, registry, n - 1)
      case Err => Err
      case Ok(before) => Resolve(before, registry)
  }

  /** Nothing that requires nothing consumes anything. */
  lemma FirstPassSettles(instances: seq<Instance>, registry: Registry, rank: string -> nat)
    requires ExactParameters(instances, registry) && Ranked(instances, registry, rank)
    ensures SettledBelow(instances, registry, rank, 1)
  {
    forall i | 0 <= i < |instances| && rank(instances[i].stackName) < 1
      ensures registry[instances[i].stackName].required == []
    {
      NeedsPositiveRank(instances, registry, rank, i);
    }
  }

  /** After so many passes as many ranks are settled. */
  lemma {:induction false} PassesSettle(instances: seq<Instance>, registry: Registry, rank: string -> nat, n: nat)
    requires n > 0 && Passes(instances, registry, n).Ok?
    requires Coherent(registry) && Unambiguous(registry) && Ranked(instances, registry, rank)
    ensures var r := Passes(instances, registry, n).value;
            && |r| == |instances| && (forall i :: 0 <= i < |r| ==> r[i].stackName == instances[i].stackName)
            && ExactParameters(r, registry) && SettledBelow(r, registry, rank, n)
  {
    var before := Passes(instances, registry, n - 1).value;
    ResolveCompletes(before, registry);
    var r := Passes(instances, registry, n).value;
    hide Coherent, Unambiguous, Resolve, SettledAt;
    if n == 1 {
      RankedSameNames(instances, r, registry, rank);
      FirstPassSettles(r, registry, rank);
    } else {
      PassesSettle(instances, registry, rank, n - 1);
      RankedSameNames(instances, before, registry, rank);
      PassDeepens(before, 0, registry, rank, n - 1);
    }
  }

  /** Whatever providers read, as many passes as there are ranks reach a fixpoint, if they succeed: one
      more changes nothing, and fails only if a validator rejects what the last one left. */
  lemma PassesByDepth(instances: seq<Instance>, registry: Registry, rank: string -> nat, n: nat)
    requires Passes(instances, registry, n).Ok?
    requires Coherent(registry) && Unambiguous(registry) && Ranked(instances, registry, rank)
    requires forall x :: x in instances ==> rank(x.stackName) < n
    ensures var r := Passes(instances, registry, n).value;
            && Settled(r, registry)
            && Resolve(r, registry) == if AllValid(r, registry, 0) then Ok(r) else Err
  {
    var r := Passes(instances, registry, n).value;
    if n == 0 {
      FirstIsMember(instances);
    } else {
      PassesSettle(instances, registry, rank, n);
      assert forall i :: 0 <= i < |r| ==> instances[i] in instances;
    }
    hide SettledAt;
    assert Settled(r, registry);
    SettledIsFixpoint(r, 0, registry);
  }

  // The longest chain of requirements.

  /** How many requirements the longest chain from this stack has. */
  function Height(stack: Stack): nat
    decreases stack
  {
    HeightOver(stack.required)
  }

  /** The height of a stack that requires these. */
  function HeightOver(required: seq<Stack>): nat
    decreases required
  {
    if required == [] then 0
    else
      var first, rest := Height(required[0]) + 1, HeightOver(required[1..]);
      if first > rest then first else rest
  }

  lemma {:induction false} HigherThanRequired(required: seq<Stack>, r: Stack)
    requires r in required
    ensures Height(r) < HeightOver(required)
  {
    if r != required[0] {
      HigherThanRequired(required[1..], r);
    }
  }

  /** Each stack is required by the one before it. */
  ghost predicate IsChain(chain: seq<Stack>) {
    chain != [] && forall i :: 0 <= i < |chain| - 1 ==> chain[i + 1] in chain[i].required
  }

  lemma {:induction false} HighestRequired(required: seq<Stack>) returns (r: Stack)
    requires required != []
    ensures r in required && HeightOver(required) == Height(r) + 1
  {
    r := required[0];
    if |required| > 1 {
      var other := HighestRequired(required[1..]);
      if Height(other) > Height(r) {
        r := other;
      }
    }
  }

  /** The height is what the longest chain has: no chain is longer, and one is as long. */
  lemma {:induction false} ChainsReachHeight(chain: seq<Stack>)
    requires IsChain(chain)
    ensures |chain| <= Height(chain[0]) + 1
    decreases |chain|
  {
    if |chain| > 1 {
      assert forall i :: 0 <= i < |chain| - 1 ==> chain[i + 1] in chain[i].required;
      assert chain[0 + 1] in chain[0].required;
      HigherThanRequired(chain[0].required, chain[1]);
      assert IsChain(chain[1..]) by {
        forall i | 0 <= i < |chain[1..]| - 1
          ensures chain[1..][i + 1] in chain[1..][i].required
        {
          assert chain[(i + 1) + 1] in chain[i + 1].required;
        }
      }
      ChainsReachHeight(chain[1..]);
    }
  }

  lemma {:induction false} LongestChain(stack: Stack) returns (chain: seq<Stack>)
    ensures IsChain(chain) && chain[0] == stack && |chain| == Height(stack) + 1
    decreases Height(stack)
  {
    chain := [stack];
    if stack.required != [] {
      var r := HighestRequired(stack.required);
      HigherThanRequired(stack.required, r);
      var rest := LongestChain(r);
      chain := [stack] + rest;
      forall i | 0 <= i < |chain| - 1
        ensures chain[i + 1] in chain[i].required
      {
        if i > 0 {
          assert rest[(i - 1) + 1] in rest[i - 1].required;
        }
      }
    }
  }

  lemma HeightRanks(instances: seq<Instance>, registry: Registry) returns (rank: string -> nat)
    requires Coherent(registry)
    ensures Ranked(instances, registry, rank) && forall n :: n in registry ==> rank(n) == Height(registry[n])
  {
    rank := n => if n in registry then Height(registry[n]) else 0;
    forall x, r | x in instances && x.stackName in registry && r in registry[x.stackName].required
      ensures rank(r.name) < rank(x.stackName)
    {
      HigherThanRequired(registry[x.stackName].required, r);
    }
  }

  /** Whatever providers read, passes reach a fixpoint once there are as many as the longest chain of
      requirements has stacks. */
  lemma PassesByHeight(instances: seq<Instance>, registry: Registry, n: nat)
    requires Passes(instances, registry, n).Ok? && Coherent(registry) && Unambiguous(registry)
    requires forall x :: x in instances ==> x.stackName in registry && Height(registry[x.stackName]) < n
    ensures var r := Passes(instances, registry, n).value;
            && Settled(r, registry)
            && Resolve(r, registry) == if AllValid(r, registry, 0) then Ok(r) else Err
  {
    var rank := HeightRanks(instances, registry);
    PassesByDepth(instances, registry, rank, n);
  }

  // Accepted deployments.

  lemma AcceptedIsRanked(instances: seq<Instance>, registry: Registry) returns (rank: string -> nat)
    requires Accepts(instances, registry)
    ensures Ranked(instances, registry, rank) && forall x :: x in instances ==> rank(x.stackName) < |instances|
  {
    var edges, present := NeedEdges(instances, registry), Elements(StackNames(instances));
    hide Acyclic;
    rank := AcyclicIsRanked(edges, present);
    forall x, r | x in instances && x.stackName in registry && r in registry[x.stackName].required
      ensures rank(r.name) < rank(x.stackName)
    {
      var stack := registry[x.stackName];
      var i :| 0 <= i < |stack.required| && stack.required[i] == r;
      assert RequiredNames(stack)[i] == r.name && r.name in Needs(stack, x);
      assert (x.stackName, r.name) in edges && Acceptable(x, registry, present);
    }
    CardinalityDistinct(StackNames(instances));
    forall x | x in instances
      ensures rank(x.stackName) < |instances|
    {
      var i :| 0 <= i < |instances| && instances[i] == x;
      assert StackNames(instances)[i] == x.stackName;
    }
  }

  /** So an accepted deployment needs no more passes than it has instances. */
  lemma AcceptedNeedsNoMorePasses(instances: seq<Instance>, registry: Registry)
    requires Accepts(instances, registry) && Coherent(registry) && Unambiguous(registry)
    requires Passes(instances, registry, |instances|).Ok?
    ensures var r := Passes(instances, registry, |instances|).value;
            && Settled(r, registry)
            && Resolve(r, registry) == if AllValid(r, registry, 0) then Ok(r) else Err
  {
    var rank := AcceptedIsRanked(instances, registry);
    PassesByDepth(instances, registry, rank, |instances|);
  }
}
