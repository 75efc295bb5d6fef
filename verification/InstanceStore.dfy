/** The stored instances of all deployments, and the operations that save, update, deploy and delete
    them. Every call outside the service can fail, as the caller of the model chooses. */
module InstanceStore {
  import opened Graphs
  import opened Model
  import opened InstanceGraphs
  import opened ParameterResolution
  import opened ResolutionProperties

  type Rows = map<nat, Instance>

  /** Rows are stored under their own id. */
  ghost predicate WellKeyed(rows: Rows) {
    forall id :: id in rows ==> rows[id].id == id
  }

  /** `listing` holds the rows of one deployment, each once, in some order. */
  ghost predicate Lists(rows: Rows, deployment: nat, listing: seq<Instance>) {
    && (forall x :: x in listing <==> x.id in rows && rows[x.id] == x && x.deploymentId == deployment)
    && Distinct(listing)
  }

  lemma AnyListing(rows: Rows, deployment: nat, a: seq<Instance>, b: seq<Instance>, registry: Registry)
    requires Lists(rows, deployment, a) && Lists(rows, deployment, b)
    ensures multiset(a) == multiset(b)
    ensures Accepts(a, registry) <==> Accepts(b, registry)
  {
    hide Accepts;
    SameDistinctElements(a, b);
    AcceptsAnyOrder(a, b, registry);
  }

  lemma SameDistinctElements<T>(a: seq<T>, b: seq<T>)
    requires Distinct(a) && Distinct(b) && forall x :: x in a <==> x in b
    ensures multiset(a) == multiset(b)
  {
    DistinctMultiset(a);
    DistinctMultiset(b);
    forall x
      ensures multiset(a)[x] == multiset(b)[x]
    {
      assert (x in a <==> x in multiset(a)) && (x in b <==> x in multiset(b));
    }
  }

  // What every run keeps.

  /** Within one deployment no stack has two instances, and what an instance's stack requires is
      there. */
  ghost predicate Closed(rows: Rows, registry: Registry) {
    && (forall a, b | a in rows && b in rows && SameSlot(rows[a], rows[b]) :: a == b)
    && (forall a :: a in rows ==> RequirementsMet(rows, a, registry))
  }

  ghost predicate HasInstance(rows: Rows, deployment: nat, stackName: string) {
    exists b :: b in rows && rows[b].deploymentId == deployment && rows[b].stackName == stackName
  }

  /** The two records belong to the same instance of the same stack; parameters may differ. */
  ghost predicate SameSlot(a: Instance, b: Instance) {
    a.stackName == b.stackName && a.deploymentId == b.deploymentId
  }

  /** `listing` has one record for each row of the deployment, as far as stacks go. */
  ghost predicate Covers(rows: Rows, deployment: nat, listing: seq<Instance>) {
    && (forall id :: id in rows && rows[id].deploymentId == deployment ==> rows[id].stackName in StackNames(listing))
    && (forall n :: n in StackNames(listing) ==> HasInstance(rows, deployment, n))
    && (Distinct(StackNames(listing)) ==> OneEach(rows, deployment))
  }

  /** No stack has two rows in the deployment. */
  ghost predicate OneEach(rows: Rows, deployment: nat) {
    forall a, b | a in rows && b in rows && rows[a].deploymentId == deployment && SameSlot(rows[a], rows[b]) :: a == b
  }

  /** Only rows of one deployment differ. */
  ghost predicate OthersKept(rows: Rows, rows': Rows, deployment: nat) {
    forall id ::
      && (id in rows && rows[id].deploymentId != deployment ==> id in rows' && rows'[id] == rows[id])
      && (id in rows' && rows'[id].deploymentId != deployment ==> id in rows && rows'[id] == rows[id])
  }

  /** One operation on the store: nothing changes, or only one deployment does and what it becomes
      has been validated. */
  ghost predicate Step(rows: Rows, rows': Rows, registry: Registry) {
    rows' == rows || exists deployment, listing :: Validated(rows, rows', deployment, listing, registry)
  }

  ghost predicate Validated(rows: Rows, rows': Rows, deployment: nat, listing: seq<Instance>, registry: Registry) {
    OthersKept(rows, rows', deployment) && Covers(rows', deployment, listing) && Accepts(listing, registry)
  }

  ghost predicate RequirementsMet(rows: Rows, id: nat, registry: Registry)
    requires id in rows
  {
    && rows[id].stackName in registry
    && forall t :: t in RequiredNames(registry[rows[id].stackName]) ==> HasInstance(rows, rows[id].deploymentId, t)
  }

  lemma ValidatedKeepsClosed(rows: Rows, rows': Rows, deployment: nat, listing: seq<Instance>, registry: Registry)
    requires Closed(rows, registry) && Validated(rows, rows', deployment, listing, registry)
    ensures Closed(rows', registry)
  {
    hide Acyclic;
    forall a | a in rows'
      ensures RequirementsMet(rows', a, registry)
    {
      if rows'[a].deploymentId == deployment {
        AcceptedRequirements(listing, registry, rows'[a].stackName);
      } else {
        KeptRequirements(rows, rows', deployment, a, registry);
      }
    }
  }

  lemma AcceptedRequirements(listing: seq<Instance>, registry: Registry, name: string)
    requires Accepts(listing, registry) && name in StackNames(listing)
    ensures name in registry
    ensures forall t :: t in RequiredNames(registry[name]) ==> t in StackNames(listing)
  {
    hide Acyclic;
    var i :| 0 <= i < |listing| && StackNames(listing)[i] == name;
    assert listing[i] in listing;
    forall t | t in RequiredNames(registry[name])
      ensures t in StackNames(listing)
    {
      assert t in Needs(registry[name], listing[i]);
      assert t in Elements(StackNames(listing));
    }
  }

  lemma KeptRequirements(rows: Rows, rows': Rows, deployment: nat, a: nat, registry: Registry)
    requires OthersKept(rows, rows', deployment) && a in rows' && rows'[a].deploymentId != deployment
    requires RequirementsMet(rows, a, registry)
    ensures RequirementsMet(rows', a, registry)
  {}

  /** Over any run of saves, updates and deletions, accepted, rejected or failing, the store stays
      closed. */
  lemma {:induction false} RunsStayClosed(run: seq<Rows>, registry: Registry)
    requires |run| > 0 && Closed(run[0], registry)
    requires forall i :: 0 <= i < |run| - 1 ==> Step(run[i], run[i + 1], registry)
    ensures forall i :: 0 <= i < |run| ==> Closed(run[i], registry)
  {
    hide Closed, Validated;
    if |run| > 1 {
      var init := run[..|run| - 1];
      forall i | 0 <= i < |init| - 1
        ensures Step(init[i], init[i + 1], registry)
      {
        assert Step(run[i], run[i + 1], registry);
      }
      RunsStayClosed(init, registry);
      var before, after := run[|run| - 2], run[|run| - 1];
      assert Closed(init[|run| - 2], registry);
      assert Step(run[|run| - 2], run[|run| - 2 + 1], registry);
      if after != before {
        var deployment, listing :| Validated(before, after, deployment, listing, registry);
        ValidatedKeepsClosed(before, after, deployment, listing, registry);
      }
    }
  }

  /** So, starting from an empty store, no deployment ever has two instances of a stack, and whatever
      the stack of an instance requires is in its deployment. */
  lemma StoreStaysClosed(run: seq<Rows>, i: nat, registry: Registry)
    requires i < |run| && run[0] == map[]
    requires forall k :: 0 <= k < |run| - 1 ==> Step(run[k], run[k + 1], registry)
    ensures forall a, b :: a in run[i] && b in run[i] && a != b && run[i][a].deploymentId == run[i][b].deploymentId ==>
              run[i][a].stackName != run[i][b].stackName
    ensures forall a :: a in run[i] ==> run[i][a].stackName in registry
    ensures forall a, r :: a in run[i] && r in registry[run[i][a].stackName].required ==>
              exists b :: b in run[i] && run[i][b].deploymentId == run[i][a].deploymentId && run[i][b].stackName == r.name
  {
    hide Validated;
    RunsStayClosed(run, registry);
    var rows := run[i];
    assert Closed(rows, registry);
    forall a, r | a in rows && rows[a].stackName in registry && r in registry[rows[a].stackName].required
      ensures exists b :: b in rows && rows[b].deploymentId == rows[a].deploymentId && rows[b].stackName == r.name
    {
      var required := registry[rows[a].stackName].required;
      var k :| 0 <= k < |required| && required[k] == r;
      assert RequiredNames(registry[rows[a].stackName])[k] == r.name;
      assert RequirementsMet(rows, a, registry);
      assert r.name in RequiredNames(registry[rows[a].stackName]);
      assert HasInstance(rows, rows[a].deploymentId, r.name);
    }
  }

  // The operations.

  /** A listing covers the rows it lists. */
  lemma ListingCovers(rows: Rows, deployment: nat, listing: seq<Instance>)
    requires WellKeyed(rows) && Lists(rows, deployment, listing)
    ensures Covers(rows, deployment, listing)
  {
    forall a | a in rows && rows[a].deploymentId == deployment
      ensures exists i :: 0 <= i < |listing| && listing[i] == rows[a] && StackNames(listing)[i] == rows[a].stackName
    {
      assert rows[a] in listing;
      var i :| 0 <= i < |listing| && listing[i] == rows[a];
      assert StackNames(listing)[i] == rows[a].stackName;
    }
    forall n | n in StackNames(listing)
      ensures HasInstance(rows, deployment, n)
    {
      var i :| 0 <= i < |listing| && StackNames(listing)[i] == n;
      assert listing[i] in listing;
    }
  }

  /** Covering looks at nothing but the stacks of the listed instances. */
  lemma CoversSameStacks(rows: Rows, deployment: nat, a: seq<Instance>, b: seq<Instance>)
    requires Covers(rows, deployment, a) && StackNames(a) == StackNames(b)
    ensures Covers(rows, deployment, b)
  {}

  /** ... and at nothing but the deployment and the stack of each row. */
  lemma CoversSameSlots(rows: Rows, rows': Rows, deployment: nat, listing: seq<Instance>)
    requires Covers(rows, deployment, listing)
    requires rows'.Keys == rows.Keys && forall id :: id in rows ==> SameSlot(rows[id], rows'[id])
    ensures Covers(rows', deployment, listing)
  {}

  lemma SavedIsStep(rows: Rows, instance: Instance, saved: Instance, listing: seq<Instance>, registry: Registry)
    requires WellKeyed(rows) && Lists(rows, instance.deploymentId, listing) && saved.id !in rows
    requires SameSlot(instance, saved) && Accepts(listing + [instance], registry)
    ensures Step(rows, rows[saved.id := saved], registry)
  {
    hide Accepts, Covers;
    var rows', after := rows[saved.id := saved], listing + [saved];
    ListingCovers(rows', instance.deploymentId, after);
    assert StackNames(after) == StackNames(listing + [instance]);
    CoversSameStacks(rows', instance.deploymentId, after, listing + [instance]);
    hide Lists;
    assert OthersKept(rows, rows', instance.deploymentId);
    assert Validated(rows, rows', instance.deploymentId, listing + [instance], registry);
  }

  lemma UpdatedIsStep(rows: Rows, id: nat, saved: Instance, listing: seq<Instance>, all: seq<Instance>, registry: Registry)
    requires WellKeyed(rows) && id in rows && saved.id == id && SameSlot(rows[id], saved)
    requires Lists(rows, saved.deploymentId, listing) && StackNames(all) == StackNames(listing) && Accepts(all, registry)
    ensures Step(rows, rows[id := saved], registry)
  {
    hide Accepts, Covers, Lists;
    var rows', d := rows[id := saved], saved.deploymentId;
    ListingCovers(rows, d, listing);
    CoversSameSlots(rows, rows', d, listing);
    CoversSameStacks(rows', d, listing, all);
    assert Validated(rows, rows', d, all, registry);
  }

  lemma DeletedIsStep(rows: Rows, id: nat, listing: seq<Instance>, at: nat, registry: Registry)
    requires WellKeyed(rows) && id in rows && Lists(rows, rows[id].deploymentId, listing)
    requires at < |listing| && listing[at].id == id && Accepts(listing[..at] + listing[at + 1..], registry)
    ensures Step(rows, rows - {id}, registry)
  {
    hide Accepts, Covers;
    var rows', rest := rows - {id}, listing[..at] + listing[at + 1..];
    RestLists(rows, id, listing, at);
    ListingCovers(rows', rows[id].deploymentId, rest);
    hide Lists;
    assert Validated(rows, rows', rows[id].deploymentId, rest, registry);
  }

  lemma RestLists(rows: Rows, id: nat, listing: seq<Instance>, at: nat)
    requires WellKeyed(rows) && id in rows && Lists(rows, rows[id].deploymentId, listing)
    requires at < |listing| && listing[at].id == id
    ensures Lists(rows - {id}, rows[id].deploymentId, listing[..at] + listing[at + 1..])
  {}

  lemma AcceptedNeedNoSelf(listing: seq<Instance>, registry: Registry)
    requires Accepts(listing, registry)
    ensures NoSelfRequirement(listing, registry)
  {
    hide Acyclic;
    forall x | x in listing && x.stackName in registry
      ensures x.stackName !in RequiredNames(registry[x.stackName])
    {
      if x.stackName in RequiredNames(registry[x.stackName]) {
        assert (x.stackName, x.stackName) in NeedEdges(listing, registry);
        ReachesSelf(NeedEdges(listing, registry), x.stackName);
        ReachesBack(NeedEdges(listing, registry), (x.stackName, x.stackName));
        assert false;
      }
    }
  }

  /** The instances form a valid deployment, and their parameters can be completed. */
  ghost predicate Storable(instances: seq<Instance>, registry: Registry) {
    Accepts(instances, registry) && Resolve(instances, registry).Ok?
  }

  /** The stack is known, and the user supplies none of the parameters that it consumes. */
  predicate SuppliesOnly(registry: Registry, stackName: string, names: set<string>) {
    stackName in registry && forall n :: n in names ==> !Consumes(registry[stackName], n)
  }

  /** Whether the deployment can be stored with the new instance, in the order the database listed it. */
  ghost predicate SaveVerdict(rows: Rows, instance: Instance, registry: Registry, verdict: bool) {
    exists listing :: Lists(rows, instance.deploymentId, listing) && Storable(listing + [instance], registry) == verdict
  }

  /** What is stored is the new instance as it is in the resolved deployment, where it comes last. */
  ghost predicate SavedFrom(rows: Rows, instance: Instance, id: nat, saved: Instance, registry: Registry) {
    exists listing :: SavedAs(rows, instance, id, saved, registry, listing)
  }

  ghost predicate SavedAs(rows: Rows, instance: Instance, id: nat, saved: Instance, registry: Registry, listing: seq<Instance>) {
    && Lists(rows, instance.deploymentId, listing) && Storable(listing + [instance], registry)
    && var r := Resolve(listing + [instance], registry).value;
       |r| == |listing| + 1 && saved == r[|listing|].(id := id)
  }

  /** The last instance of the resolved deployment is what may be stored. */
  lemma LastCanBeSaved(rows: Rows, instance: Instance, id: nat, listing: seq<Instance>, resolved: seq<Instance>, registry: Registry)
    requires WellKeyed(rows) && id !in rows && Lists(rows, instance.deploymentId, listing)
    requires Storable(listing + [instance], registry) && resolved == Resolve(listing + [instance], registry).value
    requires |resolved| == |listing| + 1 && Completed(instance, resolved[|listing|], registry)
    ensures var saved := resolved[|listing|].(id := id);
            && SavedFrom(rows, instance, id, saved, registry) && Completed(instance.(id := id), saved, registry)
            && SameSlot(instance, saved) && Step(rows, rows[id := saved], registry)
  {
    hide Lists, Accepts, Resolve, WellKeyed, Step;
    var saved := resolved[|listing|].(id := id);
    assert SavedAs(rows, instance, id, saved, registry, listing);
    SavedIsStep(rows, instance, saved, listing, registry);
  }

  /** What a new instance consumes is what its sources hold. */
  lemma SavedMatchesSources(rows: Rows, instance: Instance, id: nat, saved: Instance, registry: Registry, name: string, q: nat)
    returns (deployment: seq<Instance>)
    requires SavedFrom(rows, instance, id, saved, registry) && Coherent(registry) && instance.stackName in registry
    requires Consumes(registry[instance.stackName], name) && SoleCarrier(registry[instance.stackName], name, q)
    ensures |deployment| > 0 && deployment[|deployment| - 1].(id := id) == saved
    ensures MatchesSource(deployment, |deployment| - 1, name, registry[instance.stackName], q)
    ensures exists listing :: Lists(rows, instance.deploymentId, listing) && Resolve(listing + [instance], registry) == Ok(deployment)
  {
    hide Resolve, Lists, Accepts, Coherent, MatchesSource, Consumes, SoleCarrier;
    var listing :| SavedAs(rows, instance, id, saved, registry, listing);
    deployment := Resolve(listing + [instance], registry).value;
    LastMatchesSource(listing + [instance], |listing|, name, q, registry);
  }

  /** What is stored is the updated instance as it is in the resolved deployment. */
  ghost predicate UpdatedFrom(rows: Rows, deployment: nat, id: nat, updated: Instance, saved: Instance, registry: Registry) {
    exists listing, at: nat :: UpdatedAs(rows, deployment, id, updated, saved, registry, listing, at)
  }

  ghost predicate UpdatedAs(rows: Rows, deployment: nat, id: nat, updated: Instance, saved: Instance, registry: Registry,
                            listing: seq<Instance>, at: nat)
  {
    && Replaces(rows, deployment, id, updated, registry, true, listing, at)
    && var r := Resolve(listing[at := updated], registry).value;
       |r| == |listing| && saved == r[at]
  }

  /** Every stored instance has exactly its stack's parameters. */
  ghost predicate ExactRows(rows: Rows, registry: Registry) {
    forall id :: id in rows ==> rows[id].stackName in registry && rows[id].parameters.Keys == registry[rows[id].stackName].parameters.Keys
  }

  /** What saves and updates store keeps it so. */
  lemma StoredKeepsExact(rows: Rows, id: nat, before: Instance, saved: Instance, registry: Registry)
    requires ExactRows(rows, registry) && Completed(before, saved, registry)
    ensures ExactRows(rows[id := saved], registry)
  {}

  /** What an updated instance consumes is what its sources hold, if no provider reads values that its
      own stack consumes. */
  lemma UpdatedMatchesSources(rows: Rows, deployment: nat, id: nat, values: map<string, string>, public: Option<bool>, saved: Instance,
                              registry: Registry)
    returns (resolved: seq<Instance>, at: nat)
    requires ExactRows(rows, registry) && id in rows && Coherent(registry) && ProvidersReadNoConsumed(registry)
    requires UpdatedFrom(rows, deployment, id, Updated(rows[id], values, public), saved, registry)
    ensures at < |resolved| && saved == resolved[at] && Settled(resolved, registry)
  {
    var updated := Updated(rows[id], values, public);
    hide Updated, ExactRows, Replaces, Lists, Resolve, Accepts, Coherent, ProvidersReadNoConsumed, Settled, ExactParameters;
    var listing, k: nat :| UpdatedAs(rows, deployment, id, updated, saved, registry, listing, k);
    at := k;
    resolved := Resolve(listing[k := updated], registry).value;
    UpdatedIsExact(rows, deployment, id, values, public, registry, listing, k);
    SecondPassSettles(listing[k := updated], registry);
  }

  lemma UpdatedIsExact(rows: Rows, deployment: nat, id: nat, values: map<string, string>, public: Option<bool>, registry: Registry,
                       listing: seq<Instance>, at: nat)
    requires ExactRows(rows, registry) && id in rows
    requires Replaces(rows, deployment, id, Updated(rows[id], values, public), registry, true, listing, at)
    ensures ExactParameters(listing[at := Updated(rows[id], values, public)], registry)
  {
    var all := listing[at := Updated(rows[id], values, public)];
    hide Resolve, Accepts;
    ResolveCompletes(all, registry);
    forall i | 0 <= i < |all|
      ensures all[i].stackName in registry && all[i].parameters.Keys == registry[all[i].stackName].parameters.Keys
    {
      assert listing[i] in listing;
    }
  }

  ghost predicate Replaces(rows: Rows, deployment: nat, id: nat, updated: Instance, registry: Registry, verdict: bool,
                           listing: seq<Instance>, at: nat)
  {
    && Lists(rows, deployment, listing) && at < |listing| && listing[at].id == id
    && Storable(listing[at := updated], registry) == verdict
  }

  class InstanceService {
    const registry: Registry
    var deployments: set<nat>
    var rows: Rows
    /** The instance that holds the lock of each locked database. */
    var locks: map<nat, nat>

    ghost predicate Valid()
      reads this
    {
      WellKeyed(rows)
    }

    constructor (registry: Registry)
      ensures Valid() && this.registry == registry && rows == map[] && deployments == {} && locks == map[]
    {
      this.registry := registry;
      deployments, rows, locks := {}, map[], map[];
    }

    /** Finds the instances of a deployment, in whatever order the database returns them. */
    method FindDeployment(deployment: nat) returns (found: bool, instances: seq<Instance>)
      requires Valid()
      ensures found <==> deployment in deployments
      ensures found ==> Lists(rows, deployment, instances)
    {
      if deployment !in deployments {
        return false, [];
      }
      instances := [];
      var todo := rows.Keys;
      while todo != {}
        invariant todo <= rows.Keys
        invariant forall x :: x in instances <==> x.id in rows.Keys - todo && rows[x.id] == x && x.deploymentId == deployment
        invariant Distinct(instances)
      {
        var id :| id in todo;
        todo := todo - {id};
        if rows[id].deploymentId == deployment {
          instances := instances + [rows[id]];
        }
      }
      return true, instances;
    }

    /** The user may not supply a parameter that the stack consumes. */
    method RejectConsumedParameters(stackName: string, names: set<string>) returns (ok: bool)
      ensures ok <==> SuppliesOnly(registry, stackName, names)
    {
      if stackName !in registry {
        return false;
      }
      ok := true;
      var todo := names;
      while todo != {}
        invariant todo <= names
        invariant ok <==> forall n :: n in names - todo ==> !Consumes(registry[stackName], n)
      {
        var n :| n in todo;
        todo := todo - {n};
        if Consumes(registry[stackName], n) {
          ok := false;
        }
      }
    }

    /** Validates the instances, completes their parameters, and returns them completed. */
    method ValidateAndResolve(instances: seq<Instance>) returns (ok: bool, resolved: seq<Instance>)
      ensures ok <==> Storable(instances, registry)
      ensures ok ==> resolved == Resolve(instances, registry).value && SameIdentities(instances, resolved)
      ensures ok ==> forall i :: 0 <= i < |instances| ==> Completed(instances[i], resolved[i], registry)
    {
      hide Acyclic;
      var validation := ValidateNoCycles(instances, registry);
      if validation.Invalid? {
        return false, [];
      }
      AcceptedNeedNoSelf(instances, registry);
      var deployment := new Deployment(instances);
      ok := deployment.ResolveParameters(registry);
      if ok {
        ResolveCompletes(instances, registry);
      }
      return ok, deployment.instances;
    }

    /** Saves a new instance under a fresh id. It is stored only if the deployment with it is valid;
        then its parameters are exactly its stack's. Nothing else changes. */
    method SaveInstance(instance: Instance, id: nat, storeFails: bool) returns (ok: bool)
      requires Valid() && id !in rows
      modifies this
      ensures Valid() && deployments == old(deployments) && locks == old(locks)
      ensures Step(old(rows), rows, registry)
      ensures !ok ==> rows == old(rows)
      ensures ok ==> id in rows && rows == old(rows)[id := rows[id]] && Completed(instance.(id := id), rows[id], registry)
      ensures ok ==> !storeFails && instance.deploymentId in deployments
      ensures ok ==> forall n :: n in instance.parameters ==> !Consumes(registry[instance.stackName], n)
      ensures ok ==> SavedFrom(old(rows), instance, id, rows[id], registry)
      ensures ok ==> forall k :: k in old(rows) && old(rows)[k].name == instance.name && old(rows)[k].groupName == instance.groupName ==>
                       old(rows)[k].stackName != instance.stackName
      ensures ok ==> forall n :: n in instance.parameters ==> n in rows[id].parameters && rows[id].parameters[n] == instance.parameters[n]
      ensures !ok ==>
                || storeFails || instance.deploymentId !in deployments || !SuppliesOnly(registry, instance.stackName, instance.parameters.Keys)
                || (exists k :: && k in old(rows) && old(rows)[k].name == instance.name && old(rows)[k].groupName == instance.groupName
                                && old(rows)[k].stackName == instance.stackName)
                || exists listing :: Lists(old(rows), instance.deploymentId, listing) && !Storable(listing + [instance], registry)
    {
      ok := RejectConsumedParameters(instance.stackName, instance.parameters.Keys);
      if !ok {
        return;
      }
      var found, listing := FindDeployment(instance.deploymentId);
      if !found {
        return false;
      }
      var all := listing + [instance];
      var resolved: seq<Instance>;
      ok, resolved := ValidateAndResolve(all);
      assert SaveVerdict(rows, instance, registry, ok) && all[|all| - 1] == instance;
      hide SaveVerdict, SavedFrom, SuppliesOnly, Storable, Completed, Resolve, Lists, Step;
      if !ok || storeFails || !Unique(instance) {
        return false;
      }
      LastCanBeSaved(rows, instance, id, listing, resolved, registry);
      rows := rows[id := resolved[|listing|].(id := id)];
      return true;
    }

    /** The database's unique index on name, group and stack. */
    predicate Unique(instance: Instance)
      reads this
    {
      forall id :: id in rows ==>
        !(rows[id].name == instance.name && rows[id].groupName == instance.groupName && rows[id].stackName == instance.stackName)
    }

    /** Overwrites parameters of a stored instance, which is stored again only if the deployment with
        the new values is valid. Nothing else changes. */
    method UpdateInstanceParameters(deployment: nat, id: nat, values: map<string, string>, public: Option<bool>, storeFails: bool)
      returns (ok: bool)
      requires Valid()
      modifies this
      ensures Valid() && deployments == old(deployments) && locks == old(locks)
      ensures Step(old(rows), rows, registry)
      ensures !ok ==> rows == old(rows)
      ensures ok ==> id in old(rows) && old(rows)[id].deploymentId == deployment && deployment in deployments && !storeFails
      ensures ok ==> id in rows && rows == old(rows)[id := rows[id]] && Completed(Updated(old(rows)[id], values, public), rows[id], registry)
      ensures ok ==> UpdatedFrom(old(rows), deployment, id, Updated(old(rows)[id], values, public), rows[id], registry)
      ensures !ok ==>
                || storeFails || id !in old(rows) || old(rows)[id].deploymentId != deployment || deployment !in deployments
                || !SuppliesOnly(registry, old(rows)[id].stackName, values.Keys)
                || exists listing: seq<Instance>, at: nat :: && Lists(old(rows), deployment, listing) && at < |listing| && listing[at].id == id
                                              && !Storable(listing[at := Updated(old(rows)[id], values, public)], registry)
      ensures ok ==>
                forall n :: n in values ==>
                  !Consumes(registry[old(rows)[id].stackName], n) && n in rows[id].parameters && rows[id].parameters[n] == InstanceParameter(n, values[n])
      ensures ok ==>
                forall n :: n in old(rows)[id].parameters && n !in values && !Consumes(registry[old(rows)[id].stackName], n) ==>
                  n in rows[id].parameters && rows[id].parameters[n] == old(rows)[id].parameters[n]
      ensures ok ==> rows[id] == old(rows)[id].(parameters := rows[id].parameters, public := rows[id].public)
      ensures ok ==> rows[id].public == if public.Some? then public.value else old(rows)[id].public
    {
      if id !in rows || rows[id].deploymentId != deployment {
        return false;
      }
      ok := RejectConsumedParameters(rows[id].stackName, values.Keys);
      if !ok {
        return;
      }
      var updated := Updated(rows[id], values, public);
      var found, listing := FindDeployment(deployment);
      if !found {
        return false;
      }
      assert rows[id] in listing;
      var at := Position(listing, id);
      var all := listing[at := updated];
      var resolved: seq<Instance>;
      ok, resolved := ValidateAndResolve(all);
      assert Replaces(rows, deployment, id, updated, registry, ok, listing, at);
      assert ok ==> UpdatedAs(rows, deployment, id, updated, resolved[at], registry, listing, at);
      hide UpdatedAs, Replaces, Lists, Accepts, Resolve, SuppliesOnly, Step;
      if !ok || storeFails {
        return false;
      }
      assert StackNames(all) == StackNames(listing);
      assert resolved[at].id == id;
      UpdatedIsStep(rows, id, resolved[at], listing, all, registry);
      rows := rows[id := resolved[at]];
      return true;
    }

    /** Deletes an instance that nothing else in its deployment needs. Its record goes, with the
        locks it holds, only after it has been destroyed. */
    method DeleteInstance(deployment: nat, id: nat, destroyFails: bool, storeFails: bool) returns (ok: bool)
      requires Valid()
      modifies this
      ensures Valid() && deployments == old(deployments)
      ensures Step(old(rows), rows, registry)
      ensures !ok ==> rows == old(rows) && locks == old(locks)
      ensures ok <==> && deployment in deployments && id in old(rows) && old(rows)[id].deploymentId == deployment
                      && !destroyFails && !storeFails && AcceptedDeployment(old(rows) - {id}, deployment, registry)
      ensures ok ==> rows == old(rows) - {id} && locks == Unheld(old(locks), id)
    {
      var found, listing := FindDeployment(deployment);
      if !found || id !in rows || rows[id].deploymentId != deployment {
        return false;
      }
      assert rows[id] in listing;
      var at := Position(listing, id);
      var rest := listing[..at] + listing[at + 1..];
      RestLists(rows, id, listing, at);
      ListingDecides(rows - {id}, deployment, rest, registry);
      var validation := ValidateNoCycles(rest, registry);
      if validation.Invalid? || destroyFails || storeFails {
        return false;
      }
      DeletedIsStep(rows, id, listing, at, registry);
      rows := rows - {id};
      locks := Unheld(locks, id);
      return true;
    }

    /** Destroys the instances in the given order, going on after a failure. */
    method DestroyAll(instances: seq<Instance>, destroyFails: set<nat>, removeFails: set<nat>)
      returns (ok: bool, attempts: seq<Instance>)
      requires Valid()
      modifies this
      ensures Valid() && deployments == old(deployments) && attempts == instances
      ensures rows == Surviving(old(rows), instances, destroyFails + removeFails)
      ensures locks == ReleasedBy(old(locks), instances, destroyFails + removeFails)
      ensures ok <==> NoneFails(instances, destroyFails + removeFails)
    {
      ghost var failing := destroyFails + removeFails;
      NothingAttempted(rows, locks, failing);
      ok, attempts := true, [];
      for i := 0 to |instances|
        invariant Valid() && deployments == old(deployments) && attempts == instances[..i]
        invariant rows == Surviving(old(rows), instances[..i], failing)
        invariant locks == ReleasedBy(old(locks), instances[..i], failing)
        invariant ok <==> NoneFails(instances[..i], failing)
      {
        var x := instances[i];
        attempts := attempts + [x];
        assert instances[..i + 1] == instances[..i] + [x];
        if x.id in destroyFails || x.id in removeFails {
          ok := false;
        } else {
          rows := rows - {x.id};
          locks := Unheld(locks, x.id);
        }
      }
      assert instances[..|instances|] == instances;
    }

    /** Deletes a deployment: destroys its instances in the reverse of the order they are deployed
        in, each attempted once. A record goes, with the locks its instance holds, only if its own
        destruction and removal succeed; the deployment goes only if nothing failed. */
    method DeleteDeployment(deployment: nat, destroyFails: set<nat>, removeFails: set<nat>, rowFails: bool)
      returns (ok: bool, attempts: seq<Instance>)
      requires Valid()
      modifies this
      ensures Valid()
      ensures if deployment in old(deployments) && AcceptedDeployment(old(rows), deployment, registry)
              then Attempted(old(rows), deployment, attempts) && NeedsComeLast(attempts, registry)
              else attempts == [] && !ok
      ensures rows == Surviving(old(rows), attempts, destroyFails + removeFails)
      ensures locks == ReleasedBy(old(locks), attempts, destroyFails + removeFails)
      ensures ok <==> && deployment in old(deployments) && AcceptedDeployment(old(rows), deployment, registry)
                      && NoneFails(attempts, destroyFails + removeFails) && !rowFails
      ensures deployments == if ok then old(deployments) - {deployment} else old(deployments)
    {
      hide Accepts, NeedsComeFirst, NeedsComeLast, Surviving, ReleasedBy, NoneFails, Lists;
      NothingAttempted(rows, locks, destroyFails + removeFails);
      var found, listing := FindDeployment(deployment);
      if !found {
        return false, [];
      }
      ListingDecides(rows, deployment, listing, registry);
      var order := DeploymentOrder(listing, registry);
      if order.Err? {
        return false, [];
      }
      var instances := Reversed(order.value);
      ReversedNeeds(order.value, registry);
      ReversedMultiset(order.value);
      ok, attempts := DestroyAll(instances, destroyFails, removeFails);
      if !ok || rowFails {
        return false, attempts;
      }
      deployments := deployments - {deployment};
    }
  }

  ghost predicate NoneFails(instances: seq<Instance>, failing: set<nat>) {
    forall x :: x in instances ==> x.id !in failing
  }

  /** The stored instances form a valid deployment. */
  ghost predicate AcceptedDeployment(rows: Rows, deployment: nat, registry: Registry) {
    exists listing :: Lists(rows, deployment, listing) && Accepts(listing, registry)
  }

  /** Every stored instance of the deployment was attempted, once. */
  ghost predicate Attempted(rows: Rows, deployment: nat, attempts: seq<Instance>) {
    exists listing :: Lists(rows, deployment, listing) && multiset(attempts) == multiset(listing)
  }

  lemma ListingDecides(rows: Rows, deployment: nat, listing: seq<Instance>, registry: Registry)
    requires Lists(rows, deployment, listing)
    ensures AcceptedDeployment(rows, deployment, registry) <==> Accepts(listing, registry)
  {
    hide Accepts, Lists;
    if AcceptedDeployment(rows, deployment, registry) {
      var other :| Lists(rows, deployment, other) && Accepts(other, registry);
      AnyListing(rows, deployment, other, listing, registry);
    }
  }

  /** The rows left after the attempts: those not attempted and those that failed. */
  ghost function Surviving(rows: Rows, attempts: seq<Instance>, failing: set<nat>): Rows {
    map id | id in rows && (id in failing || forall x :: x in attempts ==> x.id != id) :: rows[id]
  }

  /** The locks left after the attempts: those not held by an instance that went. */
  ghost function ReleasedBy(locks: map<nat, nat>, attempts: seq<Instance>, failing: set<nat>): map<nat, nat> {
    map d | d in locks && (locks[d] in failing || forall x :: x in attempts ==> x.id != locks[d]) :: locks[d]
  }

  lemma NothingAttempted(rows: Rows, locks: map<nat, nat>, failing: set<nat>)
    ensures Surviving(rows, [], failing) == rows && ReleasedBy(locks, [], failing) == locks
  {}

  lemma {:induction false} ReversedMultiset<T>(s: seq<T>)
    ensures multiset(Reversed(s)) == multiset(s)
  {
    if s != [] {
      var init, last := s[..|s| - 1], s[|s| - 1];
      assert s == init + [last];
      assert Reversed(s) == [last] + Reversed(init);
      ReversedMultiset(init);
    }
  }

  /** What survives a deletion of the whole deployment is exactly what failed. */
  lemma SurvivorsAreTheFailed(rows: Rows, deployment: nat, attempts: seq<Instance>, failing: set<nat>)
    requires WellKeyed(rows) && Attempted(rows, deployment, attempts)
    ensures forall id :: id in rows && rows[id].deploymentId == deployment ==>
              (id in Surviving(rows, attempts, failing) <==> id in failing)
    ensures forall id :: id in rows && rows[id].deploymentId != deployment ==> id in Surviving(rows, attempts, failing)
  {
    var listing :| Lists(rows, deployment, listing) && multiset(attempts) == multiset(listing);
    SameElements(attempts, listing);
    forall id | id in rows && rows[id].deploymentId == deployment
      ensures id in Surviving(rows, attempts, failing) <==> id in failing
    {
      assert rows[id] in attempts;
    }
  }

  /** Deploys the instances in order and stops at the first failure, so whatever has been deployed
      has everything it needs deployed before it. */
  method DeployDeployment(instances: seq<Instance>, registry: Registry, tokenFails: set<nat>, deployFails: set<nat>)
    returns (ok: bool, deployed: seq<Instance>, ghost stopped: Option<Instance>)
    ensures ok <==> Accepts(instances, registry) && NoneFails(instances, tokenFails + deployFails)
    ensures !ok && Accepts(instances, registry) ==>
              && stopped.Some? && stopped.value.id in tokenFails + deployFails
              && NeedsComeFirst(deployed + [stopped.value], registry) && multiset(deployed + [stopped.value]) <= multiset(instances)
    ensures ok ==> multiset(deployed) == multiset(instances)
    ensures NeedsComeFirst(deployed, registry) && NoneFails(deployed, tokenFails + deployFails)
    ensures multiset(deployed) <= multiset(instances)
  {
    hide Accepts, NeedsComeFirst, NoneFails;
    var order := DeploymentOrder(instances, registry);
    if order.Err? {
      PrefixOfOrder([], 0, registry, tokenFails + deployFails);
      return false, [], None;
    }
    NoneFailsShuffle(order.value, instances, tokenFails + deployFails);
    PrefixOfOrder(order.value, 0, registry, tokenFails + deployFails);
    deployed := [];
    for i := 0 to |order.value|
      invariant deployed == order.value[..i]
      invariant NoneFails(deployed, tokenFails + deployFails)
    {
      PrefixOfOrder(order.value, i, registry, tokenFails + deployFails);
      var x := order.value[i];
      if x.id in tokenFails || x.id in deployFails {
        PrefixOfOrder(order.value, i + 1, registry, tokenFails + deployFails);
        assert order.value[..i + 1] == deployed + [x];
        return false, deployed, Some(x);
      }
      deployed := deployed + [x];
      assert order.value[..i + 1] == order.value[..i] + [x];
    }
    assert order.value[..|order.value|] == order.value;
    return true, deployed, None;
  }

  lemma NoneFailsShuffle(a: seq<Instance>, b: seq<Instance>, failing: set<nat>)
    requires multiset(a) == multiset(b)
    ensures NoneFails(a, failing) <==> NoneFails(b, failing)
  {
    SameElements(a, b);
  }

  lemma PrefixOfOrder(order: seq<Instance>, i: nat, registry: Registry, failing: set<nat>)
    requires i <= |order| && (NeedsComeFirst(order, registry) || order == [])
    ensures NeedsComeFirst(order[..i], registry) && multiset(order[..i]) <= multiset(order)
    ensures i == 0 ==> NoneFails(order[..i], failing)
    ensures i < |order| ==> (NoneFails(order[..i + 1], failing) <==> NoneFails(order[..i], failing) && order[i].id !in failing)
    ensures i < |order| && order[i].id in failing ==> !NoneFails(order, failing)
  {
    assert order == order[..i] + order[i..];
    if i < |order| {
      assert order[..i + 1] == order[..i] + [order[i]];
      assert order[i] in order;
    }
  }

  /** The position of the instance with the given id. */
  method Position(listing: seq<Instance>, id: nat) returns (at: nat)
    requires exists x :: x in listing && x.id == id
    ensures at < |listing| && listing[at].id == id
  {
    at := 0;
    while at < |listing| && listing[at].id != id
      invariant at <= |listing| && forall k :: 0 <= k < at ==> listing[k].id != id
    {
      at := at + 1;
    }
  }

  /** The instance with the given values written over its parameters. */
  function Updated(instance: Instance, values: map<string, string>, public: Option<bool>): (r: Instance)
    ensures SameSlot(instance, r) && r.id == instance.id
    ensures forall n :: n in values ==> n in r.parameters && r.parameters[n] == InstanceParameter(n, values[n])
    ensures forall n :: n !in values ==>
              (n in r.parameters <==> n in instance.parameters) && (n in instance.parameters ==> r.parameters[n] == instance.parameters[n])
  {
    var parameters := map n | n in instance.parameters.Keys + values.Keys ::
                        if n in values then InstanceParameter(n, values[n]) else instance.parameters[n];
    instance.(parameters := parameters, public := if public.Some? then public.value else instance.public)
  }

  /** The locks that remain once an instance gives up those it holds. */
  function Unheld(locks: map<nat, nat>, id: nat): map<nat, nat> {
    map d | d in locks && locks[d] != id :: locks[d]
  }
}
