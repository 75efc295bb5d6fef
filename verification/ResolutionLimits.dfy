/** What passes over a deployment's parameters do not achieve: examples that show where the results
    about them end. */
module ResolutionLimits {
  import opened Model
  import opened ParameterResolution
  import opened ResolutionProperties

  // A source that offers "p", and a consumer of it.

  function SourceStack(value: string): Stack {
    Stack("source", map["p" := StackParameter(Some(value), false, None, None)], map[], [])
  }

  function ConsumerStack(value: string): Stack {
    Stack("consumer", map["p" := StackParameter(None, true, None, None)], map[], [SourceStack(value)])
  }

  function PairOfStacks(value: string): Registry {
    map["source" := SourceStack(value), "consumer" := ConsumerStack(value)]
  }

  /** The consumer, listed before its source. */
  function Pair(consumer: Parameters, source: Parameters): seq<Instance> {
    var group := Group(1, "g", "g");
    [Instance(1, "x", "g", group, "consumer", 1, false, consumer), Instance(2, "x", "g", group, "source", 1, false, source)]
  }

  function Only(value: string): Parameters {
    map["p" := InstanceParameter("p", value)]
  }

  lemma SourceIsSecond(consumer: Parameters, source: Parameters)
    ensures IndexOf(Pair(consumer, source), "source") == 1
  {}

  lemma ConsumerTurn(value: string, consumer: Parameters, source: Parameters)
    requires consumer == map[] || consumer == Only("")
    requires source == map[] || source == Only(value)
    ensures ResolveOne(Pair(consumer, source), 0, PairOfStacks(value))
         == Ok(Pair(Only(if source == map[] then "" else value), source)[0])
  {
    var value1 := if source == map[] then "" else value;
    var instances, stack := Pair(consumer, source), ConsumerStack(value);
    var complete := instances[0].(parameters := WithDefaults(consumer, stack));
    assert complete.parameters == Only("");
    SourceIsSecond(consumer, source);
    hide IndexOf;
    assert FromRequired(instances, complete, "p", stack.required[0], "") == Ok(value1);
    assert stack.required[1..] == [];
    assert ConsumedValue(instances, complete, "p", stack.required[1..], value1) == Ok(value1);
    assert ConsumedValue(instances, complete, "p", stack.required, "") == Ok(value1);
    assert Consumed(instances, complete, stack) == Only(value1);
  }

  lemma SourceTurn(value: string, consumer: Parameters, source: Parameters)
    requires source == map[] || source == Only(value)
    ensures ResolveOne(Pair(consumer, source), 1, PairOfStacks(value)) == Ok(Pair(consumer, Only(value))[1])
  {
    var instances, stack := Pair(consumer, source), SourceStack(value);
    var complete := instances[1].(parameters := WithDefaults(source, stack));
    assert complete.parameters == Only(value);
    assert Consumed(instances, complete, stack) == Only(value);
  }

  lemma PassOverPair(value: string, consumer: Parameters, source: Parameters)
    requires consumer == map[] || consumer == Only("")
    requires source == map[] || source == Only(value)
    ensures Resolve(Pair(consumer, source), PairOfStacks(value)) == Ok(Pair(Only(if source == map[] then "" else value), Only(value)))
  {
    var consumed := Only(if source == map[] then "" else value);
    ConsumerTurn(value, consumer, source);
    SourceTurn(value, consumed, source);
    hide ResolveOne, PairOfStacks, Only;
    var first, second := Pair(consumed, source), Pair(consumed, Only(value));
    assert Pair(consumer, source)[0 := first[0]] == first && first[1 := second[1]] == second;
    assert ResolveFrom(second, 2, PairOfStacks(value)) == Ok(second);
    assert ResolveFrom(first, 1, PairOfStacks(value)) == Ok(second);
  }

  lemma PairIsSound(value: string)
    ensures Coherent(PairOfStacks(value)) && Unambiguous(PairOfStacks(value)) && ParameterFreeProviders(PairOfStacks(value))
  {
    assert SoleCarrier(ConsumerStack(value), "p", 0);
    assert RequiredNames(ConsumerStack(value)) == ["source"];
  }

  /** One pass is not enough: a consumer listed before its source misses the source's default, and
      only the second pass brings it. */
  lemma OnePassIsNotEnough(value: string)
    requires value != ""
    ensures Coherent(PairOfStacks(value)) && Unambiguous(PairOfStacks(value)) && ParameterFreeProviders(PairOfStacks(value))
    ensures var once := Resolve(Pair(map[], map[]), PairOfStacks(value));
            once.Ok? && !Settled(once.value, PairOfStacks(value)) && Resolve(once.value, PairOfStacks(value)).Ok?
  {
    PairIsSound(value);
    PassOverPair(value, map[], map[]);
    PassOverPair(value, Only(""), Only(value));
    hide Coherent, Unambiguous, Resolve, IndexOf, ParameterFree;
    var once := Pair(Only(""), Only(value));
    SourceIsSecond(Only(""), Only(value));
    assert SoleCarrier(ConsumerStack(value), "p", 0) && !MatchesSource(once, 0, "p", ConsumerStack(value), 0);
    assert !SettledAt(once, PairOfStacks(value), 0);
  }

  // A chain of stacks whose middle one provides "p" by reading its own parameter "q".

  function ReadsParameter(): Provider {
    (x: Instance) => Ok(Held(x.parameters))
  }

  function Held(parameters: Parameters): string {
    if "q" in parameters then parameters["q"].value else ""
  }

  function LastStack(value: string): Stack {
    Stack("last", map["q" := StackParameter(Some(value), false, None, None)], map[], [])
  }

  function MiddleStack(value: string): Stack {
    Stack("middle", map["q" := StackParameter(None, true, None, None)], map["p" := ReadsParameter()], [LastStack(value)])
  }

  function FirstStack(value: string): Stack {
    Stack("first", map["p" := StackParameter(None, true, None, None)], map[], [MiddleStack(value)])
  }

  function ChainOfStacks(value: string): Registry {
    map["first" := FirstStack(value), "middle" := MiddleStack(value), "last" := LastStack(value)]
  }

  function Named(name: string, value: string): Parameters {
    map[name := InstanceParameter(name, value)]
  }

  /** Each instance is listed before the one that it consumes from. */
  function Chain(first: Parameters, middle: Parameters, last: Parameters): seq<Instance> {
    var group := Group(1, "g", "g");
    [Instance(1, "x", "g", group, "first", 1, false, first), Instance(2, "x", "g", group, "middle", 1, false, middle),
     Instance(3, "x", "g", group, "last", 1, false, last)]
  }

  lemma ChainPositions(first: Parameters, middle: Parameters, last: Parameters)
    ensures IndexOf(Chain(first, middle, last), "middle") == 1 && IndexOf(Chain(first, middle, last), "last") == 2
  {
    var chain := Chain(first, middle, last);
    assert chain[1..][0] == chain[1] && chain[1..][1..] == [chain[2]];
  }

  /** The parameters are still missing, or are what earlier passes left. */
  predicate EmptyOr(parameters: Parameters, name: string, value: string) {
    parameters == map[] || parameters == Named(name, value)
  }

  lemma FirstTurn(value: string, p: string, first: Parameters, middle: Parameters, last: Parameters)
    requires EmptyOr(first, "p", p)
    ensures ResolveOne(Chain(first, middle, last), 0, ChainOfStacks(value)) == Ok(Chain(Named("p", Held(middle)), middle, last)[0])
  {
    var chain, stack := Chain(first, middle, last), FirstStack(value);
    var complete := chain[0].(parameters := WithDefaults(first, stack));
    ChainPositions(first, middle, last);
    hide IndexOf, EmptyOr;
    var own := complete.parameters["p"].value;
    assert FromRequired(chain, complete, "p", stack.required[0], own) == Ok(Held(middle));
    assert stack.required[1..] == [] && ConsumedValue(chain, complete, "p", stack.required[1..], Held(middle)) == Ok(Held(middle));
    assert ConsumedValue(chain, complete, "p", stack.required, own) == Ok(Held(middle));
    assert Consumed(chain, complete, stack) == Named("p", Held(middle));
  }

  lemma MiddleTurn(value: string, q: string, first: Parameters, middle: Parameters, last: Parameters)
    requires EmptyOr(middle, "q", q) && EmptyOr(last, "q", value) && (last == map[] ==> middle == map[])
    ensures ResolveOne(Chain(first, middle, last), 1, ChainOfStacks(value)) == Ok(Chain(first, Named("q", Held(last)), last)[1])
  {
    var chain, stack := Chain(first, middle, last), MiddleStack(value);
    var complete := chain[1].(parameters := WithDefaults(middle, stack));
    ChainPositions(first, middle, last);
    hide IndexOf;
    var own := complete.parameters["q"].value;
    assert FromRequired(chain, complete, "q", stack.required[0], own) == Ok(Held(last));
    assert stack.required[1..] == [] && ConsumedValue(chain, complete, "q", stack.required[1..], Held(last)) == Ok(Held(last));
    assert ConsumedValue(chain, complete, "q", stack.required, own) == Ok(Held(last));
    assert Consumed(chain, complete, stack) == Named("q", Held(last));
  }

  lemma LastTurn(value: string, first: Parameters, middle: Parameters, last: Parameters)
    requires EmptyOr(last, "q", value)
    ensures ResolveOne(Chain(first, middle, last), 2, ChainOfStacks(value)) == Ok(Chain(first, middle, Named("q", value))[2])
  {
    var chain, stack := Chain(first, middle, last), LastStack(value);
    var complete := chain[2].(parameters := WithDefaults(last, stack));
    assert complete.parameters == Named("q", value);
    assert Consumed(chain, complete, stack) == Named("q", value);
  }

  lemma PassOverChain(value: string, p: string, q: string, first: Parameters, middle: Parameters, last: Parameters)
    requires EmptyOr(first, "p", p) && EmptyOr(middle, "q", q) && EmptyOr(last, "q", value) && (last == map[] ==> middle == map[])
    ensures Resolve(Chain(first, middle, last), ChainOfStacks(value))
         == Ok(Chain(Named("p", Held(middle)), Named("q", Held(last)), Named("q", value)))
  {
    var registry := ChainOfStacks(value);
    var first', middle', last' := Named("p", Held(middle)), Named("q", Held(last)), Named("q", value);
    FirstTurn(value, p, first, middle, last);
    MiddleTurn(value, q, first', middle, last);
    LastTurn(value, first', middle', last);
    hide ResolveOne, ChainOfStacks, Named, Held, EmptyOr;
    var one, two, three := Chain(first', middle, last), Chain(first', middle', last), Chain(first', middle', last');
    assert Chain(first, middle, last)[0 := one[0]] == one && one[1 := two[1]] == two && two[2 := three[2]] == three;
    assert ResolveFrom(three, 3, registry) == Ok(three);
    assert ResolveFrom(two, 2, registry) == Ok(three);
    assert ResolveFrom(one, 1, registry) == Ok(three);
  }

  lemma ChainIsSound(value: string)
    ensures Coherent(ChainOfStacks(value)) && Unambiguous(ChainOfStacks(value))
  {
    assert SoleCarrier(FirstStack(value), "p", 0) && SoleCarrier(MiddleStack(value), "q", 0);
    assert RequiredNames(FirstStack(value)) == ["middle"] && RequiredNames(MiddleStack(value)) == ["last"];
  }

  /** Two passes are enough only if providers do not read what their own stack consumes: with one that
      does, two passes over a chain of three instances are not enough, although both succeed. */
  lemma ReadingProviderNeedsThreePasses(value: string)
    requires value != ""
    ensures Coherent(ChainOfStacks(value)) && Unambiguous(ChainOfStacks(value)) && !ProvidersReadNoConsumed(ChainOfStacks(value))
    ensures var once := Resolve(Chain(map[], map[], map[]), ChainOfStacks(value));
            && once.Ok?
            && var twice := Resolve(once.value, ChainOfStacks(value));
               && twice.Ok?
               && Resolve(twice.value, ChainOfStacks(value)).Ok? && Resolve(twice.value, ChainOfStacks(value)) != twice
  {
    ChainIsSound(value);
    PassOverChain(value, "", "", map[], map[], map[]);
    PassOverChain(value, "", "", Named("p", ""), Named("q", ""), Named("q", value));
    PassOverChain(value, "", value, Named("p", ""), Named("q", value), Named("q", value));
    ReadsNoConsumedIff(MiddleStack(value));
    assert MiddleStack(value).providers["p"] == ReadsParameter();
    assert "middle" in ChainOfStacks(value) && "p" in ChainOfStacks(value)["middle"].providers;
    ChainsDiffer(value);
    hide Coherent, Unambiguous, ReadsNoConsumed, Resolve, ChainOfStacks, Chain;
  }

  lemma ChainsDiffer(value: string)
    requires value != ""
    ensures Chain(Named("p", value), Named("q", value), Named("q", value)) != Chain(Named("p", ""), Named("q", value), Named("q", value))
  {
    assert Named("p", value)["p"] != Named("p", "")["p"];
    var a, b := Chain(Named("p", value), Named("q", value), Named("q", value)), Chain(Named("p", ""), Named("q", value), Named("q", value));
    assert a[0].parameters == Named("p", value) && b[0].parameters == Named("p", "");
  }

  /** A provider that looks only at the name and group of the instance, as the registered ones do, reads
      no parameters. */
  lemma ReadsOnlyNames(answer: (string, Group) -> Result<string>)
    ensures ParameterFree((x: Instance) => answer(x.name, x.group))
    ensures !ParameterFree(ReadsParameter())
  {
    var x := Chain(map[], Named("q", "a"), map[])[1];
    assert ReadsParameter()(x) != ReadsParameter()(x.(parameters := Named("q", "b")));
  }

  /** A provider that reads a parameter does no harm exactly if its stack does not consume it. */
  lemma ReadsNoConsumedIff(stack: Stack)
    ensures ReadsNoConsumed(ReadsParameter(), stack) <==> !Consumes(stack, "q")
  {
    if Consumes(stack, "q") {
      var x := Chain(map[], Named("q", "a"), map[])[1];
      assert Alike(x.parameters, Named("q", "b"), stack);
      assert ReadsParameter()(x) != ReadsParameter()(x.(parameters := Named("q", "b")));
    }
  }
}
