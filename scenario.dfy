/** A worked end-to-end case: a class that provides "greeting" and a method
    `greet(@inject("greeting") g, @inject() city: Example<string>)` with the
    example sets ["NYC"] and ["LA"], registered in that order. */
module Scenario {
  import opened Basics
  import opened ExampleCursor
  import opened ParameterResolver
  import opened Decorators
  import opened Runners

  const Hi: Resolver := Custom((key: string, index: nat) => Ok(Val("hi")))

  /** The metadata after every decorator of the class has been applied:
      the parameter decorators, then the method decorators, then the class
      decorator. */
  function Greeter(): Registry {
    var withCity := Inject(Empty, None, ExampleClass, "greet", 1);
    var withGreeting := Inject(withCity, Some(Str("greeting")), TypeRef("String"), "greet", 0);
    var withNyc := Example(withGreeting, "greet", [Val("NYC")]);
    var withLa := Example(withNyc, "greet", [Val("LA")]);
    Provide(withLa, Str("greeting"), Hi)
  }

  /** What the decorators leave: two providers, the argument list of `greet`
      and its two example sets with the cursor at its start. */
  const Decorated := Registry(
    map[ExampleClass := FromExamples, Str("greeting") := Hi],
    map["greet" := [Some(Str("greeting")), Some(ExampleClass)]],
    map["greet" := Initial.(examples := [[Val("NYC")], [Val("LA")]])],
    {}, [], [])

  lemma GreeterMetadata()
    ensures Greeter() == Decorated
  {
    var city := SetSlot([], 1, ExampleClass);
    assert city == [None, Some(ExampleClass)];
    var withCity := Inject(Empty, None, ExampleClass, "greet", 1);
    assert withCity.arguments == map["greet" := city];
    var both := SetSlot(city, 0, Str("greeting"));
    assert both == [Some(Str("greeting")), Some(ExampleClass)];
    var withGreeting := Inject(withCity, Some(Str("greeting")), TypeRef("String"), "greet", 0);
    assert withGreeting.arguments == map["greet" := both];
    assert withGreeting.examples == map[] && withGreeting.providers == map[];
    var nyc := Initial.(examples := [[Val("NYC")]]);
    assert [] + [[Val("NYC")]] == [[Val("NYC")]];
    var withNyc := Example(withGreeting, "greet", [Val("NYC")]);
    assert withNyc.examples == map["greet" := nyc];
    assert withNyc.providers == map[ExampleClass := FromExamples];
    assert withNyc.arguments == withGreeting.arguments;
    var withLa := Example(withNyc, "greet", [Val("LA")]);
    assert nyc.examples + [[Val("LA")]] == [[Val("NYC")], [Val("LA")]];
    assert withLa.examples == map["greet" := Initial.(examples := [[Val("NYC")], [Val("LA")]])];
    assert withLa.providers == map[ExampleClass := FromExamples];
    assert withLa.arguments == withGreeting.arguments;
    assert Greeter() == Provide(withLa, Str("greeting"), Hi);
  }

  /** Two runners, one per example set, named after the joined set. */
  lemma GreeterRunners()
    ensures Build(Greeter(), [("greet", true)])
            == [Runner("greet with example NYC", "greet"), Runner("greet with example LA", "greet")]
  {
    GreeterMetadata();
    var reg := Decorated;
    assert SetsOf(reg, "greet") == [[Val("NYC")], [Val("LA")]];
    assert WellFormed(reg);
    assert reg.ignored == {};
    RunnersOfOneKey(reg, "greet");
    var rs := Build(reg, [("greet", true)]);
    assert Join([Val("NYC")]) == "NYC" && Join([Val("LA")]) == "LA";
    RunnerNames();
    assert rs[0] == Runner("greet with example NYC", "greet") && rs[1] == Runner("greet with example LA", "greet");
  }

  /** Only isolates the two string equalities GreeterRunners needs, which
      are costly to prove inside its larger context. */
  lemma RunnerNames()
    ensures "greet" + " with example " + "NYC" == "greet with example NYC"
    ensures "greet" + " with example " + "LA" == "greet with example LA"
  {
  }

  /** Awaited in order, the first runner gets ("hi", "NYC") and the second
      ("hi", "LA"); a third run of the method fails in the cursor. */
  lemma GreeterArguments(fails: Event -> bool)
    ensures Resolved(RunTimes(Greeter(), "greet", fails, 0), "greet").args == Ok([Val("hi"), Val("NYC")])
    ensures Resolved(RunTimes(Greeter(), "greet", fails, 1), "greet").args == Ok([Val("hi"), Val("LA")])
    ensures Resolved(RunTimes(Greeter(), "greet", fails, 2), "greet").args == Err(NoSuchExampleSet)
  {
    GreeterMetadata();
    GreeterRun(fails, 0);
    GreeterRun(fails, 1);
    RunnersReceiveTheirSets(Decorated, "greet", fails, 2);
  }

  lemma GreeterRun(fails: Event -> bool, k: nat)
    requires k < 2
    ensures Resolved(RunTimes(Decorated, "greet", fails, k), "greet").args
            == Ok([Val("hi"), if k == 0 then Val("NYC") else Val("LA")])
  {
    var reg := Decorated;
    var slots := SlotsOf(reg, "greet");
    assert slots == [Some(Str("greeting")), Some(ExampleClass)];
    assert !Routed(reg.providers, slots[0]) && Routed(reg.providers, slots[1]);
    assert RoutedCount(reg.providers, slots[..1]) == 0 by {
      assert slots[..1] == [slots[0]] && slots[..1][..0] == [];
    }
    RunnersReceiveTheirSets(reg, "greet", fails, k);
    var before := RunTimes(reg, "greet", fails, k);
    assert SlotsOf(before, "greet") == slots && before.providers == reg.providers;
    ResolutionInOrder(slots, reg.providers, "greet", CursorFor(before, "greet"));
    var args := Resolved(before, "greet").args.value;
    assert SlotAgrees(slots, reg.providers, "greet", true, 0, args[0]);
    assert args[0] == Val("hi");
    assert args == [args[0], args[1]];
  }
}
