/** The prototype of a decorated test class as src/index.ts mutates it: six
    optional containers the decorators create on first use and then update in
    place, and one mutable example state per method with examples. Every
    method is proved against the value model in module Decorators and the
    runner model in module Runners, through the view `Abstract()`. */
module Prototype {
  import opened Basics
  import opened ExampleCursor
  import opened ParameterResolver
  import opened Decorators
  import Runners

  function OrElse<T>(o: Option<T>, default: T): T {
    if o.Some? then o.value else default
  }

  /** No two methods share an example state object. */
  ghost predicate Distinct(states: map<string, ExampleState>) {
    forall a, b :: a in states && b in states && a != b ==> states[a] != states[b]
  }

  lemma AddDistinct(states: map<string, ExampleState>, key: string, s: ExampleState)
    requires Distinct(states) && key !in states && s !in states.Values
    ensures Distinct(states[key := s])
  {
    var m := states[key := s];
    forall a, b | a in m && b in m && a != b
      ensures m[a] != m[b]
    {
      if a != key && b != key {
        assert m[a] == states[a] && m[b] == states[b];
      } else if a == key {
        assert m[b] == states[b] && states[b] in states.Values;
      } else {
        assert m[a] == states[a] && states[a] in states.Values;
      }
    }
  }

  /** The cursor each example state holds at the moment. */
  function CursorsOf(states: map<string, ExampleState>): map<string, Cursor>
    reads states.Values
  {
    map k | k in states :: states[k].Snapshot()
  }

  /** `for (const callback of hooks) await callback(...)`: the hooks in
      insertion order, each awaited before the next; the first one that
      throws ends the loop. `fails` says which call throws. */
  method AwaitHooks(phase: Phase, hooks: seq<string>, fails: Event -> bool) returns (steps: seq<Event>, passed: bool)
    ensures Runners.Execution(steps, passed) == Runners.Execute(Runners.HookEvents(phase, hooks), fails)
  {
    ghost var plan := Runners.HookEvents(phase, hooks);
    steps := [];
    for h := 0 to |hooks|
      invariant steps == plan[..h]
      invariant forall i :: 0 <= i < h ==> !fails(plan[i])
    {
      var e := HookCall(phase, hooks[h]);
      assert plan[h] == e;
      steps := steps + [e];
      assert plan[..h + 1] == plan[..h] + [e];
      if fails(e) {
        Runners.ExecuteFailsAt(plan, h, fails);
        return steps, false;
      }
    }
    assert plan[..|plan|] == plan;
    Runners.ExecuteStopsAtFirstFailure(plan, fails);
    passed := true;
  }

  /** The record `exampleProvider` advances (src/index.ts:23). */
  class ExampleState {
    var lastParameterIndex: int
    var currentExampleIndex: nat
    var currentExample: nat
    var examples: seq<seq<Value>>

    function Snapshot(): Cursor
      reads this
    {
      Cursor(examples, currentExample, currentExampleIndex, lastParameterIndex)
    }

    constructor ()
      ensures Snapshot() == Initial
    {
      currentExample := 0;
      lastParameterIndex := -1;
      currentExampleIndex := 0;
      examples := [];
    }

    /** `examples.push(args)`. */
    method Push(args: seq<Value>)
      modifies this
      ensures Snapshot() == old(Snapshot()).(examples := old(examples) + [args])
    {
      examples := examples + [args];
    }

    /** Lines 48-55 of `exampleProvider`: start the next example set when the
        requested index does not increase, record the index, read the value
        and advance. Indexing a missing set throws after the first updates. */
    method Next(index: nat) returns (value: Result<Value>)
      modifies this
      ensures Stepped(Snapshot(), value) == Step(old(Snapshot()), index)
    {
      if lastParameterIndex >= index {
        currentExample := currentExample + 1;
        currentExampleIndex := 0;
      }
      lastParameterIndex := index;
      if currentExample >= |examples| {
        return Err(NoSuchExampleSet);
      }
      value := Ok(At(examples[currentExample], currentExampleIndex));
      currentExampleIndex := currentExampleIndex + 1;
    }
  }

  /** `test.prototype` with the metadata the decorators attach. */
  class TestPrototype {
    var providers: Option<map<ProviderKey, Resolver>>
    var arguments: Option<map<string, Slots>>
    var examples: Option<map<string, ExampleState>>
    var ignore: Option<set<string>>
    var beforeEach: Option<seq<string>>
    var afterEach: Option<seq<string>>

    /** Each method owns its own example state object. */
    ghost predicate Valid()
      reads this
    {
      examples.Some? ==> Distinct(examples.value)
    }

    function States(): set<ExampleState>
      reads this
    {
      if examples.Some? then examples.value.Values else {}
    }

    function StateFor(key: string): set<ExampleState>
      reads this
    {
      if examples.Some? && key in examples.value then {examples.value[key]} else {}
    }

    function CursorFor(key: string): Option<Cursor>
      reads this, StateFor(key)
    {
      if examples.Some? && key in examples.value then Some(examples.value[key].Snapshot()) else None
    }

    function Cursors(): map<string, Cursor>
      reads this, States()
    {
      CursorsOf(OrElse(examples, map[]))
    }

    /** The metadata as a value; an absent container reads as an empty one. */
    function Abstract(): Registry
      reads this, States()
    {
      Registry(OrElse(providers, map[]), OrElse(arguments, map[]), Cursors(),
               OrElse(ignore, {}), OrElse(beforeEach, []), OrElse(afterEach, []))
    }

    constructor ()
      ensures Valid() && Abstract() == Empty
      ensures providers.None? && arguments.None? && examples.None?
      ensures ignore.None? && beforeEach.None? && afterEach.None?
    {
      providers := None;
      arguments := None;
      examples := None;
      ignore := None;
      beforeEach := None;
      afterEach := None;
    }

    /** The class decorator `provide(key, value)`. */
    method Provide(key: ProviderKey, resolver: Resolver)
      requires Valid()
      modifies this
      ensures Valid() && Abstract() == Decorators.Provide(old(Abstract()), key, resolver)
      ensures providers.Some? && arguments == old(arguments) && examples == old(examples)
      ensures ignore == old(ignore) && beforeEach == old(beforeEach) && afterEach == old(afterEach)
    {
      if providers.None? {
        providers := Some(map[]);
      }
      providers := Some(providers.value[key := resolver]);
    }

    /** The parameter decorator `inject(provider)` on parameter `index` of
        method `key`; `reflected` is the declared parameter type the
        reflection metadata would report. */
    method Inject(provider: Option<ProviderKey>, reflected: ProviderKey, key: string, index: nat)
      requires Valid()
      modifies this
      ensures Valid() && Abstract() == Decorators.Inject(old(Abstract()), provider, reflected, key, index)
      ensures arguments.Some? && providers == old(providers) && examples == old(examples)
      ensures ignore == old(ignore) && beforeEach == old(beforeEach) && afterEach == old(afterEach)
    {
      ghost var before := Abstract();
      var p := provider;
      if p.None? || Falsy(p.value) {
        p := Some(reflected);
      }
      var lists := if arguments.Some? then arguments.value else map[];
      var slots := if key in lists then lists[key] else [];
      arguments := Some(lists[key := SetSlot(slots, index, p.value)]);
      assert Cursors() == before.examples;
      assert Abstract() == before.(arguments := arguments.value);
    }

    /** Lines 61-68 of `example`: the example state of `key`, created with
        the initial cursor when it is absent. */
    method StateOf(key: string) returns (state: ExampleState)
      requires Valid()
      modifies this
      ensures Valid() && examples.Some? && key in examples.value && state == examples.value[key]
      ensures providers == old(providers) && arguments == old(arguments) && ignore == old(ignore)
      ensures beforeEach == old(beforeEach) && afterEach == old(afterEach)
      ensures old(examples).Some? && key in old(examples).value ==> examples == old(examples)
      ensures !(old(examples).Some? && key in old(examples).value) ==> fresh(state)
      ensures Cursors() == old(Cursors())[key := state.Snapshot()]
      ensures state.Snapshot() == if key in old(Cursors()) then old(Cursors())[key] else Initial
    {
      ghost var before := Cursors();
      if examples.None? {
        examples := Some(map[]);
      }
      if key !in examples.value {
        var created := new ExampleState();
        AddDistinct(examples.value, key, created);
        examples := Some(examples.value[key := created]);
        assert Cursors() == before[key := Initial];
      } else {
        assert Cursors() == before;
      }
      state := examples.value[key];
    }

    /** Lines 61-69 of `example`: push `args` as the last example set of
        `key`, creating its example state first if it is absent. */
    method AddExampleSet(key: string, args: seq<Value>)
      requires Valid()
      modifies this, StateFor(key)
      ensures Valid()
      ensures providers == old(providers) && arguments == old(arguments) && ignore == old(ignore)
      ensures beforeEach == old(beforeEach) && afterEach == old(afterEach)
      ensures examples.Some? && key in examples.value
      ensures Cursors() == PushSet(old(Cursors()), key, args)
      ensures StateFor(key) == old(StateFor(key)) || fresh(StateFor(key))
    {
      ghost var before := Cursors();
      var state := StateOf(key);
      ghost var c := state.Snapshot();
      ghost var pushed := c.(examples := c.examples + [args]);
      ghost var middle := Cursors();
      PushOnto(key, state, args);
      assert Cursors() == middle[key := pushed];
      assert middle[key := pushed] == before[key := pushed];
    }

    /** `test._examples.get(key)!.examples.push(args)`. */
    method PushOnto(key: string, state: ExampleState, args: seq<Value>)
      requires Valid() && examples.Some? && key in examples.value && state == examples.value[key]
      modifies state
      ensures Cursors() == old(Cursors())[key := old(state.Snapshot()).(examples := old(state.examples) + [args])]
    {
      state.Push(args);
    }

    /** The method decorator `example(...args)` on method `key`. */
    method Example(key: string, args: seq<Value>)
      requires Valid()
      modifies this, StateFor(key)
      ensures Valid() && Abstract() == Decorators.Example(old(Abstract()), key, args)
      ensures examples.Some? && arguments == old(arguments) && ignore == old(ignore)
      ensures beforeEach == old(beforeEach) && afterEach == old(afterEach)
      ensures old(providers).Some? && Str("example") in old(providers).value ==> providers == old(providers)
      ensures !(old(providers).Some? && Str("example") in old(providers).value) ==> providers.Some?
      ensures StateFor(key) == old(StateFor(key)) || fresh(StateFor(key))
    {
      AddExampleSet(key, args);
      if !(providers.Some? && Str("example") in providers.value) {
        Provide(ExampleClass, FromExamples);
      }
    }

    /** The method decorator `examples(s1, ..., sn)`. */
    method Examples(key: string, sets: seq<seq<Value>>)
      requires Valid()
      modifies this, StateFor(key)
      ensures Valid() && Abstract() == Decorators.Examples(old(Abstract()), key, sets)
    {
      ghost var start := Abstract();
      for i := 0 to |sets|
        invariant Valid() && Abstract() == Decorators.Examples(start, key, sets[..i])
        invariant StateFor(key) == old(StateFor(key)) || fresh(StateFor(key))
      {
        ExamplesOneMore(start, key, sets, i);
        Example(key, sets[i]);
      }
      assert sets[..|sets|] == sets;
    }

    /** The method decorator `ignore()`. */
    method Ignore(name: string)
      requires Valid()
      modifies this
      ensures Valid() && Abstract() == Decorators.Ignore(old(Abstract()), name)
      ensures ignore.Some? && providers == old(providers) && arguments == old(arguments)
      ensures examples == old(examples) && beforeEach == old(beforeEach) && afterEach == old(afterEach)
    {
      if ignore.None? {
        ignore := Some({});
      }
      ignore := Some(ignore.value + {name});
    }

    /** The method decorator `beforeEach()`. */
    method BeforeEach(name: string)
      requires Valid()
      modifies this
      ensures Valid() && Abstract() == Decorators.BeforeEach(old(Abstract()), name)
      ensures beforeEach.Some? && providers == old(providers) && arguments == old(arguments)
      ensures examples == old(examples) && ignore == old(ignore) && afterEach == old(afterEach)
    {
      if beforeEach.None? {
        beforeEach := Some([]);
      }
      beforeEach := Some(beforeEach.value + [name]);
    }

    /** The method decorator `afterEach()`. */
    method AfterEach(name: string)
      requires Valid()
      modifies this
      ensures Valid() && Abstract() == Decorators.AfterEach(old(Abstract()), name)
      ensures afterEach.Some? && providers == old(providers) && arguments == old(arguments)
      ensures examples == old(examples) && ignore == old(ignore) && beforeEach == old(beforeEach)
    {
      if afterEach.None? {
        afterEach := Some([]);
      }
      afterEach := Some(afterEach.value + [name]);
    }

    /** The resolver `exampleProvider` registers (lines 46-55): a method
        without example state gets `undefined` and nothing changes; otherwise
        its cursor takes one step. */
    method ExampleProvider(key: string, index: nat) returns (value: Result<Value>)
      modifies StateFor(key)
      ensures CursorFor(key).Some? == old(CursorFor(key)).Some?
      ensures old(CursorFor(key)).None? ==> value == Ok(Undefined)
      ensures old(CursorFor(key)).Some? ==>
                Stepped(CursorFor(key).value, value) == Step(old(CursorFor(key)).value, index)
    {
      if examples.None? || key !in examples.value {
        return Ok(Undefined);
      }
      var state := examples.value[key];
      value := state.Next(index);
    }

    /** The resolver `inject` stores for a parameter (line 42): it looks its
        provider key up in the provider map as it is at call time. */
    method CallResolver(p: ProviderKey, key: string, index: nat) returns (value: Result<Value>)
      modifies StateFor(key)
      ensures Answer(CursorFor(key), value) == CallProvider(OrElse(providers, map[]), p, key, index, old(CursorFor(key)))
    {
      if providers.None? || p !in providers.value {
        return Ok(Undefined);
      }
      match providers.value[p]
      case Custom(fn) =>
        value := fn(key, index);
      case FromExamples =>
        value := ExampleProvider(key, index);
    }

    /** Lines 91-93 of the runner: the stored resolvers of `key` are called
        in ascending parameter order, holes give `undefined`, and the first
        throwing resolver ends the runner. `trace` lists the positions whose
        resolver was called. */
    method ResolveArguments(key: string) returns (trace: seq<Event>, args: Result<seq<Value>>)
      modifies StateFor(key)
      ensures Resolution(CursorFor(key), trace, args)
              == Resolve(SlotsOf(old(Abstract()), key), OrElse(providers, map[]), key, old(CursorFor(key)))
    {
      ghost var start := CursorFor(key);
      var slots := if arguments.Some? && key in arguments.value then arguments.value[key] else [];
      assert slots == SlotsOf(old(Abstract()), key);
      ghost var goal := Resolve(slots, OrElse(providers, map[]), key, start);
      var values := [];
      trace := [];
      var i := 0;
      while i < |slots|
        invariant i <= |slots|
        invariant ResolveFrom(slots, OrElse(providers, map[]), key, i, Resolution(CursorFor(key), trace, Ok(values))) == goal
      {
        match slots[i] {
          case None =>
            values := values + [Undefined];
          case Some(p) =>
            trace := trace + [Consult(i)];
            var v := CallResolver(p, key, i);
            if v.Err? {
              return trace, Err(v.fault);
            }
            values := values + [v.value];
        }
        i := i + 1;
      }
      args := Ok(values);
    }

    /** `makeRunners` (lines 81-107) over the enumerated keys of the
        instance, each paired with whether its value is a function. */
    method MakeRunners(keys: seq<(string, bool)>) returns (runners: seq<Runners.Runner>)
      ensures runners == Runners.Build(Abstract(), keys)
    {
      runners := [];
      for n := 0 to |keys|
        invariant runners == Runners.Build(Abstract(), keys[..n])
      {
        var (key, isFunction) := keys[n];
        var more := RunnersOfKey(key, isFunction);
        assert keys[..n + 1][..n] == keys[..n];
        runners := runners + more;
      }
      assert keys[..|keys|] == keys;
    }

    /** One iteration of the enumeration loop of `makeRunners`. */
    method RunnersOfKey(key: string, isFunction: bool) returns (runners: seq<Runners.Runner>)
      ensures runners == Runners.KeyRunners(Abstract(), key, isFunction)
    {
      runners := [];
      if isFunction && !(|key| > 0 && key[0] == '_') && !(ignore.Some? && key in ignore.value) {
        if examples.Some? && key in examples.value {
          var sets := examples.value[key].examples;
          assert sets == Abstract().examples[key].examples;
          for e := 0 to |sets|
            invariant runners == Runners.ExampleRunners(key, sets[..e])
          {
            runners := runners + [Runners.Runner(key + " with example " + Join(sets[e]), key)];
          }
          assert sets[..|sets|] == sets;
        } else {
          runners := [Runners.Runner(key, key)];
        }
      }
    }

    /** Lines 94-100 of the runner, once the arguments are resolved: the
        beforeEach hooks, the test method with `args`, the afterEach hooks;
        the first step that throws ends the runner. */
    method AwaitSteps(key: string, args: seq<Value>, fails: Event -> bool) returns (steps: seq<Event>, passed: bool)
      ensures Runners.Execution(steps, passed) == Runners.Execute(Runners.Plan(Abstract(), key, args), fails)
    {
      var before := Runners.HookEvents(Phase.Before, OrElse(beforeEach, []));
      var call := [TestCall(key, args)];
      var after := Runners.HookEvents(Phase.After, OrElse(afterEach, []));
      Runners.ExecuteAppend(before + call, after, fails);
      Runners.ExecuteAppend(before, call, fails);
      steps, passed := AwaitHooks(Phase.Before, OrElse(beforeEach, []), fails);
      if !passed {
        return;
      }
      steps := steps + call;
      if fails(call[0]) {
        return steps, false;
      }
      var rest;
      rest, passed := AwaitHooks(Phase.After, OrElse(afterEach, []), fails);
      steps := steps + rest;
    }

    /** Awaiting one runner (lines 90-101): its arguments are resolved before
        any hook runs, and only the cursor of the runner's method moves. */
    method Run(runner: Runners.Runner, fails: Event -> bool) returns (trace: seq<Event>, verdict: Runners.Verdict)
      requires Valid()
      modifies StateFor(runner.key)
      ensures Runners.Outcome(Abstract(), trace, verdict) == Runners.Run(old(Abstract()), runner.key, fails)
    {
      var key := runner.key;
      ghost var before := Abstract();
      assert CursorFor(key) == Runners.CursorFor(before, key);
      var resolved, args := ResolveArguments(key);
      ghost var res := Runners.Resolved(before, key);
      assert Resolution(CursorFor(key), resolved, args) == res;
      if examples.Some? && key in examples.value {
        ghost var states := examples.value;
        assert forall k :: k in states && k != key ==> states[k].Snapshot() == old(states[k].Snapshot());
        assert Cursors() == before.examples[key := CursorFor(key).value];
        assert Abstract() == before.(examples := before.examples[key := res.cursor.value]);
      } else {
        assert Abstract() == before;
      }
      if args.Err? {
        return resolved, Runners.Failed(args.fault);
      }
      var steps, passed := AwaitSteps(key, args.value, fails);
      trace := resolved + steps;
      verdict := if passed then Runners.Passed else Runners.Failed(Thrown);
    }
  }
}
