/** The metadata the decorators of src/index.ts record on a test class's
    prototype, as a value, and what each decorator does to it. An absent
    container and an empty one read the same everywhere in the source (every
    read goes through `?.` or `||`), so this view starts every container empty;
    the class in module Prototype keeps the absent state explicitly. */
module Decorators {
  import opened Basics
  import opened ExampleCursor
  import opened ParameterResolver

  /** `_providers`, `_arguments`, `_examples`, `_ignore`, `_beforeEach` and
      `_afterEach`. A hook is known by the name of the method it calls; every
      `add` stores a new closure, so the hook sets never drop a duplicate and
      keep insertion order. */
  datatype Registry = Registry(
    providers: map<ProviderKey, Resolver>,
    arguments: map<string, Slots>,
    examples: map<string, Cursor>,
    ignored: set<string>,
    beforeEach: seq<string>,
    afterEach: seq<string>)

  const Empty := Registry(map[], map[], map[], {}, [], [])

  function SlotsOf(reg: Registry, name: string): Slots {
    if name in reg.arguments then reg.arguments[name] else []
  }

  function SetsOf(reg: Registry, name: string): seq<seq<Value>> {
    if name in reg.examples then reg.examples[name].examples else []
  }

  /** Every method with example state has at least one example set. */
  ghost predicate WellFormed(reg: Registry) {
    forall m :: m in reg.examples ==> |reg.examples[m].examples| > 0
  }

  /** `provide(key, value)`: last write wins, every other key is kept. */
  function Provide(reg: Registry, key: ProviderKey, resolver: Resolver): (r: Registry)
    ensures key in r.providers && r.providers[key] == resolver
    ensures r.providers.Keys == reg.providers.Keys + {key}
    ensures forall k :: k in reg.providers && k != key ==> r.providers[k] == reg.providers[k]
    ensures r == reg.(providers := r.providers)
  {
    reg.(providers := reg.providers[key := resolver])
  }

  /** `arr[index] = x` on a JavaScript array: the array grows to `index + 1`
      if it is shorter, with holes in between; no other position changes. */
  function SetSlot(slots: Slots, index: nat, p: ProviderKey): (r: Slots)
    ensures |r| == if index < |slots| then |slots| else index + 1
    ensures r[index] == Some(p)
    ensures forall j :: 0 <= j < |r| && j != index ==> r[j] == if j < |slots| then slots[j] else None
  {
    if index < |slots| then slots[index := Some(p)]
    else slots + seq(index - |slots|, _ => None) + [Some(p)]
  }

  /** The provider key `inject(provider)` settles on: the given key unless it
      is missing or falsy, otherwise the declared type the reflection
      collaborator reports for that position. */
  function InjectedKey(provider: Option<ProviderKey>, reflected: ProviderKey): (k: ProviderKey)
    ensures provider.Some? && !Falsy(provider.value) ==> k == provider.value
    ensures provider.None? || Falsy(provider.value) ==> k == reflected
  {
    if provider.None? || Falsy(provider.value) then reflected else provider.value
  }

  /** `inject(provider)` on parameter `index` of method `name`: its
      argument list is created if absent and only position `index` is set. */
  function Inject(reg: Registry, provider: Option<ProviderKey>, reflected: ProviderKey,
                  name: string, index: nat): (r: Registry)
    ensures r.arguments.Keys == reg.arguments.Keys + {name}
    ensures r.arguments[name] == SetSlot(SlotsOf(reg, name), index, InjectedKey(provider, reflected))
    ensures forall m :: m in reg.arguments && m != name ==> r.arguments[m] == reg.arguments[m]
    ensures r == reg.(arguments := r.arguments)
  {
    reg.(arguments := reg.arguments[name := SetSlot(SlotsOf(reg, name), index, InjectedKey(provider, reflected))])
  }

  /** The example states after `args` is pushed onto the sets of `name`. */
  function PushSet(examples: map<string, Cursor>, name: string, args: seq<Value>): map<string, Cursor> {
    var c := if name in examples then examples[name] else Initial;
    examples[name := c.(examples := c.examples + [args])]
  }

  /** `example(...args)` on method `name`: the example state is created only when
      absent, `args` become its last example set, and the example provider is
      registered under the `Example` key unless a provider is stored under the
      string "example" (the test the source makes, so in practice it is
      registered again on every call). */

  function Example(reg: Registry, name: string, args: seq<Value>): Registry {
    var withSet := reg.(examples := PushSet(reg.examples, name, args));
    if Str("example") in reg.providers then withSet
    else Provide(withSet, ExampleClass, FromExamples)
  }

  lemma ExampleAppendsOneSet(reg: Registry, name: string, args: seq<Value>)
    ensures var r := Example(reg, name, args);
            && r.examples.Keys == reg.examples.Keys + {name}
            && r.examples[name].examples == SetsOf(reg, name) + [args]
            && (name !in reg.examples ==> r.examples[name] == Initial.(examples := [args]))
            && (name in reg.examples ==>
                  r.examples[name] == reg.examples[name].(examples := r.examples[name].examples))
            && (forall m :: m in reg.examples && m != name ==> r.examples[m] == reg.examples[m])
            && (Str("example") !in reg.providers ==>
                  ExampleClass in r.providers && r.providers[ExampleClass].FromExamples?
                  && r.providers == reg.providers[ExampleClass := FromExamples])
            && (Str("example") in reg.providers ==> r.providers == reg.providers)
            && r == reg.(examples := r.examples, providers := r.providers)
  {
  }

  /** `examples(s1, ..., sn)`: `example(si)` for i = 1..n, in that order. */
  function Examples(reg: Registry, name: string, sets: seq<seq<Value>>): Registry
    decreases |sets|
  {
    if sets == [] then reg
    else Example(Examples(reg, name, sets[..|sets| - 1]), name, sets[|sets| - 1])
  }

  /** `ignore()` on a method adds its name to the ignore set. */
  function Ignore(reg: Registry, name: string): (r: Registry)
    ensures r.ignored == reg.ignored + {name}
    ensures r == reg.(ignored := r.ignored)
  {
    reg.(ignored := reg.ignored + {name})
  }

  /** `beforeEach()` on a method appends one hook that calls it. */
  function BeforeEach(reg: Registry, name: string): (r: Registry)
    ensures r.beforeEach == reg.beforeEach + [name]
    ensures r == reg.(beforeEach := r.beforeEach)
  {
    reg.(beforeEach := reg.beforeEach + [name])
  }

  /** `afterEach()` on a method appends one hook that calls it. */
  function AfterEach(reg: Registry, name: string): (r: Registry)
    ensures r.afterEach == reg.afterEach + [name]
    ensures r == reg.(afterEach := r.afterEach)
  {
    reg.(afterEach := reg.afterEach + [name])
  }

  /** `examples(...)` appends all its sets in order after the sets already
      there, creates the example state only if it has a set to add, and moves
      no cursor. */
  lemma ExamplesAppendInOrder(reg: Registry, name: string, sets: seq<seq<Value>>)
    ensures var r := Examples(reg, name, sets);
            && (sets == [] ==> r == reg)
            && (sets != [] ==> name in r.examples)
            && SetsOf(r, name) == SetsOf(reg, name) + sets
            && (name in reg.examples ==>
                  r.examples[name] == reg.examples[name].(examples := SetsOf(reg, name) + sets))
            && (name !in reg.examples && sets != [] ==> r.examples[name] == Initial.(examples := sets))
  {
    if sets != [] {
      ExamplesGrowState(reg, name, sets);
    }
  }

  /** The example state of `name` after a non-empty `examples(...)`: the
      state it had, or a fresh one, with the sets appended. */
  lemma {:induction false} ExamplesGrowState(reg: Registry, name: string, sets: seq<seq<Value>>)
    requires sets != []
    ensures var r := Examples(reg, name, sets);
            var start := if name in reg.examples then reg.examples[name] else Initial;
            name in r.examples && r.examples[name] == start.(examples := start.examples + sets)
    decreases |sets|
  {
    var start := if name in reg.examples then reg.examples[name] else Initial;
    var init, last := sets[..|sets| - 1], sets[|sets| - 1];
    var prev := Examples(reg, name, init);
    var r := Examples(reg, name, sets);
    assert r.examples == PushSet(prev.examples, name, last) by {
      assert r == Example(prev, name, last);
      ExampleOnlyPushes(prev, name, last);
    }
    var c := if name in prev.examples then prev.examples[name] else Initial;
    assert r.examples[name] == c.(examples := c.examples + [last]);
    if init == [] {
      assert sets == [last];
      assert prev == reg;
    } else {
      ExamplesGrowState(reg, name, init);
      assert c == start.(examples := start.examples + init);
      assert sets == init + [last];
      assert c.examples + [last] == start.examples + sets;
    }
  }

  /** The example states after `example(...)` differ only by the pushed set. */
  lemma ExampleOnlyPushes(reg: Registry, name: string, args: seq<Value>)
    ensures var r := Example(reg, name, args);
            r == reg.(examples := PushSet(reg.examples, name, args), providers := r.providers)
  {
  }

  /** The sets of `examples(...)` are applied one `example(...)` at a time. */
  lemma ExamplesOneMore(reg: Registry, name: string, sets: seq<seq<Value>>, i: nat)
    requires i < |sets|
    ensures Examples(reg, name, sets[..i + 1]) == Example(Examples(reg, name, sets[..i]), name, sets[i])
  {
    assert sets[..i + 1][..i] == sets[..i];
  }

  /** `examples(...)` on one method leaves the example state of every other
      method, the argument lists, the ignore set and the hooks as they were. */
  lemma {:induction false} ExamplesTouchOnlyTheirMethod(reg: Registry, name: string, sets: seq<seq<Value>>)
    ensures var r := Examples(reg, name, sets);
            && (forall m :: m != name ==> (m in r.examples <==> m in reg.examples))
            && (forall m :: m in reg.examples && m != name ==> r.examples[m] == reg.examples[m])
            && r.arguments == reg.arguments && r.ignored == reg.ignored
            && r.beforeEach == reg.beforeEach && r.afterEach == reg.afterEach
    decreases |sets|
  {
    if sets != [] {
      var init, last := sets[..|sets| - 1], sets[|sets| - 1];
      ExamplesTouchOnlyTheirMethod(reg, name, init);
      var prev := Examples(reg, name, init);
      assert Examples(reg, name, sets) == Example(prev, name, last);
      ExampleOnlyPushes(prev, name, last);
    }
  }

  /** Applying `examples` with `a` and then with `b` is applying it with `a + b`. */
  lemma {:induction false} ExamplesCompose(reg: Registry, name: string, a: seq<seq<Value>>, b: seq<seq<Value>>)
    ensures Examples(reg, name, a + b) == Examples(Examples(reg, name, a), name, b)
    decreases |b|
  {
    if b == [] {
      assert a + b == a;
    } else {
      ExamplesCompose(reg, name, a, b[..|b| - 1]);
      assert (a + b)[..|a + b| - 1] == a + b[..|b| - 1];
    }
  }

  /** Every decorator keeps each example state non-empty, so a method with
      example state always has at least one example set. */
  lemma DecoratorsKeepWellFormed(reg: Registry, name: string, k: ProviderKey, v: Resolver,
                                 provider: Option<ProviderKey>, index: nat, args: seq<Value>)
    requires WellFormed(reg)
    ensures WellFormed(Empty)
    ensures WellFormed(Provide(reg, k, v)) && WellFormed(Inject(reg, provider, k, name, index))
    ensures WellFormed(Example(reg, name, args))
    ensures WellFormed(Ignore(reg, name)) && WellFormed(BeforeEach(reg, name)) && WellFormed(AfterEach(reg, name))
  {
    ExampleAppendsOneSet(reg, name, args);
  }

  lemma ExamplesKeepWellFormed(reg: Registry, name: string, sets: seq<seq<Value>>)
    requires WellFormed(reg)
    ensures WellFormed(Examples(reg, name, sets))
  {
    ExamplesAppendInOrder(reg, name, sets);
    ExamplesTouchOnlyTheirMethod(reg, name, sets);
    var r := Examples(reg, name, sets);
    forall m | m in r.examples
      ensures |r.examples[m].examples| > 0
    {
      if m == name && sets != [] {
        assert r.examples[m].examples == SetsOf(reg, name) + sets;
      }
    }
  }

  /** No cursor has moved yet: every example state is an initial cursor
      holding its sets. */
  ghost predicate AtStart(reg: Registry) {
    forall m :: m in reg.examples ==> reg.examples[m] == Initial.(examples := reg.examples[m].examples)
  }

  /** Decorators create example states at their start and never move a
      cursor, so any sequence of decorators applied to the bare prototype
      leaves every cursor at its start. */
  lemma DecoratorsKeepAtStart(reg: Registry, name: string, k: ProviderKey, v: Resolver,
                              provider: Option<ProviderKey>, index: nat, args: seq<Value>)
    requires AtStart(reg)
    ensures AtStart(Empty)
    ensures AtStart(Provide(reg, k, v)) && AtStart(Inject(reg, provider, k, name, index))
    ensures AtStart(Example(reg, name, args))
    ensures AtStart(Ignore(reg, name)) && AtStart(BeforeEach(reg, name)) && AtStart(AfterEach(reg, name))
  {
    ExampleAppendsOneSet(reg, name, args);
  }

  lemma ExamplesKeepAtStart(reg: Registry, name: string, sets: seq<seq<Value>>)
    requires AtStart(reg)
    ensures AtStart(Examples(reg, name, sets))
  {
    ExamplesAppendInOrder(reg, name, sets);
    ExamplesTouchOnlyTheirMethod(reg, name, sets);
  }

  /** The resolver `inject` stores looks its provider up when it is called, so
      registering the provider before or after the injection gives the same
      metadata. */
  lemma InjectThenProvide(reg: Registry, provider: Option<ProviderKey>, reflected: ProviderKey,
                          name: string, index: nat, k: ProviderKey, v: Resolver)
    ensures Provide(Inject(reg, provider, reflected, name, index), k, v)
            == Inject(Provide(reg, k, v), provider, reflected, name, index)
  {
  }

  /** Registering the same key twice keeps only the second resolver. */
  lemma ProvideTwice(reg: Registry, k: ProviderKey, first: Resolver, second: Resolver)
    ensures Provide(Provide(reg, k, first), k, second) == Provide(reg, k, second)
  {
  }
}
