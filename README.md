# Decorator-driven test registry (opaquejs/testing), modelled in Dafny

`src/index.ts` turns annotated test classes into a list of named runners,
and this project models it. Decorators record metadata on the class
prototype:

- `provide` registers an argument provider under a key;
- `inject` stores, for one parameter position of a method, a resolver that
  looks a provider up when it is called;
- `example` and `examples` push example argument sets for a method;
- `ignore`, `beforeEach` and `afterEach` add to an ignore set and to two hook
  lists.

`makeRunners` then walks the keys of a test instance. Every selected method
gets one runner per example set, or a single runner when it has none. A
runner resolves the method's arguments in ascending parameter order, and
awaits the beforeEach hooks, the method itself and the afterEach hooks.

`exampleProvider` is the provider registered under the `Example` class. It
is a small cursor per method that hands out the values of the example sets
one parameter request at a time. It notices a new invocation only because
the requested parameter index fails to increase.

The model has six modules:

- `Basics`: values, provider keys, resolvers and trace events.
- `ExampleCursor`: the cursor as a value, `Cursor`, with one request as the
  function `Step`.
- `ParameterResolver`: argument resolution, `Resolve`. It also proves what
  ascending resolution means for the cursor: invocation k reads example set
  k, and later invocations fail.
- `Decorators`: the prototype metadata as a value, `Registry`, and each
  decorator as a function on it.
- `Runners`: runner selection and naming (`Build`), and one runner's
  behaviour (`Run`). `Run` is built on `Execute`, a sequential execution that
  stops at the first failing step. `RunAll` awaits a list of runners one
  after another and ends at the first runner that rejects.
- `Prototype`: the imperative form of the source.
  - The class `TestPrototype` holds the six optional containers. Its methods
    create each container on first use and update it in place.
  - The class `ExampleState` is the record the cursor mutates.
  - The methods with loops are `MakeRunners`, its per-key loop over the
    example sets `RunnersOfKey`, `ResolveArguments`, `Examples` and the hook
    loop `AwaitHooks`.
  - Each method is proved equal, through the view `Abstract()`, to the value
    model above, and the properties are proved as lemmas about that model.

A seventh module, `Scenario`, works through a concrete class. It provides
`"greeting"` and has `greet(@inject("greeting") g, @inject() city)` with the
example sets `["NYC"]` and `["LA"]`.

Hooks, the test method and user providers are modelled as follows:

- Hooks and the test method are abstract trace events. A caller-supplied
  predicate `fails` says which calls throw or reject.
- A user provider is a function of the method name and the parameter index
  that returns a value or throws.

Details of `src/index.ts` the model keeps as written:

- Runner names are `key + " with example " + set.join(",")`: the set's
  values joined by commas, with nothing around them.
- A missing provider gives `undefined`.
- Reading past the end of an existing example set gives `undefined`; only
  addressing a missing set fails.
- The argument list is as long as the stored sparse array, not the
  method's declared arity.
- When the test method throws, the runner stops and no afterEach hook runs.
- `example()` checks for a provider stored under the string `"example"`,
  but stores the provider under the `Example` class. So every `example()`
  call registers the example provider again, unless someone provided the
  string key.

## Model

| member | source | states |
|---|---|---|
| ExampleCursor.Step | src/index.ts:48-55 | The definition of one request to the example provider; its properties are stated by ExampleCursor.WorkedSchedule, ExampleCursor.OutOfOrderRequestsMixSets, ExampleCursor.ReadingPastASetIsUndefined and ParameterResolver.ExampleSetsExpandInOrder |
| ExampleCursor.WorkedSchedule | src/index.ts:45-56 | With sets [[1,2],[3,4]], the requests 0,1,0,1 return 1,2,3,4, and a further request 0 fails with NoSuchExampleSet |
| ExampleCursor.OutOfOrderRequestsMixSets | src/index.ts:48-55 | Requesting parameter 1 before parameter 0 gives parameter 0 a value of the second set: the cursor only works for ascending requests |
| ExampleCursor.ReadingPastASetIsUndefined | src/index.ts:53-54 | Inside an existing set, reading past its last value gives undefined and stays on that set |
| Prototype.ExampleState.constructor | src/index.ts:63-68 | A new example state is the initial cursor: currentExample 0, currentExampleIndex 0, lastParameterIndex -1, no sets |
| Prototype.ExampleState.Push | src/index.ts:69 | Pushing appends the set as the last one and changes no position field |
| Prototype.ExampleState.Next | src/index.ts:48-55 | The in-place field updates give the new cursor and the result of Step. A non-increasing index moves to the next set at position 0, the index is recorded, and an existing set returns the value at the old position and advances it. A missing set throws after the first updates |
| Prototype.TestPrototype.ExampleProvider | src/index.ts:45-56 | A method without example state gets undefined and nothing changes; otherwise its cursor takes exactly one Step, and it keeps its example state |
| ParameterResolver.CallProvider | src/index.ts:42 | The definition of calling a stored resolver (provider looked up at call time); Prototype.TestPrototype.CallResolver is proved equal to it, and Decorators.InjectThenProvide and ParameterResolver.ResolveFromValues state its consequences |
| ParameterResolver.Resolve | src/index.ts:92 | The definition of argument resolution over the sparse array; its properties are stated by ParameterResolver.ResolutionInOrder, ParameterResolver.ResolveFromFails and ParameterResolver.ExampleSetsExpandInOrder |
| ParameterResolver.ResolveFrom | src/index.ts:91-93 | Resolution never creates or drops the method's cursor and never changes its example sets |
| ParameterResolver.ResolveFromTrace | src/index.ts:91-93 | From position i, the resolver calls are a prefix of the non-hole positions in ascending order. If resolution fails, at least one call was made; if it succeeds, the calls are exactly those positions |
| ParameterResolver.ResolveFromValues | src/index.ts:91-93 | A successful resolution keeps the earlier values and fills every later position with the value its slot must give: undefined for a hole or a missing provider, and a user provider's own answer |
| ParameterResolver.ResolutionInOrder | src/index.ts:91-93 | Arguments are resolved once each, by ascending index: holes call nothing and give undefined, and the list is as long as the stored array. A failed resolution ends at a non-hole position m whose resolver threw: positions before m resolved, m is the last call, and no later position is consulted (the result equals resolving the first m+1 positions alone) |
| ParameterResolver.ResolveFromFails | src/index.ts:91-93 | From position i, a failure comes from the resolver of one position m: the positions before m resolve, and the result equals resolving up to m alone, with Consult(m) as the last call |
| ParameterResolver.InvocationReadsOneSet | src/index.ts:45-56 | An ascending invocation that starts at a set boundary reads one whole set: the example position of rank n gets value n of that set |
| ParameterResolver.InvocationFails | src/index.ts:53 | An invocation whose first example request addresses a missing set fails with NoSuchExampleSet |
| ParameterResolver.ExampleSetsExpandInOrder | src/index.ts:45-56 | From the state `example()` creates, invocation k receives set k, rank by rank, for every k below the number of sets; every later invocation fails with NoSuchExampleSet |
| ParameterResolver.WholeSetPerInvocation | src/index.ts:45-56 | When every parameter is injected from examples, invocation k gets exactly set k, cut or padded with undefined to the argument count |
| Decorators.Provide | src/index.ts:27-32 | The key maps to the new resolver (last write wins), every other key is kept, and nothing else changes |
| Decorators.ProvideTwice | src/index.ts:31 | Providing the same key twice keeps only the second resolver |
| Decorators.SetSlot | src/index.ts:42 | An indexed write into a sparse array: it grows to index+1 with holes in between, position index is set, and every other position is kept |
| Decorators.InjectedKey | src/index.ts:36-39 | A given, non-falsy provider key is used as is; otherwise the reflected parameter type is used |
| Decorators.Inject | src/index.ts:33-43 | The method's argument list is created if absent and only the given position is set; every other method's list and all other metadata are unchanged |
| Decorators.InjectThenProvide | src/index.ts:42 | The stored resolver looks its provider up at call time, so providing before or after the injection gives the same metadata |
| Decorators.Example | src/index.ts:58-71 | The definition of the `example` decorator; its properties are stated by Decorators.ExampleAppendsOneSet and Decorators.ExampleOnlyPushes |
| Decorators.Examples | src/index.ts:73-79 | The definition of the `examples` decorator as example() per set; its properties are stated by Decorators.ExamplesAppendInOrder, Decorators.ExamplesTouchOnlyTheirMethod and Decorators.ExamplesCompose |
| Decorators.ExampleAppendsOneSet | src/index.ts:58-71 | `args` becomes the method's last set after the earlier ones. The state is created with the initial cursor only when absent, and an existing cursor keeps its position. Other methods keep their state. The Example provider is registered unless the string "example" is a provider key |
| Decorators.ExampleOnlyPushes | src/index.ts:61-70 | example() changes only the pushed example state and the provider map |
| Decorators.ExamplesAppendInOrder | src/index.ts:73-79 | examples(s1..sn) appends all sets in order after the existing ones, creates the state only if there is a set to add, and moves no cursor |
| Decorators.ExamplesGrowState | src/index.ts:73-79 | After a non-empty examples(), the method's state is its old state, or a fresh one, with the sets appended |
| Decorators.ExamplesOneMore | src/index.ts:76-78 | examples() applies example(si) one set at a time, in order |
| Decorators.ExamplesTouchOnlyTheirMethod | src/index.ts:73-79 | Every other method's example state, the argument lists, the ignore set and the hooks are unchanged |
| Decorators.ExamplesCompose | src/index.ts:73-79 | examples(a) followed by examples(b) is examples(a + b) |
| Decorators.Ignore | src/index.ts:121-126 | Adds exactly the method name to the ignore set; nothing else changes |
| Decorators.BeforeEach | src/index.ts:115-120 | Appends exactly one beforeEach hook bound to the method name; nothing else changes |
| Decorators.AfterEach | src/index.ts:109-114 | Appends exactly one afterEach hook bound to the method name; nothing else changes |
| Decorators.DecoratorsKeepWellFormed | src/index.ts:58-71 | Every decorator keeps every example state non-empty |
| Decorators.ExamplesKeepWellFormed | src/index.ts:73-79 | examples() keeps every example state non-empty |
| Decorators.DecoratorsKeepAtStart | src/index.ts:27-71 | The bare prototype has no moved cursor, and every decorator keeps every example state at its initial position, which is what Runners.RunnersReceiveTheirSets starts from |
| Decorators.ExamplesKeepAtStart | src/index.ts:73-79 | examples() keeps every example state at its initial position |
| Prototype.TestPrototype.constructor | src/index.ts:14-25 | A bare prototype has none of the six containers, and its metadata reads as empty |
| Prototype.TestPrototype.Provide | src/index.ts:27-32 | The provider map exists afterwards and is updated in place as Decorators.Provide says; the other five containers are unchanged |
| Prototype.TestPrototype.Inject | src/index.ts:33-43 | The argument map exists afterwards and the in-place write equals Decorators.Inject; the other five containers are unchanged |
| Prototype.TestPrototype.StateOf | src/index.ts:61-68 | The example map and the method's state are created only if absent, as a fresh object with the initial cursor; an existing state is returned as is and nothing else changes |
| Prototype.TestPrototype.PushOnto | src/index.ts:69 | Pushing onto one state object changes only that method's cursor |
| Prototype.TestPrototype.AddExampleSet | src/index.ts:61-69 | The example map holds the method afterwards, and the example states are exactly PushSet of the old ones; no other container changes |
| Prototype.TestPrototype.Example | src/index.ts:58-71 | The state after example() equals Decorators.Example of the state before, including re-registering the Example provider. The example map exists afterwards; the provider map exists too unless the string "example" was a key, in which case it is unchanged; the other containers are unchanged |
| Prototype.TestPrototype.Examples | src/index.ts:73-79 | The loop over the sets equals Decorators.Examples of the state before |
| Prototype.TestPrototype.Ignore | src/index.ts:121-126 | The ignore set exists afterwards and the update equals Decorators.Ignore; the other five containers are unchanged |
| Prototype.TestPrototype.BeforeEach | src/index.ts:115-120 | The beforeEach list exists afterwards and the update equals Decorators.BeforeEach; the other five containers are unchanged |
| Prototype.TestPrototype.AfterEach | src/index.ts:109-114 | The afterEach list exists afterwards and the update equals Decorators.AfterEach; the other five containers are unchanged |
| Prototype.TestPrototype.CallResolver | src/index.ts:42 | A stored resolver looks its key up in the provider map as it is when called. A missing provider gives undefined; a user provider answers for itself; the Example provider steps the method's cursor |
| Prototype.TestPrototype.ResolveArguments | src/index.ts:91-93 | The loop over the stored sparse array gives exactly the cursor, the resolver calls and the arguments (or the failure) of Resolve |
| Runners.KeyRunners | src/index.ts:83-103 | The definition of the runners one enumerated key contributes; its properties are stated by Runners.RunnersOfOneKey and Runners.UnselectedKeysContributeNothing |
| Runners.Build | src/index.ts:81-105 | The definition of the runner list of `makeRunners`; its properties are stated by Runners.RunnersFollowKeyOrder, Runners.RunnersComeFromSelectedKeys and Runners.IgnoredMethodsNeverRun |
| Runners.RunnersFollowKeyOrder | src/index.ts:83-105 | The runners for keys a + b are the runners for a followed by the runners for b |
| Runners.EmitAppend | src/index.ts:83-105 | Concatenating per-key runner lists distributes over appending key sequences |
| Runners.RunnersComeFromSelectedKeys | src/index.ts:84 | Every runner carries the key of an enumerated key that is a function, does not start with "_" and is not ignored |
| Runners.IgnoredMethodsNeverRun | src/index.ts:84 | An ignored method never yields a runner, even when it has examples |
| Runners.UnselectedKeysContributeNothing | src/index.ts:84 | A key that is not selected contributes nothing, wherever it stands |
| Runners.RunnersOfOneKey | src/index.ts:85-89 | A selected key gets max(1, k) runners for k sets, in set order. All carry the key. With no examples the one runner is named by the key; otherwise the runners are named "key with example " + the set joined with "," |
| Prototype.TestPrototype.RunnersOfKey | src/index.ts:84-103 | One iteration of the key loop pushes exactly the runners Runners.KeyRunners gives for that key |
| Prototype.TestPrototype.MakeRunners | src/index.ts:81-107 | The nested loops return exactly Runners.Build of the current metadata and the enumerated keys |
| Runners.Execute | src/index.ts:94-100 | The definition of awaiting steps one after another until one throws; its properties are stated by Runners.ExecuteStopsAtFirstFailure and Runners.ExecuteAppend |
| Runners.Plan | src/index.ts:94-100 | The definition of what one runner awaits after resolving its arguments; its properties are stated by Runners.HooksAroundTheTest, Runners.FailingTestSkipsAfterEach and Runners.FailingHookSkipsTheRest |
| Runners.ExecuteRecordsAPrefix | src/index.ts:94-100 | A sequential execution records a prefix of its plan |
| Runners.ExecutePassesWhenNothingFails | src/index.ts:94-100 | An execution passes exactly when no step of the plan fails, and then it records the whole plan |
| Runners.ExecuteEndsWithTheFailure | src/index.ts:94-100 | A failed execution ends with a failing step, and all steps before it passed |
| Runners.ExecuteStopsAtFirstFailure | src/index.ts:94-100 | The three facts above together |
| Runners.ExecutePassedPrefix | src/index.ts:94-100 | Steps that all pass can be taken off the front of a plan |
| Runners.ExecuteAppend | src/index.ts:94-100 | Executing a + b runs b only if a passed |
| Runners.ExecuteFailsAt | src/index.ts:94-100 | The first failing step of a plan ends the execution right after it |
| Prototype.AwaitHooks | src/index.ts:94-96 | The hook loop awaits the hooks in insertion order and stops at the first that throws. Steps and verdict equal Execute of the hook events |
| Prototype.TestPrototype.AwaitSteps | src/index.ts:94-100 | beforeEach hooks, the test call and afterEach hooks, in that order, with the same steps and verdict as Execute of the runner's plan |
| Runners.Run | src/index.ts:90-101 | One run keeps the set of methods with examples. It changes only the run method's cursor and never its example sets |
| Prototype.TestPrototype.Run | src/index.ts:90-101 | Awaiting one runner on the prototype gives the trace, verdict and new metadata of Runners.Run |
| Runners.ConsultsOnly | src/index.ts:92 | Resolution records only resolver calls |
| Runners.ResolutionComesFirst | src/index.ts:91-96 | A run's trace starts with the resolver calls and nothing else. A failed resolution runs no hook and not the test method, and the run fails with that fault |
| Runners.HooksAroundTheTest | src/index.ts:94-100 | When nothing fails, the trace is the resolver calls, the beforeEach hooks in insertion order, the test method with the resolved arguments, then the afterEach hooks in insertion order |
| Runners.ExecuteStopsAtFailure | src/index.ts:97 | A failing step after passing steps ends the execution there |
| Runners.FailingTestSkipsAfterEach | src/index.ts:97-100 | When the test method throws, the run fails and its trace ends with the test call; no afterEach hook appears in it |
| Runners.NoAfterEachBeforeTheTest | src/index.ts:91-97 | Resolver calls, beforeEach hooks and the test call contain no afterEach hook |
| Runners.FailingHookSkipsTheRest | src/index.ts:94-96 | A throwing beforeEach hook is the last step: the test method and the later hooks do not run |
| Runners.RunTimes | src/index.ts:90-101 | Awaiting a method's runner k times changes only the example states, keeps which methods have one, and never changes that method's sets |
| Runners.RunAll | src/index.ts:130-132 | Awaiting a list of runners one after another, as runPlain awaits the list of makeRunners: at most the whole list is awaited, and all of it unless a runner rejected, which ends the loop because the `await` has no catch. Its other properties are stated by Runners.RunAllStopsAtRejection, Runners.RunAllReaches, Runners.RunAllFrame, Runners.RunAllKeepsOtherCursors, Runners.RunAllOfOneKey, Runners.RunAllMovesCursor, Runners.RunAllAsRunTimes and Runners.RunInListIsRunTimes |
| Runners.RunAllKeepsOtherCursors | src/index.ts:130-132 | Runners of other methods leave a method's cursor (or its absence) as it was, and never change providers, argument lists, the ignore set or the hooks |
| Runners.RunAllOfOneKey | src/index.ts:130-132 | Awaiting runners that all belong to one method is awaiting that method's runner once for each runner the loop reached, so Runners.RunnersReceiveTheirSets applies to them |
| Runners.RunAllFrame | src/index.ts:130-132 | Awaiting any list of runners changes only the example states and keeps which methods have one |
| Runners.OtherRunKeepsCursor | src/index.ts:90-101 | A run of one method leaves every other method's cursor, or its absence, as it was |
| Runners.RunSeesOnlyItsCursor | src/index.ts:90-101 | A run depends only on its method's cursor and on metadata no run changes: from two such states it resolves the same arguments, records the same trace, reaches the same verdict and leaves the same cursor |
| Runners.RunAllLast | src/index.ts:130-132 | The last runner of a list is awaited after all the others unless one of them rejected, in which case the list ends where its first part ended; it counts for its own method |
| Runners.OwnRunAdvances | src/index.ts:90-101 | A run of a method, from a state that differs only in example states and whose cursor is that of n resolutions, leaves the cursor of n + 1 resolutions |
| Runners.RunAllMovesCursor | src/index.ts:130-132 | However runners interleave in the list, a method's cursor after the loop is its starting cursor moved by one argument resolution for each of its runners the loop awaited |
| Runners.RunAllAsRunTimes | src/index.ts:130-132 | However the runners of several methods interleave in the list, a method's cursor ends where its own runs alone leave it, one run for each of its runners the loop awaited |
| Runners.RunAllStopsAtRejection | src/index.ts:130-132 | When a runner rejects, the loop has awaited the list up to and including it, every runner before it let the loop go on, that runner's run failed, and the runners after it change nothing |
| Runners.RunAllReaches | src/index.ts:130-132 | Runner i is awaited if and only if no runner before it rejected |
| Runners.MovedAfterRejection | src/index.ts:130-132 | Once a runner has rejected, a further runner in the list awaits nothing and moves no cursor |
| Runners.MovedByOneMore | src/index.ts:130-132 | When no earlier runner rejected, the last runner moves its own method's cursor by one argument resolution and no other cursor |
| Runners.RunAdvancesItsOwn | src/index.ts:90-101 | One more run moves a method's cursor by one argument resolution if it is a run of that method, and leaves it otherwise |
| Runners.RunInListIsRunTimes | src/index.ts:130-132 | Runner i of the list, when the loop reaches it (Runners.RunAllReaches: no runner before it rejected), resolves the same arguments and gives the same trace and verdict as the next solo run of its method, so Runners.RunnersReceiveTheirSets applies to every runner of the list |
| Runners.RunTimesMovesCursor | src/index.ts:45-56 | After k runs, the method's cursor is the cursor after k invocations of the argument resolution |
| Runners.RunnersReceiveTheirSets | src/index.ts:85-101 | Awaited in emission order from the decorators' state, run k gets set k at the example-injected positions for k below the number of sets; every later run fails with NoSuchExampleSet before any hook |
| Scenario.GreeterMetadata | src/index.ts:27-71 | Applying inject, inject, example("NYC"), example("LA") and provide("greeting") yields two providers, the list [greeting, Example] and the sets [[NYC],[LA]] |
| Scenario.GreeterRunners | src/index.ts:85-89 | The method gets exactly the runners "greet with example NYC" and "greet with example LA" |
| Scenario.GreeterRun | src/index.ts:91-93 | Run 0 resolves ("hi", "NYC") and run 1 resolves ("hi", "LA") |
| Scenario.GreeterArguments | src/index.ts:45-56 | Runs 0 and 1 get ("hi","NYC") and ("hi","LA"); run 2 fails with NoSuchExampleSet |

## Left out

- src/jest.ts is not part of this model. It forwards each runner to the Jest global `test`, a foreign call with no logic.
- `runPlain` (src/index.ts:128-134): the promise scheduling and the class instantiation are not modelled; its loop awaits the runners one after another and, since line 131 awaits without a catch, ends at the first runner that rejects; Runners.RunAll models the loop with that stop.
- `Reflect.getMetadata("design:paramtypes")` (src/index.ts:37-38) is a call into a library. The declared parameter type is a parameter of `Inject`, so the TypeError on missing metadata is not modelled.
- `for…in` enumeration and the `typeof … == "function"` test are not modelled; `MakeRunners` takes the enumerated keys as a sequence of (key, is-function) pairs.
- `await` and real method calls are not modelled. Hooks and the test method are trace events, and a caller-supplied predicate says which of them throw.
- Providers, hooks and test methods are modelled as not reading or changing the instance. The `context` object passed to them is not modelled beyond the method name and the index.
- Provider keys are the `Example` class, string literals and other classes. Any other JavaScript value used as a key is not modelled, nor is any other falsy key than `""` (`0`, `null`, `false`).
- Prototype inheritance is not modelled: the metadata lives on one prototype object, and base classes are left out.
- Example values are modelled by the text they render to, so the runner-name expression joins those texts with `,`. Only `undefined`, which renders as the empty string, is distinguished.
- The commented-out sample class (src/index.ts:136-159) is not code.
- Prototype.TestPrototype.Run: its contract covers one runner. The loop over the whole list of runners, with its stop at the first rejection, exists only in the value model, Runners.RunAll, because runPlain itself is not modelled; Runners.RunInListIsRunTimes states what each runner of the list does.
- Decorators.Inject: every application is modelled as a fresh `inject(provider)` call. In the source, `provider = argTypes[index]` (src/index.ts:38) assigns the factory's own parameter, which the stored closure captures, so one `inject()` value applied to two parameters would give the second the first one's reflected type; reusing one decorator value is not modelled.
