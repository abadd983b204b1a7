/** `makeRunners` (src/index.ts:81-107): which enumerated keys of a test
    instance become runners, in which order and under which names, and what
    one runner does when it is awaited. */
module Runners {
  import opened Basics
  import opened ExampleCursor
  import opened ParameterResolver
  import opened Decorators

  /** `{name, runner}`. The runner body uses only the method key and the shared
      instance: it does not capture the example set it is named after. */
  datatype Runner = Runner(name: string, key: string)

  predicate StartsWithUnderscore(key: string) {
    |key| > 0 && key[0] == '_'
  }

  /** The guard of the enumeration loop: the value under the key is a
      function, the key is not private by convention, and it is not ignored. */
  predicate Selected(reg: Registry, key: string, isFunction: bool) {
    isFunction && !StartsWithUnderscore(key) && key !in reg.ignored
  }

  /** `${key} with example ${example}`: the template literal joins the set with ",". */
  function ExampleRunnerName(key: string, exampleSet: seq<Value>): string {
    key + " with example " + Join(exampleSet)
  }

  function ExampleRunners(key: string, sets: seq<seq<Value>>): seq<Runner> {
    seq(|sets|, i requires 0 <= i < |sets| => Runner(ExampleRunnerName(key, sets[i]), key))
  }

  /** The runners one enumerated key contributes: one per example set if the
      method has example state, else one runner named by the key. */
  function KeyRunners(reg: Registry, key: string, isFunction: bool): seq<Runner> {
    if !Selected(reg, key, isFunction) then []
    else if key in reg.examples then ExampleRunners(key, reg.examples[key].examples)
    else [Runner(key, key)]
  }

  /** The runner list for the keys `for (const key in test)` enumerates, each
      paired with whether its value is a function. */
  function Build(reg: Registry, keys: seq<(string, bool)>): seq<Runner> {
    Emit((k: (string, bool)) => KeyRunners(reg, k.0, k.1), keys)
  }

  /** The lists `perKey` gives for the keys, concatenated in key order. */
  function Emit(perKey: ((string, bool)) -> seq<Runner>, keys: seq<(string, bool)>): seq<Runner>
    decreases |keys|
  {
    if keys == [] then [] else Emit(perKey, keys[..|keys| - 1]) + perKey(keys[|keys| - 1])
  }

  /** Runners follow key order: the list for two runs of keys is the list of
      the first followed by the list of the second. */
  lemma RunnersFollowKeyOrder(reg: Registry, a: seq<(string, bool)>, b: seq<(string, bool)>)
    ensures Build(reg, a + b) == Build(reg, a) + Build(reg, b)
  {
    EmitAppend((k: (string, bool)) => KeyRunners(reg, k.0, k.1), a, b);
  }

  lemma {:induction false} EmitAppend(perKey: ((string, bool)) -> seq<Runner>, a: seq<(string, bool)>, b: seq<(string, bool)>)
    ensures Emit(perKey, a + b) == Emit(perKey, a) + Emit(perKey, b)
    decreases |b|
  {
    if b == [] {
      assert a + b == a;
    } else {
      var init, last := b[..|b| - 1], b[|b| - 1];
      var ab := a + b;
      assert ab[..|ab| - 1] == a + init;
      EmitAppend(perKey, a, init);
      var front, middle, tail := Emit(perKey, a), Emit(perKey, init), perKey(last);
      assert (front + middle) + tail == front + (middle + tail);
    }
  }

  /** Every runner comes from a selected key of the enumeration and carries
      that key. */
  lemma {:induction false} RunnersComeFromSelectedKeys(reg: Registry, keys: seq<(string, bool)>)
    ensures forall r :: r in Build(reg, keys) ==>
              exists j :: 0 <= j < |keys| && keys[j].0 == r.key && Selected(reg, keys[j].0, keys[j].1)
    decreases |keys|
  {
    if keys != [] {
      var init := keys[..|keys| - 1];
      var last := keys[|keys| - 1];
      RunnersComeFromSelectedKeys(reg, init);
      forall r | r in Build(reg, keys)
        ensures exists j :: 0 <= j < |keys| && keys[j].0 == r.key && Selected(reg, keys[j].0, keys[j].1)
      {
        if r in Build(reg, init) {
          var j :| 0 <= j < |init| && init[j].0 == r.key && Selected(reg, init[j].0, init[j].1);
          assert keys[j] == init[j];
        } else {
          assert r in KeyRunners(reg, last.0, last.1);
          assert keys[|keys| - 1] == last;
        }
      }
    }
  }

  /** A method in the ignore set never yields a runner, whatever else it
      carries, examples included. */
  lemma IgnoredMethodsNeverRun(reg: Registry, keys: seq<(string, bool)>, name: string)
    requires name in reg.ignored
    ensures forall r :: r in Build(reg, keys) ==> r.key != name
  {
    RunnersComeFromSelectedKeys(reg, keys);
  }

  /** A key that is not selected (not a function, private, or ignored)
      contributes nothing wherever it stands in the enumeration. */
  lemma UnselectedKeysContributeNothing(reg: Registry, a: seq<(string, bool)>, key: string, isFunction: bool,
                                        b: seq<(string, bool)>)
    requires !Selected(reg, key, isFunction)
    ensures Build(reg, a + [(key, isFunction)] + b) == Build(reg, a + b)
  {
    RunnersFollowKeyOrder(reg, a + [(key, isFunction)], b);
    RunnersFollowKeyOrder(reg, a, [(key, isFunction)]);
    RunnersFollowKeyOrder(reg, a, b);
  }

  function Max(a: int, b: int): int {
    if a < b then b else a
  }

  /** A selected key gets one runner per example set in registration order,
      named after the key and the joined set, or a single runner named by the
      key when it has no examples: max(1, k) runners for k sets. */
  lemma RunnersOfOneKey(reg: Registry, key: string)
    requires WellFormed(reg) && Selected(reg, key, true)
    ensures var rs := Build(reg, [(key, true)]);
            && |rs| == Max(1, |SetsOf(reg, key)|)
            && (forall i :: 0 <= i < |rs| ==> rs[i].key == key)
            && (key !in reg.examples ==> rs == [Runner(key, key)])
            && (forall i :: 0 <= i < |SetsOf(reg, key)| ==>
                  rs[i].name == key + " with example " + Join(SetsOf(reg, key)[i]))
  {
    var one := [(key, true)];
    assert one[..0] == [] && one[0] == (key, true);
    assert Build(reg, one) == Build(reg, []) + KeyRunners(reg, key, true);
  }

  // ---------------------------------------------------------------------------
  // One runner.

  datatype Execution = Execution(trace: seq<Event>, passed: bool)

  /** Awaiting the steps of `plan` one after the other: every step is recorded
      when it starts, and the first one that fails ends the run. */
  function Execute(plan: seq<Event>, fails: Event -> bool): Execution
  {
    if plan == [] then Execution([], true)
    else if fails(plan[0]) then Execution([plan[0]], false)
    else
      var rest := Execute(plan[1..], fails);
      Execution([plan[0]] + rest.trace, rest.passed)
  }

  lemma {:induction false} ExecuteRecordsAPrefix(plan: seq<Event>, fails: Event -> bool)
    ensures Execute(plan, fails).trace <= plan
    decreases |plan|
  {
    if plan != [] && !fails(plan[0]) {
      ExecuteRecordsAPrefix(plan[1..], fails);
      assert plan == [plan[0]] + plan[1..];
    }
  }

  lemma {:induction false} ExecutePassesWhenNothingFails(plan: seq<Event>, fails: Event -> bool)
    ensures Execute(plan, fails).passed <==> forall i :: 0 <= i < |plan| ==> !fails(plan[i])
    ensures Execute(plan, fails).passed ==> Execute(plan, fails).trace == plan
    decreases |plan|
  {
    if plan != [] && !fails(plan[0]) {
      ExecutePassesWhenNothingFails(plan[1..], fails);
      assert forall i :: 1 <= i < |plan| ==> plan[i] == plan[1..][i - 1];
      assert plan == [plan[0]] + plan[1..];
    }
  }

  lemma {:induction false} ExecuteEndsWithTheFailure(plan: seq<Event>, fails: Event -> bool)
    ensures var r := Execute(plan, fails);
            !r.passed ==> |r.trace| > 0 && fails(r.trace[|r.trace| - 1])
                          && forall i :: 0 <= i < |r.trace| - 1 ==> !fails(r.trace[i])
    decreases |plan|
  {
    if plan != [] && !fails(plan[0]) {
      var r := Execute(plan[1..], fails);
      ExecuteEndsWithTheFailure(plan[1..], fails);
      var t := [plan[0]] + r.trace;
      assert Execute(plan, fails).trace == t;
      assert forall i :: 1 <= i < |t| ==> t[i] == r.trace[i - 1];
    }
  }

  /** An execution records a prefix of its plan; it passes exactly when no
      step fails, and then it records the whole plan; otherwise it ends with
      the first failing step. */
  lemma ExecuteStopsAtFirstFailure(plan: seq<Event>, fails: Event -> bool)
    ensures var r := Execute(plan, fails);
            && r.trace <= plan
            && (r.passed <==> forall i :: 0 <= i < |plan| ==> !fails(plan[i]))
            && (r.passed ==> r.trace == plan)
            && (!r.passed ==> |r.trace| > 0 && fails(r.trace[|r.trace| - 1])
                              && forall i :: 0 <= i < |r.trace| - 1 ==> !fails(r.trace[i]))
  {
    ExecuteRecordsAPrefix(plan, fails);
    ExecutePassesWhenNothingFails(plan, fails);
    ExecuteEndsWithTheFailure(plan, fails);
  }

  function HookEvents(phase: Phase, hooks: seq<string>): seq<Event> {
    seq(|hooks|, i requires 0 <= i < |hooks| => HookCall(phase, hooks[i]))
  }

  /** What one runner awaits once its arguments are resolved: every
      beforeEach hook in insertion order, the test method, every afterEach
      hook in insertion order. */
  function Plan(reg: Registry, key: string, args: seq<Value>): seq<Event> {
    HookEvents(Before, reg.beforeEach) + [TestCall(key, args)] + HookEvents(After, reg.afterEach)
  }

  datatype Verdict = Passed | Failed(fault: Fault)

  datatype Outcome = Outcome(registry: Registry, trace: seq<Event>, verdict: Verdict)

  function CursorFor(reg: Registry, key: string): Option<Cursor> {
    if key in reg.examples then Some(reg.examples[key]) else None
  }

  /** The argument resolution a runner for `key` performs; an absent
      argument list resolves to no arguments. */
  function Resolved(reg: Registry, key: string): Resolution {
    Resolve(SlotsOf(reg, key), reg.providers, key, CursorFor(reg, key))
  }

  /** Awaiting the runner of `key` once. `fails` says which hook or test
      method call throws or rejects. Only the method's cursor changes. */
  function Run(reg: Registry, key: string, fails: Event -> bool): (o: Outcome)
    ensures o.registry.examples.Keys == reg.examples.Keys
    ensures forall m :: m in reg.examples && m != key ==> o.registry.examples[m] == reg.examples[m]
    ensures key in reg.examples ==> o.registry.examples[key].examples == reg.examples[key].examples
    ensures o.registry == reg.(examples := o.registry.examples)
  {
    var res := Resolved(reg, key);
    var after := if res.cursor.Some? then reg.(examples := reg.examples[key := res.cursor.value]) else reg;
    if res.args.Err? then Outcome(after, res.trace, Failed(res.args.fault))
    else
      var ex := Execute(Plan(reg, key, res.args.value), fails);
      Outcome(after, res.trace + ex.trace, if ex.passed then Passed else Failed(Thrown))
  }

  /** Steps that all pass can be taken off the front of a plan. */
  lemma {:induction false} ExecutePassedPrefix(a: seq<Event>, b: seq<Event>, fails: Event -> bool)
    requires forall i :: 0 <= i < |a| ==> !fails(a[i])
    ensures Execute(a + b, fails) == Execution(a + Execute(b, fails).trace, Execute(b, fails).passed)
    decreases |a|
  {
    if a == [] {
      assert a + b == b;
    } else {
      var ab := a + b;
      assert ab[0] == a[0] && !fails(ab[0]);
      assert ab[1..] == a[1..] + b;
      ExecutePassedPrefix(a[1..], b, fails);
      var tail := Execute(b, fails);
      assert Execute(ab, fails) == Execution([a[0]] + Execute(ab[1..], fails).trace, Execute(ab[1..], fails).passed);
      assert [a[0]] + (a[1..] + tail.trace) == a + tail.trace;
    }
  }

  /** Executing one plan after another: the second runs only if the first
      passed. */
  lemma {:induction false} ExecuteAppend(a: seq<Event>, b: seq<Event>, fails: Event -> bool)
    ensures var first := Execute(a, fails);
            Execute(a + b, fails)
            == if first.passed then Execution(first.trace + Execute(b, fails).trace, Execute(b, fails).passed)
               else first
    decreases |a|
  {
    if a == [] {
      assert a + b == b;
    } else {
      var ab := a + b;
      assert ab[0] == a[0];
      assert ab[1..] == a[1..] + b;
      if !fails(a[0]) {
        ExecuteAppend(a[1..], b, fails);
        var rest := Execute(a[1..], fails);
        if rest.passed {
          assert [a[0]] + (rest.trace + Execute(b, fails).trace) == ([a[0]] + rest.trace) + Execute(b, fails).trace;
        }
      }
    }
  }

  lemma {:induction false} ConsultsOnly(slots: Slots, i: nat)
    requires i <= |slots|
    ensures forall e :: e in ConsultsFrom(slots, i) ==> e.Consult?
    decreases |slots| - i
  {
    if i < |slots| {
      ConsultsOnly(slots, i + 1);
    }
  }

  /** Arguments are resolved before any hook runs: the trace of a run starts
      with the resolver calls, and a failed resolution runs no hook and not
      the test method. */
  lemma ResolutionComesFirst(reg: Registry, key: string, fails: Event -> bool)
    ensures var res := Resolved(reg, key);
            var o := Run(reg, key, fails);
            && o.trace[..|res.trace|] == res.trace
            && (forall i :: 0 <= i < |res.trace| ==> res.trace[i].Consult?)
            && (res.args.Err? ==> o.trace == res.trace && o.verdict == Failed(res.args.fault))
  {
    var res := Resolved(reg, key);
    ResolutionInOrder(SlotsOf(reg, key), reg.providers, key, CursorFor(reg, key));
    ConsultsOnly(SlotsOf(reg, key), 0);
    assert forall i :: 0 <= i < |res.trace| ==> res.trace[i] in ConsultsFrom(SlotsOf(reg, key), 0);
  }

  /** When nothing fails, one run is: the resolver calls, the beforeEach
      hooks in insertion order, the test method with the resolved arguments,
      the afterEach hooks in insertion order. */
  lemma HooksAroundTheTest(reg: Registry, key: string, fails: Event -> bool)
    requires Resolved(reg, key).args.Ok?
    requires var plan := Plan(reg, key, Resolved(reg, key).args.value);
             forall i :: 0 <= i < |plan| ==> !fails(plan[i])
    ensures var res := Resolved(reg, key);
            var o := Run(reg, key, fails);
            && o.verdict == Passed
            && o.trace == res.trace + HookEvents(Before, reg.beforeEach)
                          + [TestCall(key, res.args.value)] + HookEvents(After, reg.afterEach)
  {
    ExecuteStopsAtFirstFailure(Plan(reg, key, Resolved(reg, key).args.value), fails);
  }

  /** A failing step after steps that all pass ends the run there. */
  lemma ExecuteStopsAtFailure(a: seq<Event>, e: Event, b: seq<Event>, fails: Event -> bool)
    requires forall i :: 0 <= i < |a| ==> !fails(a[i])
    requires fails(e)
    ensures Execute(a + [e] + b, fails) == Execution(a + [e], false)
  {
    assert a + [e] + b == a + ([e] + b);
    ExecutePassedPrefix(a, [e] + b, fails);
  }

  /** The first failing step of a plan ends its execution there. */
  lemma ExecuteFailsAt(plan: seq<Event>, m: nat, fails: Event -> bool)
    requires m < |plan| && fails(plan[m])
    requires forall i :: 0 <= i < m ==> !fails(plan[i])
    ensures Execute(plan, fails) == Execution(plan[..m + 1], false)
  {
    assert plan == plan[..m] + [plan[m]] + plan[m + 1..];
    ExecuteStopsAtFailure(plan[..m], plan[m], plan[m + 1..], fails);
    assert plan[..m] + [plan[m]] == plan[..m + 1];
  }

  /** A test method that throws stops the run: the trace ends with its call
      and no afterEach hook runs. */
  lemma FailingTestSkipsAfterEach(reg: Registry, key: string, fails: Event -> bool)
    requires Resolved(reg, key).args.Ok?
    requires forall i :: 0 <= i < |reg.beforeEach| ==> !fails(HookCall(Before, reg.beforeEach[i]))
    requires fails(TestCall(key, Resolved(reg, key).args.value))
    ensures var res := Resolved(reg, key);
            var o := Run(reg, key, fails);
            && o.verdict == Failed(Thrown)
            && o.trace == res.trace + HookEvents(Before, reg.beforeEach) + [TestCall(key, res.args.value)]
            && forall i :: 0 <= i < |o.trace| ==> !(o.trace[i].HookCall? && o.trace[i].phase == After)
  {
    var res := Resolved(reg, key);
    var before := HookEvents(Before, reg.beforeEach);
    var test := TestCall(key, res.args.value);
    var plan := Plan(reg, key, res.args.value);
    assert plan == before + [test] + HookEvents(After, reg.afterEach);
    ExecuteStopsAtFailure(before, test, HookEvents(After, reg.afterEach), fails);
    assert Execute(plan, fails) == Execution(before + [test], false);
    var o := Run(reg, key, fails);
    assert o.trace == res.trace + (before + [test]) && o.verdict == Failed(Thrown);
    assert res.trace + (before + [test]) == res.trace + before + [test];
    ResolutionComesFirst(reg, key, fails);
    NoAfterEachBeforeTheTest(res.trace, reg.beforeEach, test);
  }

  /** Resolver calls, then beforeEach hooks, then the test call: no afterEach hook among them. */
  lemma NoAfterEachBeforeTheTest(consults: seq<Event>, hooks: seq<string>, test: Event)
    requires forall i :: 0 <= i < |consults| ==> consults[i].Consult?
    requires test.TestCall?
    ensures var trace := consults + HookEvents(Before, hooks) + [test];
            forall i :: 0 <= i < |trace| ==> !(trace[i].HookCall? && trace[i].phase == After)
  {
    var before := HookEvents(Before, hooks);
    var trace := consults + before + [test];
    forall i | 0 <= i < |trace|
      ensures !(trace[i].HookCall? && trace[i].phase == After)
    {
      if i < |consults| {
        assert trace[i] == consults[i];
      } else if i < |consults| + |before| {
        assert trace[i] == before[i - |consults|];
      }
    }
  }

  /** A failing beforeEach hook stops the run before the test method. */
  lemma FailingHookSkipsTheRest(reg: Registry, key: string, fails: Event -> bool, k: nat)
    requires Resolved(reg, key).args.Ok?
    requires k < |reg.beforeEach|
    requires forall i :: 0 <= i < k ==> !fails(HookCall(Before, reg.beforeEach[i]))
    requires fails(HookCall(Before, reg.beforeEach[k]))
    ensures var res := Resolved(reg, key);
            var o := Run(reg, key, fails);
            && o.verdict == Failed(Thrown)
            && o.trace == res.trace + HookEvents(Before, reg.beforeEach[..k + 1])
  {
    var res := Resolved(reg, key);
    var plan := Plan(reg, key, res.args.value);
    var done := HookEvents(Before, reg.beforeEach[..k]);
    assert plan == done + plan[k..];
    ExecutePassedPrefix(done, plan[k..], fails);
    assert HookEvents(Before, reg.beforeEach[..k + 1]) == done + [plan[k]];
  }

  // ---------------------------------------------------------------------------
  // Runners of one method, awaited in emission order.

  /** The metadata after the runner of `key` has been awaited k times. */
  function RunTimes(reg: Registry, key: string, fails: Event -> bool, k: nat): (r: Registry)
    ensures r == reg.(examples := r.examples) && r.examples.Keys == reg.examples.Keys
    ensures key in reg.examples ==> r.examples[key].examples == reg.examples[key].examples
  {
    if k == 0 then reg else Run(RunTimes(reg, key, fails, k - 1), key, fails).registry
  }

  /** Where the loop of `runPlain` over the runner list stands: the metadata,
      how many runners have been awaited, and whether the last of them
      rejected. The loop awaits each runner without catching, so a rejection
      ends it. */
  datatype Progress = Progress(registry: Registry, awaited: nat, rejected: bool)

  /** `for (const test of runners) await test.runner()`: the runners awaited
      one after the other, until the first one that rejects; no runner after
      it runs. */
  function RunAll(reg: Registry, runners: seq<Runner>, fails: Event -> bool): (p: Progress)
    ensures p.awaited <= |runners| && (!p.rejected ==> p.awaited == |runners|)
    decreases |runners|
  {
    if runners == [] then Progress(reg, 0, false)
    else
      var p := RunAll(reg, runners[..|runners| - 1], fails);
      if p.rejected then p
      else
        var o := Run(p.registry, runners[|runners| - 1].key, fails);
        Progress(o.registry, p.awaited + 1, o.verdict.Failed?)
  }

  /** When a runner rejects, the loop has awaited the list up to and
      including it, every earlier runner let the loop go on, and the runners
      after it change nothing. */
  lemma {:induction false} RunAllStopsAtRejection(reg: Registry, runners: seq<Runner>, fails: Event -> bool)
    ensures var r := RunAll(reg, runners, fails);
            r.rejected ==>
              && 0 < r.awaited
              && RunAll(reg, runners[..r.awaited], fails) == r
              && var p := RunAll(reg, runners[..r.awaited - 1], fails);
                 !p.rejected && Run(p.registry, runners[r.awaited - 1].key, fails).verdict.Failed?
    decreases |runners|
  {
    if runners != [] {
      var init := runners[..|runners| - 1];
      var p := RunAll(reg, init, fails);
      if p.rejected {
        RunAllStopsAtRejection(reg, init, fails);
        PrefixOfInit(runners, p.awaited);
      } else {
        assert runners[..|runners|] == runners;
        assert runners[..|runners| - 1] == init;
      }
    }
  }

  /** A prefix of the list without its last runner is a prefix of the list. */
  lemma PrefixOfInit(runners: seq<Runner>, n: nat)
    requires 0 < n < |runners|
    ensures runners[..|runners| - 1][..n] == runners[..n]
    ensures runners[..|runners| - 1][..n - 1] == runners[..n - 1]
  {
  }

  /** Runner i is awaited exactly when no runner before it rejected. */
  lemma {:induction false} RunAllReaches(reg: Registry, runners: seq<Runner>, fails: Event -> bool, i: nat)
    requires i < |runners|
    ensures i < RunAll(reg, runners, fails).awaited <==> !RunAll(reg, runners[..i], fails).rejected
    decreases |runners|
  {
    var init := runners[..|runners| - 1];
    if i < |init| {
      RunAllReaches(reg, init, fails, i);
      assert init[..i] == runners[..i];
    }
  }

  /** Runners of other methods move only their own cursors: a method none of
      the runners belongs to keeps its cursor (or its lack of one), and the
      providers, argument lists, ignore set and hooks never change. */
  lemma {:induction false} RunAllKeepsOtherCursors(reg: Registry, runners: seq<Runner>, fails: Event -> bool, key: string)
    requires forall i :: 0 <= i < |runners| ==> runners[i].key != key
    ensures var r := RunAll(reg, runners, fails).registry;
            && r == reg.(examples := r.examples) && r.examples.Keys == reg.examples.Keys
            && CursorFor(r, key) == CursorFor(reg, key)
    decreases |runners|
  {
    if runners != [] {
      RunAllKeepsOtherCursors(reg, runners[..|runners| - 1], fails, key);
    }
  }

  /** How many of the runners belong to `key`. */
  function CountOf(runners: seq<Runner>, key: string): nat
    decreases |runners|
  {
    if runners == [] then 0
    else CountOf(runners[..|runners| - 1], key) + (if runners[|runners| - 1].key == key then 1 else 0)
  }

  /** A run of `key` sees only that method's cursor and the metadata no run
      changes: from two such states it resolves the same arguments, records
      the same trace, reaches the same verdict and leaves the same cursor. */
  lemma RunSeesOnlyItsCursor(a: Registry, b: Registry, key: string, fails: Event -> bool)
    requires a == b.(examples := a.examples) && CursorFor(a, key) == CursorFor(b, key)
    ensures Resolved(a, key) == Resolved(b, key)
    ensures Run(a, key, fails).trace == Run(b, key, fails).trace
    ensures Run(a, key, fails).verdict == Run(b, key, fails).verdict
    ensures CursorFor(Run(a, key, fails).registry, key) == CursorFor(Run(b, key, fails).registry, key)
  {
    assert SlotsOf(a, key) == SlotsOf(b, key);
  }

  /** Awaiting any list of runners changes only the example states, and
      keeps which methods have one. */
  lemma {:induction false} RunAllFrame(reg: Registry, runners: seq<Runner>, fails: Event -> bool)
    ensures var r := RunAll(reg, runners, fails).registry;
            r == reg.(examples := r.examples) && r.examples.Keys == reg.examples.Keys
    decreases |runners|
  {
    if runners != [] {
      RunAllFrame(reg, runners[..|runners| - 1], fails);
    }
  }

  /** A run of another method leaves the cursor of `key` (or its absence) as it was. */
  lemma OtherRunKeepsCursor(reg: Registry, other: string, key: string, fails: Event -> bool)
    requires other != key
    ensures CursorFor(Run(reg, other, fails).registry, key) == CursorFor(reg, key)
  {
  }

  /** The cursor of `key` after the loop is its cursor in `reg` moved by one
      invocation of its argument resolution for each of its runners the
      loop awaited. */
  ghost predicate CursorMovedByAwaited(reg: Registry, runners: seq<Runner>, fails: Event -> bool, key: string)
    requires key in reg.examples
  {
    var r := RunAll(reg, runners, fails);
    key in r.registry.examples
    && r.registry.examples[key]
       == AfterInvocations(SlotsOf(reg, key), reg.providers, key, reg.examples[key], CountOf(runners[..r.awaited], key))
  }

  /** However the runners of several methods are interleaved in the list,
      the cursor of a method with examples is the cursor after as many
      invocations of its argument resolution as the awaited runners include
      runners of it. */
  lemma {:induction false} RunAllMovesCursor(reg: Registry, runners: seq<Runner>, fails: Event -> bool, key: string)
    requires key in reg.examples
    ensures var r := RunAll(reg, runners, fails);
            key in r.registry.examples
            && r.registry.examples[key]
               == AfterInvocations(SlotsOf(reg, key), reg.providers, key, reg.examples[key],
                                   CountOf(runners[..r.awaited], key))
    decreases |runners|
  {
    if runners != [] {
      var init := runners[..|runners| - 1];
      RunAllMovesCursor(reg, init, fails, key);
      if RunAll(reg, init, fails).rejected {
        MovedAfterRejection(reg, runners, fails, key);
      } else {
        MovedByOneMore(reg, runners, fails, key);
      }
    }
    assert CursorMovedByAwaited(reg, runners, fails, key);
  }

  /** Induction step of RunAllMovesCursor when an earlier runner rejected. */
  lemma MovedAfterRejection(reg: Registry, runners: seq<Runner>, fails: Event -> bool, key: string)
    requires key in reg.examples && runners != []
    requires RunAll(reg, runners[..|runners| - 1], fails).rejected
    requires CursorMovedByAwaited(reg, runners[..|runners| - 1], fails, key)
    ensures CursorMovedByAwaited(reg, runners, fails, key)
  {
    var init := runners[..|runners| - 1];
    var p := RunAll(reg, init, fails);
    assert RunAll(reg, runners, fails) == p;
    assert runners[..p.awaited] == init[..p.awaited];
  }

  /** Induction step of RunAllMovesCursor when the last runner is awaited. */
  lemma MovedByOneMore(reg: Registry, runners: seq<Runner>, fails: Event -> bool, key: string)
    requires key in reg.examples && runners != []
    requires !RunAll(reg, runners[..|runners| - 1], fails).rejected
    requires CursorMovedByAwaited(reg, runners[..|runners| - 1], fails, key)
    ensures CursorMovedByAwaited(reg, runners, fails, key)
  {
    var init, last := runners[..|runners| - 1], runners[|runners| - 1];
    var p := RunAll(reg, init, fails);
    var r := RunAll(reg, runners, fails);
    RunAllFrame(reg, init, fails);
    RunAllLast(reg, runners, fails, key);
    assert init[..p.awaited] == init;
    assert runners[..r.awaited] == runners;
    var n := CountOf(init, key);
    assert p.registry.examples[key] == AfterInvocations(SlotsOf(reg, key), reg.providers, key, reg.examples[key], n);
    RunAdvancesItsOwn(reg, p.registry, last.key, key, fails, n);
    assert r.registry == Run(p.registry, last.key, fails).registry;
    assert CountOf(runners[..r.awaited], key) == n + if last.key == key then 1 else 0;
  }

  /** One more run moves the cursor of `key` by one invocation if it is a
      run of `key`, and leaves it where it was otherwise. */
  lemma RunAdvancesItsOwn(reg: Registry, prev: Registry, other: string, key: string, fails: Event -> bool, n: nat)
    requires prev == reg.(examples := prev.examples) && key in prev.examples && key in reg.examples
    requires prev.examples[key] == AfterInvocations(SlotsOf(reg, key), reg.providers, key, reg.examples[key], n)
    ensures var r := Run(prev, other, fails).registry;
            key in r.examples
            && r.examples[key] == AfterInvocations(SlotsOf(reg, key), reg.providers, key, reg.examples[key],
                                                   n + if other == key then 1 else 0)
  {
    if other == key {
      OwnRunAdvances(reg, prev, key, fails, n);
    } else {
      OtherRunKeepsCursor(prev, other, key, fails);
    }
  }

  /** A run of `key` advances its cursor by one invocation of the argument
      resolution, from any state that differs from `reg` only in its
      example states. */
  lemma OwnRunAdvances(reg: Registry, prev: Registry, key: string, fails: Event -> bool, n: nat)
    requires prev == reg.(examples := prev.examples) && key in prev.examples && key in reg.examples
    requires prev.examples[key] == AfterInvocations(SlotsOf(reg, key), reg.providers, key, reg.examples[key], n)
    ensures var r := Run(prev, key, fails).registry;
            key in r.examples
            && r.examples[key] == AfterInvocations(SlotsOf(reg, key), reg.providers, key, reg.examples[key], n + 1)
  {
    assert SlotsOf(prev, key) == SlotsOf(reg, key);
    assert Resolved(prev, key) == Resolve(SlotsOf(reg, key), reg.providers, key, Some(prev.examples[key]));
  }

  /** So a method's cursor ends where that method's own runs alone leave it,
      one run for each of its runners the loop awaited. */
  lemma RunAllAsRunTimes(reg: Registry, runners: seq<Runner>, fails: Event -> bool, key: string)
    ensures var r := RunAll(reg, runners, fails);
            CursorFor(r.registry, key) == CursorFor(RunTimes(reg, key, fails, CountOf(runners[..r.awaited], key)), key)
  {
    RunAllFrame(reg, runners, fails);
    if key in reg.examples {
      RunAllMovesCursor(reg, runners, fails, key);
      RunTimesMovesCursor(reg, key, fails, CountOf(runners[..RunAll(reg, runners, fails).awaited], key));
    }
  }

  /** The last runner of a list is awaited after all the others, unless one
      of them rejected. */
  lemma RunAllLast(reg: Registry, runners: seq<Runner>, fails: Event -> bool, key: string)
    requires runners != []
    ensures var init, last := runners[..|runners| - 1], runners[|runners| - 1];
            var p := RunAll(reg, init, fails);
            && (p.rejected ==> RunAll(reg, runners, fails) == p)
            && (!p.rejected ==> RunAll(reg, runners, fails).registry == Run(p.registry, last.key, fails).registry
                                && RunAll(reg, runners, fails).awaited == p.awaited + 1)
            && CountOf(runners, key) == CountOf(init, key) + (if last.key == key then 1 else 0)
  {
  }

  /** Runner i of the list, when the loop reaches it, behaves exactly like
      the next run of its method alone: same arguments, trace and verdict.
      With Runners.RunnersReceiveTheirSets, the j-th runner of a method in
      the list receives example set j. */
  lemma RunInListIsRunTimes(reg: Registry, runners: seq<Runner>, fails: Event -> bool, i: nat)
    requires i < |runners| && i < RunAll(reg, runners, fails).awaited
    ensures var key := runners[i].key;
            var before := RunAll(reg, runners[..i], fails).registry;
            var alone := RunTimes(reg, key, fails, CountOf(runners[..i], key));
            && Resolved(before, key) == Resolved(alone, key)
            && Run(before, key, fails).trace == Run(alone, key, fails).trace
            && Run(before, key, fails).verdict == Run(alone, key, fails).verdict
  {
    var key := runners[i].key;
    var prefix := runners[..i];
    RunAllReaches(reg, runners, fails, i);
    RunAllStopsAtRejection(reg, prefix, fails);
    assert prefix[..RunAll(reg, prefix, fails).awaited] == prefix;
    RunAllFrame(reg, prefix, fails);
    RunAllAsRunTimes(reg, prefix, fails, key);
    RunSeesOnlyItsCursor(RunAll(reg, prefix, fails).registry, RunTimes(reg, key, fails, CountOf(prefix, key)), key, fails);
  }

  /** Awaiting runners of one method, as `makeRunners` emits them for a
      method with example sets, is awaiting that method's runner once for
      each runner the loop reached. */
  lemma {:induction false} RunAllOfOneKey(reg: Registry, runners: seq<Runner>, fails: Event -> bool, key: string)
    requires forall i :: 0 <= i < |runners| ==> runners[i].key == key
    ensures var r := RunAll(reg, runners, fails);
            r.registry == RunTimes(reg, key, fails, r.awaited)
    decreases |runners|
  {
    if runners != [] {
      RunAllOfOneKey(reg, runners[..|runners| - 1], fails, key);
    }
  }

  lemma {:induction false} RunTimesMovesCursor(reg: Registry, key: string, fails: Event -> bool, k: nat)
    requires key in reg.examples
    ensures RunTimes(reg, key, fails, k).examples[key]
            == AfterInvocations(SlotsOf(reg, key), reg.providers, key, reg.examples[key], k)
  {
    if k > 0 {
      RunTimesMovesCursor(reg, key, fails, k - 1);
    }
  }

  /** Awaiting the runners of a method with example sets S in emission order,
      from the state the decorators leave: run k receives set k at the
      positions injected from examples (the position of rank n gets value n),
      for every k below |S|; every later run fails with NoSuchExampleSet
      before any hook. Only true if each run ends before the next starts. The first
      requires holds for every method with examples once the decorators have
      run on the bare prototype (DecoratorsKeepAtStart). */
  lemma RunnersReceiveTheirSets(reg: Registry, key: string, fails: Event -> bool, k: nat)
    requires key in reg.examples && reg.examples[key] == Initial.(examples := SetsOf(reg, key))
    requires CustomNeverThrows(SlotsOf(reg, key), reg.providers, key)
    requires HasRoutedSlot(reg.providers, SlotsOf(reg, key))
    ensures var before := RunTimes(reg, key, fails, k);
            var res := Resolved(before, key);
            var sets := SetsOf(reg, key);
            var slots := SlotsOf(reg, key);
            && (k < |sets| ==>
                  && res.args.Ok? && |res.args.value| == |slots|
                  && forall j :: 0 <= j < |slots| && Routed(reg.providers, slots[j]) ==>
                       res.args.value[j] == At(sets[k], RoutedCount(reg.providers, slots[..j])))
            && (k >= |sets| ==>
                  && Run(before, key, fails).verdict == Failed(NoSuchExampleSet)
                  && Run(before, key, fails).trace == res.trace)
  {
    RunTimesMovesCursor(reg, key, fails, k);
    ExampleSetsExpandInOrder(SlotsOf(reg, key), reg.providers, key, SetsOf(reg, key), k);
  }
}
